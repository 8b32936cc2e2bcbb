/** The module trie built from generated files and the mod file printed from it (aptos_config/build_proto.rs). */
module Modfile {
  import opened Wrappers
  import opened Text

  /** A generated file: its directory, its stem and its extension. */
  datatype File = File(directory: string, stem: string, extension: string)

  type Path = seq<string>

  /** `parse_outfile`: the parts of the stem between dots. */
  function ParseOutfile(f: File): (p: Path)
    ensures p != []
  {
    Split(f.stem, '.')
  }

  datatype Panic = PathAlreadySet(current: File)

  /** What the tree holds: each node's file under the path of names from the root; the root is the empty path. */
  type Nodes = map<Path, Option<File>>

  const Root: Nodes := map[[] := None]

  predicate IsPrefix(p: Path, q: Path) {
    |p| <= |q| && p == q[..|p|]
  }

  /** What one file adds: a node for every prefix of its path, and the file at the path itself. */
  ghost predicate Adds(before: Nodes, after: Nodes, f: File) {
    var p := ParseOutfile(f);
    && (forall q :: q in after <==> q in before || (q != [] && IsPrefix(q, p)))
    && (forall q :: q in after ==>
          after[q] == if q == p then Some(f) else if q in before then before[q] else None)
  }

  /** Another file is already set at the file's path. */
  predicate Conflicts(nodes: Nodes, f: File) {
    var p := ParseOutfile(f);
    p in nodes && nodes[p].Some? && nodes[p] != Some(f)
  }

  class Node {
    const name: string
    var path: Option<File>
    var children: map<string, Node>
    const isRoot: bool

    constructor (name: string, path: Option<File>, isRoot: bool)
      ensures this.name == name && this.path == path && children == map[] && this.isRoot == isRoot
    {
      this.name := name;
      this.path := path;
      children := map[];
      this.isRoot := isRoot;
    }

    /** `fill_path`: sets the file of a node, or finds the same file there. */
    method FillPath(newPath: File) returns (r: Result<(), Panic>)
      modifies this`path
      ensures r == match old(path) case None => Success(()) case Some(g) => if g == newPath then Success(()) else Failure(PathAlreadySet(g))
      ensures path == if r.Success? then Some(newPath) else old(path)
    {
      match path
      case Some(current) =>
        if current != newPath {
          return Failure(PathAlreadySet(current));
        }
        return Success(());
      case None =>
        path := Some(newPath);
        return Success(());
    }

    /** `add`: the child of that name, created when missing; a file given is set on it. */
    method Add(name: string, f: Option<File>) returns (r: Result<Node, Panic>)
      requires name in children ==> children[name] != this
      modifies this`children, (if name in children then {children[name]} else {})`path
      ensures name in children && (r.Success? ==> r.value == children[name])
      ensures children == old(children)[name := children[name]]
      ensures name in old(children) ==>
        && children[name] == old(children)[name]
        && r.Failure? == (f.Some? && old(children[name].path).Some? && old(children[name].path) != f)
        && (r.Failure? ==> r == Failure(PathAlreadySet(old(children[name].path).value)))
        && children[name].path == if f.Some? && r.Success? then f else old(children[name].path)
      ensures name !in old(children) ==>
        && r.Success? && fresh(children[name]) && children[name].name == name && !children[name].isRoot
        && children[name].children == map[] && children[name].path == f
    {
      if name !in children {
        var created := new Node(name, f, false);
        children := children[name := created];
      }
      var child := children[name];
      if f.Some? {
        var filled := child.FillPath(f.value);
        if filled.Failure? {
          return Failure(filled.error);
        }
      }
      return Success(child);
    }
  }

  /** The nodes of a tree under their paths. */
  ghost predicate IsTree(index: map<Path, Node>) {
    && [] in index
    && (forall p, q :: p in index && q in index && index[p] == index[q] ==> p == q)
    && (forall p :: p in index ==> index[p].isRoot == (p == []) && (p != [] ==> index[p].name == p[|p| - 1]))
    && (forall p, n :: Child(p, n) in index ==> p in index)
  }

  /** The children are those of the node at p. */
  ghost predicate AreChildren(index: map<Path, Node>, p: Path, children: map<string, Node>) {
    forall n :: (n in children <==> Child(p, n) in index) && (n in children ==> children[n] == index[Child(p, n)])
  }

  function Child(p: Path, n: string): (q: Path)
    ensures q == p + [n] && q != []
  {
    p + [n]
  }

  lemma {:induction false} ChildInjective(p: Path, n: string, q: Path, m: string)
    requires Child(p, n) == Child(q, m)
    ensures p == q && n == m
  {
    assert p == Child(p, n)[..|p|] && q == Child(q, m)[..|q|];
    assert n == Child(p, n)[|p|] && m == Child(q, m)[|q|];
  }

  /** A new node under a new name makes a tree again. */
  lemma {:induction false} TreeGrows(index: map<Path, Node>, p: Path, name: string, child: Node)
    requires IsTree(index) && p in index && Child(p, name) !in index
    requires child !in index.Values && child.name == name && !child.isRoot
    ensures IsTree(index[Child(p, name) := child])
  {
    var q := Child(p, name);
    assert q[|q| - 1] == name;
    forall r, n | Child(r, n) in index[q := child] ensures r in index[q := child] {
      if Child(r, n) == q {
        ChildInjective(r, n, p, name);
      }
    }
  }

  /** Then the node at p has one child more, the new node none, and the others what they had. */
  lemma {:induction false} ChildrenGrow(index: map<Path, Node>, p: Path, name: string, child: Node, r: Path,
                                        children: map<string, Node>)
    requires IsTree(index) && p in index && Child(p, name) !in index
    requires if r == Child(p, name) then children == map[] else AreChildren(index, r, children)
    ensures AreChildren(index[Child(p, name) := child], r, if r == p then children[name := child] else children)
  {
    var q := Child(p, name);
    forall n ensures Child(r, n) == q <==> r == p && n == name {
      if Child(r, n) == q {
        ChildInjective(r, n, p, name);
      }
    }
    if r == q {
      forall n ensures Child(q, n) !in index[q := child] {
      }
    }
  }

  lemma {:induction false} ChildAt(index: map<Path, Node>, p: Path, n: string, children: map<string, Node>)
    requires AreChildren(index, p, children)
    ensures n in children <==> Child(p, n) in index
    ensures n in children ==> children[n] == index[Child(p, n)]
  {
  }

  lemma {:induction false} NodesDiffer(index: map<Path, Node>, p: Path, q: Path)
    requires IsTree(index) && p in index && q in index && p != q
    ensures index[p] != index[q]
  {
  }

  /** What `add` makes of the nodes: the child exists, and holds the file given. */
  function Added(nodes: Nodes, q: Path, f: Option<File>): Nodes {
    if f.None? && q in nodes then nodes else nodes[q := f]
  }

  /** Another file is already set at q. */
  predicate Taken(nodes: Nodes, q: Path, f: Option<File>) {
    f.Some? && q in nodes && nodes[q].Some? && nodes[q] != f
  }

  /** The tree below a root node. */
  class Trie {
    const root: Node
    ghost var index: map<Path, Node>    // every node of the tree under its path
    ghost var nodes: Nodes              // their files
    ghost var repr: set<Node>

    ghost predicate Valid()
      reads this, repr
    {
      && IsTree(index) && [] in index && index[[]] == root && nodes.Keys == index.Keys
      && forall p :: p in index ==>
        index[p] in repr && index[p].path == nodes[p] && AreChildren(index, p, index[p].children)
    }

    constructor ()
      ensures Valid() && nodes == Root && fresh(repr)
    {
      root := new Node("", None, true);
      new;
      index, nodes, repr := map[[] := root], Root, {root};
    }

    lemma {:induction false} RootIsNode()
      requires Valid()
      ensures [] in index && index[[]] == root
    {
    }

    lemma {:induction false} NodeIsIn(p: Path)
      requires Valid() && p in index
      ensures p in nodes && index[p].path == nodes[p] && index[p].isRoot == (p == []) && (p != [] ==> index[p].name == p[|p| - 1])
    {
    }

    lemma {:induction false} ChildIsIn(p: Path, n: string)
      requires Valid() && p in index && p + [n] in nodes
      ensures n in index[p].children && p + [n] in index && index[p].children[n] == index[p + [n]]
    {
      assert Child(p, n) in index && AreChildren(index, p, index[p].children);
    }

    /** Takes note of a new node below p. */
    ghost method NoteNode(p: Path, name: string, child: Node)
      requires IsTree(index) && [] in index && index[[]] == root && nodes.Keys == index.Keys
      requires p in index && Child(p, name) !in index && name in index[p].children && index[p].children[name] == child
      requires child !in index.Values && child.name == name && !child.isRoot && child.children == map[]
      requires AreChildren(index, p, index[p].children - {name})
      requires forall o :: o in index ==>
        index[o] in repr && index[o].path == nodes[o] && (o != p ==> AreChildren(index, o, index[o].children))
      modifies this`index, this`nodes, this`repr
      ensures Valid() && index == old(index)[Child(p, name) := child] && repr == old(repr) + {child}
      ensures nodes == old(nodes)[Child(p, name) := child.path]
    {
      hide IsTree, AreChildren;
      TreeGrows(index, p, name, child);
      var q, before := Child(p, name), index;
      index, nodes, repr := index[q := child], nodes[q := child.path], repr + {child};
      forall o | o in index ensures AreChildren(index, o, index[o].children) {
        if o == p {
          ChildrenGrow(before, p, name, child, o, index[o].children - {name});
          assert (index[o].children - {name})[name := child] == index[o].children;
        } else {
          ChildrenGrow(before, p, name, child, o, index[o].children);
        }
      }
    }

    /** Takes note of the file at q. */
    ghost method NoteFile(q: Path)
      requires IsTree(index) && [] in index && index[[]] == root && nodes.Keys == index.Keys && q in index
      requires forall o :: o in index ==>
        index[o] in repr && (o != q ==> index[o].path == nodes[o]) && AreChildren(index, o, index[o].children)
      modifies this`nodes
      ensures Valid() && nodes == old(nodes)[q := index[q].path]
    {
      hide IsTree, AreChildren;
      nodes := nodes[q := index[q].path];
    }

    /** A call of `add` on the node at p. */
    method AddAt(cursor: Node, ghost p: Path, name: string, f: Option<File>) returns (r: Result<Node, Panic>)
      requires Valid() && p in index && index[p] == cursor
      modifies this`index, this`nodes, this`repr, repr
      ensures Valid() && fresh(repr - old(repr))
      ensures Child(p, name) in index && (r.Success? ==> r.value == index[Child(p, name)])
      ensures r.Failure? == Taken(old(nodes), Child(p, name), f)
      ensures r.Failure? ==> r == Failure(PathAlreadySet(old(nodes)[Child(p, name)].value)) && nodes == old(nodes)
      ensures r.Success? ==> nodes == Added(old(nodes), Child(p, name), f)
    {
      hide IsTree, AreChildren;
      ghost var q, before, kids := Child(p, name), index, cursor.children;
      ChildAt(index, p, name, kids);
      forall o | o in index && o != p { NodesDiffer(index, o, p); }
      forall o | o in index && q in index && o != q { NodesDiffer(index, o, q); }
      r := cursor.Add(name, f);
      if q in index {
        assert cursor.children == kids;
        NoteFile(q);
      } else {
        assert cursor.children - {name} == kids;
        NoteNode(p, name, cursor.children[name]);
      }
    }

    /** `add_file`: a cursor moves down the parts; the last part's node takes the file. */
    method AddFile(f: File) returns (r: Result<(), Panic>)
      requires Valid()
      modifies this`index, this`nodes, this`repr, repr
      ensures Valid() && fresh(repr - old(repr))
      ensures r.Failure? <==> Conflicts(old(nodes), f)
      ensures r.Failure? ==> r == Failure(PathAlreadySet(old(nodes)[ParseOutfile(f)].value))
      ensures r.Success? ==> Adds(old(nodes), nodes, f)
    {
      hide Valid, Added, Taken, Along, Conflicts, Adds;
      RootIsNode();
      var parts := ParseOutfile(f);
      var n := |parts| - 1;
      var cursor := root;
      ghost var before := nodes;
      assert parts[..0] == [];
      AlongNothing(before);
      for i := 0 to n
        invariant Valid() && fresh(repr - old(repr))
        invariant parts[..i] in index && cursor == index[parts[..i]] && Along(before, nodes, parts[..i])
      {
        AlongMore(before, nodes, parts, i);
        assert parts[..i + 1] == Child(parts[..i], parts[i]);
        var next := AddAt(cursor, parts[..i], parts[i], None);
        cursor := next.value;
      }
      AlongAll(before, nodes, f);
      assert parts == Child(parts[..n], parts[n]);
      var added := AddAt(cursor, parts[..n], parts[n], Some(f));
      if added.Failure? {
        return Failure(added.error);
      }
      return Success(());
    }

    /** `create_mod` up to printing: every file in turn. */
    method AddFiles(files: seq<File>) returns (r: Result<(), Panic>)
      requires Valid() && nodes == Root
      modifies this`index, this`nodes, this`repr, repr
      ensures Valid() && fresh(repr - old(repr))
      ensures r.Success? <==> NoConflict(files)
      ensures r.Success? ==> Represents(nodes, files)
      ensures r.Failure? ==> exists i: nat, j: nat :: FirstConflict(files, i, j) && r == Failure(PathAlreadySet(files[i]))
    {
      hide Valid, Represents, NoConflict, Conflicts, Adds, FirstConflict;
      RootRepresentsNothing();
      assert files[..0] == [];
      for i := 0 to |files|
        invariant Valid() && fresh(repr - old(repr))
        invariant Represents(nodes, files[..i]) && NoConflict(files[..i])
      {
        ghost var before := nodes;
        var added := AddFile(files[i]);
        if added.Failure? {
          FileConflicts(before, files, i);
          return Failure(added.error);
        }
        FileAdds(before, nodes, files, i);
      }
      assert files[..|files|] == files;
      return Success(());
    }
  }

  lemma {:induction false} FileConflicts(before: Nodes, files: seq<File>, i: nat)
    requires i < |files| && Represents(before, files[..i]) && NoConflict(files[..i]) && Conflicts(before, files[i])
    ensures !NoConflict(files)
    ensures exists k: nat, j: nat :: FirstConflict(files, k, j) && files[k] == before[ParseOutfile(files[i])].value
  {
    hide Represents, NoConflict;
    assert files[..i + 1] == files[..i] + [files[i]];
    ConflictExactly(before, files[..i], files[i]);
    ConflictStays(files, i + 1);
    ConflictHolder(before, files, i);
  }

  lemma {:induction false} FileAdds(before: Nodes, after: Nodes, files: seq<File>, i: nat)
    requires i < |files| && Represents(before, files[..i]) && NoConflict(files[..i]) && !Conflicts(before, files[i])
    requires Adds(before, after, files[i])
    ensures Represents(after, files[..i + 1]) && NoConflict(files[..i + 1])
  {
    hide Represents, NoConflict, Adds, Conflicts;
    assert files[..i + 1] == files[..i] + [files[i]];
    ConflictExactly(before, files[..i], files[i]);
    RepresentsPush(before, after, files[..i], files[i]);
  }

  /** The nodes when the cursor has reached p: every prefix of it is a node, and nothing else has changed. */
  ghost predicate Along(before: Nodes, nodes: Nodes, p: Path) {
    && (forall q :: q in nodes <==> q in before || (q != [] && IsPrefix(q, p)))
    && (forall q :: q in nodes ==> nodes[q] == if q in before then before[q] else None)
  }

  lemma {:induction false} AlongNothing(nodes: Nodes)
    ensures Along(nodes, nodes, [])
  {
  }

  lemma {:induction false} AlongMore(before: Nodes, nodes: Nodes, parts: Path, i: nat)
    requires i < |parts| && Along(before, nodes, parts[..i])
    ensures !Taken(nodes, Child(parts[..i], parts[i]), None)
    ensures Along(before, Added(nodes, Child(parts[..i], parts[i]), None), parts[..i + 1])
  {
    PrefixGrows(parts, i);
    hide IsPrefix;
  }

  lemma {:induction false} AlongAll(before: Nodes, nodes: Nodes, f: File)
    requires var p := ParseOutfile(f); Along(before, nodes, p[..|p| - 1])
    ensures
      var p := ParseOutfile(f);
      && (Taken(nodes, p, Some(f)) <==> Conflicts(before, f))
      && (Taken(nodes, p, Some(f)) ==> nodes[p] == before[p])
      && (!Taken(nodes, p, Some(f)) ==> Adds(before, Added(nodes, p, Some(f)), f))
  {
    hide ParseOutfile;
    var p := ParseOutfile(f);
    PrefixGrows(p, |p| - 1);
    assert p[..|p| - 1] + [p[|p| - 1]] == p == p[..|p|];
    assert !IsPrefix(p, p[..|p| - 1]);
    hide IsPrefix;
  }

  lemma {:induction false} RootRepresentsNothing()
    ensures Represents(Root, []) && NoConflict([])
  {
  }

  lemma {:induction false} ConflictHolder(nodes: Nodes, files: seq<File>, j: nat)
    requires j < |files| && NoConflict(files[..j]) && Represents(nodes, files[..j]) && Conflicts(nodes, files[j])
    ensures exists i: nat :: FirstConflict(files, i, j) && files[i] == nodes[ParseOutfile(files[j])].value
  {
    hide ParseOutfile;
    var p := ParseOutfile(files[j]);
    var g := nodes[p].value;
    assert p in nodes && nodes[p] == Some(g);
    assert g in files[..j];
    var i: nat :| i < j && files[..j][i] == g;
    assert FirstConflict(files, i, j);
  }

  lemma {:induction false} PrefixGrows(parts: Path, i: nat)
    requires i < |parts|
    ensures forall q: Path :: q != [] && IsPrefix(q, parts[..i + 1]) <==> (q != [] && IsPrefix(q, parts[..i])) || q == parts[..i] + [parts[i]]
  {
    assert parts[..i + 1] == parts[..i] + [parts[i]];
    forall q: Path | q != []
      ensures IsPrefix(q, parts[..i + 1]) <==> IsPrefix(q, parts[..i]) || q == parts[..i] + [parts[i]]
    {
      if |q| <= i {
        assert parts[..i + 1][..|q|] == parts[..i][..|q|];
      }
    }
  }

  // The trie is the simple map

  /** No two files share a stem and differ otherwise. */
  predicate NoConflict(files: seq<File>) {
    forall i, j :: 0 <= i < j < |files| && ParseOutfile(files[i]) == ParseOutfile(files[j]) ==> files[i] == files[j]
  }

  /** File j is the first that conflicts with one before it, and i is such a one. */
  predicate FirstConflict(files: seq<File>, i: nat, j: nat) {
    && i < j < |files| && NoConflict(files[..j])
    && ParseOutfile(files[i]) == ParseOutfile(files[j]) && files[i] != files[j]
  }

  /** The node map of a list of files, said without an insertion order. */
  ghost predicate Represents(nodes: Nodes, files: seq<File>) {
    && (forall q :: q in nodes <==> q == [] || exists f :: f in files && IsPrefix(q, ParseOutfile(f)))
    && (forall q, f :: q in nodes && nodes[q] == Some(f) <==> f in files && ParseOutfile(f) == q)
  }

  lemma {:induction false} SelfPrefix(p: Path)
    ensures IsPrefix(p, p)
  {
  }

  lemma {:induction false} ConflictExactly(nodes: Nodes, files: seq<File>, f: File)
    requires Represents(nodes, files) && NoConflict(files)
    ensures Conflicts(nodes, f) <==> !NoConflict(files + [f])
  {
    hide ParseOutfile, IsPrefix;
    var p := ParseOutfile(f);
    if Conflicts(nodes, f) {
      var g := nodes[p].value;
      assert g in files && ParseOutfile(g) == p;
      var i :| 0 <= i < |files| && files[i] == g;
      assert (files + [f])[i] == g && (files + [f])[|files|] == f;
    } else {
      forall i, j | 0 <= i < j <= |files| && ParseOutfile((files + [f])[i]) == ParseOutfile((files + [f])[j])
        ensures (files + [f])[i] == (files + [f])[j]
      {
        if j == |files| {
          assert files[i] in files;
          assert p in nodes && nodes[p] == Some(files[i]);
        }
      }
    }
  }

  lemma {:induction false} ConflictStays(files: seq<File>, i: nat)
    requires i <= |files| && !NoConflict(files[..i])
    ensures !NoConflict(files)
  {
    hide ParseOutfile;
    var j, k :| 0 <= j < k < i && ParseOutfile(files[..i][j]) == ParseOutfile(files[..i][k]) && files[..i][j] != files[..i][k];
    assert files[j] != files[k];
  }

  lemma {:induction false} RepresentsPush(before: Nodes, after: Nodes, files: seq<File>, f: File)
    requires Represents(before, files) && Adds(before, after, f) && !Conflicts(before, f)
    ensures Represents(after, files + [f])
  {
    hide ParseOutfile, IsPrefix;
    var p := ParseOutfile(f);
    SelfPrefix(p);
    forall q ensures q in after <==> q == [] || exists g :: g in files + [f] && IsPrefix(q, ParseOutfile(g)) {
      if q in before && q != [] {
        var g :| g in files && IsPrefix(q, ParseOutfile(g));
        assert g in files + [f];
      }
      if q != [] && IsPrefix(q, p) {
        assert f in files + [f];
      }
    }
    forall q, g ensures q in after && after[q] == Some(g) <==> g in files + [f] && ParseOutfile(g) == q {
      if q == p && g in files && ParseOutfile(g) == q {
        assert before[q] == Some(g);
      }
    }
  }

  /** The order in which files are added makes no difference. */
  lemma {:induction false} OrderDoesNotMatter(nodes: Nodes, nodes': Nodes, files: seq<File>, files': seq<File>)
    requires Represents(nodes, files) && Represents(nodes', files') && forall f :: f in files <==> f in files'
    ensures nodes == nodes'
  {
    hide ParseOutfile, IsPrefix;
    forall q ensures q in nodes <==> q in nodes' {
    }
    forall q | q in nodes ensures nodes[q] == nodes'[q] {
      if nodes[q].Some? {
        var f := nodes[q].value;
        assert q in nodes && nodes[q] == Some(f);
      } else if nodes'[q].Some? {
        var f := nodes'[q].value;
        assert q in nodes' && nodes'[q] == Some(f);
      }
    }
  }
}
