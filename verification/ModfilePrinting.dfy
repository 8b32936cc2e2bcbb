/** The mod file printed from the module trie (aptos_config/build_proto.rs `r_to_modfile`). */
module ModfilePrinting {
  import opened Wrappers
  import opened Modfile
  import Text

  /** A line of the mod file. */
  datatype Line = Open(name: string) | Include(fileName: string) | Close

  /** What Rust's `{:?}` prints for a character of a string. */
  function Escape(c: char): (s: string)
    ensures s != "" && s[0] != '"'
  {
    match c
    case '"' => ['\\', '"']
    case '\\' => ['\\', '\\']
    case '\n' => ['\\', 'n']
    case '\r' => ['\\', 'r']
    case '\t' => ['\\', 't']
    case '\0' => ['\\', '0']
    case _ => [c]
  }

  function Escaped(s: string): string {
    if s == "" then "" else Escape(s[0]) + Escaped(s[1..])
  }

  function LineText(l: Line): string {
    match l
    case Open(n) => "pub mod " + n + " {"
    case Include(f) => "include!(\"" + Escaped(f) + "\");"
    case Close => "}"
  }

  /** The text of the lines, each ended by a newline. */
  function Printed(lines: seq<Line>): string {
    if lines == [] then "" else Printed(lines[..|lines| - 1]) + (LineText(lines[|lines| - 1]) + "\n")
  }

  lemma {:induction false} TextAppend(a: seq<Line>, b: seq<Line>)
    ensures Printed(a + b) == Printed(a) + Printed(b)
  {
    hide LineText;
    if b == [] {
      assert a + b == a;
    } else {
      var n := |b| - 1;
      assert (a + b)[..|a + b| - 1] == a + b[..n];
      TextAppend(a, b[..n]);
    }
  }

  lemma {:induction false} TextOne(l: Line)
    ensures Printed([l]) == LineText(l) + "\n"
  {
    assert [l][..0] == [];
    assert Printed([]) + (LineText(l) + "\n") == LineText(l) + "\n";
  }

  function FileName(f: File): string {
    f.stem + "." + f.extension
  }

  lemma {:induction false} JoinSplit(s: string, sep: char)
    ensures Text.Join(Text.Split(s, sep), sep) == s
  {
    if s != "" {
      JoinSplit(s[1..], sep);
      assert s == [s[0]] + s[1..];
    }
  }

  /** The parts of a file's module path, joined by dots, and its extension make up the name it is included under. */
  lemma {:induction false} PathSpellsFileName(f: File)
    ensures Text.Join(ParseOutfile(f), '.') == f.stem
    ensures FileName(f) == Text.Join(ParseOutfile(f), '.') + ['.'] + f.extension
  {
    JoinSplit(f.stem, '.');
  }

  /** In which order a node's children are visited; a hash map may give any. */
  type Order = Path -> seq<string>

  ghost predicate Distinct(names: seq<string>) {
    forall i, j :: 0 <= i < j < |names| ==> names[i] != names[j]
  }

  /** The order lists every child of every node once. */
  ghost predicate Visits(order: Order, nodes: Nodes) {
    forall p :: p in nodes ==> Distinct(order(p)) && forall n :: n in order(p) <==> p + [n] in nodes
  }

  ghost predicate Shallow(nodes: Nodes, depth: nat) {
    forall p :: p in nodes ==> |p| <= depth
  }

  function IncludeOf(nodes: Nodes, p: Path): seq<Line>
    requires p in nodes
  {
    if nodes[p].Some? then [Include(FileName(nodes[p].value))] else []
  }

  lemma {:induction false} ChildIsNode(nodes: Nodes, order: Order, p: Path, i: nat)
    requires p in nodes && Visits(order, nodes) && i < |order(p)|
    ensures p + [order(p)[i]] in nodes
  {
    assert order(p)[i] in order(p);
  }

  /** The lines of a node: none of its own for the root. */
  function PrintNode(nodes: Nodes, order: Order, p: Path, ghost depth: nat): seq<Line>
    requires p in nodes && Visits(order, nodes) && Shallow(nodes, depth)
    decreases depth - |p|, 1, 0
  {
    var children := PrintChildren(nodes, order, p, 0, depth);
    if p == [] then children else [Open(p[|p| - 1])] + IncludeOf(nodes, p) + children + [Close]
  }

  /** The lines of a node's children from the i-th on. */
  function PrintChildren(nodes: Nodes, order: Order, p: Path, i: nat, ghost depth: nat): seq<Line>
    requires p in nodes && Visits(order, nodes) && Shallow(nodes, depth) && i <= |order(p)|
    decreases depth - |p|, 0, |order(p)| - i
  {
    if i == |order(p)| then []
    else
      ChildIsNode(nodes, order, p, i);
      PrintNode(nodes, order, p + [order(p)[i]], depth) + PrintChildren(nodes, order, p, i + 1, depth)
  }

  /** The file being written. */
  class Writer {
    var text: string

    constructor ()
      ensures text == ""
    {
      text := "";
    }

    /** Rust's `writeln!`. */
    method WriteLine(line: string)
      modifies this
      ensures text == old(text) + (line + "\n")
    {
      text := text + (line + "\n");
    }
  }

  /** `r_to_modfile`: the node's opening, its file, its children in the map's order, its closing. The node's path serves
      to look up that order. */
  method RToModfile(trie: Trie, node: Node, p: Path, order: Order, out: Writer, ghost depth: nat)
    requires trie.Valid() && p in trie.index && trie.index[p] == node
    requires Visits(order, trie.nodes) && Shallow(trie.nodes, depth)
    modifies out
    ensures out.text == old(out.text) + Printed(PrintNode(trie.nodes, order, p, depth))
    decreases depth - |p|, 1
  {
    hide FileName, PrintChildren, LineText, Printed, Visits, Trie.Valid;
    trie.NodeIsIn(p);
    ghost var was, nodes := out.text, trie.nodes;
    ghost var children := PrintChildren(nodes, order, p, 0, depth);
    if node.isRoot {
      WriteChildren(trie, node, p, order, out, depth);
    } else {
      ghost var opening, own := [Open(p[|p| - 1])], IncludeOf(nodes, p);
      out.WriteLine(LineText(Open(node.name)));
      TextOne(Open(p[|p| - 1]));
      if node.path.Some? {
        out.WriteLine(LineText(Include(FileName(node.path.value))));
        TextOne(Include(FileName(node.path.value)));
      } else {
        EmptyText();
      }
      assert out.text == was + Printed(opening) + Printed(own);
      WriteChildren(trie, node, p, order, out, depth);
      out.WriteLine(LineText(Close));
      TextOne(Close);
      TextOfFour(opening, own, children, [Close]);
      Associate(was, Printed(opening), Printed(own), Printed(children), Printed([Close]));
    }
  }

  lemma {:induction false} EmptyText()
    ensures Printed([]) == ""
  {
  }

  lemma {:induction false} TextOfFour(a: seq<Line>, b: seq<Line>, c: seq<Line>, d: seq<Line>)
    ensures Printed(a + b + c + d) == Printed(a) + Printed(b) + Printed(c) + Printed(d)
  {
    TextAppend(a, b);
    TextAppend(a + b, c);
    TextAppend(a + b + c, d);
  }

  lemma {:induction false} Associate(s: string, a: string, b: string, c: string, d: string)
    ensures s + a + b + c + d == s + (a + b + c + d)
  {
  }

  lemma {:induction false} Regroup<T>(a: seq<T>, b: seq<T>, c: seq<T>)
    ensures (a + b) + c == a + (b + c)
  {
  }

  /** The loop over a node's children. */
  method WriteChildren(trie: Trie, node: Node, p: Path, order: Order, out: Writer, ghost depth: nat)
    requires trie.Valid() && p in trie.index && trie.index[p] == node
    requires Visits(order, trie.nodes) && Shallow(trie.nodes, depth)
    modifies out
    ensures out.text == old(out.text) + Printed(PrintChildren(trie.nodes, order, p, 0, depth))
    decreases depth - |p|, 0
  {
    hide PrintNode, Visits, Printed, Trie.Valid;
    trie.NodeIsIn(p);
    ghost var nodes := trie.nodes;
    var i := 0;
    while i < |order(p)|
      invariant i <= |order(p)|
      invariant out.text + Printed(PrintChildren(nodes, order, p, i, depth))
             == old(out.text) + Printed(PrintChildren(nodes, order, p, 0, depth))
    {
      ChildIsNode(nodes, order, p, i);
      var n := order(p)[i];
      trie.ChildIsIn(p, n);
      ghost var lines, more := PrintNode(nodes, order, p + [n], depth), PrintChildren(nodes, order, p, i + 1, depth);
      TextAppend(lines, more);
      Regroup(out.text, Printed(lines), Printed(more));
      RToModfile(trie, node.children[n], p + [n], order, out, depth);
      i := i + 1;
    }
    EmptyText();
    assert out.text + "" == out.text;
  }

  /** A bound on the trie's depth always exists. */
  function DepthOf(files: seq<File>): (d: nat)
    ensures forall i :: 0 <= i < |files| ==> |ParseOutfile(files[i])| <= d
  {
    if files == [] then 0
    else
      var n := |files| - 1;
      var before, own := DepthOf(files[..n]), |ParseOutfile(files[n])|;
      assert forall i :: 0 <= i < n ==> files[..n][i] == files[i];
      if own < before then before else own
  }

  lemma {:induction false} DepthBoundsTrie(nodes: Nodes, files: seq<File>)
    requires Represents(nodes, files)
    ensures Shallow(nodes, DepthOf(files))
  {
    hide ParseOutfile;
    forall q | q in nodes ensures |q| <= DepthOf(files) {
      if q != [] {
        var f :| f in files && IsPrefix(q, ParseOutfile(f));
        var i :| 0 <= i < |files| && files[i] == f;
      }
    }
  }
}
