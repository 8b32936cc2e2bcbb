/** A reader of printed mod files, and that reading undoes printing from the file list on (aptos_config/build_proto.rs). */
module ModfileReading {
  import opened Wrappers
  import opened Text
  import opened Modfile
  import opened ModfilePrinting

  // Tokens

  datatype Token = Word(text: string) | Punct(c: char) | Literal(value: string) | Unterminated

  datatype Tokens = End | Tok(head: Token, tail: Tokens)

  predicate IsLetter(c: char) {
    'a' <= c <= 'z' || 'A' <= c <= 'Z' || c == '_'
  }

  predicate IsWordChar(c: char) {
    IsLetter(c) || IsDigit(c)
  }

  predicate IsSpace(c: char) {
    c in {' ', '\t', '\r', '\n'}
  }

  /** Rust's keywords, strict and reserved (The Rust Reference, section 2.1). */
  predicate IsKeyword(s: string) {
    s in {
      "as", "break", "const", "continue", "crate", "else", "enum", "extern", "false", "fn", "for", "if", "impl", "in", "let",
      "loop", "match", "mod", "move", "mut", "pub", "ref", "return", "self", "Self", "static", "struct", "super", "trait",
      "true", "type", "unsafe", "use", "where", "while", "async", "await", "dyn", "abstract", "become", "box", "do", "final",
      "macro", "override", "priv", "typeof", "unsized", "virtual", "yield", "try"}
  }

  /** An ASCII identifier of Rust. */
  predicate IsIdentifier(s: string) {
    && s != "" && s != "_" && !IsKeyword(s)
    && IsLetter(s[0]) && forall i :: 0 <= i < |s| ==> IsWordChar(s[i])
  }

  function WordLength(s: string): (n: nat)
    ensures n <= |s| && (s != "" && IsWordChar(s[0]) ==> n > 0)
  {
    if s == "" || !IsWordChar(s[0]) then 0 else 1 + WordLength(s[1..])
  }

  function Unescape(c: char): char {
    match c
    case 'n' => '\n'
    case 'r' => '\r'
    case 't' => '\t'
    case '0' => '\0'
    case _ => c
  }

  /** The value of a string literal after its opening quote, and what follows its closing quote. */
  function ReadLiteral(s: string): (r: Option<(string, string)>)
    ensures r.Some? ==> |r.value.1| < |s|
  {
    if s == "" then None
    else if s[0] == '"' then Some(("", s[1..]))
    else if s[0] == '\\' && |s| == 1 then None
    else
      var escaped := s[0] == '\\';
      match ReadLiteral(if escaped then s[2..] else s[1..])
      case None => None
      case Some(pair) => Some(([if escaped then Unescape(s[1]) else s[0]] + pair.0, pair.1))
  }

  function Lex(s: string): Tokens
    decreases |s|
  {
    if s == "" then End
    else if IsSpace(s[0]) then Lex(s[1..])
    else if IsWordChar(s[0]) then Tok(Word(s[..WordLength(s)]), Lex(s[WordLength(s)..]))
    else if s[0] == '"' then
      match ReadLiteral(s[1..])
      case None => Tok(Unterminated, End)
      case Some(pair) => Tok(Literal(pair.0), Lex(pair.1))
    else Tok(Punct(s[0]), Lex(s[1..]))
  }

  function TokensOf(l: Line, rest: Tokens): Tokens {
    match l
    case Open(n) => Tok(Word("pub"), Tok(Word("mod"), Tok(Word(n), Tok(Punct('{'), rest))))
    case Include(f) =>
      Tok(Word("include"), Tok(Punct('!'), Tok(Punct('('), Tok(Literal(f), Tok(Punct(')'), Tok(Punct(';'), rest))))))
    case Close => Tok(Punct('}'), rest)
  }

  /** The items of a token list, whatever their layout; None when the tokens are anything else. */
  function Parse(ts: Tokens): Option<seq<Line>> {
    match ts
    case End => Some([])
    case Tok(Word(pub_), Tok(Word(mod_), Tok(Word(n), Tok(Punct(brace), rest)))) =>
      if pub_ == "pub" && mod_ == "mod" && IsIdentifier(n) && brace == '{' then Prepend(Open(n), Parse(rest)) else None
    case Tok(Word(macro_), Tok(Punct(bang), Tok(Punct(left), Tok(Literal(f), Tok(Punct(right), Tok(Punct(semi), rest)))))) =>
      if macro_ == "include" && bang == '!' && left == '(' && right == ')' && semi == ';'
      then Prepend(Include(f), Parse(rest)) else None
    case Tok(Punct(brace), rest) => if brace == '}' then Prepend(Close, Parse(rest)) else None
    case _ => None
  }

  function Prepend(l: Line, lines: Option<seq<Line>>): Option<seq<Line>> {
    match lines
    case None => None
    case Some(ls) => Some([l] + ls)
  }

  lemma {:induction false} WordLengthOf(w: string, k: string)
    requires forall i :: 0 <= i < |w| ==> IsWordChar(w[i])
    requires k == "" || !IsWordChar(k[0])
    ensures WordLength(w + k) == |w|
  {
    if w == "" {
      assert w + k == k;
    } else {
      WordLengthOf(w[1..], k);
      assert (w + k)[1..] == w[1..] + k;
    }
  }

  lemma {:induction false} LexWord(w: string, k: string)
    requires w != "" && forall i :: 0 <= i < |w| ==> IsWordChar(w[i])
    requires k == "" || !IsWordChar(k[0])
    ensures Lex(w + k) == Tok(Word(w), Lex(k))
  {
    WordLengthOf(w, k);
    assert (w + k)[0] == w[0] && (w + k)[..|w|] == w && (w + k)[|w|..] == k;
  }

  lemma {:induction false} LexSpace(c: char, k: string)
    requires IsSpace(c)
    ensures Lex([c] + k) == Lex(k)
  {
    assert ([c] + k)[1..] == k;
  }

  lemma {:induction false} LexPunct(c: char, k: string)
    requires !IsSpace(c) && !IsWordChar(c) && c != '"'
    ensures Lex([c] + k) == Tok(Punct(c), Lex(k))
  {
    assert ([c] + k)[1..] == k;
  }

  /** A printed string literal is read back, whatever its characters. */
  lemma {:induction false} ReadEscaped(f: string, k: string)
    ensures ReadLiteral(Escaped(f) + ("\"" + k)) == Some((f, k))
  {
    hide ReadLiteral, Escape;
    if f == "" {
      ReadQuote(k);
    } else {
      var rest := Escaped(f[1..]) + ("\"" + k);
      ReadEscaped(f[1..], k);
      Regroup(Escape(f[0]), Escaped(f[1..]), "\"" + k);
      ReadOne(f[0], rest);
      assert [f[0]] + f[1..] == f;
    }
  }

  lemma {:induction false} ReadQuote(k: string)
    ensures ReadLiteral("" + ("\"" + k)) == Some(("", k))
  {
    assert "" + ("\"" + k) == "\"" + k;
    assert ("\"" + k)[1..] == k;
  }

  lemma {:induction false} ReadOne(c: char, rest: string)
    requires ReadLiteral(rest).Some?
    ensures ReadLiteral(Escape(c) + rest) == Some(([c] + ReadLiteral(rest).value.0, ReadLiteral(rest).value.1))
  {
    hide ReadLiteral;
    var e := Escape(c);
    if |e| == 2 {
      assert e == ['\\', e[1]] && Unescape(e[1]) == c;
      ReadEscape(e[1], rest);
    } else {
      ReadPlain(c, rest);
    }
  }

  lemma {:induction false} ReadEscape(e: char, rest: string)
    requires ReadLiteral(rest).Some?
    ensures ReadLiteral(['\\', e] + rest) == Some(([Unescape(e)] + ReadLiteral(rest).value.0, ReadLiteral(rest).value.1))
  {
    assert (['\\', e] + rest)[2..] == rest;
  }

  lemma {:induction false} ReadPlain(c: char, rest: string)
    requires ReadLiteral(rest).Some? && c != '"' && c != '\\'
    ensures ReadLiteral([c] + rest) == Some(([c] + ReadLiteral(rest).value.0, ReadLiteral(rest).value.1))
  {
    assert ([c] + rest)[1..] == rest;
  }

  lemma {:induction false} LexLiteral(f: string, k: string)
    ensures Lex("\"" + (Escaped(f) + ("\"" + k))) == Tok(Literal(f), Lex(k))
  {
    ReadEscaped(f, k);
    assert ("\"" + (Escaped(f) + ("\"" + k)))[1..] == Escaped(f) + ("\"" + k);
  }

  lemma {:induction false} LexOpen(n: string, k: string)
    requires IsIdentifier(n)
    ensures Lex("pub" + ([' '] + ("mod" + ([' '] + (n + ([' '] + (['{'] + k))))))) == TokensOf(Open(n), Lex(k))
  {
    hide Lex;
    LexPunct('{', k);
    LexSpace(' ', ['{'] + k);
    LexWord(n, [' '] + (['{'] + k));
    LexSpace(' ', n + ([' '] + (['{'] + k)));
    LexWord("mod", [' '] + (n + ([' '] + (['{'] + k))));
    LexSpace(' ', "mod" + ([' '] + (n + ([' '] + (['{'] + k)))));
    LexWord("pub", [' '] + ("mod" + ([' '] + (n + ([' '] + (['{'] + k))))));
  }

  lemma {:induction false} LexInclude(f: string, k: string)
    ensures Lex("include" + (['!'] + (['('] + ("\"" + (Escaped(f) + ("\"" + ([')'] + ([';'] + k)))))))) == TokensOf(Include(f), Lex(k))
  {
    hide Lex, Escaped;
    var k1 := [')'] + ([';'] + k);
    LexPunct(';', k);
    LexPunct(')', [';'] + k);
    LexLiteral(f, k1);
    var k2 := "\"" + (Escaped(f) + ("\"" + k1));
    LexPunct('(', k2);
    LexPunct('!', ['('] + k2);
    LexWord("include", ['!'] + (['('] + k2));
  }

  predicate IsCleanLine(l: Line) {
    l.Open? ==> IsIdentifier(l.name)
  }

  lemma {:induction false} Flatten<T>(a: seq<T>, b: seq<T>, c: seq<T>, d: seq<T>, m: seq<T>, e: seq<T>, f: seq<T>, k: seq<T>)
    ensures (a + b + c + d) + m + (e + f) + k == a + (b + (c + (d + (m + (e + (f + k))))))
  {
  }

  lemma {:induction false} OpenText(n: string, k: string)
    ensures LineText(Open(n)) + k == "pub" + ([' '] + ("mod" + ([' '] + (n + ([' '] + (['{'] + k))))))
  {
    assert "pub mod " == "pub" + [' '] + "mod" + [' '];
    assert " {" == [' '] + ['{'];
    hide *;
    Flatten("pub", [' '], "mod", [' '], n, [' '], ['{'], k);
  }

  lemma {:induction false} IncludeText(f: string, k: string)
    ensures LineText(Include(f)) + k
         == "include" + (['!'] + (['('] + ("\"" + (Escaped(f) + ("\"" + ([')'] + ([';'] + k)))))))
  {
    hide Escaped;
    assert "include!(\"" == "include" + ['!'] + ['('] + "\"";
    assert "\");" == "\"" + ([')'] + [';']);
    assert ([')'] + [';']) + k == [')'] + ([';'] + k);
    Flatten("include", ['!'], ['('], "\"", Escaped(f), "\"", [')'] + [';'], k);
  }

  /** A line's text, end of line and all, gives its tokens. */
  lemma {:induction false} LexLine(l: Line, k: string)
    requires IsCleanLine(l)
    ensures Lex(LineText(l) + ("\n" + k)) == TokensOf(l, Lex(k))
  {
    hide Lex, IsIdentifier, Escaped, LineText;
    LexSpace('\n', k);
    match l
    case Open(n) =>
      LexOpen(n, "\n" + k);
      OpenText(n, "\n" + k);
    case Include(f) =>
      LexInclude(f, "\n" + k);
      IncludeText(f, "\n" + k);
    case Close =>
      LexPunct('}', "\n" + k);
      assert LineText(Close) == ['}'] by {
        CloseText();
      }
  }

  lemma {:induction false} CloseText()
    ensures LineText(Close) == ['}']
  {
  }

  predicate AllClean(lines: seq<Line>) {
    forall i :: 0 <= i < |lines| ==> IsCleanLine(lines[i])
  }

  /** Lexing and parsing the text of lines gives the lines. */
  lemma {:induction false} ParseText(lines: seq<Line>, k: string, more: seq<Line>)
    requires AllClean(lines) && Parse(Lex(k)) == Some(more)
    ensures Parse(Lex(Printed(lines) + k)) == Some(lines + more)
  {
    hide Lex, LineText, IsIdentifier, IsCleanLine, Parse;
    if lines == [] {
      assert "" + k == k && [] + more == more;
    } else {
      var n := |lines| - 1;
      var l, k' := lines[n], LineText(lines[n]) + ("\n" + k);
      LexLine(l, k);
      ParseLine(l, Lex(k), more);
      ParseText(lines[..n], k', [l] + more);
      assert (Printed(lines[..n]) + (LineText(l) + "\n")) + k == Printed(lines[..n]) + k';
      assert lines[..n] + ([l] + more) == lines + more;
    }
  }

  lemma {:induction false} ParseLine(l: Line, rest: Tokens, more: seq<Line>)
    requires IsCleanLine(l) && Parse(rest) == Some(more)
    ensures Parse(TokensOf(l, rest)) == Some([l] + more)
  {
    hide IsIdentifier;
  }

  lemma {:induction false} ParsedNames(ts: Tokens)
    ensures Parse(ts).Some? ==> AllClean(Parse(ts).value)
  {
    hide IsIdentifier;
    match ts
    case Tok(Word(_), Tok(Word(_), Tok(Word(_), Tok(Punct(_), rest)))) => ParsedNames(rest);
    case Tok(Word(_), Tok(Punct(_), Tok(Punct(_), Tok(Literal(_), Tok(Punct(_), Tok(Punct(_), rest)))))) => ParsedNames(rest);
    case Tok(Punct(_), rest) => ParsedNames(rest);
    case _ =>
  }

  // Items

  /** What a reader finds: the modules opened and the files included, each with its module path. */
  datatype Item = ModuleAt(path: Path) | FileAt(path: Path, fileName: string)

  /** Reads lines from inside the module at the given path; a closing brace too many has no reading. */
  function Read(lines: seq<Line>, at: Path, found: seq<Item>): Option<(Path, seq<Item>)> {
    if lines == [] then Some((at, found))
    else
      match lines[0]
      case Open(n) => Read(lines[1..], at + [n], found + [ModuleAt(at + [n])])
      case Include(f) => Read(lines[1..], at, found + [FileAt(at, f)])
      case Close => if at == [] then None else Read(lines[1..], at[..|at| - 1], found)
  }

  /** The items of a mod file's text; None when it is not one or its braces are not balanced. */
  function ReadModfile(text: string): Option<seq<Item>> {
    match Parse(Lex(text))
    case None => None
    case Some(lines) =>
      match Read(lines, [], [])
      case None => None
      case Some(end) => if end.0 == [] then Some(end.1) else None
  }

  /** The items of a node's subtree, in printing order. */
  function ItemsOf(nodes: Nodes, order: Order, p: Path, ghost depth: nat): seq<Item>
    requires p in nodes && Visits(order, nodes) && Shallow(nodes, depth)
    decreases depth - |p|, 1, 0
  {
    OwnItems(nodes, p) + ItemsOfChildren(nodes, order, p, 0, depth)
  }

  function OwnItems(nodes: Nodes, p: Path): seq<Item>
    requires p in nodes
  {
    if p == [] then []
    else [ModuleAt(p)] + if nodes[p].Some? then [FileAt(p, FileName(nodes[p].value))] else []
  }

  function ItemsOfChildren(nodes: Nodes, order: Order, p: Path, i: nat, ghost depth: nat): seq<Item>
    requires p in nodes && Visits(order, nodes) && Shallow(nodes, depth) && i <= |order(p)|
    decreases depth - |p|, 0, |order(p)| - i
  {
    if i == |order(p)| then []
    else
      ChildIsNode(nodes, order, p, i);
      ItemsOf(nodes, order, p + [order(p)[i]], depth) + ItemsOfChildren(nodes, order, p, i + 1, depth)
  }

  lemma {:induction false} ReadOpen(n: string, rest: seq<Line>, at: Path, found: seq<Item>)
    ensures Read([Open(n)] + rest, at, found) == Read(rest, at + [n], found + [ModuleAt(at + [n])])
  {
    assert ([Open(n)] + rest)[1..] == rest;
  }

  lemma {:induction false} ReadInclude(nodes: Nodes, p: Path, rest: seq<Line>, found: seq<Item>)
    requires p in nodes && p != []
    ensures Read(IncludeOf(nodes, p) + rest, p, found + [ModuleAt(p)]) == Read(rest, p, found + OwnItems(nodes, p))
  {
    if nodes[p].Some? {
      assert (IncludeOf(nodes, p) + rest)[1..] == rest;
      assert found + [ModuleAt(p)] + [FileAt(p, FileName(nodes[p].value))] == found + OwnItems(nodes, p);
    } else {
      assert IncludeOf(nodes, p) + rest == rest && found + [ModuleAt(p)] == found + OwnItems(nodes, p);
    }
  }

  lemma {:induction false} ReadClose(rest: seq<Line>, at: Path, found: seq<Item>)
    requires at != []
    ensures Read([Close] + rest, at, found) == Read(rest, at[..|at| - 1], found)
  {
    assert ([Close] + rest)[1..] == rest;
  }

  /** Reading a node's lines finds its subtree's items and returns to where it was. */
  lemma {:induction false} ReadNode(nodes: Nodes, order: Order, p: Path, depth: nat, rest: seq<Line>, found: seq<Item>)
    requires p in nodes && Visits(order, nodes) && Shallow(nodes, depth)
    ensures Read(PrintNode(nodes, order, p, depth) + rest, if p == [] then [] else p[..|p| - 1], found)
         == Read(rest, if p == [] then [] else p[..|p| - 1], found + ItemsOf(nodes, order, p, depth))
    decreases depth - |p|, 1, 0
  {
    hide Read, IncludeOf;
    var children, items := PrintChildren(nodes, order, p, 0, depth), ItemsOfChildren(nodes, order, p, 0, depth);
    if p == [] {
      ReadChildren(nodes, order, p, 0, depth, rest, found);
      assert [] + items == items;
    } else {
      var parent, n, own := p[..|p| - 1], p[|p| - 1], IncludeOf(nodes, p);
      assert parent + [n] == p;
      Flat(n, own, children, rest);
      ReadOpen(n, own + (children + ([Close] + rest)), parent, found);
      ReadInclude(nodes, p, children + ([Close] + rest), found);
      ReadChildren(nodes, order, p, 0, depth, [Close] + rest, found + OwnItems(nodes, p));
      ReadClose(rest, p, found + OwnItems(nodes, p) + items);
      assert found + OwnItems(nodes, p) + items == found + (OwnItems(nodes, p) + items);
    }
  }

  lemma {:induction false} Flat(n: string, own: seq<Line>, children: seq<Line>, rest: seq<Line>)
    ensures ([Open(n)] + own + children + [Close]) + rest == [Open(n)] + (own + (children + ([Close] + rest)))
  {
  }

  lemma {:induction false} ReadChildren(nodes: Nodes, order: Order, p: Path, i: nat, depth: nat, rest: seq<Line>,
                                        found: seq<Item>)
    requires p in nodes && Visits(order, nodes) && Shallow(nodes, depth) && i <= |order(p)|
    ensures Read(PrintChildren(nodes, order, p, i, depth) + rest, p, found)
         == Read(rest, p, found + ItemsOfChildren(nodes, order, p, i, depth))
    decreases depth - |p|, 0, |order(p)| - i
  {
    hide Read, Visits;
    if i == |order(p)| {
      assert [] + rest == rest && found + [] == found;
    } else {
      ChildIsNode(nodes, order, p, i);
      var child := p + [order(p)[i]];
      assert child[..|child| - 1] == p;
      var lines, more := PrintNode(nodes, order, child, depth), PrintChildren(nodes, order, p, i + 1, depth);
      var items, others := ItemsOf(nodes, order, child, depth), ItemsOfChildren(nodes, order, p, i + 1, depth);
      Regroup(lines, more, rest);
      ReadNode(nodes, order, child, depth, more + rest, found);
      ReadChildren(nodes, order, p, i + 1, depth, rest, found + items);
      assert (found + items) + others == found + (items + others);
    }
  }

  // Every item exactly once

  function Once(b: bool): nat {
    if b then 1 else 0
  }

  /** The item is of the node at its path. */
  predicate IsItem(nodes: Nodes, e: Item) {
    && e.path != [] && e.path in nodes
    && (e.FileAt? ==> nodes[e.path].Some? && FileName(nodes[e.path].value) == e.fileName)
  }

  /** The item is of p or of a node below it. */
  predicate IsBelow(nodes: Nodes, p: Path, e: Item) {
    IsPrefix(p, e.path) && IsItem(nodes, e)
  }

  /** The item is of a node below one of the named children of p. */
  predicate IsBelowChildren(nodes: Nodes, p: Path, names: seq<string>, e: Item) {
    |e.path| > |p| && e.path[|p|] in names && IsBelow(nodes, p, e)
  }

  /** Every node's parent is a node. */
  ghost predicate Closed(nodes: Nodes) {
    forall q, k: nat :: q in nodes && k <= |q| ==> q[..k] in nodes
  }

  lemma {:induction false} CountItems(nodes: Nodes, order: Order, p: Path, depth: nat, e: Item)
    requires p in nodes && Visits(order, nodes) && Shallow(nodes, depth) && Closed(nodes)
    ensures multiset(ItemsOf(nodes, order, p, depth))[e] == Once(IsBelow(nodes, p, e))
    decreases depth - |p|, 1, 0
  {
    hide IsBelow, IsBelowChildren, OwnItems, ItemsOfChildren, Closed;
    CountItemsOfChildren(nodes, order, p, 0, depth, e);
    assert order(p)[0..] == order(p);
    OwnOrBelowChildren(nodes, p, order(p), e);
  }

  lemma {:induction false} OwnOrBelowChildren(nodes: Nodes, p: Path, names: seq<string>, e: Item)
    requires p in nodes && Closed(nodes) && forall n :: n in names <==> p + [n] in nodes
    ensures multiset(OwnItems(nodes, p))[e] + Once(IsBelowChildren(nodes, p, names, e)) == Once(IsBelow(nodes, p, e))
  {
    hide FileName;
    var q := e.path;
    if |q| > |p| && IsPrefix(p, q) && q in nodes {
      assert q[..|p| + 1] == p + [q[|p|]];
      assert q[..|p| + 1] in nodes;
    }
    if |q| <= |p| && IsPrefix(p, q) {
      assert q == p;
    }
  }

  lemma {:induction false} CountItemsOfChildren(nodes: Nodes, order: Order, p: Path, i: nat, depth: nat, e: Item)
    requires p in nodes && Visits(order, nodes) && Shallow(nodes, depth) && Closed(nodes) && i <= |order(p)|
    ensures multiset(ItemsOfChildren(nodes, order, p, i, depth))[e]
         == Once(IsBelowChildren(nodes, p, order(p)[i..], e))
    decreases depth - |p|, 0, |order(p)| - i
  {
    hide IsBelow, Closed, ItemsOf;
    if i < |order(p)| {
      ChildIsNode(nodes, order, p, i);
      var n := order(p)[i];
      CountItems(nodes, order, p + [n], depth, e);
      CountItemsOfChildren(nodes, order, p, i + 1, depth, e);
      BelowThisChild(nodes, p, n, e);
      assert order(p)[i..] == [n] + order(p)[i + 1..];
      assert n !in order(p)[i + 1..];
    }
  }

  lemma {:induction false} BelowThisChild(nodes: Nodes, p: Path, n: string, e: Item)
    ensures IsBelow(nodes, p + [n], e) <==> |e.path| > |p| && e.path[|p|] == n && IsBelow(nodes, p, e)
  {
    hide IsItem;
    BelowChild(p, n, e.path);
  }

  lemma {:induction false} BelowChild(p: Path, n: string, q: Path)
    ensures IsPrefix(p + [n], q) <==> |q| > |p| && IsPrefix(p, q) && q[|p|] == n
  {
    if |q| > |p| {
      assert q[..|p| + 1] == q[..|p|] + [q[|p|]];
      assert q[..|p| + 1][..|p|] == q[..|p|];
      if q[..|p| + 1] == p + [n] {
        assert q[..|p|] == (p + [n])[..|p|] == p;
      }
    }
  }

  lemma {:induction false} RepresentedIsClosed(nodes: Nodes, files: seq<File>)
    requires Represents(nodes, files)
    ensures Closed(nodes) && [] in nodes
  {
    hide ParseOutfile;
    forall q, k: nat | q in nodes && k <= |q| ensures q[..k] in nodes {
      if q != [] {
        var f :| f in files && IsPrefix(q, ParseOutfile(f));
        assert q[..k] == ParseOutfile(f)[..k];
      }
    }
  }

  // From the file list on

  /** What a mod file of these files should hold: a module for every prefix of a file's path, and every file at its path. */
  ghost predicate IsNamed(files: seq<File>, e: Item) {
    && e.path != []
    && exists f :: f in files && if e.FileAt? then ParseOutfile(f) == e.path && FileName(f) == e.fileName
                                 else IsPrefix(e.path, ParseOutfile(f))
  }

  /** Each of those once, and nothing else. */
  ghost predicate Describes(found: seq<Item>, files: seq<File>) {
    forall e :: multiset(found)[e] == Once(IsNamed(files, e))
  }

  predicate AllIdentifiers(p: Path) {
    forall i :: 0 <= i < |p| ==> IsIdentifier(p[i])
  }

  /** Every part between dots of every file's stem is an identifier. */
  predicate NamesAreIdentifiers(files: seq<File>) {
    forall i :: 0 <= i < |files| ==> AllIdentifiers(ParseOutfile(files[i]))
  }

  lemma {:induction false} ItemsAreNamed(nodes: Nodes, files: seq<File>, e: Item)
    requires Represents(nodes, files)
    ensures IsItem(nodes, e) <==> IsNamed(files, e)
  {
    hide FileName, ParseOutfile, IsPrefix;
    if e.FileAt? && e.path != [] {
      if IsItem(nodes, e) {
        var f := nodes[e.path].value;
        assert nodes[e.path] == Some(f);
        assert f in files && ParseOutfile(f) == e.path;
      }
      if f :| f in files && ParseOutfile(f) == e.path && FileName(f) == e.fileName {
        assert e.path in nodes && nodes[e.path] == Some(f);
      }
    }
  }

  lemma {:induction false} AllItemsDescribe(nodes: Nodes, files: seq<File>, order: Order, depth: nat)
    requires Represents(nodes, files) && [] in nodes && Visits(order, nodes) && Shallow(nodes, depth)
    ensures Describes(ItemsOf(nodes, order, [], depth), files)
  {
    hide IsNamed, IsItem, ItemsOf;
    RepresentedIsClosed(nodes, files);
    forall e ensures multiset(ItemsOf(nodes, order, [], depth))[e] == Once(IsNamed(files, e)) {
      CountItems(nodes, order, [], depth, e);
      ItemsAreNamed(nodes, files, e);
    }
  }

  ghost predicate CleanNodes(nodes: Nodes) {
    forall p :: p in nodes && p != [] ==> IsIdentifier(p[|p| - 1])
  }

  lemma {:induction false} NodesAreClean(nodes: Nodes, files: seq<File>)
    requires Represents(nodes, files) && NamesAreIdentifiers(files)
    ensures CleanNodes(nodes)
  {
    hide ParseOutfile, IsIdentifier;
    forall p | p in nodes && p != [] ensures IsIdentifier(p[|p| - 1]) {
      var f :| f in files && IsPrefix(p, ParseOutfile(f));
      var i :| 0 <= i < |files| && files[i] == f;
      assert p[|p| - 1] == ParseOutfile(f)[|p| - 1];
    }
  }

  lemma {:induction false} CleanAppend(a: seq<Line>, b: seq<Line>)
    requires AllClean(a) && AllClean(b)
    ensures AllClean(a + b)
  {
  }

  lemma {:induction false} NodeIsClean(nodes: Nodes, order: Order, p: Path, depth: nat)
    requires p in nodes && Visits(order, nodes) && Shallow(nodes, depth) && CleanNodes(nodes)
    ensures AllClean(PrintNode(nodes, order, p, depth))
    decreases depth - |p|, 1, 0
  {
    hide PrintChildren, IsIdentifier, Visits;
    ChildrenAreClean(nodes, order, p, 0, depth);
    if p != [] {
      var opening := [Open(p[|p| - 1])] + IncludeOf(nodes, p);
      assert AllClean(opening);
      CleanAppend(opening, PrintChildren(nodes, order, p, 0, depth));
    }
  }

  lemma {:induction false} ChildrenAreClean(nodes: Nodes, order: Order, p: Path, i: nat, depth: nat)
    requires p in nodes && Visits(order, nodes) && Shallow(nodes, depth) && i <= |order(p)| && CleanNodes(nodes)
    ensures AllClean(PrintChildren(nodes, order, p, i, depth))
    decreases depth - |p|, 0, |order(p)| - i
  {
    hide PrintNode, IsIdentifier, Visits, CleanNodes, AllClean;
    if i == |order(p)| {
      NothingUnclean();
    } else {
      ChildIsNode(nodes, order, p, i);
      var child := p + [order(p)[i]];
      NodeIsClean(nodes, order, child, depth);
      ChildrenAreClean(nodes, order, p, i + 1, depth);
      CleanAppend(PrintNode(nodes, order, child, depth), PrintChildren(nodes, order, p, i + 1, depth));
    }
  }

  lemma {:induction false} NothingUnclean()
    ensures AllClean([])
  {
  }

  /** Whatever is read has identifiers for names. */
  lemma {:induction false} ReadNames(lines: seq<Line>, at: Path, found: seq<Item>)
    requires AllClean(lines) && AllIdentifiers(at) && Read(lines, at, found).Some?
    requires forall e :: e in found ==> AllIdentifiers(e.path)
    ensures forall e :: e in Read(lines, at, found).value.1 ==> AllIdentifiers(e.path)
  {
    hide IsIdentifier;
    if lines != [] {
      assert IsCleanLine(lines[0]);
      match lines[0]
      case Open(n) => ReadNames(lines[1..], at + [n], found + [ModuleAt(at + [n])]);
      case Include(f) => ReadNames(lines[1..], at, found + [FileAt(at, f)]);
      case Close => ReadNames(lines[1..], at[..|at| - 1], found);
    }
  }

  lemma {:induction false} ReadModfileNames(text: string)
    requires ReadModfile(text).Some?
    ensures forall e :: e in ReadModfile(text).value ==> AllIdentifiers(e.path)
  {
    hide Lex, Parse, Read, AllIdentifiers;
    ParsedNames(Lex(text));
    NoNames();
    ReadNames(Parse(Lex(text)).value, [], []);
  }

  lemma {:induction false} NoNames()
    ensures AllIdentifiers([])
  {
  }

  /** When all names are identifiers, the text is read back to the trie's items. */
  lemma {:induction false} PrintedReadsBack(nodes: Nodes, order: Order, depth: nat)
    requires [] in nodes && Visits(order, nodes) && Shallow(nodes, depth) && CleanNodes(nodes)
    ensures ReadModfile(Printed(PrintNode(nodes, order, [], depth))) == Some(ItemsOf(nodes, order, [], depth))
  {
    hide PrintNode, ItemsOf, Lex, Parse, Printed, AllClean, Visits, Shallow, CleanNodes;
    var lines := PrintNode(nodes, order, [], depth);
    NodeIsClean(nodes, order, [], depth);
    ParseNothing();
    ParseText(lines, "", []);
    assert Printed(lines) + "" == Printed(lines) && lines + [] == lines;
    ReadNode(nodes, order, [], depth, [], []);
    assert [] + ItemsOf(nodes, order, [], depth) == ItemsOf(nodes, order, [], depth);
  }

  lemma {:induction false} ParseNothing()
    ensures Parse(Lex("")) == Some([])
  {
  }

  /** Main result: whatever order the maps are visited in, the mod file's text is read back to every file once at its
      dotted path and every module once, exactly when every part of every file's stem is an identifier. */
  lemma {:induction false} ModfileReadsBackExactly(nodes: Nodes, files: seq<File>, order: Order, depth: nat)
    requires Represents(nodes, files) && Visits(order, nodes) && Shallow(nodes, depth)
    ensures [] in nodes
    ensures
      var read := ReadModfile(Printed(PrintNode(nodes, order, [], depth)));
      read.Some? && Describes(read.value, files) <==> NamesAreIdentifiers(files)
  {
    hide ReadModfile, Printed, PrintNode, Describes, AllIdentifiers, ParseOutfile, Visits, Shallow;
    RepresentedIsClosed(nodes, files);
    var text := Printed(PrintNode(nodes, order, [], depth));
    if NamesAreIdentifiers(files) {
      NodesAreClean(nodes, files);
      PrintedReadsBack(nodes, order, depth);
      AllItemsDescribe(nodes, files, order, depth);
    }
    if ReadModfile(text).Some? && Describes(ReadModfile(text).value, files) {
      ReadModfileNames(text);
      forall i | 0 <= i < |files| ensures AllIdentifiers(ParseOutfile(files[i])) {
        FileIsFound(ReadModfile(text).value, files, files[i]);
      }
    }
  }

  lemma {:induction false} FileIsFound(found: seq<Item>, files: seq<File>, f: File)
    requires Describes(found, files) && f in files
    ensures FileAt(ParseOutfile(f), FileName(f)) in found
  {
    hide FileName;
    var e := FileAt(ParseOutfile(f), FileName(f));
    assert IsNamed(files, e);
    assert multiset(found)[e] == 1;
  }

  /** An order that lists the children of every node of these files' trie once. */
  ghost predicate ListsChildren(order: Order, files: seq<File>) {
    forall p :: Distinct(order(p)) &&
      forall n :: n in order(p) <==> exists f :: f in files && IsPrefix(p + [n], ParseOutfile(f))
  }

  lemma {:induction false} ListedAreVisited(nodes: Nodes, files: seq<File>, order: Order)
    requires Represents(nodes, files) && ListsChildren(order, files)
    ensures Visits(order, nodes)
  {
    hide ParseOutfile, IsPrefix, Distinct;
    forall p, n ensures n in order(p) <==> p + [n] in nodes {
      assert p + [n] != [];
    }
  }

  /** `create_mod`: it panics exactly on two different files with one dotted path, and otherwise writes a mod file that
      is read back to the files exactly when the names are identifiers. */
  method CreateMod(files: seq<File>, order: Order) returns (r: Result<string, Panic>)
    requires ListsChildren(order, files)
    ensures r.Success? <==> NoConflict(files)
    ensures r.Failure? ==> exists i: nat, j: nat :: FirstConflict(files, i, j) && r == Failure(PathAlreadySet(files[i]))
    ensures r.Success? ==>
      (ReadModfile(r.value).Some? && Describes(ReadModfile(r.value).value, files) <==> NamesAreIdentifiers(files))
  {
    hide PrintNode, Printed, ReadModfile, Describes, NamesAreIdentifiers, ListsChildren, Represents, Visits, Shallow, Trie.Valid,
         NoConflict, FirstConflict;
    var trie := new Trie();
    var added := trie.AddFiles(files);
    if added.Failure? {
      return Failure(added.error);
    }
    ghost var depth, nodes := DepthOf(files), trie.nodes;
    DepthBoundsTrie(nodes, files);
    ListedAreVisited(nodes, files, order);
    ModfileReadsBackExactly(nodes, files, order, depth);
    trie.RootIsNode();
    var out := new Writer();
    RToModfile(trie, trie.root, [], order, out, depth);
    assert out.text == Printed(PrintNode(nodes, order, [], depth));
    return Success(out.text);
  }

  lemma {:induction false} LetterIsIdentifier(s: string)
    requires |s| == 1 && IsLetter(s[0]) && s != "_"
    ensures IsIdentifier(s)
  {
    assert !IsKeyword(s);
  }

  lemma {:induction false} BracesText(k: string)
    ensures LineText(Open("a{}pub mod b")) + k
         == "pub" + ([' '] + ("mod" + ([' '] + ("a" + (['{'] + (['}'] + (LineText(Open("b")) + k)))))))
  {
    var second := LineText(Open("b"));
    assert LineText(Open("a{}pub mod b")) == "pub mod a{}" + second;
    assert "pub mod a{}" == ("pub" + [' '] + "mod" + [' ']) + "a" + (['{'] + ['}']);
    hide *;
    Flatten("pub", [' '], "mod", [' '], "a", ['{'], ['}'], second + k);
    Regroup("pub mod a{}", second, k);
  }

  /** One module line can be lexed as a whole module and the opening of another. */
  lemma {:induction false} BracesLex(k: string)
    ensures Lex(LineText(Open("a{}pub mod b")) + ("\n" + k))
         == TokensOf(Open("a"), TokensOf(Close, TokensOf(Open("b"), Lex(k))))
  {
    hide Lex, IsIdentifier, LineText;
    LetterIsIdentifier("b");
    var second := LineText(Open("b")) + ("\n" + k);
    LexLine(Open("b"), k);
    LexPunct('}', second);
    LexPunct('{', ['}'] + second);
    LexWord("a", ['{'] + (['}'] + second));
    LexSpace(' ', "a" + (['{'] + (['}'] + second)));
    LexWord("mod", [' '] + ("a" + (['{'] + (['}'] + second))));
    LexSpace(' ', "mod" + ([' '] + ("a" + (['{'] + (['}'] + second)))));
    LexWord("pub", [' '] + ("mod" + ([' '] + ("a" + (['{'] + (['}'] + second))))));
    BracesText("\n" + k);
  }

  lemma {:induction false} OneFilePrinted(nodes: Nodes, order: Order, f: File)
    requires nodes == map[[] := None, [f.stem] := Some(f)]
    requires Visits(order, nodes) && Shallow(nodes, 1) && order([]) == [f.stem] && order([f.stem]) == []
    ensures PrintNode(nodes, order, [], 1) == [Open(f.stem)] + [Include(FileName(f)), Close]
  {
    hide FileName;
    assert [] + [f.stem] == [f.stem];
    assert PrintNode(nodes, order, [f.stem], 1) == [Open(f.stem)] + [Include(FileName(f))] + [] + [Close];
    assert PrintChildren(nodes, order, [], 1, 1) == [];
  }

  /** A stem with braces: one file, and a mod file that is read without complaint as two modules. */
  lemma {:induction false} BracesInNameMisread(nodes: Nodes, order: Order, f: File)
    requires f == File("out", "a{}pub mod b", "rs") && nodes == map[[] := None, [f.stem] := Some(f)]
    requires Visits(order, nodes) && Shallow(nodes, 1) && order([]) == [f.stem] && order([f.stem]) == []
    ensures ReadModfile(Printed(PrintNode(nodes, order, [], 1)))
         == Some([ModuleAt(["a"]), ModuleAt(["b"]), FileAt(["b"], FileName(f))])
  {
    hide Lex, Parse, Printed, PrintNode, LineText, Visits, FileName, IsIdentifier, TokensOf, Shallow;
    LetterIsIdentifier("a");
    LetterIsIdentifier("b");
    var name, more := FileName(f), [Include(FileName(f)), Close];
    OneFilePrinted(nodes, order, f);
    TextAppend([Open(f.stem)], more);
    TextOne(Open(f.stem));
    var k := Printed(more);
    assert (LineText(Open(f.stem)) + "\n") + k == LineText(Open(f.stem)) + ("\n" + k);
    BracesLex(k);
    ParseNothing();
    ParseText(more, "", []);
    assert k + "" == k && more + [] == more;
    ParseLine(Open("b"), Lex(k), more);
    ParseLine(Close, TokensOf(Open("b"), Lex(k)), [Open("b")] + more);
    ParseLine(Open("a"), TokensOf(Close, TokensOf(Open("b"), Lex(k))), [Close] + ([Open("b")] + more));
    ReadMisread(name);
  }

  lemma {:induction false} ReadMisread(name: string)
    ensures Read([Open("a")] + ([Close] + ([Open("b")] + [Include(name), Close])), [], [])
         == Some(([], [ModuleAt(["a"]), ModuleAt(["b"]), FileAt(["b"], name)]))
  {
    hide Read;
    var l1, l2, l3 := [Close] + ([Open("b")] + [Include(name), Close]), [Open("b")] + [Include(name), Close], [Include(name), Close];
    var f1, f2 := [ModuleAt(["a"])], [ModuleAt(["a"]), ModuleAt(["b"])];
    var f3 := f2 + [FileAt(["b"], name)];
    assert [] + ["a"] == ["a"] && [] + ["b"] == ["b"] && ["a"][..0] == [] && ["b"][..0] == [];
    ReadOpen("a", l1, [], []);
    assert [] + [ModuleAt(["a"])] == f1 && f1 + [ModuleAt(["b"])] == f2;
    ReadClose(l2, ["a"], f1);
    ReadOpen("b", l3, [], f1);
    ReadLast(name, ["b"], f2);
    assert f3 == [ModuleAt(["a"]), ModuleAt(["b"]), FileAt(["b"], name)];
  }

  lemma {:induction false} ReadLast(name: string, at: Path, found: seq<Item>)
    requires |at| == 1
    ensures Read([Include(name), Close], at, found) == Some(([], found + [FileAt(at, name)]))
  {
    assert [Include(name), Close][1..] == [Close] + [];
    ReadClose([], at, found + [FileAt(at, name)]);
  }
}
