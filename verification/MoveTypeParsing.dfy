/** A lexer and parser that undo the Move type printer, and with them that printed types are unambiguous. */
module MoveTypeParsing {
  import opened Wrappers
  import opened Text
  import opened MoveTypes
  import Address

  datatype Token = Word(text: string) | Lt | Gt | Comma | Path | Amp | AmpMut

  datatype Tokens = End | Tok(head: Token, tail: Tokens)

  function Length(ts: Tokens): nat {
    match ts
    case End => 0
    case Tok(_, tail) => 1 + Length(tail)
  }

  // Lexing

  predicate IsDelimiter(c: char) {
    c in {',', '<', '>', ':'}
  }

  predicate IsClean(s: string) {
    s != "" && forall i :: 0 <= i < |s| ==> !IsDelimiter(s[i])
  }

  function TokenText(t: Token): string {
    match t
    case Word(w) => w
    case Lt => "<"
    case Gt => ">"
    case Comma => ","
    case Path => "::"
    case Amp => "&"
    case AmpMut => "&mut "
  }

  function Render(ts: Tokens): string {
    match ts
    case End => ""
    case Tok(t, tail) => TokenText(t) + Render(tail)
  }

  /** Length of the longest prefix free of delimiters. */
  function WordLength(s: string): (n: nat)
    ensures n <= |s|
  {
    if s == "" || IsDelimiter(s[0]) then 0 else 1 + WordLength(s[1..])
  }

  function Lex(s: string): Tokens
    decreases |s|
  {
    if s == "" then End
    else if s[0] == '<' then Tok(Lt, Lex(s[1..]))
    else if s[0] == '>' then Tok(Gt, Lex(s[1..]))
    else if s[0] == ',' then Tok(Comma, Lex(s[1..]))
    else if s[0] == ':' then Tok(Path, Lex(if |s| > 1 then s[2..] else ""))
    else if s[0] == '&' && |s| >= 5 && s[1] == 'm' then Tok(AmpMut, Lex(s[5..]))
    else if s[0] == '&' then Tok(Amp, Lex(s[1..]))
    else Tok(Word(s[..WordLength(s)]), Lex(s[WordLength(s)..]))
  }

  /** Token lists the printer produces: words stand apart, and `&` never precedes an `m`. */
  predicate Lexable(ts: Tokens) {
    match ts
    case End => true
    case Tok(Word(w), tail) => IsClean(w) && w[0] != '&' && Separated(tail) && Lexable(tail)
    case Tok(Amp, tail) => StartsType(tail) && Lexable(tail)
    case Tok(_, tail) => Lexable(tail)
  }

  /** The next token opens a type: a reference mark, or a word not starting with `m`. */
  predicate StartsType(ts: Tokens) {
    ts.Tok? && (ts.head.Amp? || ts.head.AmpMut? || (ts.head.Word? && ts.head.text != "" && ts.head.text[0] != 'm'))
  }

  predicate Separated(ts: Tokens) {
    ts.End? || ts.head.Lt? || ts.head.Gt? || ts.head.Comma? || ts.head.Path?
  }

  /** What may follow a printed type inside a larger one. */
  predicate Ends(ts: Tokens) {
    ts.End? || ts.head.Comma? || ts.head.Gt?
  }

  lemma {:induction false} WordLengthOf(w: string, k: string)
    requires forall i :: 0 <= i < |w| ==> !IsDelimiter(w[i])
    requires k == "" || IsDelimiter(k[0])
    ensures WordLength(w + k) == |w|
  {
    if w == "" {
      assert w + k == k;
    } else {
      WordLengthOf(w[1..], k);
      assert (w + k)[1..] == w[1..] + k;
    }
  }

  lemma {:induction false} SeparatedText(ts: Tokens)
    requires Separated(ts)
    ensures Render(ts) == "" || IsDelimiter(Render(ts)[0])
  {
  }

  lemma {:induction false} StartsTypeText(ts: Tokens)
    requires StartsType(ts)
    ensures Render(ts) != "" && Render(ts)[0] != 'm'
  {
  }

  lemma {:induction false} LexRender(ts: Tokens)
    requires Lexable(ts)
    ensures Lex(Render(ts)) == ts
  {
    if ts.Tok? {
      var text, rest := TokenText(ts.head), Render(ts.tail);
      var s := Render(ts);
      LexRender(ts.tail);
      assert s[|text|..] == rest;
      match ts.head
      case Word(w) =>
        SeparatedText(ts.tail);
        WordLengthOf(w, rest);
        assert s[0] == w[0];
        assert s[..|w|] == w;
      case Amp =>
        StartsTypeText(ts.tail);
        assert s[1] == rest[0];
      case AmpMut =>
        assert s[0] == '&' && s[1] == 'm';
      case _ =>
    }
  }

  // Parsing

  /** Module and struct names are nonempty and hold no delimiter, as every Move identifier does. */
  predicate CleanNames(t: MoveType)
    decreases t, 1
  {
    match t.content
    case Some(VectorContent(inner)) => CleanNames(inner)
    case Some(StructContent(s)) => CleanName(s.moduleName) && CleanName(s.name) && AllCleanNames(s.params)
    case Some(ReferenceContent(_, to)) => to.Some? ==> CleanNames(to.value)
    case _ => true
  }

  predicate AllCleanNames(params: seq<MoveType>)
    decreases params, 0
  {
    params != [] ==> CleanNames(params[0]) && AllCleanNames(params[1..])
  }

  predicate CleanName(s: string) {
    IsClean(s) && s[0] != '&'
  }

  /** The tree with every struct address in its repaired form. */
  function Normalize(t: MoveType): MoveType
    requires WellTagged(t)
    decreases t, 1
  {
    match t.content
    case Some(VectorContent(inner)) => t.(content := Some(VectorContent(Normalize(inner))))
    case Some(StructContent(s)) =>
      t.(content := Some(StructContent(s.(address := Address.Fixed(s.address).value, params := NormalizeAll(s.params)))))
    case Some(ReferenceContent(m, to)) => t.(content := Some(ReferenceContent(m, Some(Normalize(to.value)))))
    case _ => t
  }

  function NormalizeAll(params: seq<MoveType>): (r: seq<MoveType>)
    requires AllWellTagged(params)
    ensures |r| == |params|
    decreases params, 0
  {
    if params == [] then [] else [Normalize(params[0])] + NormalizeAll(params[1..])
  }

  predicate IsLeafName(tag: MoveTypes, w: string) {
    !IsAdvanced(tag) && ShortName(tag) == w
  }

  predicate IsGenericName(w: string) {
    |w| > 1 && w[0] == 'T' && AllDigits(w[1..])
  }

  /** Reads a word that stands for a whole type. */
  ghost function ParseWord(w: string): Option<MoveType> {
    if w == "function" then Some(MoveType(Known(Unparsable), Some(UnparsableContent(w))))
    else if IsGenericName(w) then
      Some(MoveType(Known(GenericTypeParam), Some(GenericTypeParamIndex(DecimalValue(w[1..])))))
    else if tag :| IsLeafName(tag, w) then Some(MoveType(Known(tag), None))
    else None
  }

  function VectorOf(inner: MoveType): MoveType {
    MoveType(Known(Vector), Some(VectorContent(inner)))
  }

  function ReferenceOf(mutable: bool, to: MoveType): MoveType {
    MoveType(Known(Reference), Some(ReferenceContent(mutable, Some(to))))
  }

  function StructOf(address: string, moduleName: string, name: string, params: seq<MoveType>): MoveType {
    MoveType(Known(Struct), Some(StructContent(StructTag(address, moduleName, name, params))))
  }

  /** Reads one type off the front and returns it with what follows. */
  ghost function ParseType(ts: Tokens): (r: Option<(MoveType, Tokens)>)
    ensures r.Some? ==> Length(r.value.1) < Length(ts)
    decreases Length(ts), 0
  {
    match ts
    case Tok(Amp, tail) =>
      (match ParseType(tail)
       case Some((t, k)) => Some((ReferenceOf(false, t), k))
       case None => None)
    case Tok(AmpMut, tail) =>
      (match ParseType(tail)
       case Some((t, k)) => Some((ReferenceOf(true, t), k))
       case None => None)
    case Tok(Word(w), tail) =>
      if tail.Tok? && tail.head.Path? then
        assert Length(tail.tail) < Length(tail);
        ParseStruct(w, tail.tail)
      else if tail.Tok? && tail.head.Lt? then
        assert Length(tail.tail) < Length(tail);
        (match ParseType(tail.tail)
         case Some((t, Tok(Gt, k))) => if w == "Vector" then Some((VectorOf(t), k)) else None
         case _ => None)
      else
        (match ParseWord(w)
         case Some(t) => Some((t, tail))
         case None => None)
    case _ => None
  }

  /** Reads `module::name` and any parameters; the address has been read. */
  ghost function ParseStruct(address: string, ts: Tokens): (r: Option<(MoveType, Tokens)>)
    ensures r.Some? ==> Length(r.value.1) < Length(ts)
    decreases Length(ts), 2
  {
    match ts
    case Tok(Word(m), Tok(Path, tail)) =>
      assert Length(tail) < Length(ts.tail);
      ParseName(address, m, tail)
    case _ => None
  }

  ghost function ParseName(address: string, moduleName: string, ts: Tokens): (r: Option<(MoveType, Tokens)>)
    ensures r.Some? ==> Length(r.value.1) < Length(ts)
    decreases Length(ts), 2
  {
    match ts
    case Tok(Word(n), Tok(Lt, tail)) =>
      assert Length(tail) < Length(ts.tail);
      (match ParseParams(tail)
       case Some((params, k)) => Some((StructOf(address, moduleName, n, params), k))
       case None => None)
    case Tok(Word(n), k) => Some((StructOf(address, moduleName, n, []), k))
    case _ => None
  }

  /** Reads comma-separated types up to and including the closing `>`. */
  ghost function ParseParams(ts: Tokens): (r: Option<(seq<MoveType>, Tokens)>)
    ensures r.Some? ==> Length(r.value.1) < Length(ts)
    decreases Length(ts), 1
  {
    match ParseType(ts)
    case Some((t, Tok(Gt, k))) => Some(([t], k))
    case Some((t, Tok(Comma, k))) =>
      (match ParseParams(k)
       case Some((rest, k')) => Some(([t] + rest, k'))
       case None => None)
    case _ => None
  }

  /** The whole parser: a text is a type when it lexes and parses with nothing left over. */
  ghost function Parse(s: string): Option<MoveType> {
    match ParseType(Lex(s))
    case Some((t, End)) => Some(t)
    case _ => None
  }

  /** The printed form of t as tokens, followed by k. */
  function TokensOf(t: MoveType, k: Tokens): Tokens
    requires WellTagged(t)
    decreases t, 1
  {
    match t.content
    case None => Tok(Word(ShortName(t.rawTag.tag)), k)
    case Some(VectorContent(inner)) => Tok(Word("Vector"), Tok(Lt, TokensOf(inner, Tok(Gt, k))))
    case Some(StructContent(s)) =>
      var generics := if s.params == [] then k else Tok(Lt, TokensOfAll(s.params, k));
      Tok(Word(Address.Fixed(s.address).value), Tok(Path, Tok(Word(s.moduleName), Tok(Path, Tok(Word(s.name), generics)))))
    case Some(GenericTypeParamIndex(n)) => Tok(Word("T" + Decimal(n)), k)
    case Some(ReferenceContent(m, to)) => Tok(if m then AmpMut else Amp, TokensOf(to.value, k))
    case Some(UnparsableContent(text)) => Tok(Word(text), k)
  }

  function TokensOfAll(params: seq<MoveType>, k: Tokens): Tokens
    requires params != [] && AllWellTagged(params)
    decreases params, 0
  {
    if |params| == 1 then TokensOf(params[0], Tok(Gt, k))
    else TokensOf(params[0], Tok(Comma, TokensOfAll(params[1..], k)))
  }

  // The parser undoes the printer

  lemma {:induction false} ShortNameInjective(a: MoveTypes, b: MoveTypes)
    requires ShortName(a) == ShortName(b)
    ensures a == b
  {
  }

  lemma {:induction false} LeafWord(tag: MoveTypes)
    requires !IsAdvanced(tag)
    ensures IsClean(ShortName(tag)) && ShortName(tag)[0] != '&' && ShortName(tag)[0] != 'm' && ShortName(tag)[0] != 'T'
    ensures ShortName(tag) != "function"
    ensures IsLeafName(tag, ShortName(tag))
  {
  }

  lemma {:induction false} LeafParses(tag: MoveTypes)
    requires !IsAdvanced(tag)
    ensures ParseWord(ShortName(tag)) == Some(MoveType(Known(tag), None))
  {
    LeafWord(tag);
    forall other | IsLeafName(other, ShortName(tag)) ensures other == tag {
      ShortNameInjective(other, tag);
    }
  }

  lemma {:induction false} GenericParses(n: nat)
    ensures IsClean("T" + Decimal(n))
    ensures ParseWord("T" + Decimal(n)) == Some(MoveType(Known(GenericTypeParam), Some(GenericTypeParamIndex(n))))
  {
    var w := "T" + Decimal(n);
    assert w[0] == 'T' && w[1..] == Decimal(n);
    DecimalRoundTrip(n);
  }

  /** Parsing the tokens of t gives t back with repaired addresses, whatever follows. */
  lemma {:induction false} ParseTokens(t: MoveType, k: Tokens)
    requires WellTagged(t) && Ends(k)
    ensures ParseType(TokensOf(t, k)) == Some((Normalize(t), k))
    decreases t, 1
  {
    hide Address.Fixed, ShortName;
    match t.content
    case None => LeafParses(t.rawTag.tag);
    case Some(VectorContent(inner)) => ParseTokens(inner, Tok(Gt, k));
    case Some(StructContent(s)) => ParseStructTokens(s, k);
    case Some(GenericTypeParamIndex(n)) => GenericParses(n);
    case Some(ReferenceContent(m, to)) => ParseTokens(to.value, k);
    case Some(UnparsableContent(_)) =>
  }

  lemma {:induction false} ParseStructTokens(s: StructTag, k: Tokens)
    requires Address.Fixed(s.address).Success? && AllWellTagged(s.params) && Ends(k)
    ensures
      var generics := if s.params == [] then k else Tok(Lt, TokensOfAll(s.params, k));
      ParseName(Address.Fixed(s.address).value, s.moduleName, Tok(Word(s.name), generics))
      == Some((StructOf(Address.Fixed(s.address).value, s.moduleName, s.name, NormalizeAll(s.params)), k))
    decreases s, 0
  {
    if s.params != [] {
      ParseParamsTokens(s.params, k);
    }
  }

  lemma {:induction false} ParseParamsTokens(params: seq<MoveType>, k: Tokens)
    requires params != [] && AllWellTagged(params)
    ensures ParseParams(TokensOfAll(params, k)) == Some((NormalizeAll(params), k))
    decreases params, 0
  {
    if |params| == 1 {
      ParseTokens(params[0], Tok(Gt, k));
      assert params[1..] == [];
      assert NormalizeAll(params) == [Normalize(params[0])];
    } else {
      ParseTokens(params[0], Tok(Comma, TokensOfAll(params[1..], k)));
      ParseParamsTokens(params[1..], k);
    }
  }

  lemma {:induction false} PathLexable(address: string, m: string, n: string, k: Tokens)
    requires CleanName(address) && CleanName(m) && CleanName(n) && Lexable(k) && Separated(k)
    ensures Lexable(Tok(Word(address), Tok(Path, Tok(Word(m), Tok(Path, Tok(Word(n), k))))))
  {
    var third := Tok(Word(n), k);
    var second := Tok(Word(m), Tok(Path, third));
    assert Lexable(third);
    assert Lexable(Tok(Path, third));
    assert Lexable(second);
    assert Lexable(Tok(Path, second));
  }

  lemma {:induction false} AddressWord(address: string)
    requires Address.Fixed(address).Success?
    ensures CleanName(Address.Fixed(address).value) && Address.Fixed(address).value[0] == '0'
  {
    Address.FixedSucceedsExactly(address);
    Address.PadIsHexExactly(Address.StripPrefix(address));
  }

  lemma {:induction false} TokensLexable(t: MoveType, k: Tokens)
    requires WellTagged(t) && CleanNames(t) && Ends(k) && Lexable(k)
    ensures Lexable(TokensOf(t, k)) && StartsType(TokensOf(t, k))
    decreases t, 1
  {
    hide Address.Fixed, ShortName;
    match t.content
    case None => LeafWord(t.rawTag.tag);
    case Some(VectorContent(inner)) =>
      TokensLexable(inner, Tok(Gt, k));
      assert Lexable(Tok(Lt, TokensOf(inner, Tok(Gt, k))));
    case Some(StructContent(s)) =>
      AddressWord(s.address);
      if s.params == [] {
        PathLexable(Address.Fixed(s.address).value, s.moduleName, s.name, k);
      } else {
        TokensLexableAll(s.params, k);
        PathLexable(Address.Fixed(s.address).value, s.moduleName, s.name, Tok(Lt, TokensOfAll(s.params, k)));
      }
    case Some(GenericTypeParamIndex(n)) => GenericParses(n);
    case Some(ReferenceContent(m, to)) => TokensLexable(to.value, k);
    case Some(UnparsableContent(_)) =>
  }

  lemma {:induction false} TokensLexableAll(params: seq<MoveType>, k: Tokens)
    requires params != [] && AllWellTagged(params) && AllCleanNames(params) && Lexable(k)
    ensures Lexable(TokensOfAll(params, k))
    decreases params, 0
  {
    if |params| == 1 {
      TokensLexable(params[0], Tok(Gt, k));
    } else {
      TokensLexableAll(params[1..], k);
      TokensLexable(params[0], Tok(Comma, TokensOfAll(params[1..], k)));
    }
  }

  lemma {:induction false} LeafPrints(t: MoveType)
    requires t.content.None? && WellTagged(t)
    ensures Encode(t) == Success(ShortName(t.rawTag.tag))
  {
    var name := ShortName(t.rawTag.tag);
    assert (MOVETYPE_PREFIX + name)[|MOVETYPE_PREFIX|..] == name;
  }

  lemma {:induction false} VectorText(p: string, k: string)
    ensures "Vector" + ("<" + (p + (">" + k))) == ("Vector<" + p + ">") + k
  {
  }

  lemma {:induction false} VectorTokens(t: MoveType, inner: MoveType, k: Tokens)
    requires WellTagged(t) && t.content == Some(VectorContent(inner))
    ensures Render(TokensOf(t, k)) == "Vector" + ("<" + Render(TokensOf(inner, Tok(Gt, k))))
  {
    hide Address.Fixed, ShortName;
    assert Render(Tok(Lt, TokensOf(inner, Tok(Gt, k)))) == "<" + Render(TokensOf(inner, Tok(Gt, k)));
  }

  lemma {:induction false} VectorPrints(t: MoveType, inner: MoveType)
    requires WellTagged(t) && t.content == Some(VectorContent(inner)) && Encode(inner).Success?
    ensures Encode(t) == Success("Vector<" + Encode(inner).value + ">")
  {
    hide Address.Fixed, ShortName, EncodeStructTag, EncodeAll;
  }

  lemma {:induction false} SpellVector(t: MoveType, inner: MoveType, k: Tokens)
    requires WellTagged(t) && t.content == Some(VectorContent(inner)) && Encode(inner).Success?
    requires Render(TokensOf(inner, Tok(Gt, k))) == Encode(inner).value + Render(Tok(Gt, k))
    ensures Encode(t).Success? && Render(TokensOf(t, k)) == Encode(t).value + Render(k)
  {
    assert Render(Tok(Gt, k)) == ">" + Render(k);
    hide *;
    VectorTokens(t, inner, k);
    VectorPrints(t, inner);
    VectorText(Encode(inner).value, Render(k));
  }

  function Mark(mutable: bool): string {
    TokenText(if mutable then AmpMut else Amp)
  }

  lemma {:induction false} ReferencePrints(t: MoveType, mutable: bool, to: MoveType)
    requires WellTagged(t) && t.content == Some(ReferenceContent(mutable, Some(to))) && Encode(to).Success?
    ensures Encode(t) == Success(Mark(mutable) + Encode(to).value)
  {
    hide Address.Fixed, ShortName, EncodeStructTag, EncodeAll;
  }

  lemma {:induction false} ReferenceTokens(t: MoveType, mutable: bool, to: MoveType, k: Tokens)
    requires WellTagged(t) && t.content == Some(ReferenceContent(mutable, Some(to)))
    ensures Render(TokensOf(t, k)) == Mark(mutable) + Render(TokensOf(to, k))
  {
    hide Address.Fixed, ShortName, TokenText;
  }

  lemma {:induction false} AppendAssociates(a: string, b: string, c: string)
    ensures a + (b + c) == (a + b) + c
  {
  }

  lemma {:induction false} SpellReference(t: MoveType, mutable: bool, to: MoveType, k: Tokens)
    requires WellTagged(t) && t.content == Some(ReferenceContent(mutable, Some(to))) && Encode(to).Success?
    requires Render(TokensOf(to, k)) == Encode(to).value + Render(k)
    ensures Encode(t).Success? && Render(TokensOf(t, k)) == Encode(t).value + Render(k)
  {
    hide *;
    ReferencePrints(t, mutable, to);
    ReferenceTokens(t, mutable, to, k);
    AppendAssociates(Mark(mutable), Encode(to).value, Render(k));
  }

  lemma {:induction false} StructTagPrints(s: StructTag)
    requires Address.Fixed(s.address).Success? && AllWellTagged(s.params)
    ensures EncodeAll(s.params).Success?
    ensures EncodeStructTag(s) == Success(
      Address.Fixed(s.address).value + "::" + s.moduleName + "::" + s.name + Generics(EncodeAll(s.params).value))
  {
    hide Address.Fixed, Encode;
    EncodeAllSucceedsExactly(s.params);
  }

  /** The tokens of t spell exactly what the printer writes. */
  lemma {:induction false} TokensSpell(t: MoveType, k: Tokens)
    requires WellTagged(t)
    ensures Encode(t).Success? && Render(TokensOf(t, k)) == Encode(t).value + Render(k)
    decreases t, 1
  {
    hide Address.Fixed, ShortName, EncodeStructTag;
    match t.content
    case None => LeafPrints(t);
    case Some(VectorContent(inner)) =>
      TokensSpell(inner, Tok(Gt, k));
      SpellVector(t, inner, k);
    case Some(StructContent(s)) =>
      TokensSpellStruct(s, k);
      StructTagPrints(s);
    case Some(GenericTypeParamIndex(n)) =>
    case Some(ReferenceContent(m, to)) =>
      TokensSpell(to.value, k);
      SpellReference(t, m, to.value, k);
    case Some(UnparsableContent(_)) =>
  }

  lemma {:induction false} TokensSpellStruct(s: StructTag, k: Tokens)
    requires Address.Fixed(s.address).Success? && AllWellTagged(s.params)
    ensures EncodeStructTag(s).Success?
    ensures
      var generics := if s.params == [] then k else Tok(Lt, TokensOfAll(s.params, k));
      Render(Tok(Word(Address.Fixed(s.address).value), Tok(Path, Tok(Word(s.moduleName), Tok(Path, Tok(Word(s.name), generics))))))
      == EncodeStructTag(s).value + Render(k)
    decreases s, 0
  {
    hide Address.Fixed, Encode, EncodeAll, EncodeStructTag, AllWellTagged, TokensOfAll, Join;
    StructTagPrints(s);
    var address, text := Address.Fixed(s.address).value, Generics(EncodeAll(s.params).value);
    if s.params == [] {
      RenderPath(address, s.moduleName, s.name, k, text, Render(k));
    } else {
      TokensSpellAll(s.params, k);
      RenderPath(address, s.moduleName, s.name, Tok(Lt, TokensOfAll(s.params, k)), text, Render(k));
    }
  }

  lemma {:induction false} RenderPath(address: string, m: string, n: string, generics: Tokens, text: string, k: string)
    requires Render(generics) == text + k
    ensures Render(Tok(Word(address), Tok(Path, Tok(Word(m), Tok(Path, Tok(Word(n), generics))))))
         == (address + "::" + m + "::" + n + text) + k
  {
    var third := Tok(Word(n), generics);
    var second := Tok(Word(m), Tok(Path, third));
    assert Render(Tok(Path, third)) == "::" + Render(third);
    assert Render(Tok(Path, second)) == "::" + Render(second);
    Regroup(address, "::", m, "::", n, text, k);
  }

  lemma {:induction false} Regroup(a: string, b: string, c: string, d: string, e: string, f: string, g: string)
    ensures a + (b + (c + (d + (e + (f + g))))) == (a + b + c + d + e + f) + g
  {
  }

  lemma {:induction false} ParamsText(first: string, rest: string, k: string)
    ensures first + ("," + (rest + ">" + k)) == (first + [','] + rest) + ">" + k
  {
  }

  lemma {:induction false} TokensSpellAll(params: seq<MoveType>, k: Tokens)
    requires params != [] && AllWellTagged(params)
    ensures EncodeAll(params).Success?
    ensures Render(TokensOfAll(params, k)) == Join(EncodeAll(params).value, ',') + ">" + Render(k)
    decreases params, 0
  {
    hide Address.Fixed, ShortName, IsAdvanced, EncodeStructTag, Encode, TokensOf, WellTagged;
    EncodeAllSucceedsExactly(params);
    var strings := EncodeAll(params).value;
    assert strings[1..] == EncodeAll(params[1..]).value;
    if |params| == 1 {
      TokensSpell(params[0], Tok(Gt, k));
      assert Render(Tok(Gt, k)) == ">" + Render(k);
    } else {
      var rest := TokensOfAll(params[1..], k);
      TokensSpellAll(params[1..], k);
      TokensSpell(params[0], Tok(Comma, rest));
      assert Render(Tok(Comma, rest)) == "," + Render(rest);
      ParamsText(strings[0], Join(strings[1..], ','), Render(k));
    }
  }

  /** Parsing a printed type gives the tree back, with every address in its repaired form. */
  lemma {:induction false} ParsePrinted(t: MoveType)
    requires Encode(t).Success? && CleanNames(t)
    ensures WellTagged(t) && Parse(Encode(t).value) == Some(Normalize(t))
  {
    EncodeSucceedsExactly(t);
    TokensSpell(t, End);
    TokensLexable(t, End);
    LexRender(TokensOf(t, End));
    ParseTokens(t, End);
    assert Encode(t).value + "" == Encode(t).value;
  }

  /** Normalising addresses changes neither the printed text nor whether it exists. */
  lemma {:induction false} NormalizePrintsTheSame(t: MoveType)
    requires WellTagged(t)
    ensures WellTagged(Normalize(t)) && Encode(Normalize(t)) == Encode(t)
    decreases t, 1
  {
    hide Address.Fixed, ShortName;
    match t.content
    case Some(VectorContent(inner)) => NormalizePrintsTheSame(inner);
    case Some(StructContent(s)) =>
      Address.FixedIsIdempotent(s.address);
      NormalizeAllPrintsTheSame(s.params);
    case Some(ReferenceContent(_, to)) => NormalizePrintsTheSame(to.value);
    case _ =>
  }

  lemma {:induction false} NormalizeAllPrintsTheSame(params: seq<MoveType>)
    requires AllWellTagged(params)
    ensures AllWellTagged(NormalizeAll(params))
    ensures EncodeAll(NormalizeAll(params)) == EncodeAll(params)
    ensures DecodeParams(NormalizeAll(params)) == DecodeParams(params)
    decreases params, 0
  {
    if params != [] {
      NormalizePrintsTheSame(params[0]);
      NormalizeAllPrintsTheSame(params[1..]);
    }
  }

  /** Printed texts agree exactly when the trees differ at most in how their addresses are written. */
  lemma {:induction false} PrintedTypesUnambiguous(t: MoveType, u: MoveType)
    requires Encode(t).Success? && Encode(u).Success? && CleanNames(t) && CleanNames(u)
    ensures WellTagged(t) && WellTagged(u)
    ensures Encode(t) == Encode(u) <==> Normalize(t) == Normalize(u)
  {
    ParsePrinted(t);
    ParsePrinted(u);
    NormalizePrintsTheSame(t);
    NormalizePrintsTheSame(u);
  }

  /** Without clean names two different trees can print alike. */
  lemma {:induction false} DelimiterInNameIsAmbiguous(u8: MoveType, t: MoveType, u: MoveType)
    requires u8 == MoveType(Known(U8), None)
    requires t == StructOf("0x1", "m", "S<U8>", []) && u == StructOf("0x1", "m", "S", [u8])
    ensures Encode(t).Success? && Encode(t) == Encode(u) && t != u
  {
    Address.FixedSucceedsExactly("0x1");
    LeafPrints(u8);
    assert [u8][1..] == [] && EncodeAll([]) == Success([]);
    assert EncodeAll([u8]) == Success(["U8"] + []);
    assert Generics(["U8"]) == "<U8>";
    assert ["U8"] + [] == ["U8"];
    SamePrint(Address.Fixed("0x1").value + "::" + "m" + "::");
  }

  lemma {:induction false} SamePrint(path: string)
    ensures path + "S<U8>" + "" == path + "S" + "<U8>"
  {
  }
}
