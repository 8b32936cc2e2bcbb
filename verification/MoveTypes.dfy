/** The tagged Move type tree and its printers (reps/movetype.rs, reps/structtag.rs). */
module MoveTypes {
  import opened Wrappers
  import opened Text
  import Address

  datatype MoveTypes =
    | Unspecified | Bool | U8 | U16 | U32 | U64 | U128 | U256 | Addr | Signer | Unparsable
    | Vector | Struct | GenericTypeParam | Reference

  /** The raw enum number of a message: one the generated code knows, or one it does not. */
  datatype RawTag = Known(tag: MoveTypes) | Unknown(number: int)

  /** A type as the protobuf message carries it: a raw enum number and optional content. */
  datatype MoveType = MoveType(rawTag: RawTag, content: Option<Content>)

  datatype Content =
    | VectorContent(inner: MoveType)
    | StructContent(structTag: StructTag)
    | GenericTypeParamIndex(index: nat)
    | ReferenceContent(mutable: bool, to: Option<MoveType>)
    | UnparsableContent(text: string)

  datatype StructTag = StructTag(address: string, moduleName: string, name: string, params: seq<MoveType>)

  datatype MoveTypeError =
    | MoveTypeDecodeError(number: int)
    | LackedPrefix(name: string)
    | MissingContent(tag: MoveTypes)
    | UnparsableType(text: string)
    | UnsupportedAdvMoveType(tag: MoveTypes)
    | EmptyReference
    | ReferenceTypeError(inner: MoveTypeError)
    | InStructTag(cause: StructTagError)

  datatype StructTagError = InAddress(address: Address.AddressErrorType) | InMoveType(moveType: MoveTypeError)

  const MOVETYPE_PREFIX := "MOVE_TYPES_"

  /** The enumerator's name after MOVE_TYPES_. */
  function ShortName(tag: MoveTypes): string {
    match tag
    case Unspecified => "UNSPECIFIED"
    case Bool => "BOOL"
    case U8 => "U8"
    case U16 => "U16"
    case U32 => "U32"
    case U64 => "U64"
    case U128 => "U128"
    case U256 => "U256"
    case Addr => "ADDRESS"
    case Signer => "SIGNER"
    case Unparsable => "UNPARSABLE"
    case Vector => "VECTOR"
    case Struct => "STRUCT"
    case GenericTypeParam => "GENERIC_TYPE_PARAM"
    case Reference => "REFERENCE"
  }

  function AsStrName(tag: MoveTypes): string {
    MOVETYPE_PREFIX + ShortName(tag)
  }

  predicate IsAdvanced(tag: MoveTypes) {
    tag.Reference? || tag.GenericTypeParam? || tag.Struct? || tag.Vector?
  }

  function TryFrom(t: MoveType): Result<MoveTypes, MoveTypeError> {
    match t.rawTag
    case Known(tag) => Success(tag)
    case Unknown(number) => Failure(MoveTypeDecodeError(number))
  }

  /** `MoveType::try_from(..)?.try_encode()?`. */
  function Encode(t: MoveType): Result<string, MoveTypeError>
    decreases t, 1
  {
    var tag :- TryFrom(t);
    match t.content
    case None =>
      if IsAdvanced(tag) then Failure(MissingContent(tag))
      else if MOVETYPE_PREFIX <= AsStrName(tag) then Success(AsStrName(tag)[|MOVETYPE_PREFIX|..])
      else Failure(LackedPrefix(AsStrName(tag)))
    case Some(content) =>
      if tag.Reference? && content.ReferenceContent? then
        if content.to.None? then Failure(EmptyReference)
        else
          match Encode(content.to.value)
          case Success(s) => Success((if content.mutable then "&mut " else "&") + s)
          case Failure(e) => Failure(ReferenceTypeError(e))
      else if tag.Vector? && content.VectorContent? then
        var inner :- Encode(content.inner);
        Success("Vector<" + inner + ">")
      else if tag.Struct? && content.StructContent? then
        match EncodeStructTag(content.structTag)
        case Success(s) => Success(s)
        case Failure(e) => Failure(InStructTag(e))
      else if tag.GenericTypeParam? && content.GenericTypeParamIndex? then
        Success("T" + Decimal(content.index))
      else if tag.Unparsable? && content.UnparsableContent? then
        if content.text == "function" then Success("function") else Failure(UnparsableType(content.text))
      else Failure(UnsupportedAdvMoveType(tag))
  }

  /** The first parameter whose enum number is unknown stops the conversion. */
  function DecodeParams(params: seq<MoveType>): Result<(), MoveTypeError> {
    if params == [] then Success(())
    else
      var _ :- TryFrom(params[0]);
      DecodeParams(params[1..])
  }

  function EncodeAll(params: seq<MoveType>): (r: Result<seq<string>, MoveTypeError>)
    ensures r.Success? ==> |r.value| == |params|
    decreases params, 0
  {
    if params == [] then Success([])
    else
      var first :- Encode(params[0]);
      var rest :- EncodeAll(params[1..]);
      Success([first] + rest)
  }

  function Generics(strings: seq<string>): string {
    if strings == [] then "" else "<" + Join(strings, ',') + ">"
  }

  /** `StructTag::try_from(..)?.try_encode()?`: parameters decode first, then the address, then the parameters print. */
  function EncodeStructTag(t: StructTag): Result<string, StructTagError>
    decreases t, 0
  {
    match DecodeParams(t.params)
    case Failure(e) => Failure(InMoveType(e))
    case Success(_) =>
      match Address.Fixed(t.address)
      case Failure(e) => Failure(InAddress(e))
      case Success(address) =>
        match EncodeAll(t.params)
        case Failure(e) => Failure(InMoveType(e))
        case Success(strings) => Success(address + "::" + t.moduleName + "::" + t.name + Generics(strings))
  }

  lemma {:induction false} EncodeAllFrom(params: seq<MoveType>, i: nat)
    requires i < |params|
    ensures EncodeAll(params[i..]) ==
      match Encode(params[i])
      case Failure(e) => Failure(e)
      case Success(s) =>
        match EncodeAll(params[i + 1..])
        case Failure(e) => Failure(e)
        case Success(rest) => Success([s] + rest)
  {
    assert params[i..][0] == params[i] && params[i..][1..] == params[i + 1..];
  }

  /** The loop both struct tag printers share: print the parameters in order, stop at the first error. */
  method TryEncodeParams(params: seq<MoveType>) returns (r: Result<seq<string>, MoveTypeError>)
    ensures r == EncodeAll(params)
  {
    var strings: seq<string> := [];
    assert params[0..] == params;
    assert forall rest: seq<string> :: strings + rest == rest;
    for i := 0 to |params|
      invariant |strings| == i
      invariant EncodeAll(params) ==
        match EncodeAll(params[i..])
        case Failure(e) => Failure(e)
        case Success(rest) => Success(strings + rest)
    {
      EncodeAllFrom(params, i);
      var s := Encode(params[i]);
      if s.Failure? {
        return Failure(s.error);
      }
      strings := strings + [s.value];
      assert forall rest: seq<string> :: strings + rest == strings[..i] + ([s.value] + rest);
    }
    assert strings + [] == strings;
    return Success(strings);
  }

  /** `TryEncode<String> for StructTag`. */
  method TryEncodeStructTag(t: StructTag) returns (r: Result<string, StructTagError>)
    requires DecodeParams(t.params).Success?
    ensures r == EncodeStructTag(t)
  {
    var address := Address.Fixed(t.address);
    if address.Failure? {
      return Failure(InAddress(address.error));
    }
    var strings := TryEncodeParams(t.params);
    if strings.Failure? {
      return Failure(InMoveType(strings.error));
    }
    var generics := if |strings.value| > 0 then "<" + Join(strings.value, ',') + ">" else "";
    return Success(address.value + "::" + t.moduleName + "::" + t.name + generics);
  }

  /** The width of an unsigned integer type. */
  function Width(tag: MoveTypes): (bits: nat)
    requires tag.U8? || tag.U16? || tag.U32? || tag.U64? || tag.U128? || tag.U256?
  {
    if tag.U8? then 8 else if tag.U16? then 16 else if tag.U32? then 32 else if tag.U64? then 64 else if tag.U128? then 128 else 256
  }

  /** An unsigned integer type prints as `U` and its width. */
  lemma {:induction false} UnsignedPrintsItsWidth(tag: MoveTypes)
    requires tag.U8? || tag.U16? || tag.U32? || tag.U64? || tag.U128? || tag.U256?
    ensures Encode(MoveType(Known(tag), None)) == Success("U" + Decimal(Width(tag)))
  {
    PrefixDrops(tag);
    assert Decimal(1) == "1" && Decimal(3) == "3" && Decimal(6) == "6" && Decimal(2) == "2";
    match tag
    case U8 => assert "U" + Decimal(8) == "U8";
    case U16 => assert "U" + (Decimal(1) + "6") == "U16";
    case U32 => assert "U" + (Decimal(3) + "2") == "U32";
    case U64 => assert "U" + (Decimal(6) + "4") == "U64";
    case U128 => assert "U" + (Decimal(1) + "2" + "8") == "U128";
    case U256 => assert "U" + (Decimal(2) + "5" + "6") == "U256";
  }

  lemma {:induction false} PrefixDrops(tag: MoveTypes)
    requires !IsAdvanced(tag)
    ensures Encode(MoveType(Known(tag), None)) == Success(ShortName(tag))
  {
    hide ShortName;
    assert (MOVETYPE_PREFIX + ShortName(tag))[|MOVETYPE_PREFIX|..] == ShortName(tag);
  }

  /** A vector, a struct, a generic parameter and a reference need content, and no other type does. */
  lemma {:induction false} ContentNeededExactly(tag: MoveTypes)
    ensures Encode(MoveType(Known(tag), None)).Success? <==> tag !in {Vector, Struct, GenericTypeParam, Reference}
    ensures tag in {Vector, Struct, GenericTypeParam, Reference} ==>
      Encode(MoveType(Known(tag), None)) == Failure(MissingContent(tag))
  {
    hide ShortName;
  }

  /** The other types without content print as their enumerators' names after the prefix. */
  lemma {:induction false} PlainNames()
    ensures Encode(MoveType(Known(Bool), None)) == Success("BOOL") && Encode(MoveType(Known(Addr), None)) == Success("ADDRESS")
    ensures Encode(MoveType(Known(Signer), None)) == Success("SIGNER")
    ensures Encode(MoveType(Known(Unspecified), None)) == Success("UNSPECIFIED")
    ensures Encode(MoveType(Known(Unparsable), None)) == Success("UNPARSABLE")
  {
    PrefixDrops(Bool);
    PrefixDrops(Addr);
    PrefixDrops(Signer);
    PrefixDrops(Unspecified);
    PrefixDrops(Unparsable);
  }

  // When printing succeeds

  /** Every node's tag fits its content and every struct address in the tree normalises. */
  predicate WellTagged(t: MoveType)
    decreases t, 1
  {
    match t.content
    case None => t.rawTag.Known? && !IsAdvanced(t.rawTag.tag)
    case Some(VectorContent(inner)) => t.rawTag == Known(Vector) && WellTagged(inner)
    case Some(StructContent(s)) =>
      t.rawTag == Known(Struct) && Address.Fixed(s.address).Success? && AllWellTagged(s.params)
    case Some(GenericTypeParamIndex(_)) => t.rawTag == Known(GenericTypeParam)
    case Some(ReferenceContent(_, to)) => t.rawTag == Known(Reference) && to.Some? && WellTagged(to.value)
    case Some(UnparsableContent(text)) => t.rawTag == Known(Unparsable) && text == "function"
  }

  predicate AllWellTagged(params: seq<MoveType>)
    decreases params, 0
  {
    params != [] ==> WellTagged(params[0]) && AllWellTagged(params[1..])
  }

  /** Printing succeeds exactly on well-tagged trees. */
  lemma {:induction false} EncodeSucceedsExactly(t: MoveType)
    ensures Encode(t).Success? <==> WellTagged(t)
    decreases t, 1
  {
    match t.content
    case None =>
    case Some(VectorContent(inner)) => EncodeSucceedsExactly(inner);
    case Some(StructContent(s)) => EncodeAllSucceedsExactly(s.params);
    case Some(GenericTypeParamIndex(_)) =>
    case Some(ReferenceContent(_, to)) =>
      if to.Some? {
        EncodeSucceedsExactly(to.value);
      }
    case Some(UnparsableContent(_)) =>
  }

  lemma {:induction false} EncodeAllSucceedsExactly(params: seq<MoveType>)
    ensures DecodeParams(params).Success? && EncodeAll(params).Success? <==> AllWellTagged(params)
    decreases params, 0
  {
    if params != [] {
      EncodeSucceedsExactly(params[0]);
      EncodeAllSucceedsExactly(params[1..]);
    }
  }
}
