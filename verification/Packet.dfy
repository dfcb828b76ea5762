/** What an OSC packet means: typed arguments, messages and nested bundles, and the bytes
    that the Open Sound Control 1.0 Specification assigns to them. */
module Packet {
  import opened Bytes

  const COMMA: Byte := 44       // ','
  const NUMBER_SIGN: Byte := 35 // '#'

  const TRUE_TAG: Byte := 84         // 'T'
  const FALSE_TAG: Byte := 70        // 'F'
  const NIL_TAG: Byte := 78          // 'N'
  const INFINITUM_TAG: Byte := 73    // 'I'
  const ANY_TAG: Byte := 42          // '*'
  const ARRAY_START_TAG: Byte := 91  // '['
  const ARRAY_END_TAG: Byte := 93    // ']'
  const HASH_START_TAG: Byte := 123  // '{'
  const HASH_END_TAG: Byte := 125    // '}'
  const INT32_TAG: Byte := 105       // 'i'
  const FLOAT_TAG: Byte := 102       // 'f'
  const CHAR_TAG: Byte := 99         // 'c'
  const RGBA_TAG: Byte := 114        // 'r'
  const MIDI_TAG: Byte := 109        // 'm'
  const INT64_TAG: Byte := 104       // 'h'
  const TIME_TAG: Byte := 116        // 't'
  const DOUBLE_TAG: Byte := 100      // 'd'
  const STRING_TAG: Byte := 115      // 's'
  const SYMBOL_TAG: Byte := 83       // 'S'
  const BLOB_TAG: Byte := 98         // 'b'

  /** The cases of the reader's two switches over a type tag. */
  datatype Width = NoBytes | FourBytes | EightBytes | StringBytes | BlobBytes | Unknown

  function WidthOf(tag: Byte): Width {
    if tag in [TRUE_TAG, FALSE_TAG, NIL_TAG, INFINITUM_TAG, ANY_TAG,
               ARRAY_START_TAG, ARRAY_END_TAG, HASH_START_TAG, HASH_END_TAG] then NoBytes
    else if tag in [INT32_TAG, FLOAT_TAG, CHAR_TAG, RGBA_TAG, MIDI_TAG] then FourBytes
    else if tag in [INT64_TAG, TIME_TAG, DOUBLE_TAG] then EightBytes
    else if tag in [STRING_TAG, SYMBOL_TAG] then StringBytes
    else if tag == BLOB_TAG then BlobBytes
    else Unknown
  }

  /** One argument, by the width its tag announces. The bits of a float, double, int or colour
      are kept as the unsigned word that carries them. */
  datatype Argument =
    | Flag(tag: Byte)
    | Word(tag: Byte, bits: UInt32)
    | Long(tag: Byte, bits64: UInt64)
    | Text(tag: Byte, text: seq<Byte>)
    | Blob(data: seq<Byte>)
  {
    function Tag(): Byte {
      if Blob? then BLOB_TAG else tag
    }

    predicate Proper() {
      match this
      case Flag(t) => WidthOf(t) == NoBytes
      case Word(t, _) => WidthOf(t) == FourBytes
      case Long(t, _) => WidthOf(t) == EightBytes
      case Text(t, s) => WidthOf(t) == StringBytes && NulFree(s)
      case Blob(_) => true
    }

    function Payload(): seq<Byte> {
      match this
      case Flag(_) => []
      case Word(_, x) => Word32(x)
      case Long(_, x) => Word64(x)
      case Text(_, s) => OscString(s)
      case Blob(d) => SizeWord(|d|) + Padded(d)
    }
  }

  datatype Element =
    | Message(address: seq<Byte>, arguments: seq<Argument>)
    | Bundle(timeTag: UInt64, elements: seq<Element>)

  predicate ProperArguments(args: seq<Argument>) {
    forall a :: a in args ==> a.Proper()
  }

  /** An element the writer's C strings can carry. */
  predicate ProperElement(e: Element) {
    match e
    case Message(a, args) => NulFree(a) && ProperArguments(args)
    case Bundle(_, es) => forall x :: x in es ==> ProperElement(x)
  }

  function Tags(args: seq<Argument>): (t: seq<Byte>)
    ensures |t| == |args|
  {
    seq(|args|, i requires 0 <= i < |args| => args[i].Tag())
  }

  lemma TagsSnoc(args: seq<Argument>, a: Argument)
    ensures Tags(args + [a]) == Tags(args) + [a.Tag()]
  {
  }

  function Payloads(args: seq<Argument>): seq<Byte> {
    if args == [] then [] else args[0].Payload() + Payloads(args[1..])
  }

  lemma {:induction false} PayloadsAppend(a: seq<Argument>, b: seq<Argument>)
    ensures Payloads(a + b) == Payloads(a) + Payloads(b)
  {
    hide Argument.Payload;
    if a == [] {
      assert a + b == b;
    } else {
      PayloadsAppend(a[1..], b);
      assert (a + b)[1..] == a[1..] + b;
      Associate(a[0].Payload(), Payloads(a[1..]), Payloads(b));
    }
  }

  lemma PayloadsSnoc(args: seq<Argument>, a: Argument)
    ensures Payloads(args + [a]) == Payloads(args) + a.Payload()
  {
    PayloadsAppend(args, [a]);
    assert Payloads([a]) == a.Payload() + Payloads([a][1..]);
  }

  /** The OSC type tag string: a comma, the tags, NULs to a 4-byte boundary. */
  function TagString(args: seq<Argument>): (s: seq<Byte>)
    ensures |s| == RoundUp4(|args| + 2)
  {
    OscString([COMMA] + Tags(args))
  }

  const BUNDLE_MARK: seq<Byte> := [35, 98, 117, 110, 100, 108, 101, 0] // "#bundle\0"

  function BundleHeader(timeTag: UInt64): (s: seq<Byte>)
    ensures |s| == 16
  {
    BUNDLE_MARK + Word64(timeTag)
  }

  function Encode(e: Element): seq<Byte>
    decreases e, 0
  {
    match e
    case Message(a, args) => OscString(a) + TagString(args) + Payloads(args)
    case Bundle(t, es) => BundleHeader(t) + EncodeElements(es)
  }

  /** The size slot in front of an element of a bundle, as a 32-bit unsigned conversion stores it. */
  function SizeWord(n: nat): (s: seq<Byte>)
    ensures |s| == 4
  {
    Word32(n % 0x1_0000_0000)
  }

  function Sized(e: Element): seq<Byte>
    decreases e, 1
  {
    SizeWord(|Encode(e)|) + Encode(e)
  }

  function EncodeElements(es: seq<Element>): seq<Byte>
    decreases es
  {
    if es == [] then [] else Sized(es[0]) + EncodeElements(es[1..])
  }

  lemma {:induction false} EncodeElementsAppend(a: seq<Element>, b: seq<Element>)
    ensures EncodeElements(a + b) == EncodeElements(a) + EncodeElements(b)
  {
    if a == [] {
      assert a + b == b;
    } else {
      EncodeElementsAppend(a[1..], b);
      assert (a + b)[1..] == a[1..] + b;
      Associate(Sized(a[0]), EncodeElements(a[1..]), EncodeElements(b));
    }
  }

  lemma EncodeElementsSnoc(es: seq<Element>, e: Element)
    ensures EncodeElements(es + [e]) == EncodeElements(es) + Sized(e)
  {
    EncodeElementsAppend(es, [e]);
    assert EncodeElements([e]) == Sized(e) + EncodeElements([e][1..]);
  }

  /** Elements written one after the other outside any bundle: no size slots. */
  function EncodeTop(es: seq<Element>): seq<Byte> {
    if es == [] then [] else EncodeTop(es[..|es| - 1]) + Encode(es[|es| - 1])
  }

  lemma EncodeTopSnoc(es: seq<Element>, e: Element)
    ensures EncodeTop(es + [e]) == EncodeTop(es) + Encode(e)
  {
    assert (es + [e])[..|es|] == es;
  }

  /** The messages of an element, in written order. */
  function Messages(e: Element): (ms: seq<Element>)
    ensures forall m :: m in ms ==> m.Message?
    decreases e
  {
    match e
    case Message(_, _) => [e]
    case Bundle(_, es) => MessagesOf(es)
  }

  function MessagesOf(es: seq<Element>): (ms: seq<Element>)
    ensures forall m :: m in ms ==> m.Message?
    decreases es
  {
    if es == [] then [] else Messages(es[0]) + MessagesOf(es[1..])
  }

  lemma PayloadWords(a: Argument) returns (words: nat)
    ensures |a.Payload()| == 4 * words
  {
    words := match a
      case Flag(_) => 0
      case Word(_, _) => 1
      case Long(_, _) => 2
      case Text(_, s) => (|s| + 4) / 4
      case Blob(d) => 1 + (|d| + 3) / 4;
  }

  lemma {:induction false} PayloadsWords(args: seq<Argument>) returns (words: nat)
    ensures |Payloads(args)| == 4 * words
  {
    if args == [] {
      words := 0;
    } else {
      var rest := PayloadsWords(args[1..]);
      var first := PayloadWords(args[0]);
      words := first + rest;
    }
  }

  /** Every element takes a whole number of 4-byte words, and at least two of them. */
  lemma {:induction false} EncodeWords(e: Element) returns (words: nat)
    ensures |Encode(e)| == 4 * words && words >= 2
    decreases e
  {
    match e
    case Message(a, args) =>
      var rest := PayloadsWords(args);
      words := (|a| + 4) / 4 + (|args| + 5) / 4 + rest;
    case Bundle(t, es) =>
      var rest := ElementsWords(es);
      words := 4 + rest;
  }

  lemma {:induction false} ElementsWords(es: seq<Element>) returns (words: nat)
    ensures |EncodeElements(es)| == 4 * words
    decreases es
  {
    if es == [] {
      words := 0;
    } else {
      var first := EncodeWords(es[0]);
      var rest := ElementsWords(es[1..]);
      words := 1 + first + rest;
    }
  }

  lemma EncodeAligned(e: Element)
    ensures |Encode(e)| % 4 == 0 && |Encode(e)| >= 8
  {
    var words := EncodeWords(e);
  }
}
