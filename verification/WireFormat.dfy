/** The wire, byte by byte: what the words, the tags and the headers look like in a packet. */
module WireFormat {
  import opened Bytes
  import opened Packet
  import opened Numbers
  import opened OrderedMap
  import opened Values
  import opened ValueCodec
  import D = Draft
  import opened OutboundPacketStreams
  import opened StreamRuns
  import opened StreamCalls

  /* ---- words ---- */

  /** The unsigned number that four bytes stand for, most significant first. */
  function Joined(b0: int, b1: int, b2: int, b3: int): int {
    0x100_0000 * b0 + 0x1_0000 * b1 + 0x100 * b2 + b3
  }

  lemma Word32Bytes(b0: Byte, b1: Byte, b2: Byte, b3: Byte)
    ensures 0 <= Joined(b0, b1, b2, b3) < 0x1_0000_0000 && Word32(Joined(b0, b1, b2, b3)) == [b0, b1, b2, b3]
  {
    var x3: nat := Joined(b0, b1, b2, b3);
    var x2: nat := Joined(0, b0, b1, b2);
    var x1: nat := Joined(0, 0, b0, b1);
    assert x3 / 0x100 == x2 && x3 % 0x100 == b3;
    assert x2 / 0x100 == x1 && x2 % 0x100 == b2;
    assert x1 / 0x100 == b0 && x1 % 0x100 == b1;
    assert BigEndian(b0, 1) == [b0];
    assert BigEndian(x1, 2) == [b0, b1];
    assert BigEndian(x2, 3) == [b0, b1, b2];
  }

  /** A 64-bit word stands on the wire with its most significant byte first. */
  lemma Word64OnTheWire(x: UInt64)
    ensures ReadBig(Word64(x), 0, 8) == x.high * 0x1_0000_0000 + x.low
  {
    var s := Word64(x);
    assert s[0..4] == Word32(x.high) && s[4..8] == Word32(x.low);
    Word32RoundTrip(s, 0, x.high);
    Word32RoundTrip(s, 4, x.low);
    EightBytes(s);
  }

  lemma EightBytes(s: seq<Byte>)
    requires |s| == 8
    ensures ReadBig(s, 0, 8) == ReadBig(s, 0, 4) * 0x1_0000_0000 + ReadBig(s, 4, 4)
  {
    var b4: int, b5: int, b6: int, b7: int := s[4], s[5], s[6], s[7];
    assert ReadBig(s, 0, 5) == ReadBig(s, 0, 4) * 0x100 + b4;
    assert ReadBig(s, 0, 6) == ReadBig(s, 0, 5) * 0x100 + b5;
    assert ReadBig(s, 0, 7) == ReadBig(s, 0, 6) * 0x100 + b6;
    assert ReadBig(s, 0, 8) == ReadBig(s, 0, 7) * 0x100 + b7;
    assert ReadBig(s, 4, 1) == b4;
    assert ReadBig(s, 4, 2) == b4 * 0x100 + b5;
    assert ReadBig(s, 4, 3) == ReadBig(s, 4, 2) * 0x100 + b6;
    assert ReadBig(s, 4, 4) == ReadBig(s, 4, 3) * 0x100 + b7;
  }

  /* ---- headers ---- */

  /** "#bundle", a NUL, and the time tag 1, which means immediately. */
  const IMMEDIATE_HEADER: seq<Byte> := [35, 98, 117, 110, 100, 108, 101, 0, 0, 0, 0, 0, 0, 0, 0, 1]

  /** BeginBundleImmediate: on an empty stream it writes sixteen bytes, the mark and the time tag 1, or finds
      no room for them. */
  method BeginBundleImmediate(out: OutboundPacketStream) returns (status: D.Status)
    requires out.Valid() && out.draft == D.EMPTY_DRAFT
    modifies out, out.data
    ensures out.Valid() && (status == D.Ok <==> out.Capacity() >= 16)
    ensures status == D.Ok ==>
              out.Size() == 16 && 16 <= |out.data[..]| && out.data[..16] == IMMEDIATE_HEADER
  {
    var t := UInt64(0, 1);
    ImmediateHeader(out.littleEndianHost, t);
    status := out.BeginBundle(t);
    if status == D.Ok {
      HeaderOnly(out);
    }
  }

  lemma ImmediateHeader(le: bool, t: UInt64)
    requires t.high == 0 && t.low == 1
    ensures var d := D.After(D.EMPTY_DRAFT, D.BeginBundle(t));
            D.DraftSize(d) == 16 && d.message == D.NoMessage && D.Body(le, d) == IMMEDIATE_HEADER
  {
    hide BundleHeader, D.Written;
    var d := D.After(D.EMPTY_DRAFT, D.BeginBundle(t));
    assert d.top == [] && d.bundles == [D.OpenBundle(t, [])];
    FirstBundle(le, t);
    FirstBundle(true, t);
    HeaderBytes(t);
  }

  lemma HeaderBytes(t: UInt64)
    requires t.high == 0 && t.low == 1
    ensures BundleHeader(t) == IMMEDIATE_HEADER
  {
    hide Word64;
    TagOne(t);
    Sixteen(Word64(t));
  }

  lemma TagOne(t: UInt64)
    requires t.high == 0 && t.low == 1
    ensures Word64(t) == [0, 0, 0, 0] + [0, 0, 0, 1]
  {
    hide Word32;
    SmallWord(t.high);
    SmallWord(t.low);
  }

  lemma SmallWord(x: UInt32)
    requires x < 0x100
    ensures Word32(x) == [0, 0, 0, x]
  {
    var zero: Byte, b: Byte := 0, x;
    Word32Bytes(zero, zero, zero, b);
  }

  lemma Sixteen(tag: seq<Byte>)
    requires tag == [0, 0, 0, 0] + [0, 0, 0, 1]
    ensures BUNDLE_MARK + tag == IMMEDIATE_HEADER
  {
    assert tag == [0, 0, 0, 0, 0, 0, 0, 1];
  }

  lemma FirstBundle(le: bool, t: UInt64)
    ensures D.Written(le, [], [D.OpenBundle(t, [])]) == BundleHeader(t)
  {
    hide BundleHeader;
    var bundles := [D.OpenBundle(t, [])];
    assert D.Outer(bundles) == [] && D.Inner(bundles) == bundles[0];
    assert D.Opening(le, [], []) == D.Written(le, [], []) == [];
    assert [] + BundleHeader(t) + [] == BundleHeader(t);
  }

  lemma HeaderOnly(out: OutboundPacketStream)
    requires out.Valid() && out.draft.message == D.NoMessage && |D.Body(out.littleEndianHost, out.draft)| == 16
    ensures out.Size() == 16 && 16 <= |out.data[..]| && out.data[..16] == D.Body(out.littleEndianHost, out.draft)
  {
  }

  /* ---- every tag ---- */

  lemma MessageBytes(a: seq<Byte>, args: seq<Argument>, address: seq<Byte>, tags: seq<Byte>)
    requires |address| == RoundUp4(|a| + 1) && address[..|a|] == a && forall i :: |a| <= i < |address| ==> address[i] == NUL
    requires |tags| == RoundUp4(|args| + 2) && tags[0] == 44 && tags[1..|args| + 1] == Tags(args)
    requires forall i :: |args| < i < |tags| ==> tags[i] == NUL
    ensures Encode(Message(a, args)) == address + tags + Payloads(args)
  {
    hide OscString, Tags, Payloads, RoundUp4;
    OscStringIs(a, address);
    assert tags[..|args| + 1] == [COMMA] + Tags(args);
    OscStringIs([COMMA] + Tags(args), tags);
  }

  lemma {:induction false} FlagsCarryNothing(args: seq<Argument>)
    requires forall a :: a in args ==> a.Flag?
    ensures Payloads(args) == []
  {
    if args != [] {
      assert args[0] in args;
      FlagsCarryNothing(args[1..]);
    }
  }

  /** A message "/" whose tags, with their comma and NULs, are these bytes. */
  lemma SlashMessage(args: seq<Argument>, tags: seq<Byte>)
    requires |tags| == RoundUp4(|args| + 2) && tags[0] == 44 && tags[1..|args| + 1] == Tags(args)
    requires forall i :: |args| < i < |tags| ==> tags[i] == NUL
    ensures Encode(Message([47], args)) == [47, 0, 0, 0] + tags + Payloads(args)
  {
    hide Tags, Payloads;
    MessageBytes([47], args, [47, 0, 0, 0], tags);
  }

  /** The letters of the tags, by the kind of their arguments. */
  predicate Lettered(a: Argument) {
    match a
    case Flag(t) => t in [84, 70, 78, 73, 42, 91, 93, 123, 125]
    case Word(t, _) => t in [105, 102, 99, 114, 109]
    case Long(t, _) => t in [104, 116, 100]
    case Text(t, s) => t in [115, 83] && NulFree(s)
    case Blob(_) => true
  }

  /** These are all the arguments there are. */
  lemma ProperOne(a: Argument)
    ensures a.Proper() <==> Lettered(a)
    ensures a.Blob? ==> a.Tag() == 98
  {
  }

  /** The nine tags without bytes: T F N I * [ ] { } */
  lemma FlagsOnTheWire(args: seq<Argument>)
    requires args == [Flag(84), Flag(70), Flag(78), Flag(73), Flag(42), Flag(91), Flag(93), Flag(123), Flag(125)]
    ensures ProperArguments(args)
    ensures Encode(Message([47], args)) == [47, 0, 0, 0] + [44, 84, 70, 78, 73, 42, 91, 93, 123, 125, 0, 0]
  {
    hide WidthOf, Payloads, Encode, Argument.Proper;
    forall a | a in args
      ensures a.Proper()
    {
      ProperOne(a);
    }
    var tags: seq<Byte> := [44, 84, 70, 78, 73, 42, 91, 93, 123, 125, 0, 0];
    FlagsCarryNothing(args);
    assert tags[1..10] == Tags(args);
    SlashMessage(args, tags);
    assert [47, 0, 0, 0] + tags + [] == [47, 0, 0, 0] + tags;
  }

  /** The five tags with four bytes: i f c r m */
  lemma WordsOnTheWire(args: seq<Argument>, i: UInt32, f: UInt32, c: UInt32, r: UInt32, m: UInt32)
    requires args == [Word(105, i), Word(102, f), Word(99, c), Word(114, r), Word(109, m)]
    ensures ProperArguments(args)
    ensures Encode(Message([47], args)) ==
            [47, 0, 0, 0] + [44, 105, 102, 99, 114, 109, 0, 0] + (Word32(i) + (Word32(f) + (Word32(c) + (Word32(r) + Word32(m)))))
  {
    hide Word32, WidthOf, Payloads, Encode, Argument.Proper;
    forall a | a in args
      ensures a.Proper()
    {
      ProperOne(a);
    }
    var tags: seq<Byte> := [44, 105, 102, 99, 114, 109, 0, 0];
    assert tags[1..6] == Tags(args);
    SlashMessage(args, tags);
    FirstPayload(args);
    FirstPayload(args[1..]);
    FirstPayload(args[1..][1..]);
    FirstPayload(args[1..][1..][1..]);
    FirstPayload(args[1..][1..][1..][1..]);
  }

  lemma FirstPayload(args: seq<Argument>)
    requires args != []
    ensures Payloads(args) == args[0].Payload() + Payloads(args[1..])
    ensures |args| == 1 ==> Payloads(args) == args[0].Payload()
  {
    hide Argument.Payload;
    assert args[0].Payload() + [] == args[0].Payload();
  }

  /** The three tags with eight bytes: h t d */
  lemma LongsOnTheWire(args: seq<Argument>, h: UInt64, t: UInt64, d: UInt64)
    requires args == [Long(104, h), Long(116, t), Long(100, d)]
    ensures ProperArguments(args)
    ensures Encode(Message([47], args)) ==
            [47, 0, 0, 0] + [44, 104, 116, 100, 0, 0, 0, 0] + (Word64(h) + (Word64(t) + Word64(d)))
  {
    hide Word64, WidthOf, Payloads, Encode, Argument.Proper;
    forall a | a in args
      ensures a.Proper()
    {
      ProperOne(a);
    }
    var tags: seq<Byte> := [44, 104, 116, 100, 0, 0, 0, 0];
    assert tags[1..4] == Tags(args);
    SlashMessage(args, tags);
    FirstPayload(args);
    FirstPayload(args[1..]);
    FirstPayload(args[1..][1..]);
  }

  /** A string, a symbol and a blob: s S b */
  lemma TextsOnTheWire(args: seq<Argument>, two: seq<Byte>, three: seq<Byte>, five: seq<Byte>)
    requires |two| == 2 && |three| == 3 && |five| == 5 && NulFree(two) && NulFree(three)
    requires args == [Text(115, two), Text(83, three), Blob(five)]
    ensures ProperArguments(args)
    ensures Encode(Message([47], args)) ==
            [47, 0, 0, 0] + [44, 115, 83, 98, 0, 0, 0, 0] + ((two + [0, 0]) + ((three + [0]) + ([0, 0, 0, 5] + (five + [0, 0, 0]))))
  {
    hide OscString, Padded, Word32, WidthOf, Payloads, Encode, Argument.Proper, NulFree;
    forall a | a in args
      ensures a.Proper()
    {
      ProperOne(a);
    }
    var tags: seq<Byte> := [44, 115, 83, 98, 0, 0, 0, 0];
    assert tags[1..4] == Tags(args);
    SlashMessage(args, tags);
    FirstPayload(args);
    FirstPayload(args[1..]);
    FirstPayload(args[1..][1..]);
    ThreePayloads(two, three, five);
  }

  lemma ThreePayloads(two: seq<Byte>, three: seq<Byte>, five: seq<Byte>)
    requires |two| == 2 && |three| == 3 && |five| == 5
    ensures OscString(two) == two + [0, 0] && OscString(three) == three + [0]
    ensures Blob(five).Payload() == [0, 0, 0, 5] + (five + [0, 0, 0])
  {
    hide OscString, Padded, Word32;
    OscStringIs(two, two + [0, 0]);
    OscStringIs(three, three + [0]);
    SmallWord(|five|);
    PaddedIs(five, five + [0, 0, 0]);
  }

  lemma PaddedIs(s: seq<Byte>, r: seq<Byte>)
    requires |r| == RoundUp4(|s|) && r[..|s|] == s && forall i :: |s| <= i < |r| ==> r[i] == NUL
    ensures Padded(s) == r
  {
    PaddedStart(s);
    assert forall i :: 0 <= i < |s| ==> Padded(s)[i] == Padded(s)[..|s|][i] == r[..|s|][i] == r[i];
  }

  /* ---- every kind of value ---- */

  lemma EmitAllCons(v: Value, rest: seq<Value>)
    requires Sendable(v) && forall x :: x in rest ==> Sendable(x)
    ensures forall x :: x in [v] + rest ==> Sendable(x)
    ensures EmitAll([v] + rest) == Emit(v, true) + EmitAll(rest)
  {
    hide Emit, Sendable;
    assert ([v] + rest)[1..] == rest;
  }

  /** What to_stream writes for each kind of value, by the letters of the tags. */
  lemma ValuesOnTheWire(w: UInt32, s: seq<Byte>, key: Key, v: Value)
    requires NulFree(s) && NulFree(key) && Sendable(v)
    ensures Emit(TrueValue, false) == [Flag(84)] && Emit(FalseValue, false) == [Flag(70)]
    ensures Emit(NilValue, false) == [Flag(78)] && Emit(EmptyValue, false) == [Flag(78)] && Emit(AnyValue, false) == [Flag(42)]
    ensures Emit(RealValue(Single(w)), false) == [Word(102, w)] && Emit(StringValue(s), false) == [Text(115, s)]
    ensures Sendable(ListValue([v])) && Emit(ListValue([v]), false) == Emit(v, true)
    ensures Emit(ListValue([v]), true) == [Flag(91)] + Emit(v, true) + [Flag(93)]
    ensures Sendable(HashValue([Entry(key, v)]))
    ensures Emit(HashValue([Entry(key, v)]), true) == [Flag(123)] + ([Text(115, key)] + Emit(v, true)) + [Flag(125)]
  {
    EmitAllCons(v, []);
    assert [v] + [] == [v] && Emit(v, true) + [] == Emit(v, true);
    OneKey(key, v);
  }

  lemma OneKey(key: Key, v: Value)
    requires NulFree(key) && Sendable(v)
    ensures Sendable(HashValue([Entry(key, v)]))
    ensures EmitEntries([Entry(key, v)]) == [Text(115, key)] + Emit(v, true)
  {
    hide Emit;
    var es := [Entry(key, v)];
    assert es[1..] == [];
    assert [Text(115, key)] + Emit(v, true) + [] == [Text(115, key)] + Emit(v, true);
  }

  /** A midi message: a hash with the key "=m" around a list of four floats. */
  lemma MidiOnTheWire(data: seq<Byte>, length: int)
    requires |data| == 3 && SingleExact(length)
    ensures SingleExact(data[0]) && SingleExact(data[1]) && SingleExact(data[2])
    ensures Emit(MidiValue(data, length, 0), false) ==
            [Flag(123), Text(115, [61, 109]), Flag(91), Word(102, SingleBits(data[0])), Word(102, SingleBits(data[1])),
             Word(102, SingleBits(data[2])), Word(102, SingleBits(length)), Flag(93), Flag(125)]
  {
    hide SingleBits, SingleExact;
    var ns := MidiNumbers(data, length);
    assert ns[0] == ns[..3][0] && ns[1] == ns[..3][1] && ns[2] == ns[..3][2];
    assert ns[0] in ns && ns[1] in ns && ns[2] in ns;
    assert EmitNumbers(ns[3..]) == [SingleOf(length)] + EmitNumbers(ns[3..][1..]) && ns[3..][1..] == [];
    assert EmitNumbers(ns[2..]) == [SingleOf(data[2])] + EmitNumbers(ns[2..][1..]) && ns[2..][1..] == ns[3..];
    assert EmitNumbers(ns[1..]) == [SingleOf(data[1])] + EmitNumbers(ns[1..][1..]) && ns[1..][1..] == ns[2..];
    assert EmitNumbers(ns) == [SingleOf(data[0])] + EmitNumbers(ns[1..]);
  }
}
