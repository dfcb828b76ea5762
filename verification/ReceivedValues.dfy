/** What single arguments mean when they arrive, from the bytes of the message to the value. */
module ReceivedValues {
  import opened Bytes
  import opened Packet
  import opened Numbers
  import opened OrderedMap
  import opened Values
  import opened ValueCodec
  import opened ReceivedElements
  import opened PacketRoundTrip
  import opened OscCommand
  import opened WireFormat

  /** The message is accepted, and value_from_osc makes the value of it. */
  predicate Arrives(m: seq<Byte>, v: Value) {
    && Validate(m).Accepted? && BlobsInside(m, Validate(m).view)
    && FromArguments(Decode(m).arguments) == Got(v, [])
  }

  /** A message with one argument arrives as what parsing makes of the argument. */
  lemma OneArrives(arg: Argument, v: Value)
    requires Lettered(arg) && |Encode(Message([47], [arg]))| < 0x1_0000_0000
    requires FromArguments([arg]) == Got(v, [])
    ensures Arrives(Encode(Message([47], [arg])), v)
  {
    hide Encode, Decode, Validate, BlobsInside, FromArguments, Argument.Proper, Lettered;
    ProperOne(arg);
    MessageRoundTrip(Message([47], [arg]));
  }

  /* ---- what parsing makes of one argument ---- */

  /** Not a bracket: [ ] { } */
  predicate Plain(arg: Argument) {
    arg.Tag() !in [91, 93, 123, 125]
  }

  lemma ParsePlain(arg: Argument, rest: seq<Argument>, current: Value)
    requires Plain(arg)
    ensures ParseValue([arg] + rest, current) == Got(Scalar(arg, current), rest)
  {
    hide ParseArray, ParseHash, Scalar;
    assert ([arg] + rest)[1..] == rest;
  }

  lemma AloneArrives(arg: Argument)
    requires Plain(arg)
    ensures FromArguments([arg]) == Got(PushBack(EmptyValue, Scalar(arg, EmptyValue)), [])
  {
    hide ParseValue, ParseArray, PushBack, Scalar, Plain;
    ParsePlain(arg, [], EmptyValue);
    assert [arg] + [] == [arg];
    ArrayTurn([arg], EmptyValue, EmptyValue);
    ArrayEnd([], PushBack(EmptyValue, Scalar(arg, EmptyValue)), Scalar(arg, EmptyValue));
  }

  lemma BothArrive(x: Argument, y: Argument)
    requires Plain(x) && Plain(y)
    ensures var v := Scalar(x, EmptyValue);
            FromArguments([x, y]) == Got(PushBack(PushBack(EmptyValue, v), Scalar(y, v)), [])
  {
    hide ParseValue, ParseArray, PushBack, Scalar;
    var v := Scalar(x, EmptyValue);
    ParsePlain(x, [y], EmptyValue);
    assert [x] + [y] == [x, y] && [y] + [] == [y];
    ArrayTurn([x, y], EmptyValue, EmptyValue);
    ParsePlain(y, [], v);
    ArrayTurn([y], PushBack(EmptyValue, v), v);
    ArrayEnd([], PushBack(PushBack(EmptyValue, v), Scalar(y, v)), Scalar(y, v));
  }

  /** Tags that the parser has no case for: I r h t S b */
  predicate Ignored(arg: Argument) {
    match arg
    case Flag(t) => t == 73
    case Word(t, _) => t == 114
    case Long(t, _) => t == 104 || t == 116
    case Text(t, _) => t == 83
    case Blob(_) => true
  }

  lemma IgnoredLeaves(arg: Argument, current: Value)
    requires Ignored(arg)
    ensures Plain(arg) && Scalar(arg, current) == current
  {
  }

  /** Alone, such an argument leaves nothing; behind another argument, it repeats that argument's value. */
  lemma IgnoredArrives(arg: Argument, x: Argument)
    requires Ignored(arg) && Plain(x)
    ensures FromArguments([arg]) == Got(EmptyValue, [])
    ensures var v := Scalar(x, EmptyValue);
            !v.EmptyValue? && !v.ListValue? ==> FromArguments([x, arg]) == Got(ListValue([v, v]), [])
  {
    hide Scalar, Ignored, Plain, FromArguments;
    IgnoredLeaves(arg, EmptyValue);
    IgnoredLeaves(arg, Scalar(x, EmptyValue));
    AloneArrives(arg);
    BothArrive(x, arg);
  }

  /** In front of a list in brackets, it leaves nothing, whatever came before. */
  lemma IgnoredInBrackets(arg: Argument, rest: seq<Argument>, current: Value)
    requires Ignored(arg)
    ensures ParseValue([Flag(91), arg, Flag(93)] + rest, current) == Got(ListValue([]), rest)
  {
    hide ParseHash, Scalar, Ignored, PushBack;
    var s := [Flag(91), arg, Flag(93)] + rest;
    var inside := [arg] + ([Flag(93)] + rest);
    assert s[1..] == inside && ([Flag(93)] + rest)[1..] == rest;
    IgnoredLeaves(arg, EmptyValue);
    ParsePlain(arg, [Flag(93)] + rest, EmptyValue);
    assert ParseArray(inside, ListValue([]), EmptyValue) == Got(PushBack(ListValue([]), EmptyValue), [Flag(93)] + rest);
    NothingPushed();
  }

  lemma NothingPushed()
    ensures PushBack(ListValue([]), EmptyValue) == ListValue([])
  {
  }

  /* ---- from the bytes ---- */

  /** The bytes of a message "/" with one tag and its four bytes. */
  lemma WordMessage(t: Byte, b0: Byte, b1: Byte, b2: Byte, b3: Byte)
    requires t in [105, 102, 99, 114, 109]
    ensures 0 <= Joined(b0, b1, b2, b3) < 0x1_0000_0000
    ensures Encode(Message([47], [Word(t, Joined(b0, b1, b2, b3))])) == [47, 0, 0, 0] + [44, t, 0, 0] + [b0, b1, b2, b3]
  {
    hide Word32, Joined, Encode, Payloads;
    Word32Bytes(b0, b1, b2, b3);
    var args := [Word(t, Joined(b0, b1, b2, b3))];
    var tags: seq<Byte> := [44, t, 0, 0];
    assert tags[1..2] == Tags(args);
    SlashMessage(args, tags);
    FirstPayload(args);
  }

  /** ",i": the number that the four bytes are in two's complement. */
  lemma Int32Arrives(b0: Byte, b1: Byte, b2: Byte, b3: Byte, n: int)
    requires n == Joined(if b0 >= 0x80 then b0 - 0x100 else b0, b1, b2, b3)
    ensures exists x :: Arrives([47, 0, 0, 0] + [44, 105, 0, 0] + [b0, b1, b2, b3], RealValue(x)) && Denotes(x, n)
  {
    var w := Joined(b0, b1, b2, b3);
    WordMessage(105, b0, b1, b2, b3);
    WordArrives(105, w);
    hide Arrives;
    assert Denotes(Int32(w), n);
  }

  /** ",c": the last byte, as a signed char. */
  lemma CharArrives(b0: Byte, b1: Byte, b2: Byte, b3: Byte)
    ensures exists x :: Arrives([47, 0, 0, 0] + [44, 99, 0, 0] + [b0, b1, b2, b3], RealValue(x))
                        && Denotes(x, if b3 >= 0x80 then b3 - 0x100 else b3)
  {
    hide Joined, Encode, Arrives;
    var w := Joined(b0, b1, b2, b3);
    WordMessage(99, b0, b1, b2, b3);
    WordArrives(99, w);
    LastByte(b0, b1, b2, b3);
    CharIs(w, b3);
  }

  lemma CharIs(w: UInt32, b: Byte)
    requires (b - w) % 0x100 == 0 && (b - 0x100 - w) % 0x100 == 0
    ensures Denotes(Char(w), if b >= 0x80 then b - 0x100 else b)
  {
  }

  lemma LastByte(b0: Byte, b1: Byte, b2: Byte, b3: Byte)
    ensures (b3 - Joined(b0, b1, b2, b3)) % 0x100 == 0
    ensures (b3 - 0x100 - Joined(b0, b1, b2, b3)) % 0x100 == 0
  {
    var q := 0x1_0000 * b0 + 0x100 * b1 + b2;
    assert b3 - Joined(b0, b1, b2, b3) == 0x100 * (-q);
    assert b3 - 0x100 - Joined(b0, b1, b2, b3) == 0x100 * (-q - 1);
  }

  /** ",m": the last three bytes, in their order. */
  lemma MidiArrives(b0: Byte, b1: Byte, b2: Byte, b3: Byte)
    ensures Arrives([47, 0, 0, 0] + [44, 109, 0, 0] + [b0, b1, b2, b3], MidiValue([b1, b2, b3], 0, 0))
  {
    var w := Joined(b0, b1, b2, b3);
    WordMessage(109, b0, b1, b2, b3);
    MidiBytes(b0, b1, b2, b3);
    WordArrives(109, w);
  }

  lemma MidiBytes(b0: Byte, b1: Byte, b2: Byte, b3: Byte)
    ensures var w := Joined(b0, b1, b2, b3);
            w / 0x1_0000 % 0x100 == b1 && w / 0x100 % 0x100 == b2 && w % 0x100 == b3
  {
    var w := Joined(b0, b1, b2, b3);
    assert w / 0x100 == 0x1_0000 * b0 + 0x100 * b1 + b2;
    assert w / 0x1_0000 == 0x100 * b0 + b1;
  }

  lemma WordArrives(t: Byte, w: UInt32)
    requires t in [105, 102, 99, 109]
    ensures Arrives(Encode(Message([47], [Word(t, w)])), WordValue(t, w))
  {
    hide Encode, Arrives, FromArguments, Scalar, WordValue;
    var arg := Word(t, w);
    WordParses(t, w);
    AloneArrives(arg);
    WordLength(t, w);
    OneArrives(arg, WordValue(t, w));
  }

  /** The value behind each letter. */
  function WordValue(t: Byte, w: UInt32): (v: Value)
    ensures !v.EmptyValue? && !v.ListValue?
  {
    if t == 105 then RealValue(Int32(w))
    else if t == 102 then RealValue(Single(w))
    else if t == 99 then RealValue(Char(w))
    else MidiValue([w / 0x1_0000 % 0x100, w / 0x100 % 0x100, w % 0x100], 0, 0)
  }

  lemma WordParses(t: Byte, w: UInt32)
    requires t in [105, 102, 99, 109]
    ensures Plain(Word(t, w)) && Lettered(Word(t, w)) && Scalar(Word(t, w), EmptyValue) == WordValue(t, w)
  {
  }

  lemma WordLength(t: Byte, w: UInt32)
    ensures |Encode(Message([47], [Word(t, w)]))| == 12
  {
    hide Word32, OscString;
    FirstPayload([Word(t, w)]);
  }

  /** ",f": the whole number that the four bytes are as an IEEE 754 single. */
  lemma FloatArrives(b0: Byte, b1: Byte, b2: Byte, b3: Byte, n: int)
    requires Floating(b0 >= 0x80, b0 % 0x80 * 2 + b1 / 0x80, Joined(0, b1 % 0x80, b2, b3), 23, 127, n)
    ensures exists x :: Arrives([47, 0, 0, 0] + [44, 102, 0, 0] + [b0, b1, b2, b3], RealValue(x)) && Denotes(x, n)
  {
    var w := Joined(b0, b1, b2, b3);
    WordMessage(102, b0, b1, b2, b3);
    WordArrives(102, w);
    hide Arrives, Floating;
    SingleFields(b0, b1, b2, b3);
    assert Denotes(Single(w), n);
  }

  lemma SingleFields(b0: Byte, b1: Byte, b2: Byte, b3: Byte)
    ensures var w := Joined(b0, b1, b2, b3);
            && (w >= SIGN_BIT <==> b0 >= 0x80) && w / HIDDEN_BIT % 0x100 == b0 % 0x80 * 2 + b1 / 0x80
            && w % HIDDEN_BIT == Joined(0, b1 % 0x80, b2, b3)
  {
    var fraction := Joined(0, b1 % 0x80, b2, b3);
    var exponent := b0 % 0x80 * 2 + b1 / 0x80;
    assert b0 == (if b0 >= 0x80 then 0x80 else 0) + b0 % 0x80 && b1 == b1 / 0x80 * 0x80 + b1 % 0x80;
    FieldsOf(b0 >= 0x80, exponent, fraction, Joined(b0, b1, b2, b3));
  }

  /** ",d": the whole number that the eight bytes are as an IEEE 754 double. */
  lemma DoubleArrives(b0: Byte, b1: Byte, b2: Byte, b3: Byte, b4: Byte, b5: Byte, b6: Byte, b7: Byte, n: int)
    requires 0 <= Joined(b4, b5, b6, b7)
    requires Floating(b0 >= 0x80, b0 % 0x80 * 0x10 + b1 / 0x10,
                      Joined(0, b1 % 0x10, b2, b3) * 0x1_0000_0000 + Joined(b4, b5, b6, b7), 52, 1023, n)
    ensures exists x :: Arrives([47, 0, 0, 0] + [44, 100, 0, 0] + ([b0, b1, b2, b3] + [b4, b5, b6, b7]), RealValue(x)) && Denotes(x, n)
  {
    hide Word32, Joined, Encode, Arrives, Floating;
    Word32Bytes(b0, b1, b2, b3);
    Word32Bytes(b4, b5, b6, b7);
    var w := UInt64(Joined(b0, b1, b2, b3), Joined(b4, b5, b6, b7));
    LongMessage(w, [b0, b1, b2, b3], [b4, b5, b6, b7]);
    LongArrives(w);
    DoubleFields(b0, b1, b2, b3);
    DoubleIs(w, b0 >= 0x80, b0 % 0x80 * 0x10 + b1 / 0x10, Joined(0, b1 % 0x10, b2, b3), n);
  }

  lemma DoubleIs(w: UInt64, negative: bool, exponent: nat, fraction: nat, n: int)
    requires (w.high >= SIGN_BIT <==> negative) && w.high / 0x10_0000 % 0x800 == exponent && w.high % 0x10_0000 == fraction
    requires Floating(negative, exponent, fraction * 0x1_0000_0000 + w.low, 52, 1023, n)
    ensures Denotes(Double(w), n)
  {
    hide Floating;
  }

  lemma DoubleFields(b0: Byte, b1: Byte, b2: Byte, b3: Byte)
    ensures var w := Joined(b0, b1, b2, b3);
            && (w >= SIGN_BIT <==> b0 >= 0x80) && w / 0x10_0000 % 0x800 == b0 % 0x80 * 0x10 + b1 / 0x10
            && w % 0x10_0000 == Joined(0, b1 % 0x10, b2, b3)
  {
    var fraction := Joined(0, b1 % 0x10, b2, b3);
    var exponent := b0 % 0x80 * 0x10 + b1 / 0x10;
    assert b0 == (if b0 >= 0x80 then 0x80 else 0) + b0 % 0x80 && b1 == b1 / 0x10 * 0x10 + b1 % 0x10;
    HighFields(b0 >= 0x80, exponent, fraction, Joined(b0, b1, b2, b3));
  }

  lemma HighFields(negative: bool, exponent: nat, fraction: nat, high: nat)
    requires exponent < 0x800 && fraction < 0x10_0000
    requires high == (if negative then SIGN_BIT else 0) + exponent * 0x10_0000 + fraction
    ensures (high >= SIGN_BIT <==> negative) && high / 0x10_0000 % 0x800 == exponent && high % 0x10_0000 == fraction
  {
  }

  lemma LongMessage(w: UInt64, high: seq<Byte>, low: seq<Byte>)
    requires Word32(w.high) == high && Word32(w.low) == low
    ensures Encode(Message([47], [Long(100, w)])) == [47, 0, 0, 0] + [44, 100, 0, 0] + (high + low)
  {
    hide Word32, Encode, Payloads;
    var args := [Long(100, w)];
    var tags: seq<Byte> := [44, 100, 0, 0];
    assert tags[1..2] == Tags(args);
    SlashMessage(args, tags);
    FirstPayload(args);
  }

  lemma LongArrives(w: UInt64)
    ensures Arrives(Encode(Message([47], [Long(100, w)])), RealValue(Double(w)))
  {
    hide Arrives, FromArguments, Scalar, Encode;
    var arg := Long(100, w);
    DoubleParses(w);
    AloneArrives(arg);
    LongMessage(w, Word32(w.high), Word32(w.low));
    OneArrives(arg, RealValue(Double(w)));
  }

  lemma DoubleParses(w: UInt64)
    ensures Plain(Long(100, w)) && Lettered(Long(100, w)) && Scalar(Long(100, w), EmptyValue) == RealValue(Double(w))
  {
  }

  /** The bytes 40 4E 00 00 00 00 00 00 are the double 60, and 42 70 00 00 the single 60. */
  lemma Sixty()
    ensures Denotes(Double(UInt64(0x404E_0000, 0)), 60) && Denotes(Single(0x4270_0000), 60)
  {
    hide Exp2;
    FractionBits();
    Powers();
  }

  lemma Powers()
    ensures Exp2(18) == 0x4_0000 && Exp2(47) == 0x8000 * 0x1_0000_0000
  {
    hide Exp2;
    SmallExp2();
    TinyExp2();
    Exp2Adds(16, 2);
    Exp2Adds(16, 16);
    Exp2Adds(32, 15);
  }

  lemma TinyExp2()
    ensures Exp2(2) == 4 && Exp2(15) == 0x8000
  {
    assert Exp2(8) == 0x100;
  }

  /* ---- hashes as nobody sends them ---- */

  lemma BracesArrive(inside: seq<Argument>, v: Value)
    requires ParseHash(inside + [Flag(125)], HashValue([])) == Got(v, [Flag(125)]) && !v.EmptyValue? && !v.ListValue?
    ensures FromArguments([Flag(123)] + (inside + [Flag(125)])) == Got(v, [])
  {
    hide ParseValue, ParseArray, ParseHash, PushBack;
    var s := [Flag(123)] + (inside + [Flag(125)]);
    assert s[1..] == inside + [Flag(125)];
    ParseBrace(s, EmptyValue);
    assert [Flag(125)][1..] == [];
    ArrayTurn(s, EmptyValue, EmptyValue);
    ArrayEnd([], PushBack(EmptyValue, v), v);
    FirstPushed(v);
  }

  lemma FirstPushed(v: Value)
    requires !v.EmptyValue? && !v.ListValue?
    ensures PushBack(EmptyValue, v) == v
  {
  }

  lemma KeyTurn(key: Key, x: Argument, rest: seq<Argument>, self: Value)
    requires Plain(x)
    ensures ParseHash([Text(115, key), x] + rest, self) ==
            if PackedKey(key) && key[1] != 109 then ParseHash([x] + rest, self)
            else ParseHash(rest, if PackedKey(key) then Unpack(Scalar(x, EmptyValue)) else SetKey(self, key, Scalar(x, EmptyValue)))
  {
    hide ParseValue, ParseArray, Unpack, SetKey, Scalar;
    var s := [Text(115, key), x] + rest;
    assert s[1..] == [x] + rest;
    ParsePlain(x, rest, EmptyValue);
  }

  lemma KeyAtBrace(key: Key, self: Value)
    requires !PackedKey(key)
    ensures ParseHash([Text(115, key)] + [Flag(125)], self) == Got(SetKey(self, key, EmptyValue), [Flag(125)])
  {
    hide ParseValue, ParseArray, ParseHash, SetKey, PackedKey;
    var s := [Text(115, key)] + [Flag(125)];
    assert s[1..] == [Flag(125)];
    AtBrace([Flag(125)], EmptyValue);
    HashStep(s, self, key, EmptyValue, [Flag(125)]);
    HashEnd([Flag(125)], SetKey(self, key, EmptyValue));
  }

  lemma AtBrace(s: seq<Argument>, current: Value)
    requires s != [] && s[0] == Flag(125)
    ensures ParseValue(s, current) == Got(current, s)
  {
    hide ParseArray, ParseHash;
  }

  /** A key without a value holds nil. */
  lemma MissingValueArrives(key: Key)
    requires !PackedKey(key)
    ensures FromArguments([Flag(123)] + ([Text(115, key)] + [Flag(125)])) == Got(HashValue([Entry(key, NilValue)]), [])
  {
    hide ParseHash, FromArguments;
    KeyAtBrace(key, HashValue([]));
    BracesArrive([Text(115, key)], HashValue([Entry(key, NilValue)]));
  }

  /** A key that comes twice holds the second value. */
  lemma SecondValueArrives(key: Key, x: Argument, y: Argument)
    requires !PackedKey(key) && Plain(x) && Plain(y)
    ensures var v := Stored(Scalar(y, EmptyValue));
            FromArguments([Flag(123)] + (([Text(115, key), x] + [Text(115, key), y]) + [Flag(125)])) == Got(HashValue([Entry(key, v)]), [])
  {
    hide ParseHash, FromArguments, Scalar, PackedKey, Plain;
    var first, second := Scalar(x, EmptyValue), Scalar(y, EmptyValue);
    var inside := [Text(115, key), x] + [Text(115, key), y];
    assert inside + [Flag(125)] == [Text(115, key), x] + ([Text(115, key), y] + [Flag(125)]);
    KeyTurn(key, x, [Text(115, key), y] + [Flag(125)], HashValue([]));
    KeyTurn(key, y, [Flag(125)], SetKey(HashValue([]), key, first));
    assert SetKey(SetKey(HashValue([]), key, first), key, second) == HashValue([Entry(key, Stored(second))]);
    HashEnd([Flag(125)], HashValue([Entry(key, Stored(second))]));
    BracesArrive(inside, HashValue([Entry(key, Stored(second))]));
  }

  /** The name of a packed type that nobody knows is passed over; "=m" in front of anything that is no list
      gives a midi message without bytes and length. */
  lemma PackedArrives(key: Key, x: Argument)
    requires |key| > 1 && key[0] == 61 && Plain(x)
    ensures key[1] == 109 ==> FromArguments([Flag(123)] + ([Text(115, key), x] + [Flag(125)])) == Got(UnsetMidiValue([]), [])
    ensures key[1] != 109 ==> FromArguments([Flag(123)] + ([Text(115, key)] + [Flag(125)])) == Got(HashValue([]), [])
  {
    hide ParseHash, FromArguments, Scalar, Plain;
    if key[1] == 109 {
      KeyTurn(key, x, [Flag(125)], HashValue([]));
      NoList(x);
      HashEnd([Flag(125)], UnsetMidiValue([]));
      BracesArrive([Text(115, key), x], UnsetMidiValue([]));
    } else {
      PassedOverAtBrace(key);
      BracesArrive([Text(115, key)], HashValue([]));
    }
  }

  /** A packed midi message takes the place of the entries in front of it. */
  lemma PackedReplaces(key: Key, x: Argument, packed: Key, y: Argument)
    requires !PackedKey(key) && |packed| > 1 && packed[0] == 61 && packed[1] == 109 && Plain(x) && Plain(y)
    ensures FromArguments([Flag(123)] + (([Text(115, key), x] + [Text(115, packed), y]) + [Flag(125)])) == Got(UnsetMidiValue([]), [])
  {
    hide ParseHash, FromArguments, Scalar, Plain, Unpack, SetKey;
    assert PackedKey(packed);
    hide PackedKey;
    var entry, midi := [Text(115, key), x], [Text(115, packed), y];
    NothingUnpacked(y);
    assert (entry + midi) + [Flag(125)] == entry + (midi + [Flag(125)]);
    KeyTurn(key, x, midi + [Flag(125)], HashValue([]));
    KeyTurn(packed, y, [Flag(125)], SetKey(HashValue([]), key, Scalar(x, EmptyValue)));
    HashEnd([Flag(125)], UnsetMidiValue([]));
    BracesArrive(entry + midi, UnsetMidiValue([]));
  }

  /** A key behind a packed midi message takes its place. */
  lemma KeyReplaces(key: Key, x: Argument, packed: Key, y: Argument)
    requires !PackedKey(key) && |packed| > 1 && packed[0] == 61 && packed[1] == 109 && Plain(x) && Plain(y)
    ensures var v := HashValue([Entry(key, Stored(Scalar(x, EmptyValue)))]);
            FromArguments([Flag(123)] + (([Text(115, packed), y] + [Text(115, key), x]) + [Flag(125)])) == Got(v, [])
  {
    hide ParseHash, FromArguments, Scalar, Plain, Unpack, Stored;
    assert PackedKey(packed);
    hide PackedKey;
    var entry, midi := [Text(115, key), x], [Text(115, packed), y];
    var v := HashValue([Entry(key, Stored(Scalar(x, EmptyValue)))]);
    NothingUnpacked(y);
    assert (midi + entry) + [Flag(125)] == midi + (entry + [Flag(125)]);
    KeyTurn(packed, y, entry + [Flag(125)], HashValue([]));
    KeyTurn(key, x, [Flag(125)], UnsetMidiValue([]));
    HashEnd([Flag(125)], v);
    BracesArrive(midi + entry, v);
  }

  lemma NothingUnpacked(y: Argument)
    ensures Unpack(Scalar(y, EmptyValue)) == UnsetMidiValue([])
  {
    hide Scalar;
    NoList(y);
  }

  lemma NoList(x: Argument)
    ensures !Scalar(x, EmptyValue).ListValue?
  {
  }

  lemma PassedOverAtBrace(key: Key)
    requires PackedKey(key) && key[1] != LETTER_M
    ensures ParseHash([Text(115, key)] + [Flag(125)], HashValue([])) == Got(HashValue([]), [Flag(125)])
  {
    hide ParseValue, ParseArray;
    assert ([Text(115, key)] + [Flag(125)])[1..] == [Flag(125)];
    HashEnd([Flag(125)], HashValue([]));
  }
}
