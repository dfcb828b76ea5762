/** build_message and value_from_osc: a value written into a packet and taken out of it again. */
module OscCommand {
  import opened Wrappers
  import opened Bytes
  import opened Packet
  import opened Numbers
  import opened OrderedMap
  import opened Values
  import opened ValueCodec
  import opened TagBalance
  import opened ReceivedElements
  import opened PacketRoundTrip
  import opened OutboundPacketStreams
  import opened StreamRuns
  import D = Draft

  /* ---- the round trip of values ---- */

  /** value_from_osc, on the arguments of a message. */
  function FromArguments(s: seq<Argument>): Parse {
    ParseArray(s, EmptyValue, EmptyValue)
  }

  /** What a sent value comes back as: a list of one element that is no list comes back as that
      element, an empty list as Empty, and Empty as Nil; everything else as it was. */
  function Returned(v: Value): Value {
    match v
    case ListValue(vs) => Collapsed(vs)
    case _ => Stored(v)
  }

  lemma {:induction false} ParsedUnpacked(s: seq<Argument>, current: Value)
    requires Unpacked(current)
    ensures ParseValue(s, current).Got? ==> Unpacked(ParseValue(s, current).value)
    decreases |s|, 0
  {
    if s != [] {
      if s[0].Tag() == ARRAY_START_TAG {
        ParsedArrayUnpacked(s[1..], ListValue([]), EmptyValue);
      } else if s[0].Tag() == HASH_START_TAG {
        ParsedHashUnpacked(s[1..], HashValue([]));
      }
    }
  }

  lemma {:induction false} ParsedArrayUnpacked(s: seq<Argument>, self: Value, current: Value)
    requires Unpacked(self) && Unpacked(current)
    ensures ParseArray(s, self, current).Got? ==> Unpacked(ParseArray(s, self, current).value)
    decreases |s|, 1
  {
    hide ParseValue, ParseArray, Unpacked, PushBack;
    if s == [] {
      ArrayEnd(s, self, current);
    } else {
      ParsedUnpacked(s, current);
      ArrayTurn(s, self, current);
      var r := ParseValue(s, current);
      if r.Got? {
        PushUnpacked(self, r.value);
        if |r.rest| < |s| {
          ParsedArrayUnpacked(r.rest, PushBack(self, r.value), r.value);
        }
      }
    }
  }

  lemma PushUnpacked(self: Value, v: Value)
    requires Unpacked(self) && Unpacked(v)
    ensures Unpacked(PushBack(self, v))
  {
  }

  lemma {:induction false} ParsedHashUnpacked(s: seq<Argument>, self: Value)
    requires Unpacked(self)
    ensures ParseHash(s, self).Got? ==> Unpacked(ParseHash(s, self).value)
    decreases |s|, 1
  {
    hide ParseValue, Unpack, Unpacked, SetKey;
    if s != [] && s[0].Text? && s[0].tag == STRING_TAG {
      var key := s[0].text;
      if PackedKey(key) && key[1] != LETTER_M {
        ParsedHashUnpacked(s[1..], self);
      } else {
        EmptyUnpacked();
        ParsedUnpacked(s[1..], EmptyValue);
        match ParseValue(s[1..], EmptyValue) {
          case Got(v, rest) =>
            if !PackedKey(key) {
              SetKeyUnpacked(self, key, v);
              ParsedHashUnpacked(rest, SetKey(self, key, v));
            } else {
              MidiUnpacked(v);
              ParsedHashUnpacked(rest, Unpack(v));
            }
          case _ =>
        }
      }
    }
  }

  lemma EmptyUnpacked()
    ensures Unpacked(EmptyValue)
  {
  }

  lemma MidiUnpacked(v: Value)
    ensures Unpacked(Unpack(v))
  {
  }

  lemma SetKeyUnpacked(self: Value, key: Key, v: Value)
    requires Unpacked(self) && Unpacked(v) && !PackedKey(key)
    ensures Unpacked(SetKey(self, key, v))
  {
    var es := if self.HashValue? then self.entries else [];
    PutMembers(es, key, Stored(v));
  }

  lemma {:induction false} PutMembers(es: seq<Entry<Key, Value>>, key: Key, v: Value)
    ensures forall e :: e in Put(es, key, v) ==> e in es || e == Entry(key, v)
  {
    if es != [] && es[0].key != key {
      PutMembers(es[1..], key, v);
    }
  }

  /** The values whose arguments follow each other on the first level. */
  function TopValues(v: Value): seq<Value> {
    if v.ListValue? then v.values else [Stored(v)]
  }

  lemma EmitTop(v: Value)
    requires Sendable(v) || v.EmptyValue?
    ensures (forall x :: x in TopValues(v) ==> Sendable(x)) && Emit(v, false) == EmitAll(TopValues(v))
    ensures Returned(v) == Collapsed(TopValues(v))
  {
    if !v.ListValue? {
      hide EmitEntries, EmitNumbers, Sendable;
      assert [Stored(v)][1..] == [] && EmitAll([]) == [];
      assert EmitAll([Stored(v)]) == Emit(Stored(v), true) + EmitAll([Stored(v)][1..]);
    }
  }

  lemma TopUnpacked(v: Value)
    ensures Unpacked(v) <==> forall x :: x in TopValues(v) ==> Unpacked(x)
    ensures Unpacked(v) <==> Unpacked(Returned(v))
  {
    assert v.ListValue? && |v.values| == 1 ==> v.values[0] in v.values;
  }

  /** What comes back is what was sent, except for an Empty value, an empty list, and a list of one element
      that is no list. */
  lemma ReturnedItself(v: Value)
    ensures Returned(v) == v <==>
              !v.EmptyValue? && !(v.ListValue? && (v.values == [] || (|v.values| == 1 && !v.values[0].ListValue?)))
    ensures Returned(EmptyValue) == NilValue && Returned(ListValue([])) == EmptyValue
    ensures !v.ListValue? ==> Returned(ListValue([v])) == v
  {
    if v.ListValue? && |v.values| == 1 {
      assert v decreases to v.values[0];
    }
  }

  /** The round trip. A value that can be sent comes back, with its hash key order, exactly when no hash
      in it has a key that names a packed type; nothing is left over. */
  lemma ValueRoundTrip(v: Value)
    requires Sendable(v) || v.EmptyValue?
    ensures FromArguments(Emit(v, false)) == Got(Returned(v), []) <==> Unpacked(v)
  {
    hide Emit, EmitAll, ParseArray, Unpacked, Sendable, Collapsed, Returned, PushAll;
    var vs := TopValues(v);
    EmitTop(v);
    TopUnpacked(v);
    EmptyUnpacked();
    ParsedArrayUnpacked(Emit(v, false), EmptyValue, EmptyValue);
    if Unpacked(v) {
      assert EmitAll(vs) + [] == EmitAll(vs);
      ParseEmittedList(vs, [], EmptyValue, EmptyValue);
      NoEmptyInside(vs);
      PushAllOnEmpty(vs);
    }
  }

  /** What to_stream writes, C strings and the writer can carry. */
  lemma {:induction false} EmitProper(v: Value, inArray: bool)
    requires Sendable(v) || v.EmptyValue?
    ensures ProperArguments(Emit(v, inArray))
    decreases v, 1
  {
    hide ProperArguments, EmitAll, EmitEntries, EmitNumbers, MidiNumbers;
    if v.ListValue? {
      EmitAllProper(v.values);
      EnclosedProper(ARRAY_START_TAG, EmitAll(v.values), ARRAY_END_TAG);
    } else if v.HashValue? {
      EmitEntriesProper(v.entries);
      EnclosedProper(HASH_START_TAG, EmitEntries(v.entries), HASH_END_TAG);
    } else if v.MidiValue? {
      MidiProper(v);
    } else {
      OneProper(v, inArray);
    }
  }

  lemma EnclosedProper(open: Byte, body: seq<Argument>, close: Byte)
    requires ProperArguments(body) && WidthOf(open) == WidthOf(close) == NoBytes
    ensures ProperArguments([Flag(open)] + body + [Flag(close)])
  {
    hide WidthOf;
  }

  lemma OneProper(v: Value, inArray: bool)
    requires (Sendable(v) || v.EmptyValue?) && !v.ListValue? && !v.HashValue? && !v.MidiValue?
    ensures ProperArguments(Emit(v, inArray))
  {
  }

  lemma MidiProper(v: Value)
    requires Sendable(v) && v.MidiValue?
    ensures ProperArguments(Emit(v, true)) && Emit(v, false) == Emit(v, true)
  {
    hide EmitNumbers, SingleExact;
    var body := EmitNumbers(MidiNumbers(v.data, v.length));
    EmitNumbersProper(MidiNumbers(v.data, v.length));
    EnclosedProper(ARRAY_START_TAG, body, ARRAY_END_TAG);
    var key := [Text(STRING_TAG, MIDI_KEY)];
    assert ProperArguments(key);
    EnclosedProper(HASH_START_TAG, key + ([Flag(ARRAY_START_TAG)] + body + [Flag(ARRAY_END_TAG)]), HASH_END_TAG);
    assert Emit(v, true) == [Flag(HASH_START_TAG)] + (key + ([Flag(ARRAY_START_TAG)] + body + [Flag(ARRAY_END_TAG)])) + [Flag(HASH_END_TAG)];
  }

  lemma {:induction false} EmitNumbersProper(ns: seq<int>)
    requires forall n :: n in ns ==> SingleExact(n)
    ensures ProperArguments(EmitNumbers(ns))
  {
    if ns != [] {
      EmitNumbersProper(ns[1..]);
    }
  }

  lemma {:induction false} EmitAllProper(vs: seq<Value>)
    requires forall x :: x in vs ==> Sendable(x)
    ensures ProperArguments(EmitAll(vs))
    decreases vs, 0
  {
    if vs != [] {
      EmitProper(vs[0], true);
      EmitAllProper(vs[1..]);
    }
  }

  lemma {:induction false} EmitEntriesProper(es: seq<Entry<Key, Value>>)
    requires forall e :: e in es ==> NulFree(e.key) && Sendable(e.value)
    ensures ProperArguments(EmitEntries(es))
    decreases es, 0
  {
    if es != [] {
      assert es[0] in es && (es decreases to es[0]) && (es[0] decreases to es[0].value);
      EmitProper(es[0].value, true);
      EmitEntriesProper(es[1..]);
    }
  }

  /** The whole stack on one message: if it fits the buffer, the bytes are accepted, they read back as
      the address and arguments that were written, and the value comes back exactly when no hash in it
      has a packed key. */
  lemma FullStackRoundTrip(le: bool, path: seq<Byte>, v: Value, capacity: nat)
    requires NulFree(path) && (Sendable(v) || v.EmptyValue?) && capacity < 0x8000_0000
    ensures var e := Message(path, Emit(v, false));
            var (status, d) := Execute(D.EMPTY_DRAFT, Calls(e), capacity);
            && (status == D.Ok <==> |Encode(e)| <= capacity)
            && (status == D.Ok ==>
                  var m := D.Body(le, d);
                  && Validate(m).Accepted? && BlobsInside(m, Validate(m).view) && Decode(m) == e
                  && (FromArguments(Decode(m).arguments) == Got(Returned(v), []) <==> Unpacked(v)))
  {
    hide Sendable, Emit, Unpacked, Returned, Encode, ParseArray, Validate, Decode, BlobsInside;
    var e := Message(path, Emit(v, false));
    EmitProper(v, false);
    WriteElement(le, e, capacity);
    if |Encode(e)| <= capacity {
      MessageRoundTrip(e);
      ValueRoundTrip(v);
    }
  }

  /** Any proper arguments can arrive: "/a" with the tags "[}" is accepted, and parsing it never returns;
      with the tag "[" alone, parsing leaves the tags. */
  lemma UnbalancedMessages()
    ensures var stray := Message([47, 97], [Flag(ARRAY_START_TAG), Flag(HASH_END_TAG)]);
            var m := Encode(stray);
            && m == [47, 97, 0, 0, 44, 91, 125, 0] && Validate(m).Accepted? && BlobsInside(m, Validate(m).view) && Decode(m) == stray
            && FromArguments(stray.arguments) == NeverReturns
    ensures var unclosed := Message([47, 97], [Flag(ARRAY_START_TAG)]);
            var m := Encode(unclosed);
            && m == [47, 97, 0, 0, 44, 91, 0, 0] && Validate(m).Accepted? && BlobsInside(m, Validate(m).view) && Decode(m) == unclosed
            && FromArguments(unclosed.arguments) == Undefined
  {
    hide Validate, Decode, BlobsInside, ParseArray, Encode;
    var stray, unclosed := Message([47, 97], [Flag(ARRAY_START_TAG), Flag(HASH_END_TAG)]), Message([47, 97], [Flag(ARRAY_START_TAG)]);
    UnbalancedBytes();
    MessageRoundTrip(stray);
    MessageRoundTrip(unclosed);
    UnbalancedScans();
    ParsesExactly(stray.arguments);
    ParsesExactly(unclosed.arguments);
  }

  lemma UnbalancedScans()
    ensures Scan([InList], [Flag(ARRAY_START_TAG), Flag(HASH_END_TAG)]) == Hangs
    ensures Scan([InList], [Flag(ARRAY_START_TAG)]) == RunsOff
  {
    var s := [Flag(ARRAY_START_TAG), Flag(HASH_END_TAG)];
    assert s[1..] == [Flag(HASH_END_TAG)];
    assert Scan([InList, InList], s[1..]) == Hangs;
    assert [] + [InList, InList] == [InList, InList];
    assert Scan([InList, InList], []) == RunsOff;
  }

  lemma NoPayload(a: Argument, rest: seq<Argument>)
    requires a.Flag?
    ensures Payloads([]) == [] && Payloads([a] + rest) == Payloads(rest)
  {
    assert ([a] + rest)[1..] == rest;
  }

  lemma UnbalancedBytes()
    ensures Encode(Message([47, 97], [Flag(ARRAY_START_TAG), Flag(HASH_END_TAG)])) == [47, 97, 0, 0, 44, 91, 125, 0]
    ensures Encode(Message([47, 97], [Flag(ARRAY_START_TAG)])) == [47, 97, 0, 0, 44, 91, 0, 0]
  {
    hide OscString;
    var open, close := Flag(ARRAY_START_TAG), Flag(HASH_END_TAG);
    OscStringIs([47, 97], [47, 97, 0, 0]);
    assert [open, close][1..] == [close] && [close][1..] == [] && [open][1..] == [];
    assert Tags([close]) == [125] && Tags([open, close]) == [91, 125] && Tags([open]) == [91];
    assert [open] + [] == [open] && [close] + [] == [close] && [open] + [close] == [open, close];
    NoPayload(open, []);
    NoPayload(close, []);
    NoPayload(open, [close]);
    OscStringIs([COMMA, 91, 125], [44, 91, 125, 0]);
    OscStringIs([COMMA, 91], [44, 91, 0, 0]);
    assert [COMMA] + Tags([open, close]) == [COMMA, 91, 125] && [COMMA] + Tags([open]) == [COMMA, 91];
    assert [47, 97, 0, 0] + [44, 91, 125, 0] + [] == [47, 97, 0, 0, 44, 91, 125, 0];
    assert [47, 97, 0, 0] + [44, 91, 0, 0] + [] == [47, 97, 0, 0, 44, 91, 0, 0];
  }
}
