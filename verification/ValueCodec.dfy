/** Nested values as OSC arguments: what to_stream emits, what the three mutually recursive parsers
    take back, and how the two fit together. */
module ValueCodec {
  import opened Wrappers
  import opened Bytes
  import opened Packet
  import opened Numbers
  import opened OrderedMap
  import opened Values

  const EQUALS_SIGN: Byte := 61 // '='
  const LETTER_M: Byte := 109   // 'm'
  const MIDI_KEY: Key := [61, 109]

  /* ---- the values the codec is for ---- */

  /** Values that to_stream can put on the wire without losing anything. */
  predicate Sendable(v: Value) {
    match v
    case EmptyValue => false
    case UnsetMidiValue(_) => false
    case RealValue(x) => x.Single?
    case StringValue(s) => NulFree(s)
    case ListValue(vs) => forall x :: x in vs ==> Sendable(x)
    case HashValue(es) =>
      && Distinct(Keys(es))
      && forall e :: e in es ==> NulFree(e.key) && assert e decreases to e.value; Sendable(e.value)
    case MidiValue(data, length, wait) => |data| == 3 && wait == 0 && SingleExact(length)
    case _ => true
  }

  /** A key that the hash parser takes for the name of a packed type. */
  predicate PackedKey(key: Key) {
    |key| > 1 && key[0] == EQUALS_SIGN
  }

  /** No hash in the value has such a key. */
  predicate Unpacked(v: Value) {
    match v
    case ListValue(vs) => forall x :: x in vs ==> Unpacked(x)
    case HashValue(es) => forall e :: e in es ==> !PackedKey(e.key) && assert e decreases to e.value; Unpacked(e.value)
    case _ => true
  }

  /* ---- to_stream ---- */

  function SingleOf(n: int): Argument
    requires SingleExact(n)
  {
    Word(FLOAT_TAG, SingleBits(n))
  }

  function EmitNumbers(ns: seq<int>): seq<Argument>
    requires forall n :: n in ns ==> SingleExact(n)
  {
    if ns == [] then [] else [SingleOf(ns[0])] + EmitNumbers(ns[1..])
  }

  /** The numbers a midi message is packed into: its bytes, then its length. */
  function MidiNumbers(data: seq<Byte>, length: int): (ns: seq<int>)
    requires |data| == 3 && SingleExact(length)
    ensures |ns| == 4 && ns[..3] == data && ns[3] == length
    ensures forall n :: n in ns ==> SingleExact(n)
  {
    ByteIsExact(data[0]);
    ByteIsExact(data[1]);
    ByteIsExact(data[2]);
    var ns: seq<int> := [data[0], data[1], data[2], length];
    assert ns[..3] == data;
    ns
  }

  /** The arguments to_stream writes for a value; a list on the first level has no brackets. */
  function Emit(v: Value, inArray: bool): seq<Argument>
    requires Sendable(v) || v.EmptyValue?
    decreases v, 0
  {
    match v
    case RealValue(x) => [Word(FLOAT_TAG, x.bits)]
    case StringValue(s) => [Text(STRING_TAG, s)]
    case EmptyValue => [Flag(NIL_TAG)]
    case NilValue => [Flag(NIL_TAG)]
    case AnyValue => [Flag(ANY_TAG)]
    case TrueValue => [Flag(TRUE_TAG)]
    case FalseValue => [Flag(FALSE_TAG)]
    case ListValue(vs) =>
      if inArray then [Flag(ARRAY_START_TAG)] + EmitAll(vs) + [Flag(ARRAY_END_TAG)] else EmitAll(vs)
    case HashValue(es) => [Flag(HASH_START_TAG)] + EmitEntries(es) + [Flag(HASH_END_TAG)]
    case MidiValue(data, length, _) =>
      [Flag(HASH_START_TAG), Text(STRING_TAG, MIDI_KEY), Flag(ARRAY_START_TAG)]
      + EmitNumbers(MidiNumbers(data, length)) + [Flag(ARRAY_END_TAG), Flag(HASH_END_TAG)]
  }

  function EmitAll(vs: seq<Value>): seq<Argument>
    requires forall x :: x in vs ==> Sendable(x)
    decreases vs
  {
    if vs == [] then [] else Emit(vs[0], true) + EmitAll(vs[1..])
  }

  function EmitEntries(es: seq<Entry<Key, Value>>): seq<Argument>
    requires forall e :: e in es ==> NulFree(e.key) && Sendable(e.value)
    decreases es
  {
    if es == [] then [] else
      assert es[0] decreases to es[0].value;
      [Text(STRING_TAG, es[0].key)] + Emit(es[0].value, true) + EmitEntries(es[1..])
  }

  /* ---- the parsers ---- */

  /** Where a parser stops: with a value, in front of the remaining arguments; with a tag pointer that
      left the type tags; or not at all. */
  datatype Parse = Got(value: Value, rest: seq<Argument>) | Undefined | NeverReturns

  /** The bytes of the reals in front of anything that is no real. */
  function RealBytes(vs: seq<Value>): (data: seq<Byte>)
    ensures |data| <= |vs| && forall i :: 0 <= i < |data| ==> vs[i].RealValue? && data[i] == WholePart(vs[i].number) % 0x100
    ensures |data| < |vs| ==> !vs[|data|].RealValue?
  {
    if vs == [] || !vs[0].RealValue? then [] else [WholePart(vs[0].number) % 0x100] + RealBytes(vs[1..])
  }

  /** MidiMessage(Value): a list of reals, the last one the length. Anything else leaves a message with the
      bytes up to there, and without a length. */
  function Unpack(v: Value): (midi: Value)
    ensures midi.MidiValue? || midi.UnsetMidiValue?
  {
    if !v.ListValue? || |v.values| < 2 then UnsetMidiValue([])
    else
      var data, n := RealBytes(v.values), |v.values| - 1;
      if |data| <= n then UnsetMidiValue(data)
      else MidiValue(data[..n], WholePart(v.values[n].number), 0)
  }

  /** The value of one argument that is no bracket. The tags that are not handled leave the result as it
      was. */
  function Scalar(a: Argument, current: Value): Value {
    match a
    case Flag(t) =>
      if t == TRUE_TAG then TrueValue
      else if t == FALSE_TAG then FalseValue
      else if t == NIL_TAG then NilValue
      else if t == ANY_TAG then AnyValue
      else current
    case Word(t, w) =>
      if t == INT32_TAG then RealValue(Int32(w))
      else if t == FLOAT_TAG then RealValue(Single(w))
      else if t == CHAR_TAG then RealValue(Char(w))
      else if t == MIDI_TAG then MidiValue([w / 0x1_0000 % 0x100, w / 0x100 % 0x100, w % 0x100], 0, 0)
      else current
    case Long(t, w) => if t == DOUBLE_TAG then RealValue(Double(w)) else current
    case Text(t, text) => if t == STRING_TAG then StringValue(text) else current
    case Blob(_) => current
  }

  /** The first element that is no real ends the bytes, and leaves the message without a length. */
  lemma {:induction false} UnpackStops(vs: seq<Value>, k: nat)
    requires k < |vs| && |vs| >= 2 && !vs[k].RealValue? && forall i :: 0 <= i < k ==> vs[i].RealValue?
    ensures Unpack(ListValue(vs)).UnsetMidiValue?
    ensures var data := Unpack(ListValue(vs)).data;
            |data| == k && forall i :: 0 <= i < k ==> data[i] == WholePart(vs[i].number) % 0x100
  {
    hide WholePart;
  }

  /** A list of reals is taken whole: all but the last are bytes, the last is the length. */
  lemma UnpackReals(vs: seq<Value>)
    requires |vs| >= 2 && forall i :: 0 <= i < |vs| ==> vs[i].RealValue?
    ensures Unpack(ListValue(vs)).MidiValue?
    ensures var MidiValue(data, length, wait) := Unpack(ListValue(vs));
            && |data| == |vs| - 1 && (forall i :: 0 <= i < |data| ==> data[i] == WholePart(vs[i].number) % 0x100)
            && length == WholePart(vs[|vs| - 1].number) && wait == 0
  {
    hide WholePart;
  }

  /** parse_osc_value. */
  function ParseValue(s: seq<Argument>, current: Value): (r: Parse)
    ensures r.Got? ==> |r.rest| <= |s| && r.rest == s[|s| - |r.rest|..]
    decreases |s|, 0
  {
    if s == [] then Undefined // steps over the terminating NUL
    else
      var tag := s[0].Tag();
      if tag == ARRAY_START_TAG then
        match ParseArray(s[1..], ListValue([]), EmptyValue)
        case Got(v, rest) => if rest == [] then Undefined else Got(v, rest[1..])
        case stop => stop
      else if tag == ARRAY_END_TAG || tag == HASH_END_TAG then Got(current, s)
      else if tag == HASH_START_TAG then
        match ParseHash(s[1..], HashValue([]))
        case Got(v, rest) => if rest == [] then Undefined else Got(v, rest[1..])
        case stop => stop
      else Got(Scalar(s[0], current), s[1..])
  }

  /** parse_osc_array: pushes values until the tags end or a ']' is next. */
  function ParseArray(s: seq<Argument>, self: Value, current: Value): (r: Parse)
    ensures r.Got? ==> |r.rest| <= |s| && r.rest == s[|s| - |r.rest|..]
    ensures r.Got? && r.rest != [] ==> r.rest[0].Tag() == ARRAY_END_TAG
    decreases |s|, 1
  {
    if s == [] then Got(self, []) else
      match ParseValue(s, current)
      case Got(v, rest) =>
        var pushed := PushBack(self, v);
        if rest != [] && rest[0].Tag() == ARRAY_END_TAG then Got(pushed, rest)
        else if |rest| < |s| then ParseArray(rest, pushed, v)
        else NeverReturns // a '}' is never eaten here
      case stop => stop
  }

  /** parse_osc_hash: keys and values until a '}' is next. */
  function ParseHash(s: seq<Argument>, self: Value): (r: Parse)
    ensures r.Got? ==> |r.rest| <= |s| && r.rest == s[|s| - |r.rest|..]
    ensures r.Got? && r.rest != [] ==> r.rest[0].Tag() == HASH_END_TAG
    decreases |s|, 1
  {
    if s == [] then Got(self, [])
    else if s[0].Text? && s[0].tag == STRING_TAG then
      var key := s[0].text;
      if PackedKey(key) && key[1] != LETTER_M then ParseHash(s[1..], self)
      else
        match ParseValue(s[1..], EmptyValue)
        case Got(v, rest) => ParseHash(rest, if PackedKey(key) then Unpack(v) else SetKey(self, key, v))
        case stop => stop
    else if s[0].Tag() == HASH_END_TAG then Got(self, s)
    else Undefined // prunes to "", which the caller then steps over
  }

  /* ---- parsing what was emitted ---- */

  lemma EmitStarts(v: Value)
    requires Sendable(v)
    ensures Emit(v, true) != [] && Emit(v, true)[0].Tag() != ARRAY_END_TAG
  {
  }

  lemma ParseBracket(s: seq<Argument>, current: Value)
    requires s != [] && s[0] == Flag(ARRAY_START_TAG)
    ensures ParseValue(s, current) ==
            match ParseArray(s[1..], ListValue([]), EmptyValue)
            case Got(v, rest) => if rest == [] then Undefined else Got(v, rest[1..])
            case stop => stop
  {
  }

  lemma ParseBrace(s: seq<Argument>, current: Value)
    requires s != [] && s[0] == Flag(HASH_START_TAG)
    ensures ParseValue(s, current) ==
            match ParseHash(s[1..], HashValue([]))
            case Got(v, rest) => if rest == [] then Undefined else Got(v, rest[1..])
            case stop => stop
  {
  }

  lemma ArrayStep(s: seq<Argument>, self: Value, current: Value, v: Value, rest: seq<Argument>)
    requires s != [] && ParseValue(s, current) == Got(v, rest) && |rest| < |s|
    ensures ParseArray(s, self, current) ==
            if rest != [] && rest[0].Tag() == ARRAY_END_TAG then Got(PushBack(self, v), rest)
            else ParseArray(rest, PushBack(self, v), v)
  {
  }

  /** One turn of the array loop. */
  lemma ArrayTurn(s: seq<Argument>, self: Value, current: Value)
    requires s != []
    ensures ParseArray(s, self, current) ==
            var r := ParseValue(s, current);
            if !r.Got? then r
            else if r.rest != [] && r.rest[0].Tag() == ARRAY_END_TAG then Got(PushBack(self, r.value), r.rest)
            else if |r.rest| < |s| then ParseArray(r.rest, PushBack(self, r.value), r.value)
            else NeverReturns
  {
    hide ParseValue, PushBack;
  }

  lemma ArrayEnd(s: seq<Argument>, self: Value, current: Value)
    requires s == [] || (s[0].Tag() == ARRAY_END_TAG && current == EmptyValue)
    ensures ParseArray(s, self, current) == Got(self, s)
  {
  }

  lemma HashEnd(s: seq<Argument>, self: Value)
    requires s != [] && s[0].Tag() == HASH_END_TAG
    ensures ParseHash(s, self) == Got(self, s)
  {
  }

  lemma HashStep(s: seq<Argument>, self: Value, key: Key, v: Value, rest: seq<Argument>)
    requires s != [] && s[0] == Text(STRING_TAG, key) && !PackedKey(key)
    requires ParseValue(s[1..], EmptyValue) == Got(v, rest)
    ensures ParseHash(s, self) == ParseHash(rest, SetKey(self, key, v))
  {
  }

  lemma ParseScalar(v: Value, s: seq<Argument>, current: Value)
    requires Sendable(v) && !v.ListValue? && !v.HashValue? && !v.MidiValue?
    requires s != [] && [s[0]] == Emit(v, true)
    ensures ParseValue(s, current) == Got(v, s[1..])
  {
    hide ParseArray, ParseHash;
    assert s[0] == Emit(v, true)[0];
  }

  lemma Bracketed(open: Argument, body: seq<Argument>, close: Argument, rest: seq<Argument>)
    ensures var s := [open] + body + [close] + rest;
            && s != [] && s[0] == open && s[1..] == body + ([close] + rest)
    ensures ([close] + rest)[1..] == rest
  {
  }

  /** The value parser takes back exactly the arguments of one value, through its matching bracket,
      and leaves everything behind them. */
  lemma {:induction false} ParseEmitted(v: Value, rest: seq<Argument>, current: Value)
    requires Sendable(v) && Unpacked(v)
    ensures ParseValue(Emit(v, true) + rest, current) == Got(v, rest)
    decreases v, 1
  {
    hide ParseValue, ParseArray, ParseHash, EmitAll, EmitEntries, EmitNumbers;
    var s := Emit(v, true) + rest;
    if v.ListValue? {
      ParseEmittedList(v.values, [Flag(ARRAY_END_TAG)] + rest, ListValue([]), EmptyValue);
      CloseArray(v.values, rest, current);
    } else if v.HashValue? {
      assert [] + v.entries == v.entries;
      ParseEmittedHash(v.entries, [Flag(HASH_END_TAG)] + rest, []);
      CloseHash(v.entries, rest, current);
    } else if v.MidiValue? {
      ParseEmittedMidi(v.data, v.length, rest, current);
    } else {
      assert |Emit(v, true)| == 1;
      ParseScalar(v, s, current);
    }
  }

  lemma CloseArray(vs: seq<Value>, rest: seq<Argument>, current: Value)
    requires forall x :: x in vs ==> Sendable(x)
    requires ParseArray(EmitAll(vs) + ([Flag(ARRAY_END_TAG)] + rest), ListValue([]), EmptyValue)
          == Got(PushAll(ListValue([]), vs), [Flag(ARRAY_END_TAG)] + rest)
    ensures ParseValue([Flag(ARRAY_START_TAG)] + EmitAll(vs) + [Flag(ARRAY_END_TAG)] + rest, current) == Got(ListValue(vs), rest)
  {
    hide ParseValue, ParseArray, EmitAll, PushAll;
    Bracketed(Flag(ARRAY_START_TAG), EmitAll(vs), Flag(ARRAY_END_TAG), rest);
    ParseBracket([Flag(ARRAY_START_TAG)] + EmitAll(vs) + [Flag(ARRAY_END_TAG)] + rest, current);
    NoEmptyInside(vs);
    PushAllOnList([], vs);
    assert [] + vs == vs;
  }

  lemma CloseHash(es: seq<Entry<Key, Value>>, rest: seq<Argument>, current: Value)
    requires forall e :: e in es ==> NulFree(e.key) && Sendable(e.value)
    requires ParseHash(EmitEntries(es) + ([Flag(HASH_END_TAG)] + rest), HashValue([])) == Got(HashValue(es), [Flag(HASH_END_TAG)] + rest)
    ensures ParseValue([Flag(HASH_START_TAG)] + EmitEntries(es) + [Flag(HASH_END_TAG)] + rest, current) == Got(HashValue(es), rest)
  {
    hide ParseValue, ParseHash, EmitEntries;
    Bracketed(Flag(HASH_START_TAG), EmitEntries(es), Flag(HASH_END_TAG), rest);
    ParseBrace([Flag(HASH_START_TAG)] + EmitEntries(es) + [Flag(HASH_END_TAG)] + rest, current);
  }

  lemma NoEmptyInside(vs: seq<Value>)
    requires forall x :: x in vs ==> Sendable(x)
    ensures EmptyValue !in vs
  {
  }

  lemma EmitAllStarts(vs: seq<Value>)
    requires forall x :: x in vs ==> Sendable(x)
    ensures vs == [] ==> EmitAll(vs) == []
    ensures vs != [] ==> EmitAll(vs) == Emit(vs[0], true) + EmitAll(vs[1..])
    ensures vs != [] ==> EmitAll(vs) != [] && EmitAll(vs)[0].Tag() != ARRAY_END_TAG && Emit(vs[0], true) != []
  {
    hide Emit, Sendable;
    if vs != [] {
      assert vs[0] in vs;
      EmitStarts(vs[0]);
    }
  }

  /** The first value's arguments, and what follows them. */
  lemma EmitSplit(vs: seq<Value>, tail: seq<Argument>)
    requires vs != [] && forall x :: x in vs ==> Sendable(x)
    ensures var s, rest := EmitAll(vs) + tail, EmitAll(vs[1..]) + tail;
            && s == Emit(vs[0], true) + rest && |rest| < |s|
            && (vs[1..] == [] ==> rest == tail)
            && (vs[1..] != [] ==> rest != [] && rest[0].Tag() != ARRAY_END_TAG)
  {
    hide Emit, EmitAll, Sendable;
    EmitAllStarts(vs);
    EmitAllStarts(vs[1..]);
    Prepended(Emit(vs[0], true), EmitAll(vs[1..]), tail);
  }

  lemma Prepended(x: seq<Argument>, y: seq<Argument>, tail: seq<Argument>)
    ensures (x + y) + tail == x + (y + tail)
    ensures y == [] ==> y + tail == tail
    ensures y != [] ==> (y + tail)[0] == y[0]
  {
  }

  lemma PushAllStep(self: Value, vs: seq<Value>)
    requires vs != []
    ensures PushAll(self, vs) == PushAll(PushBack(self, vs[0]), vs[1..])
    ensures vs[1..] == [] ==> PushAll(self, vs) == PushBack(self, vs[0])
  {
    hide PushBack;
  }

  lemma {:induction false} ParseEmittedList(vs: seq<Value>, tail: seq<Argument>, self: Value, current: Value)
    requires forall x :: x in vs ==> Sendable(x) && Unpacked(x)
    requires tail == [] || (tail[0].Tag() == ARRAY_END_TAG && (vs != [] || current == EmptyValue))
    ensures ParseArray(EmitAll(vs) + tail, self, current) == Got(PushAll(self, vs), tail)
    decreases vs, 0
  {
    hide ParseValue, ParseArray, Emit, Sendable, Unpacked, PushBack, PushAll;
    if vs == [] {
      assert EmitAll(vs) + tail == tail && PushAll(self, []) == self by { PushNothing(self); }
      ArrayEnd(tail, self, current);
    } else {
      hide EmitAll;
      assert vs[0] in vs;
      var rest := EmitAll(vs[1..]) + tail;
      EmitSplit(vs, tail);
      ParseEmitted(vs[0], rest, current);
      ArrayStep(EmitAll(vs) + tail, self, current, vs[0], rest);
      PushAllStep(self, vs);
      if vs[1..] != [] {
        ParseEmittedList(vs[1..], tail, PushBack(self, vs[0]), vs[0]);
      } else if tail == [] {
        ArrayEnd(tail, PushBack(self, vs[0]), vs[0]);
      }
    }
  }

  lemma PushNothing(self: Value)
    ensures PushAll(self, []) == self
  {
  }

  lemma EntriesHead(es: seq<Entry<Key, Value>>, tail: seq<Argument>)
    requires es != [] && forall e :: e in es ==> NulFree(e.key) && Sendable(e.value)
    ensures var s := EmitEntries(es) + tail;
            && s != [] && s[0] == Text(STRING_TAG, es[0].key)
            && s[1..] == Emit(es[0].value, true) + (EmitEntries(es[1..]) + tail)
    ensures Stored(es[0].value) == es[0].value
  {
    hide Emit;
    assert es[0] in es;
    SendableStored(es[0].value);
    hide Sendable, NulFree;
    HeadSplit(Text(STRING_TAG, es[0].key), Emit(es[0].value, true), EmitEntries(es[1..]), tail);
  }

  lemma SendableStored(v: Value)
    requires Sendable(v)
    ensures Stored(v) == v
  {
  }

  lemma HeadSplit(a: Argument, x: seq<Argument>, y: seq<Argument>, tail: seq<Argument>)
    ensures var s := ([a] + x + y) + tail;
            s[0] == a && s[1..] == x + (y + tail)
  {
  }

  lemma {:induction false} ParseEmittedHash(es: seq<Entry<Key, Value>>, tail: seq<Argument>, done: seq<Entry<Key, Value>>)
    requires forall e :: e in es ==> NulFree(e.key) && !PackedKey(e.key) && Sendable(e.value) && Unpacked(e.value)
    requires Distinct(Keys(done + es))
    requires tail != [] && tail[0].Tag() == HASH_END_TAG
    ensures ParseHash(EmitEntries(es) + tail, HashValue(done)) == Got(HashValue(done + es), tail)
    decreases es, 0
  {
    hide ParseValue, ParseArray, ParseHash, PackedKey, Sendable, Unpacked, Emit, Keys, Distinct;
    if es == [] {
      assert EmitEntries(es) + tail == tail && done + es == done;
      HashEnd(tail, HashValue(done));
    } else {
      assert es[0] in es && (es decreases to es[0]) && (es[0] decreases to es[0].value);
      ParseEmitted(es[0].value, EmitEntries(es[1..]) + tail, EmptyValue);
      OneEntry(es, tail, done);
      Regroup(done, es);
      ParseEmittedHash(es[1..], tail, done + [es[0]]);
    }
  }

  lemma Regroup(done: seq<Entry<Key, Value>>, es: seq<Entry<Key, Value>>)
    requires es != []
    ensures (done + [es[0]]) + es[1..] == done + es
  {
  }

  /** One turn of the hash loop: a new key is appended with its value. */
  lemma OneEntry(es: seq<Entry<Key, Value>>, tail: seq<Argument>, done: seq<Entry<Key, Value>>)
    requires es != [] && forall e :: e in es ==> NulFree(e.key) && Sendable(e.value)
    requires !PackedKey(es[0].key) && Distinct(Keys(done + es))
    requires ParseValue(Emit(es[0].value, true) + (EmitEntries(es[1..]) + tail), EmptyValue)
             == Got(es[0].value, EmitEntries(es[1..]) + tail)
    ensures ParseHash(EmitEntries(es) + tail, HashValue(done))
            == ParseHash(EmitEntries(es[1..]) + tail, HashValue(done + [es[0]]))
  {
    hide ParseValue, ParseHash, PackedKey, Sendable, Put, Emit, EmitEntries;
    EntriesHead(es, tail);
    HashStep(EmitEntries(es) + tail, HashValue(done), es[0].key, es[0].value, EmitEntries(es[1..]) + tail);
    NewKeyAppends(done, es);
  }

  lemma NewKeyAppends(done: seq<Entry<Key, Value>>, es: seq<Entry<Key, Value>>)
    requires es != [] && Distinct(Keys(done + es))
    ensures Put(done, es[0].key, es[0].value) == done + [es[0]]
  {
    hide Keys, Put;
    forall i | 0 <= i < |done|
      ensures Keys(done)[i] != es[0].key
    {
      assert Keys(done + es)[i] != Keys(done + es)[|done|];
    }
    PutNew(done, es[0].key, es[0].value);
  }

  /** The reals that carry the numbers. */
  function NumberValues(ns: seq<int>): (vs: seq<Value>)
    requires forall n :: n in ns ==> SingleExact(n)
    ensures |vs| == |ns| && forall i :: 0 <= i < |ns| ==> vs[i] == RealValue(Single(SingleBits(ns[i])))
  {
    if ns == [] then [] else [RealValue(Single(SingleBits(ns[0])))] + NumberValues(ns[1..])
  }

  lemma NumbersHead(ns: seq<int>, tail: seq<Argument>)
    requires ns != [] && forall n :: n in ns ==> SingleExact(n)
    ensures var s, rest := EmitNumbers(ns) + tail, EmitNumbers(ns[1..]) + tail;
            && s != [] && s[1..] == rest && s[0] == SingleOf(ns[0])
            && (ns[1..] == [] ==> rest == tail)
            && (ns[1..] != [] ==> rest != [] && rest[0].Tag() == FLOAT_TAG)
  {
    hide SingleBits, SingleExact;
    HeadSplit(SingleOf(ns[0]), [], EmitNumbers(ns[1..]), tail);
    assert [SingleOf(ns[0])] + [] + EmitNumbers(ns[1..]) == EmitNumbers(ns);
  }

  lemma NumberValuesHead(ns: seq<int>, done: seq<Value>)
    requires ns != [] && forall n :: n in ns ==> SingleExact(n)
    ensures (done + [RealValue(Single(SingleBits(ns[0])))]) + NumberValues(ns[1..]) == done + NumberValues(ns)
    ensures ns[1..] == [] ==> done + NumberValues(ns) == done + [RealValue(Single(SingleBits(ns[0])))]
  {
    hide SingleBits, SingleExact;
    assert NumberValues(ns) == [RealValue(Single(SingleBits(ns[0])))] + NumberValues(ns[1..]);
  }

  lemma {:induction false} ParseNumbers(ns: seq<int>, tail: seq<Argument>, done: seq<Value>, current: Value)
    requires ns != [] && forall n :: n in ns ==> SingleExact(n)
    requires tail != [] && tail[0].Tag() == ARRAY_END_TAG
    ensures ParseArray(EmitNumbers(ns) + tail, ListValue(done), current) == Got(ListValue(done + NumberValues(ns)), tail)
    decreases |ns|
  {
    hide SingleBits, ParseValue, ParseArray, ParseHash, SingleExact;
    var v := RealValue(Single(SingleBits(ns[0])));
    var rest := EmitNumbers(ns[1..]) + tail;
    var s := EmitNumbers(ns) + tail;
    NumbersHead(ns, tail);
    NumberValuesHead(ns, done);
    ParseScalar(v, s, current);
    ArrayStep(s, ListValue(done), current, v, rest);
    if ns[1..] != [] {
      hide EmitNumbers, NumberValues;
      ParseNumbers(ns[1..], tail, done + [v], v);
    }
  }

  lemma UnpackNumbers(data: seq<Byte>, length: int)
    requires |data| == 3 && SingleExact(length)
    ensures Unpack(ListValue(NumberValues(MidiNumbers(data, length)))) == MidiValue(data, length, 0)
  {
    hide SingleBits, WholePart, SingleExact;
    var ns := MidiNumbers(data, length);
    var vs := NumberValues(ns);
    forall i | 0 <= i < 4
      ensures WholePart(Single(SingleBits(ns[i]))) == ns[i]
    {
      assert ns[i] in ns;
      SingleRoundTrip(ns[i]);
    }
    assert forall i :: 0 <= i < 4 ==> vs[i].RealValue?;
    assert forall i :: 0 <= i < 3 ==> ns[i] == ns[..3][i] == data[i];
    assert RealBytes(vs)[..3] == data;
  }

  lemma ParseEmittedMidi(data: seq<Byte>, length: int, rest: seq<Argument>, current: Value)
    requires |data| == 3 && SingleExact(length)
    ensures ParseValue(Emit(MidiValue(data, length, 0), true) + rest, current) == Got(MidiValue(data, length, 0), rest)
  {
    hide EmitNumbers, NumberValues, MidiNumbers, Unpack, ParseValue, ParseArray, ParseHash, SingleExact;
    var ns := MidiNumbers(data, length);
    var midi := MidiValue(data, length, 0);
    var close := [Flag(HASH_END_TAG)] + rest;
    var tail := [Flag(ARRAY_END_TAG)] + close;
    var s := Emit(midi, true) + rest;
    var inner := [Flag(ARRAY_START_TAG)] + EmitNumbers(ns) + tail;
    assert s == [Flag(HASH_START_TAG), Text(STRING_TAG, MIDI_KEY)] + inner;
    assert s[1..] == [Text(STRING_TAG, MIDI_KEY)] + inner;
    assert inner == [Flag(ARRAY_START_TAG)] + EmitNumbers(ns) + [Flag(ARRAY_END_TAG)] + close;
    Bracketed(Flag(ARRAY_START_TAG), EmitNumbers(ns), Flag(ARRAY_END_TAG), close);
    ParseNumbers(ns, tail, [], EmptyValue);
    assert [] + NumberValues(ns) == NumberValues(ns);
    ParseBracket(inner, EmptyValue);
    UnpackNumbers(data, length);
    ParseHashPacked(s[1..], ListValue(NumberValues(ns)), midi, close);
    ParseBrace(s, current);
  }

  lemma ParseHashPacked(s: seq<Argument>, list: Value, midi: Value, close: seq<Argument>)
    requires s != [] && s[0] == Text(STRING_TAG, MIDI_KEY)
    requires ParseValue(s[1..], EmptyValue) == Got(list, close) && Unpack(list) == midi
    requires close != [] && close[0] == Flag(HASH_END_TAG)
    ensures ParseHash(s, HashValue([])) == Got(midi, close)
  {
    hide ParseHash, ParseValue, Unpack;
    HashPackedStep(s, HashValue([]), list, midi, close);
    HashEnd(close, midi);
  }

  lemma HashPackedStep(s: seq<Argument>, self: Value, list: Value, midi: Value, rest: seq<Argument>)
    requires s != [] && s[0] == Text(STRING_TAG, MIDI_KEY)
    requires ParseValue(s[1..], EmptyValue) == Got(list, rest) && Unpack(list) == midi
    ensures ParseHash(s, self) == ParseHash(rest, midi)
  {
    hide ParseValue, Unpack, SetKey;
  }
}
