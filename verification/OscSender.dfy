/** to_stream and build_message on the packet writer. */
module OscSender {
  import opened Bytes
  import opened Packet
  import opened Numbers
  import opened OrderedMap
  import opened Values
  import opened ValueCodec
  import opened OutboundPacketStreams
  import opened StreamRuns
  import D = Draft

  lemma {:induction false} PutsAppend(a: seq<Argument>, b: seq<Argument>)
    ensures Puts(a + b) == Puts(a) + Puts(b)
  {
    if a == [] {
      assert a + b == b;
    } else {
      PutsAppend(a[1..], b);
      assert (a + b)[1..] == a[1..] + b;
      assert [D.Put(a[0])] + (Puts(a[1..]) + Puts(b)) == ([D.Put(a[0])] + Puts(a[1..])) + Puts(b);
    }
  }

  /** Streaming the arguments a from draft d ended with this status and draft. */
  ghost predicate Streamed(d: D.Draft, a: seq<Argument>, capacity: nat, status: D.Status, d': D.Draft) {
    Execute(d, Puts(a), capacity) == (status, d')
  }

  lemma StreamedNothing(d: D.Draft, capacity: nat)
    ensures Streamed(d, [], capacity, D.Ok, d)
  {
  }

  lemma StreamedMore(d: D.Draft, a: seq<Argument>, d': D.Draft, b: seq<Argument>, capacity: nat, status: D.Status, d'': D.Draft)
    requires Streamed(d, a, capacity, D.Ok, d') && Streamed(d', b, capacity, status, d'')
    ensures Streamed(d, a + b, capacity, status, d'')
  {
    PutsAppend(a, b);
    ExecuteAppend(d, Puts(a), Puts(b), capacity);
  }

  lemma StreamedFailed(d: D.Draft, a: seq<Argument>, b: seq<Argument>, capacity: nat, status: D.Status, d': D.Draft)
    requires Streamed(d, a, capacity, status, d') && status != D.Ok
    ensures Streamed(d, a + b, capacity, status, d')
  {
    PutsAppend(a, b);
    ExecuteAppend(d, Puts(a), Puts(b), capacity);
  }

  lemma StreamedOne(d: D.Draft, x: Argument, capacity: nat)
    requires d.message.OpenMessage?
    ensures Streamed(d, [x], capacity, D.Outcome(d, D.Put(x), capacity), D.Step(d, D.Put(x), capacity))
  {
    assert [x][1..] == [];
    assert Puts([x]) == [D.Put(x)] + Puts([]) == [D.Put(x)];
    assert [D.Put(x)][1..] == [];
  }

  /** One argument behind those already streamed: the exception, if any, ends the whole stream. */
  method Stream(out: OutboundPacketStream, x: Argument, ghost d: D.Draft, ghost before: seq<Argument>) returns (status: D.Status)
    requires out.Valid() && out.messageIsInProgress
    requires Streamed(d, before, out.Capacity(), D.Ok, out.draft)
    modifies out, out.data
    ensures out.Valid() && out.messageIsInProgress
    ensures Streamed(d, before + [x], out.Capacity(), status, out.draft)
  {
    hide Streamed, D.Outcome;
    StreamedOne(out.draft, x, out.Capacity());
    ghost var d' := out.draft;
    status := out.Put(x);
    StreamedMore(d, before, d', [x], out.Capacity(), status, out.draft);
  }

  method ToStream(out: OutboundPacketStream, v: Value, inArray: bool) returns (status: D.Status)
    requires out.Valid() && out.messageIsInProgress && (Sendable(v) || v.EmptyValue?)
    modifies out, out.data
    ensures out.Valid() && out.messageIsInProgress
    ensures Streamed(old(out.draft), Emit(v, inArray), out.Capacity(), status, out.draft)
    decreases v, 1
  {
    hide Streamed, EmitAll, EmitEntries, EmitNumbers, OutboundPacketStream.Valid;
    match v {
      case RealValue(x) => status := Chain(out, [Word(FLOAT_TAG, x.bits)]);
      case StringValue(s) => status := Chain(out, [Text(STRING_TAG, s)]);
      case EmptyValue => status := Chain(out, [Flag(NIL_TAG)]);
      case NilValue => status := Chain(out, [Flag(NIL_TAG)]);
      case ListValue(vs) => status := ListToStream(out, vs, inArray);
      case AnyValue => status := Chain(out, [Flag(ANY_TAG)]);
      case TrueValue => status := Chain(out, [Flag(TRUE_TAG)]);
      case FalseValue => status := Chain(out, [Flag(FALSE_TAG)]);
      case HashValue(es) =>
        status := HashToStream(out, es);
        assert Emit(v, inArray) == Emit(v, false);
      case MidiValue(data, length, wait) =>
        status := MidiToStream(out, data, length);
        assert Emit(v, inArray) == Emit(MidiValue(data, length, 0), false);
    }
  }

  method ListToStream(out: OutboundPacketStream, vs: seq<Value>, inArray: bool) returns (status: D.Status)
    requires out.Valid() && out.messageIsInProgress && forall x :: x in vs ==> Sendable(x)
    modifies out, out.data
    ensures out.Valid() && out.messageIsInProgress
    ensures Streamed(old(out.draft), Emit(ListValue(vs), inArray), out.Capacity(), status, out.draft)
    decreases vs, 0
  {
    hide Streamed, Sendable, EmitEntries, EmitNumbers, OutboundPacketStream.Valid;
    assert Sendable(ListValue(vs)) by { ListSendable(vs); }
    ghost var d, capacity := out.draft, out.Capacity();
    ghost var before: seq<Argument> := [];
    StreamedNothing(d, capacity);
    status := D.Ok;
    if inArray {
      status := Stream(out, Flag(ARRAY_START_TAG), d, before);
      before := before + [Flag(ARRAY_START_TAG)];
    }
    ghost var after := if inArray then [Flag(ARRAY_END_TAG)] else [];
    assert Emit(ListValue(vs), inArray) == before + (EmitAll(vs) + after);
    if status != D.Ok {
      StreamedFailed(d, before, EmitAll(vs) + after, capacity, status, out.draft);
      return;
    }
    var i := 0;
    while i < |vs|
      invariant i <= |vs| && status == D.Ok && out.Valid() && out.messageIsInProgress
      invariant Streamed(d, before, capacity, D.Ok, out.draft)
      invariant Emit(ListValue(vs), inArray) == before + (EmitAll(vs[i..]) + after)
    {
      ghost var d' := out.draft;
      assert vs[i] in vs;
      status := ToStream(out, vs[i], true);
      StreamedMore(d, before, d', Emit(vs[i], true), capacity, status, out.draft);
      EmitAllNext(vs, i, before, after);
      before := before + Emit(vs[i], true);
      i := i + 1;
      if status != D.Ok {
        StreamedFailed(d, before, EmitAll(vs[i..]) + after, capacity, status, out.draft);
        return;
      }
    }
    assert EmitAll(vs[i..]) + after == after;
    if inArray {
      status := Stream(out, Flag(ARRAY_END_TAG), d, before);
    } else {
      assert before + after == before;
    }
  }

  lemma ListSendable(vs: seq<Value>)
    requires forall x :: x in vs ==> Sendable(x)
    ensures Sendable(ListValue(vs))
  {
  }

  lemma EmitAllNext(vs: seq<Value>, i: nat, before: seq<Argument>, after: seq<Argument>)
    requires i < |vs| && forall x :: x in vs ==> Sendable(x)
    ensures before + (EmitAll(vs[i..]) + after) == (before + Emit(vs[i], true)) + (EmitAll(vs[i + 1..]) + after)
  {
    hide Emit, Sendable;
    assert vs[i..][1..] == vs[i + 1..];
    assert EmitAll(vs[i..]) == Emit(vs[i], true) + EmitAll(vs[i + 1..]);
  }

  method HashToStream(out: OutboundPacketStream, es: seq<Entry<Key, Value>>) returns (status: D.Status)
    requires out.Valid() && out.messageIsInProgress && Sendable(HashValue(es))
    modifies out, out.data
    ensures out.Valid() && out.messageIsInProgress
    ensures Streamed(old(out.draft), Emit(HashValue(es), false), out.Capacity(), status, out.draft)
    decreases es, 0
  {
    hide Streamed, EmitAll, EmitNumbers, OutboundPacketStream.Valid;
    ghost var d, capacity := out.draft, out.Capacity();
    ghost var before, after := [Flag(HASH_START_TAG)], [Flag(HASH_END_TAG)];
    StreamedNothing(d, capacity);
    status := Stream(out, Flag(HASH_START_TAG), d, []);
    assert [] + before == before;
    assert Emit(HashValue(es), false) == before + (EmitEntries(es) + after);
    if status != D.Ok {
      StreamedFailed(d, before, EmitEntries(es) + after, capacity, status, out.draft);
      return;
    }
    var i := 0;
    while i < |es|
      invariant i <= |es| && status == D.Ok && out.Valid() && out.messageIsInProgress
      invariant Streamed(d, before, capacity, D.Ok, out.draft)
      invariant Emit(HashValue(es), false) == before + (EmitEntries(es[i..]) + after)
    {
      assert es[i] in es && (es decreases to es[i]) && (es[i] decreases to es[i].value);
      EmitEntriesNext(es, i, before, after);
      status := Stream(out, Text(STRING_TAG, es[i].key), d, before);
      before := before + [Text(STRING_TAG, es[i].key)];
      if status != D.Ok {
        StreamedFailed(d, before, Emit(es[i].value, true) + (EmitEntries(es[i + 1..]) + after), capacity, status, out.draft);
        return;
      }
      ghost var d' := out.draft;
      status := ToStream(out, es[i].value, true);
      StreamedMore(d, before, d', Emit(es[i].value, true), capacity, status, out.draft);
      before := before + Emit(es[i].value, true);
      i := i + 1;
      if status != D.Ok {
        StreamedFailed(d, before, EmitEntries(es[i..]) + after, capacity, status, out.draft);
        return;
      }
    }
    assert EmitEntries(es[i..]) + after == after;
    status := Stream(out, Flag(HASH_END_TAG), d, before);
  }

  lemma EmitEntriesNext(es: seq<Entry<Key, Value>>, i: nat, before: seq<Argument>, after: seq<Argument>)
    requires i < |es| && forall e :: e in es ==> NulFree(e.key) && Sendable(e.value)
    ensures var key, item, rest := [Text(STRING_TAG, es[i].key)], Emit(es[i].value, true), EmitEntries(es[i + 1..]) + after;
            && before + (EmitEntries(es[i..]) + after) == (before + key) + (item + rest)
            && (before + key) + (item + rest) == ((before + key) + item) + rest
  {
    hide Emit, Sendable, NulFree;
    assert es[i..][1..] == es[i + 1..];
    assert EmitEntries(es[i..]) == [Text(STRING_TAG, es[i].key)] + Emit(es[i].value, true) + EmitEntries(es[i + 1..]);
  }

  /** A chain of << operators: one write after the other, up to the first exception. */
  method Chain(out: OutboundPacketStream, items: seq<Argument>) returns (status: D.Status)
    requires out.Valid() && out.messageIsInProgress
    modifies out, out.data
    ensures out.Valid() && out.messageIsInProgress
    ensures Streamed(old(out.draft), items, out.Capacity(), status, out.draft)
  {
    hide Streamed, OutboundPacketStream.Valid;
    ghost var d, capacity := out.draft, out.Capacity();
    StreamedNothing(d, capacity);
    status := D.Ok;
    var i := 0;
    while i < |items|
      invariant i <= |items| && status == D.Ok && out.Valid() && out.messageIsInProgress
      invariant Streamed(d, items[..i], capacity, D.Ok, out.draft)
    {
      status := Stream(out, items[i], d, items[..i]);
      assert items[..i] + [items[i]] == items[..i + 1];
      i := i + 1;
      if status != D.Ok {
        StreamedFailed(d, items[..i], items[i..], capacity, status, out.draft);
        assert items[..i] + items[i..] == items;
        return;
      }
    }
    assert items[..i] == items;
  }

  /** Custom types are sent as a hash with one reserved key: {"=m": [data]}. */
  method MidiToStream(out: OutboundPacketStream, data: seq<Byte>, length: int) returns (status: D.Status)
    requires out.Valid() && out.messageIsInProgress && |data| == 3 && SingleExact(length)
    modifies out, out.data
    ensures out.Valid() && out.messageIsInProgress
    ensures Streamed(old(out.draft), Emit(MidiValue(data, length, 0), false), out.Capacity(), status, out.draft)
  {
    hide Streamed, SingleBits, SingleExact, OutboundPacketStream.Valid;
    MidiEmitted(data, length);
    status := Chain(out, [Flag(HASH_START_TAG), Text(STRING_TAG, MIDI_KEY), Flag(ARRAY_START_TAG),
                          SingleOf(data[0]), SingleOf(data[1]), SingleOf(data[2]), SingleOf(length),
                          Flag(ARRAY_END_TAG), Flag(HASH_END_TAG)]);
  }

  lemma MidiEmitted(data: seq<Byte>, length: int)
    requires |data| == 3 && SingleExact(length)
    ensures SingleExact(data[0]) && SingleExact(data[1]) && SingleExact(data[2])
    ensures Emit(MidiValue(data, length, 0), false) ==
            [Flag(HASH_START_TAG), Text(STRING_TAG, MIDI_KEY), Flag(ARRAY_START_TAG),
             SingleOf(data[0]), SingleOf(data[1]), SingleOf(data[2]), SingleOf(length),
             Flag(ARRAY_END_TAG), Flag(HASH_END_TAG)]
  {
    hide SingleBits, SingleExact;
    ByteIsExact(data[0]);
    ByteIsExact(data[1]);
    ByteIsExact(data[2]);
    var ns := MidiNumbers(data, length);
    assert ns[0] == ns[..3][0] && ns[1] == ns[..3][1] && ns[2] == ns[..3][2];
    assert EmitNumbers(ns[3..]) == [SingleOf(length)] + EmitNumbers(ns[3..][1..]) && ns[3..][1..] == [];
    assert EmitNumbers(ns[2..]) == [SingleOf(data[2])] + EmitNumbers(ns[2..][1..]) && ns[2..][1..] == ns[3..];
    assert EmitNumbers(ns[1..]) == [SingleOf(data[1])] + EmitNumbers(ns[1..][1..]) && ns[1..][1..] == ns[2..];
    assert EmitNumbers(ns) == [SingleOf(data[0])] + EmitNumbers(ns[1..]);
  }

  /** build_message. */
  method BuildMessage(out: OutboundPacketStream, path: seq<Byte>, v: Value) returns (status: D.Status)
    requires out.Valid() && !out.messageIsInProgress && (Sendable(v) || v.EmptyValue?)
    modifies out, out.data
    ensures out.Valid()
    ensures (status, out.draft) == Execute(old(out.draft), Calls(Message(path, Emit(v, false))), out.Capacity())
  {
    hide Emit, Sendable, D.Outcome, D.DraftSize;
    ghost var d, capacity, items := out.draft, out.Capacity(), Emit(v, false);
    ExecuteMessage(d, path, items, capacity);
    status := out.BeginMessage(path);
    if status != D.Ok {
      return;
    }
    status := ToStream(out, v, false);
    if status != D.Ok {
      return;
    }
    status := out.EndMessage();
  }

  /** The three stages of a message's calls. */
  lemma ExecuteMessage(d: D.Draft, path: seq<Byte>, items: seq<Argument>, capacity: nat)
    ensures var begun := D.After(d, D.BeginMessage(path));
            var (status, full) := Execute(begun, Puts(items), capacity);
            Execute(d, Calls(Message(path, items)), capacity) ==
            if D.Outcome(d, D.BeginMessage(path), capacity) != D.Ok then (D.Outcome(d, D.BeginMessage(path), capacity), d)
            else if status != D.Ok then (status, full)
            else if D.Outcome(full, D.EndMessage, capacity) != D.Ok then (D.Outcome(full, D.EndMessage, capacity), full)
            else (D.Ok, D.After(full, D.EndMessage))
  {
    hide D.Outcome, D.DraftSize;
    var head, body, last := [D.BeginMessage(path)], Puts(items), [D.EndMessage];
    ExecuteAppend(d, head + body, last, capacity);
    ExecuteAppend(d, head, body, capacity);
    assert head[1..] == [] && last[1..] == [];
  }
}
