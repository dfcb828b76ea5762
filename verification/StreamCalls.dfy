/** The matched calls of an element, run on a stream over a real buffer. */
module StreamCalls {
  import opened Bytes
  import opened Packet
  import D = Draft
  import opened OutboundPacketStreams
  import opened StreamRuns

  /** One call, whichever it is. */
  method Perform(out: OutboundPacketStream, op: D.Op) returns (status: D.Status)
    requires out.Valid() && Legal(out.draft, op)
    modifies out, out.data
    ensures out.Valid() && status == D.Outcome(old(out.draft), op, out.Capacity())
    ensures out.draft == D.Step(old(out.draft), op, out.Capacity())
    ensures status != D.Ok ==> unchanged(out) && unchanged(out.data)
  {
    hide D.Outcome, D.Step;
    match op {
      case BeginBundle(timeTag) => status := out.BeginBundle(timeTag);
      case EndBundle => status := out.EndBundle();
      case BeginMessage(address) => status := out.BeginMessage(address);
      case EndMessage => status := out.EndMessage();
      case Put(argument) => status := out.Put(argument);
    }
  }

  /** Which call throws what, said of the stream's own fields: the order of the tests, and the room that an
      element or argument needs behind what Size() already counts. */
  lemma StatusOfFields(out: OutboundPacketStream, t: UInt64, address: seq<Byte>, argument: Argument)
    requires out.Valid()
    ensures var slot := if out.elementSizePtr == -1 then 0 else 4;
            && D.Outcome(out.draft, D.Op.BeginBundle(t), out.Capacity()) ==
               (if out.messageIsInProgress then D.MessageInProgress
                else if out.Size() + slot + 16 > out.Capacity() then D.OutOfBufferMemory
                else D.Ok)
            && D.Outcome(out.draft, D.Op.BeginMessage(address), out.Capacity()) ==
               (if out.messageIsInProgress then D.MessageInProgress
                else if out.Size() + slot + RoundUp4(|address| + 1) + 4 > out.Capacity() then D.OutOfBufferMemory
                else D.Ok)
    ensures D.Outcome(out.draft, D.Op.EndBundle, out.Capacity()) ==
            if out.elementSizePtr == -1 then D.BundleNotInProgress
            else if out.messageIsInProgress then D.MessageInProgress
            else D.Ok
    ensures D.Outcome(out.draft, D.Op.EndMessage, out.Capacity()) == if out.messageIsInProgress then D.Ok else D.MessageNotInProgress
    ensures out.messageIsInProgress ==>
              D.Outcome(out.draft, D.Op.Put(argument), out.Capacity()) ==
              if out.argumentCurrent + |argument.Payload()| + RoundUp4(|out.data[..]| - out.typeTagsCurrent + 3) > out.Capacity()
              then D.OutOfBufferMemory else D.Ok
  {
    hide RoundUp4, Argument.Payload, D.DraftSize, D.Body, D.After, OutboundPacketStream.Size;
    out.SizeIsDraftSize();
    if out.messageIsInProgress {
      SizeOfPut(out, argument);
    } else {
      D.SizeAfterBegin(out.draft, D.Op.BeginBundle(t));
      D.SizeAfterBegin(out.draft, D.Op.BeginMessage(address));
    }
  }

  lemma SizeOfPut(out: OutboundPacketStream, argument: Argument)
    requires out.Valid() && out.messageIsInProgress
    ensures D.DraftSize(D.After(out.draft, D.Op.Put(argument))) ==
            out.argumentCurrent + |argument.Payload()| + RoundUp4(|out.data[..]| - out.typeTagsCurrent + 3)
  {
    hide RoundUp4, Argument.Payload, D.DraftSize, Payloads, Tags, D.Body;
    D.SizeAfterPut(out.littleEndianHost, out.draft, argument);
    D.BodyLength(out.littleEndianHost, out.draft);
    assert |out.data[..out.messageCursor]| == out.messageCursor;
    assert |out.data[out.messageCursor..out.argumentCurrent]| == out.argumentCurrent - out.messageCursor;
    assert |out.data[out.typeTagsCurrent..]| == |out.draft.message.arguments|;
  }

  /** A stream is ready exactly when no element is open. */
  lemma ReadyMeansNothingOpen(out: OutboundPacketStream)
    requires out.Valid()
    ensures out.IsReady() <==> out.draft.message == D.NoMessage && out.draft.bundles == []
  {
  }

  /** No argument is streamed outside of a message, up to the first call that throws. */
  predicate LegalCalls(d: D.Draft, ops: seq<D.Op>, capacity: nat)
    decreases |ops|
  {
    ops == [] || (Legal(d, ops[0]) && (D.Outcome(d, ops[0], capacity) == D.Ok ==> LegalCalls(D.After(d, ops[0]), ops[1..], capacity)))
  }

  lemma {:induction false} LegalAppend(d: D.Draft, a: seq<D.Op>, b: seq<D.Op>, capacity: nat)
    requires LegalCalls(d, a, capacity)
    requires Execute(d, a, capacity).0 == D.Ok ==> LegalCalls(Execute(d, a, capacity).1, b, capacity)
    ensures LegalCalls(d, a + b, capacity)
    decreases |a|
  {
    hide D.Outcome, D.After;
    if a == [] {
      assert a + b == b;
    } else {
      assert (a + b)[1..] == a[1..] + b;
      if D.Outcome(d, a[0], capacity) == D.Ok {
        LegalAppend(D.After(d, a[0]), a[1..], b, capacity);
      }
    }
  }

  lemma {:induction false} PutsLegal(d: D.Draft, args: seq<Argument>, capacity: nat)
    requires d.message.OpenMessage?
    ensures LegalCalls(d, Puts(args), capacity)
    decreases |args|
  {
    hide D.Outcome;
    if args != [] {
      PutsLegal(D.After(d, D.Put(args[0])), args[1..], capacity);
    }
  }

  lemma ExecuteOne(d: D.Draft, op: D.Op, capacity: nat)
    ensures Execute(d, [op], capacity) ==
            if D.Outcome(d, op, capacity) == D.Ok then (D.Ok, D.After(d, op)) else (D.Outcome(d, op, capacity), d)
  {
    hide D.Outcome, D.After;
    assert [op][1..] == [];
  }

  lemma LegalLast(d: D.Draft, op: D.Op, capacity: nat)
    requires !op.Put?
    ensures LegalCalls(d, [op], capacity)
  {
    hide D.Outcome, D.After;
  }

  /** The matched calls of an element never stream an argument outside of its message. */
  lemma {:induction false} CallsLegal(d: D.Draft, e: Element, capacity: nat)
    ensures LegalCalls(d, Calls(e), capacity)
    decreases e, 1
  {
    hide D.Outcome, LegalCalls;
    match e {
      case Message(a, args) =>
        var begin := D.BeginMessage(a);
        LegalLast(d, begin, capacity);
        ExecuteOne(d, begin, capacity);
        if D.Outcome(d, begin, capacity) == D.Ok {
          PutsLegal(Execute(d, [begin], capacity).1, args, capacity);
        }
        LegalAppend(d, [begin], Puts(args), capacity);
        LegalLast(Execute(d, [begin] + Puts(args), capacity).1, D.EndMessage, capacity);
        LegalAppend(d, [begin] + Puts(args), [D.EndMessage], capacity);
      case Bundle(t, es) =>
        var begin := D.BeginBundle(t);
        LegalLast(d, begin, capacity);
        CallsOfLegal(Execute(d, [begin], capacity).1, es, capacity);
        LegalAppend(d, [begin], CallsOf(es), capacity);
        LegalLast(Execute(d, [begin] + CallsOf(es), capacity).1, D.EndBundle, capacity);
        LegalAppend(d, [begin] + CallsOf(es), [D.EndBundle], capacity);
    }
  }

  lemma {:induction false} CallsOfLegal(d: D.Draft, es: seq<Element>, capacity: nat)
    ensures LegalCalls(d, CallsOf(es), capacity)
    decreases es, 0
  {
    hide D.Outcome, Calls;
    if es != [] {
      CallsLegal(d, es[0], capacity);
      CallsOfLegal(Execute(d, Calls(es[0]), capacity).1, es[1..], capacity);
      LegalAppend(d, Calls(es[0]), CallsOf(es[1..]), capacity);
    }
  }

  lemma ExecuteStep(d: D.Draft, ops: seq<D.Op>, i: nat, capacity: nat)
    requires i < |ops| && LegalCalls(d, ops[i..], capacity)
    ensures Legal(d, ops[i])
    ensures D.Outcome(d, ops[i], capacity) == D.Ok ==>
              && LegalCalls(D.After(d, ops[i]), ops[i + 1..], capacity)
              && Execute(d, ops[i..], capacity) == Execute(D.After(d, ops[i]), ops[i + 1..], capacity)
    ensures D.Outcome(d, ops[i], capacity) != D.Ok ==> Execute(d, ops[i..], capacity) == (D.Outcome(d, ops[i], capacity), d)
  {
    hide D.Outcome, D.After;
    assert ops[i..][1..] == ops[i + 1..];
  }

  /** On a stream that is ready and empty, the matched calls of an element succeed exactly when its encoding
      fits the buffer; the buffer then holds that encoding, and the stream is ready again. */
  method WriteCalls(out: OutboundPacketStream, e: Element) returns (status: D.Status)
    requires out.Valid() && out.draft == D.EMPTY_DRAFT
    modifies out, out.data
    ensures out.Valid() && (status == D.Ok <==> |Encode(e)| <= out.Capacity())
    ensures status != D.Ok ==> status == D.OutOfBufferMemory
    ensures status == D.Ok ==> out.IsReady() && out.Size() == |Encode(e)| <= |out.data[..]| && out.data[..out.Size()] == Encode(e)
  {
    hide Execute, LegalCalls, Legal, Encode, OutboundPacketStream.Valid, OutboundPacketStream.IsReady, OutboundPacketStream.Size, D.Body;
    var ops, i := Calls(e), 0;
    ghost var capacity := out.Capacity();
    CallsLegal(out.draft, e, capacity);
    WriteElement(out.littleEndianHost, e, capacity);
    assert ops[0..] == ops;
    status := D.Ok;
    while i < |ops|
      invariant i <= |ops| && status == D.Ok && out.Valid() && LegalCalls(out.draft, ops[i..], capacity)
      invariant Execute(out.draft, ops[i..], capacity) == Execute(D.EMPTY_DRAFT, Calls(e), capacity)
    {
      ExecuteStep(out.draft, ops, i, capacity);
      status := Perform(out, ops[i]);
      if status != D.Ok {
        return;
      }
      i := i + 1;
    }
    assert ops[i..] == [];
    ExecuteNothing(out.draft, capacity);
    Finished(out, e);
  }

  lemma ExecuteNothing(d: D.Draft, capacity: nat)
    ensures Execute(d, [], capacity) == (D.Ok, d)
  {
  }

  lemma Finished(out: OutboundPacketStream, e: Element)
    requires out.Valid() && out.draft == D.Draft([e], [], D.NoMessage) && D.Body(out.littleEndianHost, out.draft) == Encode(e)
    ensures out.IsReady() && out.Size() == |Encode(e)| <= |out.data[..]| && out.data[..out.Size()] == Encode(e)
  {
    hide Encode, D.Body;
    ReadyMeansNothingOpen(out);
  }
}
