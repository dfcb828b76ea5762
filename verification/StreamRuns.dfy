/** Laws of whole runs of the packet writer: what every run keeps, what the links in the output
    say, and what a matched sequence of begin and end calls leaves in the buffer. */
module StreamRuns {
  import opened Bytes
  import opened Packet
  import opened Draft

  /** Arguments are streamed only into an open message. */
  predicate Legal(d: Draft, op: Op) {
    op.Put? ==> d.message.OpenMessage?
  }

  /** The draft after a run in which every exception is caught and the run goes on. */
  function Run(d: Draft, ops: seq<Op>, capacity: nat): Draft
    decreases |ops|
  {
    if ops == [] then d else Run(Step(d, ops[0], capacity), ops[1..], capacity)
  }

  predicate LegalRun(d: Draft, ops: seq<Op>, capacity: nat)
    decreases |ops|
  {
    ops == [] || (Legal(d, ops[0]) && LegalRun(Step(d, ops[0], capacity), ops[1..], capacity))
  }

  /* ---- sizes ---- */

  lemma {:induction false} WrittenWords(top: seq<Element>, bundles: seq<OpenBundle>) returns (words: nat)
    ensures |Written(true, top, bundles)| == 4 * words
    decreases |top| + |bundles|
  {
    if bundles == [] {
      if top == [] {
        words := 0;
      } else {
        var before := WrittenWords(top[..|top| - 1], []);
        var last := EncodeWords(top[|top| - 1]);
        words := before + last;
      }
    } else {
      var outer := WrittenWords(top, Outer(bundles));
      var done := ElementsWords(Inner(bundles).done);
      words := outer + (if Outer(bundles) == [] then 0 else 1) + 4 + done;
    }
  }

  /** The predicted size is a whole number of words in every state. */
  lemma SizeAligned(d: Draft) returns (words: nat)
    ensures DraftSize(d) == 4 * words
  {
    hide Written, Payloads, HostWord;
    var written := WrittenWords(d.top, d.bundles);
    match d.message
    case NoMessage =>
      words := written;
    case OpenMessage(a, args) =>
      var payload := PayloadsWords(args);
      var slot := if d.bundles == [] then 0 else 1;
      words := written + slot + (|a| + 4) / 4 + payload + (|args| + 5) / 4;
  }

  /** The innermost open element, and the draft it was opened in. */
  function Innermost(d: Draft): Element
    requires d.message.OpenMessage? || d.bundles != []
  {
    if d.message.OpenMessage? then Message(d.message.address, d.message.arguments)
    else Bundle(Inner(d.bundles).timeTag, Inner(d.bundles).done)
  }

  function Around(d: Draft): Draft
    requires d.message.OpenMessage? || d.bundles != []
  {
    if d.message.OpenMessage? then d.(message := NoMessage) else d.(bundles := Outer(d.bundles))
  }

  predicate Closes(d: Draft, op: Op) {
    (op.EndMessage? && d.message.OpenMessage?) || (op.EndBundle? && d.message == NoMessage && d.bundles != [])
  }

  /** The size counts the innermost element as if it were already closed. */
  lemma SizeIsClosedSize(d: Draft)
    requires d.message.OpenMessage? || d.bundles != []
    ensures DraftSize(d) == |Opening(true, Around(d).top, Around(d).bundles)| + |Encode(Innermost(d))|
  {
    hide HostWord, SizeWord, OscString;
    var e := Innermost(d);
    if e.Message? {
      assert Encode(e) == OscString(e.address) + TagString(e.arguments) + Payloads(e.arguments);
    } else {
      assert Encode(e) == BundleHeader(e.timeTag) + EncodeElements(e.elements);
    }
  }

  /** Closing a message or a bundle turns the prediction into the fact: the size stays the same,
      and it is now the number of bytes written. */
  lemma CloseKeepsSize(d: Draft, op: Op)
    requires Closes(d, op)
    ensures DraftSize(After(d, op)) == DraftSize(d)
    ensures DraftSize(After(d, op)) == |Written(true, After(d, op).top, After(d, op).bundles)|
  {
    hide Written, Encode, HostWord, SizeWord;
    assert After(d, op) == Join(Around(d), Innermost(d));
    WrittenJoin(true, Around(d), Innermost(d));
    SizeIsClosedSize(d);
  }

  /** An operation never makes the packet smaller; only closing leaves the size as it was. */
  lemma SizeGrows(d: Draft, op: Op)
    requires Legal(d, op) && Outcome(d, op, DraftSize(After(d, op))) == Ok
    ensures DraftSize(d) <= DraftSize(After(d, op))
    ensures op.EndMessage? || op.EndBundle? || op.Put? || DraftSize(d) < DraftSize(After(d, op))
  {
    hide DraftSize, Body, TopSlot, Written, Join, Payloads;
    match op
    case BeginBundle(_) => SizeAfterBegin(d, op);
    case BeginMessage(_) => SizeAfterBegin(d, op);
    case Put(a) => SizeAfterPut(true, d, a);
    case _ => CloseKeepsSize(d, op);
  }

  /** Over every run the size stays within the capacity and stays aligned. */
  lemma {:induction false} RunsFit(d: Draft, ops: seq<Op>, capacity: nat)
    requires DraftSize(d) <= capacity && LegalRun(d, ops, capacity)
    ensures DraftSize(Run(d, ops, capacity)) <= capacity
    ensures DraftSize(Run(d, ops, capacity)) % 4 == 0
    decreases |ops|
  {
    if ops == [] {
      var words := SizeAligned(d);
    } else {
      if Closes(d, ops[0]) {
        CloseKeepsSize(d, ops[0]);
      }
      RunsFit(Step(d, ops[0], capacity), ops[1..], capacity);
    }
  }

  /* ---- the open elements, linked through the output ---- */

  /** Follows the links stored in size slots, from slot p down to the start of the buffer. */
  function Chain(le: bool, buffer: seq<Byte>, p: int): seq<int>
    decreases p
  {
    if p <= 0 || p + 4 > |buffer| then [p]
    else
      var previous := ReadHostWord(le, buffer, p);
      if previous < p then [p] + Chain(le, buffer, previous) else [p]
  }

  predicate Decreasing(s: seq<int>) {
    forall i, j :: 0 <= i < j < |s| ==> s[i] > s[j]
  }

  lemma LinkRead(le: bool, buffer: seq<Byte>, w: seq<Byte>, front: seq<Byte>, link: nat, rest: seq<Byte>)
    requires link < 0x1_0000_0000 && |w| <= |buffer| && buffer[..|w|] == w
    requires w == front + HostWord(le, link) + rest
    ensures ReadHostWord(le, buffer, |front|) == link
    ensures buffer[..|front|] == front
  {
    hide HostWord;
    assert buffer[..|front|] == buffer[..|w|][..|front|];
    assert buffer[|front|..|front| + 4] == buffer[..|w|][|front|..|front| + 4];
    HostWordRoundTrip(le, buffer, |front|, link);
  }

  lemma {:induction false} BundleChain(le: bool, buffer: seq<Byte>, top: seq<Element>, bundles: seq<OpenBundle>)
    requires bundles != [] && |Written(le, top, bundles)| <= |buffer| < 0x1_0000_0000
    requires buffer[..|Written(le, top, bundles)|] == Written(le, top, bundles)
    ensures Chain(le, buffer, SizeSlot(le, top, bundles)) == BundleSlots(le, top, bundles)
    ensures Decreasing(BundleSlots(le, top, bundles))
    ensures BundleSlots(le, top, bundles)[|bundles| - 1] == 0
    decreases |bundles|
  {
    hide HostWord, BundleHeader, Encode, EncodeElements;
    var outer := Outer(bundles);
    if outer == [] {
      assert BundleSlots(le, top, bundles) == [0];
    } else {
      var front, link := Written(le, top, outer), SizeSlot(le, top, outer);
      SlotInside(le, top, outer);
      var rest := BundleHeader(Inner(bundles).timeTag) + EncodeElements(Inner(bundles).done);
      LinkRead(le, buffer, Written(le, top, bundles), front, link, rest);
      BundleChain(le, buffer, top, outer);
      assert BundleSlots(le, top, bundles)[|bundles| - 1] == BundleSlots(le, top, outer)[|outer| - 1];
      DecreasingCons(|front|, BundleSlots(le, top, outer), link);
    }
  }

  lemma DecreasingCons(x: int, s: seq<int>, head: int)
    requires Decreasing(s) && s != [] && s[0] == head < x
    ensures Decreasing([x] + s)
  {
    assert forall i :: 0 < i < |s| ==> s[0] > s[i];
  }

  /** In every state the links in unfinished size slots list exactly the open elements, from the
      innermost, each strictly below the one before it, down to the start of the buffer. */
  lemma LinkedSlots(le: bool, buffer: seq<Byte>, d: Draft)
    requires TopSlot(le, d) != -1
    requires |Body(le, d)| <= |buffer| < 0x1_0000_0000 && buffer[..|Body(le, d)|] == Body(le, d)
    ensures Chain(le, buffer, TopSlot(le, d)) == OpenSlots(le, d)
    ensures Decreasing(OpenSlots(le, d)) && OpenSlots(le, d)[|OpenSlots(le, d)| - 1] == 0
    ensures |OpenSlots(le, d)| == |d.bundles| + if d.message == NoMessage then 0 else 1
  {
    hide HostWord, Written, OscString;
    if d.bundles != [] {
      var w := Written(le, d.top, d.bundles);
      SlotInside(le, d.top, d.bundles);
      if d.message.OpenMessage? {
        var link := SizeSlot(le, d.top, d.bundles);
        LinkRead(le, buffer, Body(le, d), w, link, OscString(d.message.address));
        BundleChain(le, buffer, d.top, d.bundles);
        DecreasingCons(|w|, BundleSlots(le, d.top, d.bundles), link);
      } else {
        BundleChain(le, buffer, d.top, d.bundles);
      }
    }
  }

  /** Closing an element that has a size slot stores there its exact length in bytes, a multiple
      of four. */
  lemma CloseWritesLength(le: bool, d: Draft, op: Op)
    requires Closes(d, op) && Around(d).bundles != [] && DraftSize(d) < 0x1_0000_0000
    ensures var after := Written(le, After(d, op).top, After(d, op).bundles);
            var slot := TopSlot(le, d);
            && 0 < slot && slot + 4 <= |after|
            && ReadWord32(after, slot) == |after| - slot - 4
            && ReadWord32(after, slot) % 4 == 0
  {
    hide Written, Encode, HostWord, Word32, ReadWord32, Sized;
    var d0, e := Around(d), Innermost(d);
    assert After(d, op) == Join(d0, e);
    var front := Written(le, d0.top, d0.bundles);
    var after := Written(le, After(d, op).top, After(d, op).bundles);
    WrittenJoin(le, d0, e);
    SlotInside(le, d0.top, d0.bundles);
    EncodeAligned(e);
    CloseKeepsSize(d, op);
    WrittenLength(le, After(d, op).top, After(d, op).bundles);
    SizeReads(after, front, e);
  }

  lemma SizeReads(all: seq<Byte>, front: seq<Byte>, e: Element)
    requires all == front + Sized(e) && |all| < 0x1_0000_0000
    ensures |front| + 4 + |Encode(e)| == |all| && ReadWord32(all, |front|) == |Encode(e)|
  {
    hide Encode, Word32, ReadWord32;
    WordBetween(all, front, SizeWord(|Encode(e)|), Encode(e));
    Word32RoundTrip(all, |front|, |Encode(e)|);
  }

  lemma WordBetween(all: seq<Byte>, front: seq<Byte>, word: seq<Byte>, body: seq<Byte>)
    requires all == front + (word + body)
    ensures all[|front|..|front| + |word|] == word
  {
  }

  /* ---- matched begin and end calls ---- */

  function Puts(args: seq<Argument>): seq<Op> {
    if args == [] then [] else [Put(args[0])] + Puts(args[1..])
  }

  /** The matched calls that write an element. */
  function Calls(e: Element): seq<Op>
    decreases e
  {
    match e
    case Message(a, args) => [BeginMessage(a)] + Puts(args) + [EndMessage]
    case Bundle(t, es) => [BeginBundle(t)] + CallsOf(es) + [EndBundle]
  }

  function CallsOf(es: seq<Element>): seq<Op>
    decreases es
  {
    if es == [] then [] else Calls(es[0]) + CallsOf(es[1..])
  }

  function JoinAll(d: Draft, es: seq<Element>): Draft
    decreases |es|
  {
    if es == [] then d else JoinAll(Join(d, es[0]), es[1..])
  }

  /** Calls made one after the other until one throws. */
  function Execute(d: Draft, ops: seq<Op>, capacity: nat): (Status, Draft)
    decreases |ops|
  {
    if ops == [] then (Ok, d)
    else if Outcome(d, ops[0], capacity) != Ok then (Outcome(d, ops[0], capacity), d)
    else Execute(After(d, ops[0]), ops[1..], capacity)
  }

  lemma {:induction false} ExecuteAppend(d: Draft, a: seq<Op>, b: seq<Op>, capacity: nat)
    ensures var (s, d') := Execute(d, a, capacity);
            Execute(d, a + b, capacity) == if s == Ok then Execute(d', b, capacity) else (s, d')
    decreases |a|
  {
    if a == [] {
      assert a + b == b;
    } else {
      assert (a + b)[1..] == a[1..] + b;
      ExecuteAppend(After(d, a[0]), a[1..], b, capacity);
    }
  }

  /** What executing ops from d amounts to, when it leads to the draft goal: it succeeds exactly
      when goal fits, and otherwise runs out of buffer memory. */
  predicate Reaches(d: Draft, ops: seq<Op>, goal: Draft, capacity: nat) {
    && DraftSize(d) <= DraftSize(goal)
    && (DraftSize(d) <= capacity ==>
          if DraftSize(goal) <= capacity then Execute(d, ops, capacity) == (Ok, goal)
          else Execute(d, ops, capacity).0 == OutOfBufferMemory)
  }

  lemma ReachesAppend(d: Draft, a: seq<Op>, mid: Draft, b: seq<Op>, goal: Draft, capacity: nat)
    requires Reaches(d, a, mid, capacity) && Reaches(mid, b, goal, capacity)
    ensures Reaches(d, a + b, goal, capacity)
  {
    ExecuteAppend(d, a, b, capacity);
  }

  lemma ReachesOne(d: Draft, op: Op, capacity: nat)
    requires Legal(d, op) && Outcome(d, op, DraftSize(After(d, op))) == Ok
    ensures Reaches(d, [op], After(d, op), capacity)
  {
    SizeGrows(d, op);
    if Closes(d, op) {
      CloseKeepsSize(d, op);
    }
    assert Execute(After(d, op), [op][1..], capacity) == (Ok, After(d, op));
  }

  lemma {:induction false} PutsReach(d: Draft, args: seq<Argument>, capacity: nat)
    requires d.message.OpenMessage?
    ensures Reaches(d, Puts(args), d.(message := OpenMessage(d.message.address, d.message.arguments + args)), capacity)
    decreases |args|
  {
    if args == [] {
      assert d.message.arguments + args == d.message.arguments;
    } else {
      var mid := After(d, Put(args[0]));
      ReachesOne(d, Put(args[0]), capacity);
      PutsReach(mid, args[1..], capacity);
      assert d.message.arguments + args == d.message.arguments + [args[0]] + args[1..];
      ReachesAppend(d, [Put(args[0])], mid, Puts(args[1..]),
                    d.(message := OpenMessage(d.message.address, d.message.arguments + args)), capacity);
    }
  }

  /** Matched calls add exactly their element if the packet fits, and otherwise throw. */
  lemma {:induction false} CallsReach(d: Draft, e: Element, capacity: nat)
    requires d.message == NoMessage
    ensures Reaches(d, Calls(e), Join(d, e), capacity)
    decreases e
  {
    match e
    case Message(a, args) =>
      var begun := After(d, BeginMessage(a));
      var full := d.(message := OpenMessage(a, args));
      ReachesOne(d, BeginMessage(a), capacity);
      PutsReach(begun, args, capacity);
      assert [] + args == args;
      ReachesOne(full, EndMessage, capacity);
      assert After(full, EndMessage) == Join(d, e);
      ReachesAppend(d, [BeginMessage(a)], begun, Puts(args), full, capacity);
      ReachesAppend(d, [BeginMessage(a)] + Puts(args), full, [EndMessage], Join(d, e), capacity);
    case Bundle(t, es) =>
      var begun := After(d, BeginBundle(t));
      var full := d.(bundles := d.bundles + [OpenBundle(t, es)]);
      ReachesOne(d, BeginBundle(t), capacity);
      ElementsReach(begun, es, capacity);
      BundleFilled(d, t, [], es);
      assert [] + es == es;
      ReachesOne(full, EndBundle, capacity);
      assert Outer(full.bundles) == d.bundles;
      assert After(full, EndBundle) == Join(d, e);
      ReachesAppend(d, [BeginBundle(t)], begun, CallsOf(es), full, capacity);
      ReachesAppend(d, [BeginBundle(t)] + CallsOf(es), full, [EndBundle], Join(d, e), capacity);
  }

  lemma {:induction false} ElementsReach(d: Draft, es: seq<Element>, capacity: nat)
    requires d.message == NoMessage
    ensures Reaches(d, CallsOf(es), JoinAll(d, es), capacity)
    decreases es
  {
    if es != [] {
      CallsReach(d, es[0], capacity);
      ElementsReach(Join(d, es[0]), es[1..], capacity);
      ReachesAppend(d, Calls(es[0]), Join(d, es[0]), CallsOf(es[1..]), JoinAll(d, es), capacity);
    }
  }

  lemma {:induction false} BundleFilled(d: Draft, t: UInt64, done: seq<Element>, es: seq<Element>)
    ensures JoinAll(d.(bundles := d.bundles + [OpenBundle(t, done)]), es)
            == d.(bundles := d.bundles + [OpenBundle(t, done + es)])
    decreases |es|
  {
    if es == [] {
      assert done + es == done;
    } else {
      var begun := d.(bundles := d.bundles + [OpenBundle(t, done)]);
      assert Outer(begun.bundles) == d.bundles;
      BundleFilled(d, t, done + [es[0]], es[1..]);
      assert done + [es[0]] + es[1..] == done + es;
    }
  }

  /** From an empty stream, the matched calls of an element succeed exactly when its encoding fits,
      and then the stream is ready and holds that encoding. */
  lemma WriteElement(le: bool, e: Element, capacity: nat)
    ensures var (status, d) := Execute(EMPTY_DRAFT, Calls(e), capacity);
            && (status == Ok <==> |Encode(e)| <= capacity)
            && (status != Ok ==> status == OutOfBufferMemory)
            && (status == Ok ==> d == Draft([e], [], NoMessage) && TopSlot(le, d) == -1 && Body(le, d) == Encode(e))
  {
    var goal := Draft([e], [], NoMessage);
    assert Join(EMPTY_DRAFT, e) == goal;
    CallsReach(EMPTY_DRAFT, e, capacity);
    assert [e][..0] == [];
    assert EncodeTop([e]) == EncodeTop([]) + Encode(e) == Encode(e);
    assert DraftSize(goal) == |Encode(e)|;
  }
}
