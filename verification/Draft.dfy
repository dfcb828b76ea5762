/** The packet under construction, as a value: finished elements, open bundles (outermost
    first) and perhaps an open message; and the bytes the writer keeps for it meanwhile. */
module Draft {
  import opened Bytes
  import opened Packet

  datatype OpenBundle = OpenBundle(timeTag: UInt64, done: seq<Element>)

  datatype Pending = NoMessage | OpenMessage(address: seq<Byte>, arguments: seq<Argument>)

  datatype Draft = Draft(top: seq<Element>, bundles: seq<OpenBundle>, message: Pending)

  const EMPTY_DRAFT := Draft([], [], NoMessage)

  datatype Status = Ok | OutOfBufferMemory | BundleNotInProgress | MessageInProgress | MessageNotInProgress

  datatype Op =
    | BeginBundle(timeTag: UInt64)
    | EndBundle
    | BeginMessage(address: seq<Byte>)
    | EndMessage
    | Put(argument: Argument)

  function Outer(bundles: seq<OpenBundle>): (r: seq<OpenBundle>)
    requires bundles != []
    ensures |r| == |bundles| - 1
  {
    bundles[..|bundles| - 1]
  }

  function Inner(bundles: seq<OpenBundle>): OpenBundle
    requires bundles != []
  {
    bundles[|bundles| - 1]
  }

  /** A finished element joins the innermost open bundle, or the top level. */
  function Join(d: Draft, e: Element): Draft {
    if d.bundles == [] then d.(top := d.top + [e])
    else d.(bundles := Outer(d.bundles) + [Inner(d.bundles).(done := Inner(d.bundles).done + [e])])
  }

  /* ---- the bytes kept in the buffer ---- */

  /** Bytes of everything closed so far, with the open bundles' headers and linked size slots. */
  function Written(le: bool, top: seq<Element>, bundles: seq<OpenBundle>): seq<Byte>
    decreases |bundles|, 0
  {
    if bundles == [] then EncodeTop(top)
    else Opening(le, top, Outer(bundles)) + BundleHeader(Inner(bundles).timeTag) + EncodeElements(Inner(bundles).done)
  }

  /** Written, plus the size slot of an element that was just opened there: until the element
      is closed the slot holds the offset of the enclosing element's slot. */
  function Opening(le: bool, top: seq<Element>, bundles: seq<OpenBundle>): seq<Byte>
    decreases |bundles|, 1
  {
    if bundles == [] then Written(le, top, bundles)
    else Written(le, top, bundles) + HostWord(le, SizeSlot(le, top, bundles) % 0x1_0000_0000)
  }

  /** Offset of the size slot of the innermost open bundle; the outermost has none and counts as 0. */
  function SizeSlot(le: bool, top: seq<Element>, bundles: seq<OpenBundle>): nat
    requires bundles != []
    decreases |bundles|, 0
  {
    if |bundles| == 1 then 0 else |Written(le, top, Outer(bundles))|
  }

  /** Everything in front of the message cursor. */
  function Body(le: bool, d: Draft): seq<Byte> {
    match d.message
    case NoMessage => Written(le, d.top, d.bundles)
    case OpenMessage(a, _) => Opening(le, d.top, d.bundles) + OscString(a)
  }

  /** Offset of the innermost open element's size slot, -1 when nothing is open. */
  function TopSlot(le: bool, d: Draft): int {
    if d.message.OpenMessage? then
      if d.bundles == [] then 0 else |Written(le, d.top, d.bundles)|
    else if d.bundles == [] then -1 else SizeSlot(le, d.top, d.bundles)
  }

  /** Offsets of all open elements' slots, innermost first. */
  function OpenSlots(le: bool, d: Draft): seq<nat>
  {
    (if d.message == NoMessage then [] else [if d.bundles == [] then 0 else |Written(le, d.top, d.bundles)|])
    + BundleSlots(le, d.top, d.bundles)
  }

  function BundleSlots(le: bool, top: seq<Element>, bundles: seq<OpenBundle>): (s: seq<nat>)
    ensures |s| == |bundles|
  {
    if bundles == [] then [] else [SizeSlot(le, top, bundles)] + BundleSlots(le, top, Outer(bundles))
  }

  /** The size of the packet if the open message were closed now. */
  function DraftSize(d: Draft): nat {
    |Body(true, d)| +
    match d.message
    case NoMessage => 0
    case OpenMessage(_, args) => |Payloads(args)| + RoundUp4(|args| + 2)
  }

  /* ---- what each stream operation does to the draft ---- */

  function Close(d: Draft): Draft
  {
    match d.message
    case NoMessage => d
    case OpenMessage(a, args) => Join(d.(message := NoMessage), Message(a, args))
  }

  function CloseBundle(d: Draft): Draft
    requires d.bundles != []
  {
    Join(d.(bundles := Outer(d.bundles)), Bundle(Inner(d.bundles).timeTag, Inner(d.bundles).done))
  }

  /** The draft after a successful operation. */
  function After(d: Draft, op: Op): Draft
  {
    match op
    case BeginBundle(t) => d.(bundles := d.bundles + [OpenBundle(t, [])])
    case EndBundle => if d.bundles == [] then d else CloseBundle(d)
    case BeginMessage(a) => d.(message := OpenMessage(a, []))
    case EndMessage => Close(d)
    case Put(x) => if d.message.OpenMessage? then d.(message := OpenMessage(d.message.address, d.message.arguments + [x])) else d
  }

  /** The exception an operation raises, by its own order of tests. An operation that adds bytes
      raises OutOfBufferMemory exactly when the packet it leads to does not fit. */
  function Outcome(d: Draft, op: Op, capacity: nat): Status
  {
    match op
    case EndBundle =>
      if d.message == NoMessage && d.bundles == [] then BundleNotInProgress
      else if d.message.OpenMessage? then MessageInProgress else Ok
    case EndMessage =>
      if d.message == NoMessage then MessageNotInProgress else Ok
    case Put(_) =>
      if DraftSize(After(d, op)) > capacity then OutOfBufferMemory else Ok
    case _ =>
      if d.message.OpenMessage? then MessageInProgress
      else if DraftSize(After(d, op)) > capacity then OutOfBufferMemory else Ok
  }

  /** One call: an operation that throws changes nothing. */
  function Step(d: Draft, op: Op, capacity: nat): Draft
  {
    if Outcome(d, op, capacity) == Ok then After(d, op) else d
  }

  /* ---- laws of the layout ---- */

  /** The byte order of the host never changes a length. */
  lemma {:induction false} WrittenLength(le: bool, top: seq<Element>, bundles: seq<OpenBundle>)
    ensures |Written(le, top, bundles)| == |Written(true, top, bundles)|
    decreases |bundles|
  {
    if bundles != [] {
      WrittenLength(le, top, Outer(bundles));
    }
  }

  lemma BodyLength(le: bool, d: Draft)
    ensures |Body(le, d)| == |Body(true, d)|
  {
    WrittenLength(le, d.top, d.bundles);
  }

  /** Joining an element appends exactly its bytes, behind a size word inside a bundle. */
  lemma WrittenJoin(le: bool, d: Draft, e: Element)
    ensures var d' := Join(d, e);
            Written(le, d'.top, d'.bundles)
            == Written(le, d.top, d.bundles) + if d.bundles == [] then Encode(e) else Sized(e)
  {
    if d.bundles == [] {
      EncodeTopSnoc(d.top, e);
    } else {
      var b := Inner(d.bundles);
      var bs := Join(d, e).bundles;
      assert Outer(bs) == Outer(d.bundles) && Inner(bs) == b.(done := b.done + [e]);
      EncodeElementsSnoc(b.done, e);
      Associate(Opening(le, d.top, Outer(bs)) + BundleHeader(b.timeTag), EncodeElements(b.done), Sized(e));
    }
  }

  /** The slot an open bundle is linked to lies inside what has been written. */
  lemma SlotInside(le: bool, top: seq<Element>, bundles: seq<OpenBundle>)
    requires bundles != []
    ensures SizeSlot(le, top, bundles) + 16 <= |Written(le, top, bundles)|
  {
    if |bundles| > 1 {
      assert |Opening(le, top, Outer(bundles))| >= |Written(le, top, Outer(bundles))|;
    }
  }

  /** What the two space checks add up is the size of the draft they lead to. */
  lemma SizeAfterBegin(d: Draft, op: Op)
    requires d.message == NoMessage && (op.BeginBundle? || op.BeginMessage?)
    ensures DraftSize(After(d, op)) == DraftSize(d) + (if d.bundles == [] then 0 else 4)
              + if op.BeginBundle? then 16 else RoundUp4(|op.address| + 1) + 4
    ensures RoundUp4(2) == 4
  {
    hide Written, HostWord, OscString;
    assert |Payloads([])| == 0;
    if op.BeginBundle? {
      WrittenOpen(true, d, op.timeTag);
    }
  }

  lemma SizeAfterPut(le: bool, d: Draft, a: Argument)
    requires d.message.OpenMessage?
    ensures Body(le, After(d, Put(a))) == Body(le, d) && TopSlot(le, After(d, Put(a))) == TopSlot(le, d)
    ensures DraftSize(d) == |Body(true, d)| + |Payloads(d.message.arguments)| + RoundUp4(|d.message.arguments| + 2)
    ensures DraftSize(After(d, Put(a)))
            == |Body(true, d)| + |Payloads(d.message.arguments)| + |a.Payload()| + RoundUp4(|d.message.arguments| + 3)
  {
    hide Written, HostWord, OscString, Argument.Payload;
    PayloadsSnoc(d.message.arguments, a);
  }

  /** Joining an element leaves the innermost slot where it was. */
  lemma JoinSlot(le: bool, d: Draft, e: Element)
    requires d.message == NoMessage
    ensures TopSlot(le, Join(d, e)) == if d.bundles == [] then -1 else SizeSlot(le, d.top, d.bundles)
  {
    if d.bundles != [] {
      assert Outer(Join(d, e).bundles) == Outer(d.bundles);
    }
  }

  /** A fresh bundle adds its header to what opening an element there gives. */
  lemma WrittenOpen(le: bool, d: Draft, timeTag: UInt64)
    ensures var d' := After(d, BeginBundle(timeTag));
            && Written(le, d.top, d'.bundles) == Opening(le, d.top, d.bundles) + BundleHeader(timeTag)
            && SizeSlot(le, d.top, d'.bundles) == if d.bundles == [] then 0 else |Written(le, d.top, d.bundles)|
  {
    var bundles := After(d, BeginBundle(timeTag)).bundles;
    assert Outer(bundles) == d.bundles && Inner(bundles) == OpenBundle(timeTag, []);
  }
}
