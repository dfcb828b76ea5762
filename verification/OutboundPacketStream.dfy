/** The packet writer: one fixed buffer in which arguments grow upwards from the message cursor,
    type tags grow downwards from the end, and open elements form a list threaded through their
    own size slots. */
module OutboundPacketStreams {
  import opened Bytes
  import opened Packet
  import opened Draft

  /** Overwriting a slot leaves what is in front of it and behind it. */
  lemma Patch(was: seq<Byte>, now: seq<Byte>, front: seq<Byte>, slot: seq<Byte>, body: seq<Byte>, word: seq<Byte>)
    requires |slot| == |word| && |was| == |now|
    requires was == front + slot + body
    requires now[..|front| + |word|] == was[..|front|] + word
    requires now[|front| + |word|..] == was[|front| + |word|..]
    ensures now == front + word + body
  {
    var p := |front| + |word|;
    assert now == now[..p] + now[p..];
    assert was[p..] == body && was[..|front|] == front;
  }

  function Reversed(s: seq<Byte>): (r: seq<Byte>)
    ensures |r| == |s|
  {
    if s == [] then [] else Reversed(s[1..]) + [s[0]]
  }

  lemma {:induction false} ReversedSnoc(s: seq<Byte>, x: Byte)
    ensures Reversed(s + [x]) == [x] + Reversed(s)
  {
    if s != [] {
      ReversedSnoc(s[1..], x);
      assert (s + [x])[1..] == s[1..] + [x];
    }
  }

  lemma {:induction false} ReversedAt(s: seq<Byte>, i: nat)
    requires i < |s|
    ensures Reversed(s)[|s| - 1 - i] == s[i]
  {
    if i > 0 {
      ReversedAt(s[1..], i - 1);
    }
  }

  /** A tag pushed below the tags and a payload stored above the arguments touch nothing else. */
  lemma PutParts(was: seq<Byte>, now: seq<Byte>, cursor: nat, at: nat, payload: seq<Byte>, tags: nat, tag: Byte)
    requires cursor <= at && at + |payload| < tags <= |was| == |now|
    requires now[..at + |payload|] == was[tags - 1 := tag][..at] + payload
    requires forall i :: at + |payload| <= i < |now| ==> now[i] == was[tags - 1 := tag][i]
    ensures now[..cursor] == was[..cursor]
    ensures now[cursor..at + |payload|] == was[cursor..at] + payload
    ensures now[tags - 1..] == [tag] + was[tags..]
  {
    var n := at + |payload|;
    assert now[..cursor] == now[..n][..cursor];
    assert now[cursor..n] == now[..n][cursor..];
  }

  lemma Taken(s: seq<Byte>, n: nat, k: nat)
    requires k <= n <= |s|
    ensures s[..n][..k] == s[..k] && s[..n][k..] == s[k..n]
  {
  }

  /** What the pieces of a finished tag string and the moved arguments add up to. */
  lemma TagStringLaid(was: seq<Byte>, now: seq<Byte>, tags: seq<Byte>, slotSize: nat, moved: seq<Byte>)
    requires slotSize == RoundUp4(|tags| + 2) && |now| == |was| + slotSize + |moved|
    requires now[..|was| + 1 + |tags|] == was + ([COMMA] + tags)
    requires forall i :: |was| + 1 + |tags| <= i < |was| + slotSize ==> now[i] == NUL
    requires now[|was| + slotSize..] == moved
    ensures now == was + OscString([COMMA] + tags) + moved
  {
    var tagString := now[|was|..|was| + slotSize];
    assert tagString[..1 + |tags|] == now[..|was| + 1 + |tags|][|was|..] == [COMMA] + tags;
    OscStringIs([COMMA] + tags, tagString);
    assert now[..|was|] == now[..|was| + 1 + |tags|][..|was|] == was;
    assert now == now[..|was|] + tagString + now[|was| + slotSize..];
  }

  class OutboundPacketStream {
    const littleEndianHost: bool
    const data: array<Byte>
    var typeTagsCurrent: nat // tags are stored in reverse order
    var messageCursor: nat
    var argumentCurrent: nat
    var elementSizePtr: int  // an offset into data, -1 for the null pointer
    var messageIsInProgress: bool

    /** What has been written so far. */
    ghost var draft: Draft

    ghost predicate Valid()
      reads this, data
    {
      && data.Length < 0x8000_0000
      && messageIsInProgress == draft.message.OpenMessage?
      && elementSizePtr == TopSlot(littleEndianHost, draft)
      && messageCursor <= argumentCurrent <= typeTagsCurrent <= data.Length
      && data[..messageCursor] == Body(littleEndianHost, draft)
      && (if messageIsInProgress then
            && argumentCurrent + RoundUp4(data.Length - typeTagsCurrent + 2) <= data.Length
            && data[messageCursor..argumentCurrent] == Payloads(draft.message.arguments)
            && data[typeTagsCurrent..] == Reversed(Tags(draft.message.arguments))
          else
            argumentCurrent == messageCursor && typeTagsCurrent == data.Length)
    }

    constructor (buffer: array<Byte>, littleEndianHost: bool)
      requires buffer.Length < 0x8000_0000
      ensures Valid() && draft == EMPTY_DRAFT && data == buffer && this.littleEndianHost == littleEndianHost
    {
      this.littleEndianHost := littleEndianHost;
      data := buffer;
      typeTagsCurrent := buffer.Length;
      messageCursor := 0;
      argumentCurrent := 0;
      elementSizePtr := -1;
      messageIsInProgress := false;
      draft := EMPTY_DRAFT;
    }

    method Clear()
      requires Valid()
      modifies this
      ensures Valid() && draft == EMPTY_DRAFT
    {
      typeTagsCurrent := data.Length;
      messageCursor := 0;
      argumentCurrent := 0;
      elementSizePtr := -1;
      messageIsInProgress := false;
      draft := EMPTY_DRAFT;
    }

    function Capacity(): nat
    {
      data.Length
    }

    function Size(): nat
      reads this
      requires typeTagsCurrent <= data.Length
    {
      argumentCurrent + if messageIsInProgress then RoundUp4(data.Length - typeTagsCurrent + 2) else 0
    }

    predicate IsReady()
      reads this
    {
      !messageIsInProgress && elementSizePtr == -1
    }

    /** Size() is already the size of the packet that closing the open message would give. */
    lemma SizeIsDraftSize()
      requires Valid()
      ensures Size() == DraftSize(draft) <= Capacity()
    {
      BodyLength(littleEndianHost, draft);
      assert |data[..messageCursor]| == messageCursor;
      if messageIsInProgress {
        assert |data[messageCursor..argumentCurrent]| == argumentCurrent - messageCursor;
        assert |data[typeTagsCurrent..]| == |draft.message.arguments|;
      }
    }

    /** memcpy into the buffer. */
    method Store(at: nat, s: seq<Byte>)
      requires at + |s| <= data.Length
      modifies data
      ensures data[..at + |s|] == old(data[..at]) + s
      ensures forall i :: at + |s| <= i < data.Length ==> data[i] == old(data[i])
    {
      forall i | 0 <= i < |s| {
        data[at + i] := s[i];
      }
    }

    /** The loop that pads with zeros to a 4-byte boundary; the bytes from at on are being padded. */
    method ZeroPad(at: nat, written: nat) returns (next: nat)
      requires at <= written && at + RoundUp4(written - at) <= data.Length
      modifies data
      ensures next == at + RoundUp4(written - at)
      ensures data[..next] == old(data[..at]) + Padded(old(data[at..written]))
      ensures forall i :: next <= i < data.Length ==> data[i] == old(data[i])
    {
      next := written;
      var i := written - at;
      while i % 4 != 0
        invariant i == next - at && written <= next <= at + RoundUp4(written - at)
        invariant RoundUp4(i) == RoundUp4(written - at)
        invariant data[..at] == old(data[..at])
        invariant Padded(data[at..next]) == Padded(old(data[at..written]))
        invariant forall i :: next <= i < data.Length ==> data[i] == old(data[i])
        decreases at + RoundUp4(written - at) - next
      {
        ghost var done := data[at..next];
        data[next] := 0;
        assert data[at..next + 1] == done + [NUL];
        next := next + 1;
        i := i + 1;
      }
    }

    /** strcpy and padding. */
    method StoreString(at: nat, s: seq<Byte>) returns (next: nat)
      requires at + RoundUp4(|s| + 1) <= data.Length
      modifies data
      ensures next == at + RoundUp4(|s| + 1)
      ensures data[..next] == old(data[..at]) + OscString(s)
      ensures forall i :: next <= i < data.Length ==> data[i] == old(data[i])
    {
      Store(at, s + [NUL]);
      assert data[at..at + |s| + 1] == s + [NUL];
      next := ZeroPad(at, at + |s| + 1);
    }

    method BeginElement(beginPtr: nat) returns (next: nat)
      requires Valid() && !messageIsInProgress && beginPtr == messageCursor
      requires elementSizePtr != -1 ==> beginPtr + 4 <= data.Length
      modifies this`elementSizePtr, data
      ensures next == |Opening(littleEndianHost, draft.top, draft.bundles)| <= data.Length
      ensures data[..next] == Opening(littleEndianHost, draft.top, draft.bundles)
      ensures elementSizePtr == if draft.bundles == [] then 0 else beginPtr
    {
      hide Written, HostWord, SizeSlot;
      if elementSizePtr == -1 {
        elementSizePtr := 0;
        next := beginPtr;
      } else {
        assert |data[..messageCursor]| == messageCursor;
        SlotInside(littleEndianHost, draft.top, draft.bundles);
        Store(beginPtr, HostWord(littleEndianHost, elementSizePtr));
        elementSizePtr := beginPtr;
        next := beginPtr + 4;
      }
    }

    /** Replaces the link in the current size slot by the element's size, and hands the link back. */
    method StoreElementSize(endPtr: nat, ghost front: seq<Byte>, ghost link: UInt32, ghost body: seq<Byte>)
      returns (previousElementSizePtr: int)
      requires endPtr <= data.Length && elementSizePtr == |front|
      requires data[..endPtr] == front + HostWord(littleEndianHost, link) + body
      modifies data
      ensures previousElementSizePtr == link
      ensures data[..endPtr] == front + SizeWord(|body|) + body
    {
      hide HostWord, SizeWord;
      ghost var was := data[..endPtr];
      assert data[..][elementSizePtr..elementSizePtr + 4] == was[elementSizePtr..elementSizePtr + 4];
      HostWordRoundTrip(littleEndianHost, data[..], elementSizePtr, link);
      previousElementSizePtr := ReadHostWord(littleEndianHost, data[..], elementSizePtr);

      var elementSize := endPtr - elementSizePtr - 4;
      Store(elementSizePtr, SizeWord(elementSize));
      ghost var now := data[..endPtr];
      assert now[..elementSizePtr + 4] == data[..elementSizePtr + 4] && was[..elementSizePtr] == old(data[..])[..elementSizePtr];
      Patch(was, now, front, HostWord(littleEndianHost, link), body, SizeWord(elementSize));
    }

    /** Closes the element e that was opened over the draft d. */
    method EndElement(endPtr: nat, ghost d: Draft, ghost e: Element)
      requires d.message == NoMessage && endPtr <= data.Length < 0x8000_0000
      requires data[..endPtr] == Opening(littleEndianHost, d.top, d.bundles) + Encode(e)
      requires elementSizePtr == if d.bundles == [] then 0 else |Written(littleEndianHost, d.top, d.bundles)|
      modifies this`elementSizePtr, data
      ensures data[..endPtr] == Written(littleEndianHost, Join(d, e).top, Join(d, e).bundles)
      ensures elementSizePtr == TopSlot(littleEndianHost, Join(d, e))
    {
      hide Written, Encode, SizeWord, HostWord, Word32, Join, Outer, SizeSlot;
      WrittenJoin(littleEndianHost, d, e);
      JoinSlot(littleEndianHost, d, e);
      if d.bundles != [] {
        SlotInside(littleEndianHost, d.top, d.bundles);
      }
      if elementSizePtr == 0 {
        elementSizePtr := -1;
      } else {
        ghost var front := Written(littleEndianHost, d.top, d.bundles);
        ghost var link := SizeSlot(littleEndianHost, d.top, d.bundles);
        elementSizePtr := StoreElementSize(endPtr, front, link, Encode(e));
        Associate(front, SizeWord(|Encode(e)|), Encode(e));
      }
    }

    method BeginBundle(timeTag: UInt64) returns (status: Status)
      requires Valid()
      modifies this, data
      ensures Valid()
      ensures status == Outcome(old(draft), Op.BeginBundle(timeTag), Capacity())
      ensures draft == Step(old(draft), Op.BeginBundle(timeTag), Capacity())
      ensures status != Ok ==> unchanged(this) && unchanged(data)
    {
      hide Written, DraftSize, Padded, SizeWord, HostWord, Word64, OscString, RoundUp4, SizeSlot;
      SizeIsDraftSize();
      if messageIsInProgress {
        return MessageInProgress;
      }
      var required := Size() + (if elementSizePtr != -1 then 4 else 0) + 16;
      ghost var d := After(draft, Op.BeginBundle(timeTag));
      WrittenOpen(littleEndianHost, draft, timeTag);
      SizeAfterBegin(draft, Op.BeginBundle(timeTag));
      if required > Capacity() {
        return OutOfBufferMemory;
      }
      messageCursor := BeginElement(messageCursor);
      Store(messageCursor, BUNDLE_MARK);
      Store(messageCursor + 8, Word64(timeTag));
      messageCursor := messageCursor + 16;
      Associate(Opening(littleEndianHost, draft.top, draft.bundles), BUNDLE_MARK, Word64(timeTag));
      argumentCurrent := messageCursor;
      draft := d;
      status := Ok;
    }

    method EndBundle() returns (status: Status)
      requires Valid()
      modifies this, data
      ensures Valid()
      ensures status == Outcome(old(draft), Op.EndBundle, Capacity())
      ensures draft == Step(old(draft), Op.EndBundle, Capacity())
      ensures status != Ok ==> unchanged(this) && unchanged(data)
    {
      if elementSizePtr == -1 {
        return BundleNotInProgress;
      }
      if messageIsInProgress {
        return MessageInProgress;
      }
      ghost var b := Inner(draft.bundles);
      ghost var d := draft.(bundles := Outer(draft.bundles));
      ghost var e := Bundle(b.timeTag, b.done);
      Associate(Opening(littleEndianHost, d.top, d.bundles), BundleHeader(b.timeTag), EncodeElements(b.done));
      EndElement(messageCursor, d, e);
      draft := CloseBundle(draft);
      status := Ok;
    }

    method BeginMessage(addressPattern: seq<Byte>) returns (status: Status)
      requires Valid()
      modifies this, data
      ensures Valid()
      ensures status == Outcome(old(draft), Op.BeginMessage(addressPattern), Capacity())
      ensures draft == Step(old(draft), Op.BeginMessage(addressPattern), Capacity())
      ensures status != Ok ==> unchanged(this) && unchanged(data)
    {
      hide Written, DraftSize, Padded, SizeWord, HostWord, Word32, OscString, RoundUp4;
      SizeIsDraftSize();
      if messageIsInProgress {
        return MessageInProgress;
      }
      var required := Size() + (if elementSizePtr != -1 then 4 else 0) + RoundUp4(|addressPattern| + 1) + 4;
      ghost var d := After(draft, Op.BeginMessage(addressPattern));
      SizeAfterBegin(draft, Op.BeginMessage(addressPattern));
      if required > Capacity() {
        return OutOfBufferMemory;
      }
      messageCursor := BeginElement(messageCursor);
      messageCursor := StoreString(messageCursor, addressPattern);
      argumentCurrent := messageCursor;
      typeTagsCurrent := data.Length;
      messageIsInProgress := true;
      draft := d;
      status := Ok;
    }

    /** Copies the tags, in forward order, behind a comma at the message cursor. */
    method CopyTypeTags(temp: seq<Byte>, ghost tags: seq<Byte>)
      requires temp == Reversed(tags) && messageCursor + 1 + |temp| <= data.Length
      modifies data
      ensures data[..messageCursor + 1 + |temp|] == old(data[..messageCursor]) + ([COMMA] + tags)
      ensures forall i :: messageCursor + 1 + |temp| <= i < data.Length ==> data[i] == old(data[i])
    {
      data[messageCursor] := COMMA;
      for i := 0 to |temp|
        invariant data[..messageCursor + 1 + i] == old(data[..messageCursor]) + ([COMMA] + tags[..i])
        invariant forall j :: messageCursor + 1 + i <= j < data.Length ==> data[j] == old(data[j])
      {
        ReversedAt(tags, i);
        data[messageCursor + i + 1] := temp[|temp| - 1 - i];
        assert tags[..i + 1] == tags[..i] + [tags[i]];
      }
      assert tags[..|temp|] == tags;
    }

    /** The loop that ends the tag string with zeros. */
    method ZeroFill(from: nat, count: nat)
      requires from + count <= data.Length
      modifies data
      ensures data[..from] == old(data[..from])
      ensures forall i :: from <= i < from + count ==> data[i] == NUL
      ensures forall i :: from + count <= i < data.Length ==> data[i] == old(data[i])
    {
      var p := from;
      for i := 0 to count
        invariant p == from + i
        invariant data[..from] == old(data[..from])
        invariant forall j :: from <= j < p ==> data[j] == NUL
        invariant forall j :: p <= j < data.Length ==> data[j] == old(data[j])
      {
        data[p] := NUL;
        p := p + 1;
      }
    }

    /** memmove of the arguments, up by the size of the tag string. */
    method SlideArguments(slotSize: nat)
      requires messageCursor <= argumentCurrent && argumentCurrent + slotSize <= data.Length
      modifies data
      ensures data[..messageCursor] == old(data[..messageCursor])
      ensures data[messageCursor + slotSize..argumentCurrent + slotSize] == old(data[messageCursor..argumentCurrent])
    {
      ghost var front := data[..messageCursor];
      var moved := data[messageCursor..argumentCurrent];
      Store(messageCursor + slotSize, moved);
      ghost var stored := data[..argumentCurrent + slotSize];
      assert data[..messageCursor] == stored[..messageCursor] == front;
      assert data[messageCursor + slotSize..argumentCurrent + slotSize] == stored[messageCursor + slotSize..];
    }

    /** Writes the tag string at the message cursor, under the arguments that were slid up. */
    method StoreTypeTags(ghost args: seq<Argument>)
      requires messageCursor <= argumentCurrent <= typeTagsCurrent < data.Length
      requires argumentCurrent + RoundUp4(data.Length - typeTagsCurrent + 2) <= data.Length
      requires data[typeTagsCurrent..] == Reversed(Tags(args))
      modifies this`typeTagsCurrent, this`messageCursor, data
      ensures typeTagsCurrent == data.Length
      ensures messageCursor == old(argumentCurrent) + RoundUp4(|args| + 2)
      ensures data[..messageCursor] == old(data[..messageCursor]) + TagString(args) + old(data[messageCursor..argumentCurrent])
    {
      hide RoundUp4, OscString, Padded, Reversed, Tags, Payloads;
      var temp := data[typeTagsCurrent..];
      var typeTagsCount := data.Length - typeTagsCurrent;
      var typeTagSlotSize := RoundUp4(typeTagsCount + 2);
      SlideArguments(typeTagSlotSize);
      ghost var moved := data[messageCursor + typeTagSlotSize..argumentCurrent + typeTagSlotSize];
      CopyTypeTags(temp, Tags(args));
      ghost var front := data[..messageCursor + 1 + typeTagsCount];
      ZeroFill(messageCursor + 1 + typeTagsCount, typeTagSlotSize - (typeTagsCount + 1));
      ghost var all := data[..];
      ghost var now := all[..argumentCurrent + typeTagSlotSize];
      Taken(all, argumentCurrent + typeTagSlotSize, messageCursor + 1 + typeTagsCount);
      Taken(all, argumentCurrent + typeTagSlotSize, messageCursor + typeTagSlotSize);
      assert all[..messageCursor + 1 + typeTagsCount] == front;
      assert all[messageCursor + typeTagSlotSize..argumentCurrent + typeTagSlotSize] == moved;
      TagStringLaid(old(data[..messageCursor]), now, Tags(args), typeTagSlotSize, moved);
      typeTagsCurrent := data.Length;
      messageCursor := argumentCurrent + typeTagSlotSize;
    }

    method EndMessage() returns (status: Status)
      requires Valid()
      modifies this, data
      ensures Valid()
      ensures status == Outcome(old(draft), Op.EndMessage, Capacity())
      ensures draft == Step(old(draft), Op.EndMessage, Capacity())
      ensures Size() == old(Size())
      ensures status != Ok ==> unchanged(this) && unchanged(data)
    {
      hide Written, Opening, BundleHeader, Padded, SizeWord, Word32, OscString;
      if !messageIsInProgress {
        return MessageNotInProgress;
      }
      ghost var le := littleEndianHost;
      ghost var args := draft.message.arguments;
      ghost var d := draft.(message := NoMessage);
      ghost var e := Message(draft.message.address, args);
      assert |data[typeTagsCurrent..]| == |args|;
      var typeTagsCount := data.Length - typeTagsCurrent;
      if typeTagsCount != 0 {
        StoreTypeTags(args);
      } else {
        Store(messageCursor, [COMMA, 0, 0, 0]);
        messageCursor := messageCursor + 4;
        OscStringIs([COMMA] + Tags(args), [COMMA, 0, 0, 0]);
      }
      argumentCurrent := messageCursor;
      assert data[..messageCursor] == old(data[..messageCursor]) + TagString(args) + Payloads(args);
      Associate(Opening(le, d.top, d.bundles), OscString(e.address), TagString(args));
      Associate(Opening(le, d.top, d.bundles), OscString(e.address) + TagString(args), Payloads(args));
      EndElement(messageCursor, d, e);
      messageIsInProgress := false;
      draft := Join(d, e);
      status := Ok;
    }

    /** The length each argument writer passes to the space check: the bytes it will store. */
    static function ArgumentLength(argument: Argument): (n: nat)
      ensures n == |argument.Payload()|
    {
      match argument
      case Flag(_) => 0
      case Word(_, _) => 4
      case Long(_, _) => 8
      case Text(_, s) => RoundUp4(|s| + 1)
      case Blob(b) => 4 + RoundUp4(|b|)
    }

    /** The check holds exactly when the packet with the argument in it, closed, still fits the buffer. */
    method CheckForAvailableArgumentSpace(argumentLength: nat, ghost argument: Argument) returns (ok: bool)
      requires Valid() && messageIsInProgress && argumentLength == |argument.Payload()|
      ensures ok <==> DraftSize(After(draft, Op.Put(argument))) <= Capacity()
      ensures ok ==> argumentCurrent + argumentLength + RoundUp4(data.Length - typeTagsCurrent + 3) <= data.Length
    {
      hide DraftSize, RoundUp4, Payloads, Reversed, Tags, Body, TopSlot, Argument.Payload;
      SizeIsDraftSize();
      SizeAfterPut(littleEndianHost, draft, argument);
      assert |data[typeTagsCurrent..]| == |draft.message.arguments|;
      ok := argumentCurrent + argumentLength + RoundUp4(data.Length - typeTagsCurrent + 3) <= Capacity();
    }

    method PutBlob(blob: seq<Byte>)
      requires argumentCurrent + 4 + RoundUp4(|blob|) <= data.Length
      modifies this`argumentCurrent, data
      ensures argumentCurrent == old(argumentCurrent) + 4 + RoundUp4(|blob|)
      ensures data[..argumentCurrent] == old(data[..argumentCurrent]) + (SizeWord(|blob|) + Padded(blob))
      ensures forall i :: argumentCurrent <= i < data.Length ==> data[i] == old(data[i])
    {
      hide Padded, SizeWord, RoundUp4;
      Store(argumentCurrent, SizeWord(|blob|));
      argumentCurrent := argumentCurrent + 4;
      ghost var front := data[..argumentCurrent];
      Store(argumentCurrent, blob);
      assert data[argumentCurrent..argumentCurrent + |blob|] == blob;
      assert data[..argumentCurrent] == data[..argumentCurrent + |blob|][..argumentCurrent] == front;
      argumentCurrent := ZeroPad(argumentCurrent, argumentCurrent + |blob|);
    }

    /** The bytes of an argument, stored at the end of the arguments. */
    method PutPayload(argument: Argument)
      requires argumentCurrent + |argument.Payload()| <= data.Length
      modifies this`argumentCurrent, data
      ensures argumentCurrent == old(argumentCurrent) + |argument.Payload()|
      ensures data[..argumentCurrent] == old(data[..argumentCurrent]) + argument.Payload()
      ensures forall i :: argumentCurrent <= i < data.Length ==> data[i] == old(data[i])
    {
      hide Word32, Word64, Padded, SizeWord, RoundUp4, OscString;
      match argument {
        case Flag(_) =>
        case Word(_, x) =>
          Store(argumentCurrent, Word32(x));
          argumentCurrent := argumentCurrent + 4;
        case Long(_, x) =>
          Store(argumentCurrent, Word64(x));
          argumentCurrent := argumentCurrent + 8;
        case Text(_, s) =>
          argumentCurrent := StoreString(argumentCurrent, s);
        case Blob(b) =>
          PutBlob(b);
      }
    }

    /** One more tag below the tags, its bytes above the arguments. */
    method Append(argument: Argument)
      requires messageCursor <= argumentCurrent && argumentCurrent + |argument.Payload()| < typeTagsCurrent <= data.Length
      modifies this`argumentCurrent, this`typeTagsCurrent, data
      ensures typeTagsCurrent == old(typeTagsCurrent) - 1
      ensures argumentCurrent == old(argumentCurrent) + |argument.Payload()|
      ensures data[..messageCursor] == old(data[..messageCursor])
      ensures data[messageCursor..argumentCurrent] == old(data[messageCursor..argumentCurrent]) + argument.Payload()
      ensures data[typeTagsCurrent..] == [argument.Tag()] + old(data[typeTagsCurrent..])
    {
      typeTagsCurrent := typeTagsCurrent - 1;
      data[typeTagsCurrent] := argument.Tag();
      PutPayload(argument);
      PutParts(old(data[..]), data[..], messageCursor, old(argumentCurrent), argument.Payload(), old(typeTagsCurrent), argument.Tag());
    }

    /** The argument writers, one case for each width: they share the space check and the tag. */
    method Put(argument: Argument) returns (status: Status)
      requires Valid() && messageIsInProgress
      modifies this, data
      ensures Valid()
      ensures status == Outcome(old(draft), Op.Put(argument), Capacity())
      ensures draft == Step(old(draft), Op.Put(argument), Capacity())
      ensures status != Ok ==> unchanged(this) && unchanged(data)
    {
      hide Body, TopSlot, DraftSize, RoundUp4, Reversed, Tags, Payloads, Argument.Payload;
      SizeAfterPut(littleEndianHost, draft, argument);
      ghost var args := draft.message.arguments;
      var ok := CheckForAvailableArgumentSpace(ArgumentLength(argument), argument);
      if !ok {
        return OutOfBufferMemory;
      }
      Append(argument);
      PayloadsSnoc(args, argument);
      TagsSnoc(args, argument);
      ReversedSnoc(Tags(args), argument.Tag());
      draft := After(draft, Op.Put(argument));
      status := Ok;
    }
  }
}
