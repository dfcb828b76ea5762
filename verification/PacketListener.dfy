/** Bundles on the receiving side, and the recursive delivery of a packet's messages. */
module PacketListener {
  import opened Bytes
  import opened Packet
  import opened ReceivedElements

  /* ---- ReceivedBundle::Init ---- */

  /** The elements Init finds, each as the offset of its size slot and its size. NeverEnds: the
      32-bit sum 4 + elementSize is zero and the loop repeats the same element for ever. */
  datatype BundleResult = Elements(elements: seq<(nat, nat)>) | BadBundle | NeverEnds

  function Stride(size: UInt32): UInt32 {
    (4 + size) % 0x1_0000_0000
  }

  function Scan(b: seq<Byte>, p: nat): BundleResult
    decreases |b| - p
  {
    if p >= |b| then Elements([])
    else if p + 4 > |b| then BadBundle
    else
      var size := ReadWord32(b, p);
      if size % 4 != 0 || p + Stride(size) > |b| then BadBundle
      else if Stride(size) == 0 then NeverEnds
      else match Scan(b, p + Stride(size))
        case Elements(rest) => Elements([(p, size)] + rest)
        case stop => stop
  }

  function ValidateBundle(b: seq<Byte>): BundleResult {
    if |b| < 16 || |b| % 4 != 0 || b[..8] != BUNDLE_MARK then BadBundle else Scan(b, 16)
  }

  /** Elements found so far, in front of what is found from there on. */
  function Onto(done: seq<(nat, nat)>, r: BundleResult): BundleResult {
    match r
    case Elements(rest) => Elements(done + rest)
    case stop => stop
  }

  lemma ScanTurn(b: seq<Byte>, p: nat, done: seq<(nat, nat)>)
    requires p < |b|
    ensures if p + 4 > |b| then Onto(done, Scan(b, p)) == BadBundle
            else
              var size := ReadWord32(b, p);
              if size % 4 != 0 || p + Stride(size) > |b| then Onto(done, Scan(b, p)) == BadBundle
              else if Stride(size) == 0 then Onto(done, Scan(b, p)) == NeverEnds
              else Onto(done, Scan(b, p)) == Onto(done + [(p, size)], Scan(b, p + Stride(size)))
  {
    hide ReadWord32, Stride;
    if p + 4 <= |b| && Scan(b, p).Elements? {
      var size: nat := ReadWord32(b, p);
      var rest := Scan(b, p + Stride(size)).elements;
      assert done + ([(p, size)] + rest) == (done + [(p, size)]) + rest;
    }
  }

  lemma ScanEnd(b: seq<Byte>, done: seq<(nat, nat)>)
    ensures Onto(done, Scan(b, |b|)) == Elements(done) && Onto([], Scan(b, 16)) == Scan(b, 16)
  {
    hide ReadWord32, Stride;
    assert done + [] == done;
    if Scan(b, 16).Elements? {
      assert [] + Scan(b, 16).elements == Scan(b, 16).elements;
    }
  }

  method InitBundle(b: seq<Byte>) returns (result: BundleResult)
    ensures result == ValidateBundle(b)
  {
    hide ReadWord32, Scan, Onto, Stride;
    ScanEnd(b, []);
    if |b| < 16 {
      return BadBundle;
    }
    if |b| % 4 != 0 {
      return BadBundle;
    }
    if b[..8] != BUNDLE_MARK {
      return BadBundle;
    }
    var p: nat := 16;
    var elements: seq<(nat, nat)> := [];
    while p < |b|
      invariant p <= |b| && ValidateBundle(b) == Onto(elements, Scan(b, p))
      decreases |b| - p
    {
      ScanTurn(b, p, elements);
      if p + 4 > |b| {
        return BadBundle;
      }
      var elementSize := ReadWord32(b, p);
      if elementSize % 4 != 0 {
        return BadBundle;
      }
      if p + Stride(elementSize) > |b| {
        return BadBundle;
      }
      if Stride(elementSize) == 0 {
        return NeverEnds; // p does not move: the same test, the same element, again
      }
      elements := elements + [(p, elementSize)];
      p := p + Stride(elementSize);
    }
    ScanEnd(b, elements);
    result := Elements(elements);
  }

  /** Elements laid end to end from p to q, each as long as its size word says. */
  predicate Tiles(b: seq<Byte>, p: nat, es: seq<(nat, nat)>, q: nat)
    decreases |es|
  {
    if es == [] then p == q else
      && es[0].0 == p && p + 4 <= |b| && es[0].1 == ReadWord32(b, p)
      && es[0].1 % 4 == 0 && p + 4 + es[0].1 <= |b|
      && Tiles(b, p + 4 + es[0].1, es[1..], q)
  }

  /** What Init accepts is tiled: the elements are disjoint and cover the bytes behind the header;
      and whatever is tiled, Init accepts. */
  lemma {:induction false} ScanTiles(b: seq<Byte>, p: nat, es: seq<(nat, nat)>)
    requires p <= |b| < 0x8000_0000
    ensures Scan(b, p) == Elements(es) <==> Tiles(b, p, es, |b|)
    decreases |b| - p
  {
    hide ReadWord32, Stride, Scan, Tiles;
    TilesOnce(b, p, es);
    ScanOnce(b, p);
    if p < |b| && p + 4 <= |b| && p + 4 + ReadWord32(b, p) <= |b| && es != [] {
      var first: (nat, nat) := (p, ReadWord32(b, p));
      ScanTiles(b, p + 4 + first.1, es[1..]);
      HeadAndTail(es, first);
    }
  }

  lemma ScanOnce(b: seq<Byte>, p: nat)
    requires p <= |b| < 0x8000_0000
    ensures p == |b| ==> Scan(b, p) == Elements([])
    ensures p < |b| ==>
              if p + 4 <= |b| && ReadWord32(b, p) % 4 == 0 && p + 4 + ReadWord32(b, p) <= |b| then
                match Scan(b, p + 4 + ReadWord32(b, p))
                case Elements(rest) => Scan(b, p) == Elements([(p, ReadWord32(b, p))] + rest)
                case stop => Scan(b, p) == stop
              else !Scan(b, p).Elements?
  {
    hide ReadWord32;
  }

  lemma TilesOnce(b: seq<Byte>, p: nat, es: seq<(nat, nat)>)
    requires p <= |b|
    ensures Tiles(b, p, es, |b|) <==>
              if es == [] then p == |b|
              else
                && p + 4 <= |b| && ReadWord32(b, p) % 4 == 0 && p + 4 + ReadWord32(b, p) <= |b|
                && es[0] == (p, ReadWord32(b, p)) && Tiles(b, p + 4 + ReadWord32(b, p), es[1..], |b|)
  {
    hide ReadWord32;
  }

  lemma HeadAndTail(es: seq<(nat, nat)>, first: (nat, nat))
    requires es != []
    ensures es[0] == first ==> es == [first] + es[1..]
    ensures forall rest :: es == [first] + rest ==> rest == es[1..] && es[0] == first
  {
  }

  /** Proper elements lead from p to a size word that makes the 32-bit sum zero. */
  predicate LeadsToMaximum(b: seq<Byte>, p: nat, es: seq<(nat, nat)>, q: nat) {
    Tiles(b, p, es, q) && q + 4 <= |b| && ReadWord32(b, q) == 0xFFFF_FFFC
  }

  /** Init loops for ever exactly when a tiling of proper elements leads to a size word 0xFFFFFFFC. */
  lemma {:induction false} ScanEnds(b: seq<Byte>, p: nat)
    requires p <= |b| < 0x8000_0000
    ensures Scan(b, p) == NeverEnds <==> exists es, q :: LeadsToMaximum(b, p, es, q)
  {
    if Scan(b, p) == NeverEnds {
      var es, q := StuckAt(b, p);
    }
    if es, q :| LeadsToMaximum(b, p, es, q) {
      StuckIf(b, p, es, q);
    }
  }

  lemma {:induction false} StuckAt(b: seq<Byte>, p: nat) returns (es: seq<(nat, nat)>, q: nat)
    requires p <= |b| < 0x8000_0000 && Scan(b, p) == NeverEnds
    ensures LeadsToMaximum(b, p, es, q)
    decreases |b| - p
  {
    var size := ReadWord32(b, p);
    if Stride(size) == 0 {
      es, q := [], p;
    } else {
      var rest, end := StuckAt(b, p + Stride(size));
      es, q := [(p, size)] + rest, end;
      assert es[1..] == rest;
    }
  }

  lemma {:induction false} StuckIf(b: seq<Byte>, p: nat, es: seq<(nat, nat)>, q: nat)
    requires p <= |b| < 0x8000_0000 && LeadsToMaximum(b, p, es, q)
    ensures Scan(b, p) == NeverEnds
    decreases |es|
  {
    if es != [] {
      StuckIf(b, p + 4 + es[0].1, es[1..], q);
    }
  }

  /** A cursor over the elements of a bundle that validated. */
  class ReceivedBundleElementIterator {
    const bundle: seq<Byte>
    var sizePtr: nat

    constructor (bundle: seq<Byte>, sizePtr: nat)
      ensures this.bundle == bundle && this.sizePtr == sizePtr
    {
      this.bundle := bundle;
      this.sizePtr := sizePtr;
    }

    /** The size word, read as a signed 32-bit number. */
    function Size(): int
      reads this
      requires sizePtr + 4 <= |bundle|
    {
      var size := ReadWord32(bundle, sizePtr);
      if size >= 0x8000_0000 then size - 0x1_0000_0000 else size
    }

    method Advance()
      requires sizePtr + 4 <= |bundle| && 0 <= sizePtr + 4 + Size()
      modifies this
      ensures sizePtr == old(sizePtr + 4 + Size())
    {
      sizePtr := sizePtr + 4 + Size();
    }
  }

  /* ---- delivery ---- */

  datatype End = Done | Throws | RunsForEver | ReadsBeyond

  /** The messages handed to ProcessMessage, and how the call ended. */
  datatype Delivery = Delivery(messages: seq<seq<Byte>>, end: End)

  function Deliver(x: seq<Byte>): Delivery
    decreases |x|, 2
  {
    if |x| > 0 && x[0] == NUMBER_SIGN then DeliverBundle(x)
    else match Validate(x)
      case Accepted(_) => Delivery([x], Done)
      case Malformed => Delivery([], Throws)
      case ReadsOutside => Delivery([], ReadsBeyond)
  }

  function DeliverBundle(b: seq<Byte>): Delivery
    decreases |b|, 1
  {
    match ValidateBundle(b)
    case BadBundle => Delivery([], Throws)
    case NeverEnds => Delivery([], RunsForEver)
    case Elements(es) => DeliverFrom(b, 16, |es|)
  }

  /** The n elements that start at p, in order, until one of them throws. */
  function DeliverFrom(b: seq<Byte>, p: nat, n: nat): Delivery
    decreases |b|, 0, n
  {
    if n == 0 || p + 4 > |b| || p + 4 + ReadWord32(b, p) > |b| then Delivery([], Done) else
      var first := Deliver(b[p + 4..p + 4 + ReadWord32(b, p)]);
      if first.end != Done then first else
        var rest := DeliverFrom(b, p + 4 + ReadWord32(b, p), n - 1);
        Delivery(first.messages + rest.messages, rest.end)
  }

  /** A delivery that goes on behind messages already handed over. */
  function Behind(before: seq<seq<Byte>>, d: Delivery): Delivery {
    Delivery(before + d.messages, d.end)
  }

  class OscPacketListener {
    var delivered: seq<seq<Byte>>

    constructor ()
      ensures delivered == []
    {
      delivered := [];
    }

    method ProcessMessage(message: seq<Byte>)
      modifies this
      ensures delivered == old(delivered) + [message]
    {
      delivered := delivered + [message];
    }

    /** ProcessPacket, and the body of ProcessBundle for one element. Every nested element is strictly
        smaller than the bundle around it, so the recursion ends. */
    method Process(x: seq<Byte>) returns (end: End)
      requires |x| < 0x8000_0000
      modifies this
      ensures delivered == old(delivered) + Deliver(x).messages && end == Deliver(x).end
      decreases |x|, 2
    {
      if |x| > 0 && x[0] == NUMBER_SIGN {
        end := ProcessBundle(x);
      } else {
        var message := new ReceivedMessage(x);
        var result := message.Init();
        match result {
          case Accepted(_) =>
            ProcessMessage(x);
            end := Done;
          case Malformed =>
            end := Throws;
          case ReadsOutside =>
            end := ReadsBeyond;
        }
      }
    }

    method ProcessBundle(b: seq<Byte>) returns (end: End)
      requires |b| < 0x8000_0000
      modifies this
      ensures delivered == old(delivered) + DeliverBundle(b).messages && end == DeliverBundle(b).end
      decreases |b|, 1
    {
      var result := InitBundle(b);
      if result == BadBundle {
        return Throws;
      }
      if result == NeverEnds {
        return RunsForEver;
      }
      ScanTiles(b, 16, result.elements);
      end := ProcessElements(b, result.elements);
    }

    /** The loop of ProcessBundle. */
    method ProcessElements(b: seq<Byte>, ghost es: seq<(nat, nat)>) returns (end: End)
      requires 16 <= |b| < 0x8000_0000 && Tiles(b, 16, es, |b|)
      modifies this
      ensures delivered == old(delivered) + DeliverFrom(b, 16, |es|).messages && end == DeliverFrom(b, 16, |es|).end
      decreases |b|, 0, |b|
    {
      hide Tiles, DeliverFrom, Deliver, ReadWord32;
      var i := new ReceivedBundleElementIterator(b, 16);
      ghost var left := es;
      ghost var before: seq<seq<Byte>> := [];
      assert old(delivered) + before == old(delivered);
      while i.sizePtr != |b|
        invariant fresh(i) && i.bundle == b && 16 <= i.sizePtr <= |b|
        invariant Tiles(b, i.sizePtr, left, |b|)
        invariant delivered == old(delivered) + before
        invariant DeliverFrom(b, 16, |es|) == Behind(before, DeliverFrom(b, i.sizePtr, |left|))
        decreases |b| - i.sizePtr
      {
        end, before := ProcessElement(b, i, left, before, old(delivered));
        if end != Done {
          return;
        }
        left := left[1..];
      }
      AllTiled(b, left);
      assert before + [] == before;
      end := Done;
    }

    /** One turn of the loop: deliver the element, and step past it. */
    method ProcessElement(b: seq<Byte>, i: ReceivedBundleElementIterator, ghost left: seq<(nat, nat)>,
                          ghost before: seq<seq<Byte>>, ghost earlier: seq<seq<Byte>>)
      returns (end: End, ghost after: seq<seq<Byte>>)
      requires |b| < 0x8000_0000 && i.bundle == b && 16 <= i.sizePtr < |b| && Tiles(b, i.sizePtr, left, |b|)
      requires delivered == earlier + before
      modifies this, i
      ensures delivered == earlier + after
      ensures var all := Behind(before, DeliverFrom(b, old(i.sizePtr), |left|));
              if end != Done then all == Delivery(after, end) else
                && old(i.sizePtr) < i.sizePtr <= |b| && left != [] && Tiles(b, i.sizePtr, left[1..], |b|)
                && all == Behind(after, DeliverFrom(b, i.sizePtr, |left| - 1))
      decreases |b|, 0, |b| - i.sizePtr
    {
      hide Tiles, DeliverFrom, Deliver, ReadWord32;
      NextElement(b, i.sizePtr, left, before);
      var element := b[i.sizePtr + 4..i.sizePtr + 4 + i.Size()];
      after := before + Deliver(element).messages;
      assert earlier + after == (earlier + before) + Deliver(element).messages;
      end := Process(element);
      if end == Done {
        i.Advance();
      }
    }
  }

  lemma Associate2(a: seq<seq<Byte>>, b: seq<seq<Byte>>, c: seq<seq<Byte>>)
    ensures a + (b + c) == (a + b) + c
  {
  }

  /** One turn of the element loop: the element lies inside the bundle, and the rest is still tiled. */
  lemma NextElement(b: seq<Byte>, p: nat, es: seq<(nat, nat)>, before: seq<seq<Byte>>)
    requires p < |b| < 0x8000_0000 && Tiles(b, p, es, |b|)
    ensures p + 4 <= |b| && p + 4 + ReadWord32(b, p) <= |b| && es != []
    ensures Tiles(b, p + 4 + ReadWord32(b, p), es[1..], |b|)
    ensures var first := Deliver(b[p + 4..p + 4 + ReadWord32(b, p)]);
            var rest := DeliverFrom(b, p + 4 + ReadWord32(b, p), |es| - 1);
            Behind(before, DeliverFrom(b, p, |es|)) ==
            if first.end != Done then Behind(before, first) else Behind(before + first.messages, rest)
  {
    hide Deliver, ReadWord32;
    var rest := DeliverFrom(b, p + 4 + ReadWord32(b, p), |es| - 1);
    Associate2(before, Deliver(b[p + 4..p + 4 + ReadWord32(b, p)]).messages, rest.messages);
  }

  lemma AllTiled(b: seq<Byte>, es: seq<(nat, nat)>)
    requires Tiles(b, |b|, es, |b|)
    ensures es == [] && DeliverFrom(b, |b|, |es|) == Delivery([], Done)
  {
  }

  /* ---- when delivery ends ---- */

  predicate Headed(x: seq<Byte>) {
    |x| >= 16 && |x| % 4 == 0 && x[..8] == BUNDLE_MARK
  }

  /** x is a bundle made of the elements es, end to end. */
  predicate MadeOf(x: seq<Byte>, es: seq<(nat, nat)>) {
    Headed(x) && Tiles(x, 16, es, |x|)
  }

  function Part(x: seq<Byte>, e: (nat, nat)): seq<Byte> {
    if e.0 + 4 + e.1 <= |x| then x[e.0 + 4..e.0 + 4 + e.1] else []
  }

  lemma PartShorter(x: seq<Byte>, e: (nat, nat))
    requires x != []
    ensures |Part(x, e)| < |x|
  {
  }

  /** Everything in the packet validates: the message, or every element of the bundle. */
  ghost predicate Whole(x: seq<Byte>)
    decreases |x|
  {
    if |x| > 0 && x[0] == NUMBER_SIGN then exists es :: MadeOf(x, es) && AllWhole(x, es)
    else Validate(x).Accepted?
  }

  ghost predicate AllWhole(x: seq<Byte>, es: seq<(nat, nat)>)
    requires x != []
    decreases |x|, 0
  {
    forall k :: 0 <= k < |es| ==> (PartShorter(x, es[k]); Whole(Part(x, es[k])))
  }

  /** Reading the bundle comes to a size word that makes the 32-bit sum zero. */
  ghost predicate Stuck(x: seq<Byte>) {
    Headed(x) && exists es, q :: LeadsToMaximum(x, 16, es, q)
  }

  /** The k-th of the parts es is delivered, because all parts in front of it are whole. */
  ghost predicate Passes(x: seq<Byte>, es: seq<(nat, nat)>, k: nat) {
    MadeOf(x, es) && k < |es| && AllWhole(x, es[..k])
  }

  /** Delivery of x comes to y: everything in front of y, at every level, is whole. */
  ghost predicate ComesTo(x: seq<Byte>, y: seq<Byte>)
    decreases |x|
  {
    x == y || exists es, k :: Passes(x, es, k) && (PartShorter(x, es[k]); ComesTo(Part(x, es[k]), y))
  }

  lemma StopsBehind(b: seq<Byte>, es: seq<(nat, nat)>, e: End)
    requires es != [] && e != Done
    ensures (exists k :: StopsAt(b, es, k, e)) <==>
              var first := Deliver(Part(b, es[0])).end;
              first == e || (first == Done && exists k :: StopsAt(b, es[1..], k, e))
  {
    hide Deliver, Part;
    var rest := es[1..];
    assert forall k :: 0 <= k < |rest| ==> es[k + 1] == rest[k];
    if k: nat :| StopsAt(b, rest, k, e) && Deliver(Part(b, es[0])).end == Done {
      assert StopsAt(b, es, k + 1, e);
    }
    if Deliver(Part(b, es[0])).end == e {
      assert StopsAt(b, es, 0, e);
    }
    if k: nat :| StopsAt(b, es, k, e) {
      if k > 0 {
        assert StopsAt(b, rest, k - 1, e);
      }
    }
  }

  /** The loop over the elements, one element at a time. */
  lemma {:induction false} PartByPart(b: seq<Byte>, p: nat, es: seq<(nat, nat)>, e: End)
    requires Tiles(b, p, es, |b|) && e != Done
    ensures DeliverFrom(b, p, |es|).end == Done <==> forall k :: 0 <= k < |es| ==> Deliver(Part(b, es[k])).end == Done
    ensures DeliverFrom(b, p, |es|).end == e <==> exists k :: StopsAt(b, es, k, e)
    decreases |es|
  {
    hide ReadWord32, Deliver, DeliverFrom, Tiles, Part, StopsAt;
    if es == [] {
      NoneDelivered(b, p);
      NoneStops(b, es, e);
    } else {
      DeliverHead(b, p, es);
      PartByPart(b, p + 4 + es[0].1, es[1..], e);
      StopsBehind(b, es, e);
      DoneBehind(b, es);
    }
  }

  lemma NoneStops(b: seq<Byte>, es: seq<(nat, nat)>, e: End)
    requires es == []
    ensures forall k :: !StopsAt(b, es, k, e)
  {
  }

  lemma DoneBehind(b: seq<Byte>, es: seq<(nat, nat)>)
    requires es != []
    ensures (forall k :: 0 <= k < |es| ==> Deliver(Part(b, es[k])).end == Done) <==>
              Deliver(Part(b, es[0])).end == Done && forall k :: 0 <= k < |es| - 1 ==> Deliver(Part(b, es[1..][k])).end == Done
  {
    hide Deliver, Part;
    assert forall k :: 0 <= k < |es| - 1 ==> es[1..][k] == es[k + 1];
    assert forall k :: 0 < k < |es| ==> es[k] == es[1..][k - 1];
  }

  /** The first element that is not delivered whole is the k-th, and that is how its delivery ends. */
  predicate StopsAt(b: seq<Byte>, es: seq<(nat, nat)>, k: nat, e: End) {
    && k < |es| && Deliver(Part(b, es[k])).end == e
    && forall j :: 0 <= j < k ==> Deliver(Part(b, es[j])).end == Done
  }

  lemma BundleDelivered(x: seq<Byte>, es: seq<(nat, nat)>)
    requires |x| < 0x8000_0000 && MadeOf(x, es)
    ensures x[0] == NUMBER_SIGN && Deliver(x) == DeliverFrom(x, 16, |es|)
    ensures forall fs :: MadeOf(x, fs) ==> fs == es
  {
    hide ReadWord32, Tiles, Scan, DeliverFrom;
    assert x[..8][0] == x[0];
    ScanTiles(x, 16, es);
    forall fs | MadeOf(x, fs)
      ensures fs == es
    {
      ScanTiles(x, 16, fs);
    }
  }

  lemma ScannedIsMade(x: seq<Byte>)
    requires |x| < 0x8000_0000 && Headed(x)
    ensures x[0] == NUMBER_SIGN && (Scan(x, 16).Elements? ==> MadeOf(x, Scan(x, 16).elements))
  {
    hide ReadWord32, Tiles, Scan;
    assert x[..8][0] == x[0];
    if Scan(x, 16).Elements? {
      ScanTiles(x, 16, Scan(x, 16).elements);
    }
  }

  lemma OtherBundle(x: seq<Byte>)
    requires |x| < 0x8000_0000 && |x| > 0 && x[0] == NUMBER_SIGN && forall es :: !MadeOf(x, es)
    ensures Deliver(x).messages == [] && Deliver(x).end == if Stuck(x) then RunsForEver else Throws
  {
    hide ReadWord32, Tiles, Scan, DeliverFrom;
    if Headed(x) {
      ScannedIsMade(x);
      ScanEnds(x, 16);
    }
  }

  lemma NotStuck(x: seq<Byte>, es: seq<(nat, nat)>)
    requires |x| < 0x8000_0000 && MadeOf(x, es)
    ensures !Stuck(x)
  {
    hide ReadWord32, Tiles, Scan;
    ScanTiles(x, 16, es);
    ScanEnds(x, 16);
  }

  /** A packet is delivered to its end exactly when everything in it validates. */
  lemma {:induction false} DeliveryDone(x: seq<Byte>)
    requires |x| < 0x8000_0000
    ensures Deliver(x).end == Done <==> Whole(x)
    decreases |x|
  {
    hide ReadWord32, Tiles, DeliverFrom, Validate;
    if |x| > 0 && x[0] == NUMBER_SIGN {
      if es :| MadeOf(x, es) {
        BundleDelivered(x, es);
        PartByPart(x, 16, es, Throws);
        forall k | 0 <= k < |es|
          ensures Deliver(Part(x, es[k])).end == Done <==> Whole(Part(x, es[k]))
        {
          PartShorter(x, es[k]);
          DeliveryDone(Part(x, es[k]));
        }
      } else {
        OtherBundle(x);
      }
    }
  }

  /** What cannot be delivered, and how that shows: a bundle that is stuck, or that is no bundle; a message
      that is malformed, or whose check reads outside of it. */
  ghost predicate StopsHere(x: seq<Byte>, e: End) {
    var bundle := |x| > 0 && x[0] == NUMBER_SIGN;
    match e
    case Done => false
    case RunsForEver => Stuck(x)
    case Throws => if bundle then !Stuck(x) && forall es :: !MadeOf(x, es) else Validate(x).Malformed?
    case ReadsBeyond => !bundle && Validate(x).ReadsOutside?
  }

  /** Delivery throws, reads outside or never ends exactly when it comes to a message or bundle that does:
      whatever stands in front of that one is whole. In particular it never ends exactly when it comes to a
      bundle in which proper elements lead to a size word 0xFFFFFFFC. */
  lemma {:induction false} DeliveryEnds(x: seq<Byte>, e: End)
    requires |x| < 0x8000_0000 && e != Done
    ensures Deliver(x).end == e <==> exists y :: ComesTo(x, y) && StopsHere(y, e)
    decreases |x|
  {
    hide ReadWord32, Tiles, DeliverFrom, Validate, StopsHere, Deliver, ComesTo, Whole, AllWhole;
    if es :| MadeOf(x, es) {
      forall k | 0 <= k < |es|
        ensures Deliver(Part(x, es[k])).end == e <==> exists y :: ComesTo(Part(x, es[k]), y) && StopsHere(y, e)
      {
        PartShorter(x, es[k]);
        DeliveryEnds(Part(x, es[k]), e);
      }
      StopsThrough(x, es, e);
    } else {
      NothingMade(x, e);
    }
  }

  lemma WholeParts(x: seq<Byte>, es: seq<(nat, nat)>, k: nat)
    requires |x| < 0x8000_0000 && MadeOf(x, es) && k <= |es|
    ensures AllWhole(x, es[..k]) <==> forall j :: 0 <= j < k ==> Deliver(Part(x, es[j])).end == Done
  {
    hide ReadWord32, Tiles, Deliver, Whole, Part;
    forall j | 0 <= j < k
      ensures es[..k][j] == es[j] && (Deliver(Part(x, es[j])).end == Done <==> Whole(Part(x, es[j])))
    {
      PartShorter(x, es[j]);
      DeliveryDone(Part(x, es[j]));
    }
  }

  /** One level of it. */
  lemma StopsThrough(x: seq<Byte>, es: seq<(nat, nat)>, e: End)
    requires |x| < 0x8000_0000 && MadeOf(x, es) && e != Done
    requires forall k :: 0 <= k < |es| ==>
               (Deliver(Part(x, es[k])).end == e <==> exists y :: ComesTo(Part(x, es[k]), y) && StopsHere(y, e))
    ensures Deliver(x).end == e <==> exists y :: ComesTo(x, y) && StopsHere(y, e)
  {
    hide ReadWord32, Tiles, DeliverFrom, StopsHere, Deliver, Whole, AllWhole, Part;
    BundleDelivered(x, es);
    NotHere(x, es, e);
    PartByPart(x, 16, es, e);
    if k: nat :| StopsAt(x, es, k, e) {
      var y :| ComesTo(Part(x, es[k]), y) && StopsHere(y, e);
      WholeParts(x, es, k);
      assert Passes(x, es, k);
    }
    if y :| ComesTo(x, y) && StopsHere(y, e) {
      assert x != y;
      var fs, k :| Passes(x, fs, k) && ComesTo(Part(x, fs[k]), y);
      WholeParts(x, es, k);
      assert StopsAt(x, es, k, e);
    }
  }

  lemma NotHere(x: seq<Byte>, es: seq<(nat, nat)>, e: End)
    requires |x| < 0x8000_0000 && MadeOf(x, es)
    ensures !StopsHere(x, e)
  {
    hide Validate, Tiles, Stuck;
    NotStuck(x, es);
    assert x[..8][0] == x[0];
  }

  lemma NothingMade(x: seq<Byte>, e: End)
    requires |x| < 0x8000_0000 && e != Done && forall es :: !MadeOf(x, es)
    ensures Deliver(x).end == e <==> StopsHere(x, e)
    ensures forall y :: ComesTo(x, y) <==> x == y
  {
    hide Validate, Tiles;
    if |x| > 0 && x[0] == NUMBER_SIGN {
      OtherBundle(x);
    } else {
      assert !Headed(x) by {
        assert |x| >= 8 ==> x[..8][0] == x[0];
      }
    }
  }

  /** A message is delivered exactly when delivery comes to it, and it is accepted. */
  lemma {:induction false} DeliveredExactly(x: seq<Byte>, m: seq<Byte>)
    requires |x| < 0x8000_0000
    ensures m in Deliver(x).messages <==> ComesTo(x, m) && IsMessage(m)
    decreases |x|
  {
    hide ReadWord32, Tiles, DeliverFrom, Validate, Deliver, ComesTo, Whole, AllWhole, IsMessage;
    if es :| MadeOf(x, es) {
      forall k | 0 <= k < |es|
        ensures m in Deliver(Part(x, es[k])).messages <==> ComesTo(Part(x, es[k]), m) && IsMessage(m)
      {
        PartShorter(x, es[k]);
        DeliveredExactly(Part(x, es[k]), m);
      }
      DeliveredThrough(x, es, m);
    } else {
      DeliveredItself(x, m);
    }
  }

  /** What is no bundle and validates. */
  predicate IsMessage(m: seq<Byte>) {
    !(|m| > 0 && m[0] == NUMBER_SIGN) && Validate(m).Accepted?
  }

  /** The message is delivered with the k-th part, everything in front of it being whole. */
  predicate DeliveredAt(b: seq<Byte>, es: seq<(nat, nat)>, k: nat, m: seq<Byte>) {
    && k < |es| && m in Deliver(Part(b, es[k])).messages
    && forall j :: 0 <= j < k ==> Deliver(Part(b, es[j])).end == Done
  }

  lemma {:induction false} DeliveredByPart(b: seq<Byte>, p: nat, es: seq<(nat, nat)>, m: seq<Byte>)
    requires Tiles(b, p, es, |b|)
    ensures m in DeliverFrom(b, p, |es|).messages <==> exists k :: DeliveredAt(b, es, k, m)
    decreases |es|
  {
    hide ReadWord32, Deliver, DeliverFrom, Tiles, Part;
    if es == [] {
      NoneDelivered(b, p);
    } else {
      DeliverHead(b, p, es);
      DeliveredByPart(b, p + 4 + es[0].1, es[1..], m);
      DeliveredBehind(b, es, m);
    }
  }

  lemma NoneDelivered(b: seq<Byte>, p: nat)
    ensures DeliverFrom(b, p, 0) == Delivery([], Done)
  {
  }

  lemma DeliverHead(b: seq<Byte>, p: nat, es: seq<(nat, nat)>)
    requires es != [] && Tiles(b, p, es, |b|)
    ensures Tiles(b, p + 4 + es[0].1, es[1..], |b|)
    ensures var first, rest := Deliver(Part(b, es[0])), DeliverFrom(b, p + 4 + es[0].1, |es| - 1);
            DeliverFrom(b, p, |es|) == if first.end != Done then first else Delivery(first.messages + rest.messages, rest.end)
  {
    hide ReadWord32, Deliver;
    assert Part(b, es[0]) == b[p + 4..p + 4 + ReadWord32(b, p)];
  }

  lemma DeliveredBehind(b: seq<Byte>, es: seq<(nat, nat)>, m: seq<Byte>)
    requires es != []
    ensures (exists k :: DeliveredAt(b, es, k, m)) <==>
              var first := Deliver(Part(b, es[0]));
              m in first.messages || (first.end == Done && exists k :: DeliveredAt(b, es[1..], k, m))
  {
    hide Deliver, Part;
    var rest := es[1..];
    assert forall k :: 0 <= k < |rest| ==> es[k + 1] == rest[k];
    if k: nat :| DeliveredAt(b, rest, k, m) && Deliver(Part(b, es[0])).end == Done {
      assert DeliveredAt(b, es, k + 1, m);
    }
    if m in Deliver(Part(b, es[0])).messages {
      assert DeliveredAt(b, es, 0, m);
    }
    if k: nat :| DeliveredAt(b, es, k, m) {
      if k > 0 {
        assert DeliveredAt(b, rest, k - 1, m);
      }
    }
  }

  lemma DeliveredThrough(x: seq<Byte>, es: seq<(nat, nat)>, m: seq<Byte>)
    requires |x| < 0x8000_0000 && MadeOf(x, es)
    requires forall k :: 0 <= k < |es| ==>
               (m in Deliver(Part(x, es[k])).messages <==> ComesTo(Part(x, es[k]), m) && IsMessage(m))
    ensures m in Deliver(x).messages <==> ComesTo(x, m) && IsMessage(m)
  {
    hide ReadWord32, Tiles, DeliverFrom, Validate, Deliver, Whole, AllWhole, Part;
    BundleDelivered(x, es);
    DeliveredByPart(x, 16, es, m);
    if k: nat :| DeliveredAt(x, es, k, m) {
      WholeParts(x, es, k);
      assert Passes(x, es, k);
    }
    if ComesTo(x, m) && IsMessage(m) {
      assert x != m;
      var fs, k :| Passes(x, fs, k) && ComesTo(Part(x, fs[k]), m);
      WholeParts(x, es, k);
      assert DeliveredAt(x, es, k, m);
    }
  }

  lemma DeliveredItself(x: seq<Byte>, m: seq<Byte>)
    requires |x| < 0x8000_0000 && forall es :: !MadeOf(x, es)
    ensures m in Deliver(x).messages <==> ComesTo(x, m) && IsMessage(m)
  {
    hide Validate, Tiles;
    NothingMade(x, Throws);
    if |x| > 0 && x[0] == NUMBER_SIGN {
      OtherBundle(x);
    }
  }

  /** Twenty bytes that are never delivered to the end: a bundle with nothing but that size word. */
  lemma HangingPacket()
    ensures var x := BUNDLE_MARK + [0, 0, 0, 0, 0, 0, 0, 1] + [0xFF, 0xFF, 0xFF, 0xFC];
            |x| == 20 && Deliver(x) == Delivery([], RunsForEver)
  {
    hide ReadWord32;
    var x := BUNDLE_MARK + [0, 0, 0, 0, 0, 0, 0, 1] + [0xFF, 0xFF, 0xFF, 0xFC];
    assert x[..8] == BUNDLE_MARK && x[0] == NUMBER_SIGN;
    MaximumRead(x);
    assert Scan(x, 16) == NeverEnds;
  }

  lemma MaximumRead(x: seq<Byte>)
    requires |x| == 20 && x[16] == 0xFF && x[17] == 0xFF && x[18] == 0xFF && x[19] == 0xFC
    ensures ReadWord32(x, 16) == 0xFFFF_FFFC
  {
    assert ReadBig(x, 16, 1) == 0xFF;
    assert ReadBig(x, 16, 2) == 0xFFFF;
    assert ReadBig(x, 16, 3) == 0xFF_FFFF;
  }
}
