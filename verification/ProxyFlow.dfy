/** The flow control of an object proxy: how it spaces the values it sends to the remote object. */
module ProxyFlow {
  import opened Values

  /** A value on its way to the remote object, and when it left. */
  datatype Sent = Sent(time: int, value: Value)

  /** Latency below zero: not known. Waiting below zero: nothing sent yet. An Empty value to send: none. */
  datatype Flow = Flow(latency: int, waitUntil: int, toSend: Value)

  const FRESH: Flow := Flow(-1, -1, EmptyValue)

  /** Division as C++ does it, toward zero. */
  function Truncated(a: int, b: int): int
    requires b > 0
  {
    if a >= 0 then a / b else -((-a) / b)
  }

  /** now + latency * 1.5, cut to a whole number of milliseconds. */
  function Later(now: int, latency: int): (t: int)
    ensures now >= 0 && latency >= 0 ==> t == now + 3 * latency / 2
  {
    Truncated(2 * now + 3 * latency, 2)
  }

  /** What set_value leaves behind, and what it sends. */
  function SetFlow(f: Flow, val: Value, receives: bool, now: int): (Flow, seq<Sent>) {
    if !receives then (f, [])
    else if f.latency < 0 then
      if f.waitUntil >= 0 then (f, []) else (f.(waitUntil := now), [Sent(now, val)])
    else if now < f.waitUntil then (f.(toSend := Stored(val)), [])
    else (f.(waitUntil := Later(now, f.latency)), [Sent(now, val)])
  }

  /** What a notification leaves behind, and what it sends. The clock is read for the latency, and again
      for what is sent. */
  function NotifiedFlow(f: Flow, now: int, later: int): (Flow, seq<Sent>) {
    if Measuring(f) then (f.(latency := now - f.waitUntil, waitUntil := 0), [])
    else
      var latency := if f.waitUntil != 0 then f.latency + Truncated(now - f.waitUntil, 4) else f.latency;
      if f.toSend.EmptyValue? then (f.(latency := latency, waitUntil := 0), [])
      else (Flow(latency, Later(later, latency), EmptyValue), [Sent(later, f.toSend)])
  }

  /** The next notification is taken for the reply to the first message. */
  predicate Measuring(s: Flow) {
    s.latency < 0 && s.waitUntil >= 0
  }

  /** d is a quarter of the lateness, cut toward zero. */
  predicate QuarterOf(d: int, lateness: int) {
    if lateness >= 0 then 4 * d <= lateness < 4 * d + 4 else 4 * d - 4 < lateness <= 4 * d
  }

  /** What a notification at now, and again at later, makes of the latency and of the time to wait. */
  predicate Estimated(latency: int, waitUntil: int, waits: bool, now: int, later: int, newLatency: int, newWait: int) {
    if latency < 0 && waitUntil >= 0 then newLatency == now - waitUntil && newWait == 0
    else
      && (if waitUntil == 0 then newLatency == latency else QuarterOf(newLatency - latency, now - waitUntil))
      && (if !waits then newWait == 0
          else if 2 * later + 3 * newLatency >= 0 then 2 * newWait <= 2 * later + 3 * newLatency < 2 * newWait + 2
          else 2 * newWait - 2 < 2 * later + 3 * newLatency <= 2 * newWait)
  }

  /** The first reply measures the latency: the time since the message. A later one moves it by a quarter of
      what it is late, or early, against the time to wait for; without such a time it stays. What waits goes
      out, and a new time is waited for, one and a half latencies away; the first reply lets it wait. */
  lemma Estimate(f: Flow, now: int, later: int)
    ensures var (g, out) := NotifiedFlow(f, now, later);
            && Estimated(f.latency, f.waitUntil, f.toSend != EmptyValue, now, later, g.latency, g.waitUntil)
            && (if f.toSend == EmptyValue || (f.latency < 0 && f.waitUntil >= 0) then out == [] && g.toSend == f.toSend
                else out == [Sent(later, f.toSend)] && g.toSend == EmptyValue)
  {
  }

  /** A known latency rises exactly when the reply comes four or more milliseconds past the time to wait for. */
  lemma Rises(f: Flow, now: int, later: int)
    requires f.latency >= 0 && f.waitUntil != 0
    ensures NotifiedFlow(f, now, later).0.latency > f.latency <==> now >= f.waitUntil + 4
    ensures NotifiedFlow(f, now, later).0.latency < f.latency <==> now <= f.waitUntil - 4
  {
    Estimate(f, now, later);
  }

  /** A value goes out when nothing has been sent yet, or when the time to wait for has come; else it waits, or
      is dropped while the first reply is out. What that does to the time to wait for: the first message starts the measurement,
      later ones wait for one and a half latencies; nothing else moves it, and nothing moves the latency. */
  lemma WaitingTime(f: Flow, val: Value, receives: bool, now: int)
    ensures var (g, out) := SetFlow(f, val, receives, now);
            && g.latency == f.latency
            && (out != [] <==> receives && (if f.latency < 0 then f.waitUntil < 0 else now >= f.waitUntil))
            && (out != [] ==> out == [Sent(now, val)] && g.toSend == f.toSend)
            && (out == [] ==> g.toSend == if receives && f.latency >= 0 then Stored(val) else f.toSend)
            && (if out == [] then g.waitUntil == f.waitUntil
                else if f.latency < 0 then g.waitUntil == now
                else if 2 * now + 3 * f.latency >= 0 then 2 * g.waitUntil <= 2 * now + 3 * f.latency < 2 * g.waitUntil + 2
                else 2 * g.waitUntil - 2 < 2 * now + 3 * f.latency <= 2 * g.waitUntil)
  {
  }

  function ResetFlow(f: Flow): Flow {
    f.(latency := -1, waitUntil := -1)
  }

  class ObjectProxy {
    var value: Value
    var latency: int
    var waitUntil: int
    var toSend: Value
    var sent: seq<Sent> // what went out to the remote object

    function State(): Flow
      reads this
    {
      Flow(latency, waitUntil, toSend)
    }

    constructor ()
      ensures State() == FRESH && sent == [] && value == EmptyValue
    {
      value, latency, waitUntil, toSend, sent := EmptyValue, -1, -1, EmptyValue, [];
    }

    /** set_value; receives is what can_receive says of the value. */
    method SetValue(val: Value, receives: bool, now: int)
      modifies this
      ensures var (flow, out) := SetFlow(old(State()), val, receives, now);
              State() == flow && sent == old(sent) + out && value == old(value)
    {
      if receives {
        if latency < 0 {
          if waitUntil >= 0 {
            // waiting for first call reply
          } else {
            sent := sent + [Sent(now, val)];
            waitUntil := now;
          }
        } else if now < waitUntil {
          toSend := Stored(val); // assigning Empty stores Nil
        } else {
          sent := sent + [Sent(now, val)];
          waitUntil := Later(now, latency);
        }
      }
    }

    /** handle_value_change. */
    method HandleValueChange(val: Value, now: int, later: int)
      modifies this
      ensures var (flow, out) := NotifiedFlow(old(State()), now, later);
              State() == flow && sent == old(sent) + out && value == Stored(val)
      ensures Estimated(old(latency), old(waitUntil), old(toSend) != EmptyValue, now, later, latency, waitUntil)
    {
      Estimate(State(), now, later);
      value := Stored(val);
      if latency < 0 && waitUntil >= 0 {
        latency := now - waitUntil;
        waitUntil := 0;
      } else {
        if waitUntil != 0 {
          latency := latency + Truncated(now - waitUntil, 4);
        }
        if toSend != EmptyValue {
          sent := sent + [Sent(later, toSend)];
          toSend := EmptyValue;
          waitUntil := Later(later, latency);
        } else {
          waitUntil := 0;
        }
      }
    }

    method ResetConnection()
      modifies this
      ensures State() == ResetFlow(old(State())) && sent == old(sent) && value == old(value)
    {
      waitUntil := -1;
      latency := -1;
    }

    /** A run of calls. */
    method Run(events: seq<Event>)
      modifies this
      ensures State() == After(old(State()), events) && sent == old(sent) + Sends(old(State()), events)
    {
      hide Stepped, After, Sends;
      var i := 0;
      assert events[0..] == events;
      while i < |events|
        invariant 0 <= i <= |events|
        invariant After(State(), events[i..]) == After(old(State()), events)
        invariant sent + Sends(State(), events[i..]) == old(sent) + Sends(old(State()), events)
      {
        FirstEvent(State(), events[i..]);
        assert events[i..][1..] == events[i + 1..];
        ghost var before, out := sent, Stepped(State(), events[i]).1;
        Call(events[i]);
        assert (before + out) + Sends(State(), events[i + 1..]) == before + (out + Sends(State(), events[i + 1..]));
        i := i + 1;
      }
      assert events[i..] == [];
      NothingYet(State());
    }

    method Call(e: Event)
      modifies this
      ensures var (flow, out) := Stepped(old(State()), e);
              State() == flow && sent == old(sent) + out
    {
      match e {
        case SetValue(now, val, receives) => SetValue(val, receives, now);
        case Notification(now, later, val) => HandleValueChange(val, now, later);
        case Reset(_) => ResetConnection();
      }
    }
  }

  lemma FirstEvent(f: Flow, events: seq<Event>)
    requires events != []
    ensures After(f, events) == After(Stepped(f, events[0]).0, events[1..])
    ensures Sends(f, events) == Stepped(f, events[0]).1 + Sends(Stepped(f, events[0]).0, events[1..])
  {
    hide Stepped;
  }

  /* ---- runs ---- */

  datatype Event = SetValue(now: int, val: Value, receives: bool) | Notification(now: int, later: int, val: Value) | Reset(now: int)

  function Stepped(f: Flow, e: Event): (Flow, seq<Sent>) {
    match e
    case SetValue(now, val, receives) => SetFlow(f, val, receives, now)
    case Notification(now, later, _) => NotifiedFlow(f, now, later)
    case Reset(_) => (ResetFlow(f), [])
  }

  function After(f: Flow, events: seq<Event>): Flow
    decreases |events|
  {
    if events == [] then f else After(Stepped(f, events[0]).0, events[1..])
  }

  function Sends(f: Flow, events: seq<Event>): seq<Sent>
    decreases |events|
  {
    if events == [] then [] else Stepped(f, events[0]).1 + Sends(Stepped(f, events[0]).0, events[1..])
  }

  /** Only calls of set_value, at times that are not negative. */
  predicate OnlySets(events: seq<Event>) {
    forall e :: e in events ==> e.SetValue? && e.now >= 0
  }

  /** From a fresh or reset proxy at most one message goes out before the next notification. */
  lemma {:induction false} AtMostOne(f: Flow, events: seq<Event>)
    requires f.latency < 0 && OnlySets(events)
    ensures |Sends(f, events)| <= if f.waitUntil < 0 then 1 else 0
    decreases |events|
  {
    if events != [] {
      assert events[0] in events;
      AtMostOne(Stepped(f, events[0]).0, events[1..]);
    }
  }

  lemma {:induction false} Unanswered(f: Flow, events: seq<Event>)
    requires f.latency < 0 && f.waitUntil >= 0 && OnlySets(events)
    ensures After(f, events) == f && Sends(f, events) == []
    decreases |events|
  {
    if events != [] {
      assert events[0] in events;
      Unanswered(f, events[1..]);
    }
  }

  /** A reset starts over, whatever was known: the next value goes out at once, all others are dropped until
      the notification that measures the latency anew. What waited before keeps waiting; a notification that
      comes before any value lets it out. */
  lemma ResetStartsOver(f: Flow, val: Value, sent: int, events: seq<Event>, now: int, later: int)
    requires sent >= 0 && OnlySets(events)
    ensures var (g, out) := SetFlow(ResetFlow(f), val, true, sent);
            && out == [Sent(sent, val)] && Sends(g, events) == []
            && NotifiedFlow(After(g, events), now, later) == (Flow(now - sent, 0, f.toSend), [])
    ensures NotifiedFlow(ResetFlow(f), now, later).1 == if f.toSend == EmptyValue then [] else [Sent(later, f.toSend)]
  {
    Unanswered(SetFlow(ResetFlow(f), val, true, sent).0, events);
  }

  /** What holds after everything that happened up to now. */
  predicate Sound(f: Flow, now: int) {
    && now >= 0 && f.latency >= -1 && f.waitUntil >= -1
    && if f.latency < 0 then f.waitUntil <= now else f.waitUntil <= now + 3 * f.latency / 2
  }

  /** The last reading of the clock for an event. */
  function Until(e: Event): int {
    if e.Notification? then e.later else e.now
  }

  predicate InOrder(since: int, events: seq<Event>) {
    && (events != [] ==> since <= events[0].now)
    && (forall i :: 0 <= i < |events| ==> events[i].now <= Until(events[i]))
    && forall i :: 0 <= i < |events| - 1 ==> Until(events[i]) <= events[i + 1].now
  }

  lemma QuarterBounds(f: Flow, now: int)
    requires f.latency >= 0 && f.waitUntil <= now + 3 * f.latency / 2
    ensures f.latency + Truncated(now - f.waitUntil, 4) >= 0
  {
  }

  lemma StepSound(f: Flow, since: int, e: Event)
    requires Sound(f, since) && since <= e.now <= Until(e)
    ensures Sound(Stepped(f, e).0, Until(e))
    ensures f.latency >= 0 && !e.Reset? ==> Stepped(f, e).0.latency >= 0
  {
    if f.latency >= 0 {
      QuarterBounds(f, e.now);
    }
  }

  /** Over every run with a clock that does not run backwards, the state stays sound, and a latency that
      is not negative stays so until a reset. */
  lemma {:induction false} StaysKnown(f: Flow, since: int, events: seq<Event>)
    requires Sound(f, since) && InOrder(since, events)
    ensures Sound(After(f, events), if events == [] then since else Until(events[|events| - 1]))
    ensures f.latency >= 0 && (forall e :: e in events ==> !e.Reset?) ==> After(f, events).latency >= 0
    decreases |events|
  {
    hide Stepped, Sound;
    if events != [] {
      StepSound(f, since, events[0]);
      assert forall e :: e in events[1..] ==> e in events;
      assert events[0] in events;
      StaysKnown(Stepped(f, events[0]).0, Until(events[0]), events[1..]);
    }
  }

  /** From a fresh proxy: after any run the state is sound; the latency stays known from the notification
      that made it known, until a reset. */
  lemma FreshStaysKnown(events: seq<Event>, k: int)
    requires InOrder(0, events) && 0 <= k <= |events|
    ensures Sound(After(FRESH, events), if events == [] then 0 else Until(events[|events| - 1]))
    ensures After(FRESH, events[..k]).latency >= 0 && (forall e :: e in events[k..] ==> !e.Reset?) ==> After(FRESH, events).latency >= 0
  {
    hide Stepped, After, Sound, InOrder;
    FreshSound();
    OrderSplit(events, k);
    StaysKnown(FRESH, 0, events);
    StaysKnown(FRESH, 0, events[..k]);
    AfterBoth(FRESH, events[..k], events[k..]);
    assert events[..k] + events[k..] == events;
    StaysKnown(After(FRESH, events[..k]), if k == 0 then 0 else Until(events[k - 1]), events[k..]);
  }

  lemma FreshSound()
    ensures Sound(FRESH, 0)
  {
  }

  lemma OrderSplit(events: seq<Event>, k: int)
    requires InOrder(0, events) && 0 <= k <= |events|
    ensures InOrder(0, events[..k]) && InOrder(if k == 0 then 0 else Until(events[k - 1]), events[k..])
  {
    hide Until;
    assert forall i :: 0 <= i < |events| - k ==> events[k..][i] == events[i + k];
  }

  lemma {:induction false} AfterBoth(f: Flow, a: seq<Event>, b: seq<Event>)
    ensures After(f, a + b) == After(After(f, a), b)
    decreases |a|
  {
    hide Stepped;
    if a == [] {
      assert a + b == b;
    } else {
      assert (a + b)[1..] == a[1..] + b;
      AfterBoth(Stepped(f, a[0]).0, a[1..], b);
    }
  }

  /** Once the latency is known, two sends with no notification between them are at least one and a half
      latencies apart, and none comes before the time to wait for. */
  lemma {:induction false} Spaced(f: Flow, events: seq<Event>)
    requires f.latency >= 0 && OnlySets(events)
    ensures var sends := Sends(f, events);
            && (sends != [] ==> sends[0].time >= f.waitUntil)
            && forall i :: 0 <= i < |sends| - 1 ==> sends[i + 1].time - sends[i].time >= 3 * f.latency / 2
    decreases |events|
  {
    if events != [] {
      assert events[0] in events;
      var (flow, out) := Stepped(f, events[0]);
      Spaced(flow, events[1..]);
      var rest := Sends(flow, events[1..]);
      assert out == [] ==> Sends(f, events) == rest;
      assert out != [] ==> Sends(f, events) == [out[0]] + rest;
    }
  }

  /** The same for a first send that answers a notification. */
  lemma SpacedAfterNotification(f: Flow, now: int, later: int, events: seq<Event>)
    requires 0 <= now <= later && OnlySets(events) && NotifiedFlow(f, now, later).0.latency >= 0
    ensures var (flow, out) := NotifiedFlow(f, now, later);
            var sends := Sends(flow, events);
            out != [] && sends != [] ==> sends[0].time - out[0].time >= 3 * flow.latency / 2
  {
    Spaced(NotifiedFlow(f, now, later).0, events);
  }

  /* ---- which value goes out last ---- */

  /** The k-th event is a value that goes out at once. */
  predicate SendsNow(f: Flow, events: seq<Event>, k: int) {
    0 <= k < |events| && events[k].SetValue? && Stepped(After(f, events[..k]), events[k]).1 != []
  }

  /** The k-th event is a value that has to wait. */
  predicate Keeps(f: Flow, events: seq<Event>, k: int) {
    && 0 <= k < |events| && events[k].SetValue? && events[k].receives
    && var before := After(f, events[..k]);
       before.latency >= 0 && events[k].now < before.waitUntil
  }

  /** The k-th event is a notification that sends the value that waits. */
  predicate Releases(f: Flow, events: seq<Event>, k: int) {
    0 <= k < |events| && events[k].Notification? && Stepped(After(f, events[..k]), events[k]).1 != []
  }

  /** The event whose value was accepted last, -1 for none. */
  function Newest(f: Flow, events: seq<Event>): (n: int)
    ensures -1 <= n < |events|
    decreases |events|
  {
    var last := |events| - 1;
    if events == [] then -1
    else if SendsNow(f, events, last) || Keeps(f, events, last) then last
    else Newest(f, events[..last])
  }

  /** The event whose value waits, -1 for none. A waiting value gives way to one that comes later. */
  function Waiting(f: Flow, events: seq<Event>): (n: int)
    ensures -1 <= n < |events|
    decreases |events|
  {
    var last := |events| - 1;
    if events == [] || Releases(f, events, last) then -1
    else if Keeps(f, events, last) then last
    else Waiting(f, events[..last])
  }

  /** The event whose value went out last, -1 for none. */
  function LastOut(f: Flow, events: seq<Event>): (n: int)
    ensures -1 <= n < |events|
    decreases |events|
  {
    var last := |events| - 1;
    if events == [] then -1
    else if SendsNow(f, events, last) then last
    else if Releases(f, events, last) then Waiting(f, events[..last])
    else LastOut(f, events[..last])
  }

  lemma {:induction false} LastStep(f: Flow, events: seq<Event>)
    requires events != []
    ensures var last := |events| - 1;
            var (flow, out) := Stepped(After(f, events[..last]), events[last]);
            After(f, events) == flow && Sends(f, events) == Sends(f, events[..last]) + out
    decreases |events|
  {
    hide Stepped;
    var last := |events| - 1;
    if last > 0 {
      assert events[1..][..last - 1] == events[..last][1..] && events[..last][0] == events[0];
      LastStep(Stepped(f, events[0]).0, events[1..]);
    } else {
      assert events[..0] == [] && events[1..] == [];
    }
  }

  /** What the last event does, by its kind. */
  lemma LastEffect(f: Flow, events: seq<Event>)
    requires events != []
    ensures var last := |events| - 1;
            var before := After(f, events[..last]);
            var (flow, out) := Stepped(before, events[last]);
            if SendsNow(f, events, last) then |out| == 1 && out[0].value == events[last].val && flow.toSend == before.toSend
            else if Keeps(f, events, last) then out == [] && flow.toSend == Stored(events[last].val)
            else if Releases(f, events, last) then
              |out| == 1 && out[0].value == before.toSend != EmptyValue && flow.toSend == EmptyValue
            else out == [] && flow.toSend == before.toSend
    ensures var last := |events| - 1;
            !(Releases(f, events, last) && (SendsNow(f, events, last) || Keeps(f, events, last)))
  {
    hide After;
  }

  /** The three are what they are called: to_send holds the waiting event's value, and the last message
      carries the value of the event that went out last. A value that waited has been assigned on the way, so
      that Empty has become Nil. */
  lemma {:induction false} LedgerTrue(f: Flow, events: seq<Event>)
    requires f.toSend.EmptyValue?
    ensures var w, o, sends := Waiting(f, events), LastOut(f, events), Sends(f, events);
            && (w != -1 ==> Keeps(f, events, w))
            && After(f, events).toSend == (if w == -1 then EmptyValue else Stored(events[w].val))
            && (o == -1 <==> sends == [])
            && (o != -1 ==> SendsNow(f, events, o) || Keeps(f, events, o))
            && (o != -1 ==>
                  sends[|sends| - 1].value == if SendsNow(f, events, o) then events[o].val else Stored(events[o].val))
    decreases |events|
  {
    hide After, Sends, SendsNow, Keeps, Releases, ReleasedSince, Stepped;
    if events == [] {
      NothingYet(f);
    } else {
      var last := |events| - 1;
      LastStep(f, events);
      LastEffect(f, events);
      OneWay(f, events, last);
      LedgerTrue(f, events[..last]);
      var w, o := Waiting(f, events[..last]), LastOut(f, events[..last]);
      Prefix(f, events, w);
      Prefix(f, events, o);
      OneWay(f, events, w);
    }
  }

  lemma NothingYet(f: Flow)
    ensures After(f, []) == f && Sends(f, []) == []
  {
  }

  /** A release behind the n-th event. */
  predicate ReleasedSince(f: Flow, events: seq<Event>, n: int) {
    exists k :: n < k < |events| && Releases(f, events, k)
  }

  lemma Prefix(f: Flow, events: seq<Event>, n: int)
    requires events != [] && n < |events| - 1
    ensures var before := events[..|events| - 1];
            && (SendsNow(f, events, n) <==> SendsNow(f, before, n))
            && (Keeps(f, events, n) <==> Keeps(f, before, n))
            && (ReleasedSince(f, events, n) <==> ReleasedSince(f, before, n) || Releases(f, events, |events| - 1))
  {
    hide Stepped;
    var before := events[..|events| - 1];
    assert forall k :: 0 <= k < |before| ==> before[..k] == events[..k] && before[k] == events[k];
    assert forall k :: 0 <= k < |before| ==> (Releases(f, events, k) <==> Releases(f, before, k));
    if Releases(f, events, |events| - 1) {
      assert ReleasedSince(f, events, n);
    }
  }

  /** Where things stand: a newest value that went out at once is the last one out until a waiting one is
      released behind it; a newest value that waits becomes the last one out when it is released. */
  predicate Stands(f: Flow, events: seq<Event>) {
    var n, w, o := Newest(f, events), Waiting(f, events), LastOut(f, events);
    if n == -1 then w == -1 && o == -1
    else if SendsNow(f, events, n) then
      if ReleasedSince(f, events, n) then o < n && w == -1 else o == n && w < n
    else
      && Keeps(f, events, n)
      && if ReleasedSince(f, events, n) then o == n && w == -1 else o < n && w == n
  }

  lemma {:induction false} AlwaysStands(f: Flow, events: seq<Event>)
    requires f.toSend.EmptyValue?
    ensures Stands(f, events)
    decreases |events|
  {
    hide After, Sends, SendsNow, Keeps, Releases, ReleasedSince;
    if events != [] {
      var last := |events| - 1;
      AlwaysStands(f, events[..last]);
      OneKind(f, events);
      if Newest(f, events) == last {
        NothingBehind(f, events);
      } else {
        Prefix(f, events, Newest(f, events));
      }
    }
  }

  /** An event is of one kind only, and nothing can be released where nothing waits. */
  lemma OneKind(f: Flow, events: seq<Event>)
    requires events != [] && f.toSend.EmptyValue?
    ensures var last := |events| - 1;
            && !(SendsNow(f, events, last) && Keeps(f, events, last))
            && !(Releases(f, events, last) && (SendsNow(f, events, last) || Keeps(f, events, last)))
            && (Releases(f, events, last) ==> Waiting(f, events[..last]) != -1)
  {
    hide After, Waiting;
    LedgerTrue(f, events[..|events| - 1]);
  }

  lemma OneWay(f: Flow, events: seq<Event>, k: int)
    ensures !(SendsNow(f, events, k) && Keeps(f, events, k))
  {
    hide After;
  }

  lemma NothingBehind(f: Flow, events: seq<Event>)
    requires events != []
    ensures !ReleasedSince(f, events, |events| - 1)
  {
  }

  /** Over every run that starts with nothing waiting: the last value that went out is the last one accepted
      exactly when that one went out at once and nothing was released behind it, or when it had to wait and
      was released. */
  lemma NewestIsOut(f: Flow, events: seq<Event>)
    requires f.toSend.EmptyValue?
    ensures var n := Newest(f, events);
            LastOut(f, events) == n <==> n == -1 || (SendsNow(f, events, n) <==> !ReleasedSince(f, events, n))
  {
    hide SendsNow, Keeps, ReleasedSince;
    AlwaysStands(f, events);
  }

  /** At a notification behind which nothing waits any more: the proxy has fallen back to an older value
      exactly when the newest one went out while another was waiting. */
  lemma LeftOver(f: Flow, events: seq<Event>, now: int, later: int, val: Value)
    requires f.toSend.EmptyValue? && !Measuring(After(f, events))
    ensures var all := events + [Notification(now, later, val)];
            var n := Newest(f, all);
            LastOut(f, all) == n <==>
              n == -1 || Keeps(f, all, n) || (SendsNow(f, all, n) && After(f, all[..n]).toSend.EmptyValue?)
  {
    hide Keeps, Newest, LastOut, SendsNow, ReleasedSince, After;
    var all := events + [Notification(now, later, val)];
    assert all[..|events|] == events;
    LastStep(f, all);
    AlwaysStands(f, all);
    LedgerTrue(f, all);
    var n := Newest(f, all);
    assert Waiting(f, all) == -1;
    if n != -1 {
      LedgerTrue(f, all[..n]);
      OneWay(f, all, n);
      assert all[..|all|] == all;
      if SendsNow(f, all, n) {
        WaitsUntilReleased(f, all, n, |all|);
      }
    }
  }

  /** From a newest value that went out at once to the m-th event: what waited goes on waiting until it is
      released, and nothing is released that did not wait. */
  lemma {:induction false} WaitsUntilReleased(f: Flow, events: seq<Event>, n: int, m: int)
    requires f.toSend.EmptyValue? && 0 <= n == Newest(f, events) && SendsNow(f, events, n) && n < m <= |events|
    ensures ReleasedSince(f, events[..m], n) ==> Waiting(f, events[..n]) != -1 && Waiting(f, events[..m]) == -1
    ensures !ReleasedSince(f, events[..m], n) ==> Waiting(f, events[..m]) == Waiting(f, events[..n])
    decreases m
  {
    hide After, SendsNow, Keeps, Releases, ReleasedSince;
    var part := events[..m];
    assert part[..m - 1] == events[..m - 1];
    OneKind(f, part);
    if m - 1 == n {
      NothingBehind(f, part);
      SameEvent(f, events, m);
    } else {
      WaitsUntilReleased(f, events, n, m - 1);
      Prefix(f, part, n);
      SameEvent(f, events, m);
      NotNewer(f, events, m - 1);
    }
  }

  lemma SameEvent(f: Flow, events: seq<Event>, m: int)
    requires 0 < m <= |events|
    ensures SendsNow(f, events[..m], m - 1) <==> SendsNow(f, events, m - 1)
    ensures Keeps(f, events[..m], m - 1) <==> Keeps(f, events, m - 1)
  {
    assert events[..m][..m - 1] == events[..m - 1];
  }

  /** Behind the newest accepted value none is accepted. */
  lemma {:induction false} NotNewer(f: Flow, events: seq<Event>, k: int)
    requires Newest(f, events) < k < |events|
    ensures !SendsNow(f, events, k) && !Keeps(f, events, k)
    decreases |events|
  {
    hide After, SendsNow, Keeps, Releases, ReleasedSince;
    if k < |events| - 1 {
      NotNewer(f, events[..|events| - 1], k);
      Prefix(f, events, k);
    }
  }

  /** Such a run exists: the value set at 130 overtakes the one set at 110, which goes out at 150. */
  lemma OlderValueGoesLast(first: Value, older: Value, newer: Value)
    ensures Sends(FRESH, [SetValue(0, first, true), Notification(20, 20, NilValue), SetValue(100, first, true), SetValue(110, older, true),
                          SetValue(130, newer, true), Notification(150, 150, NilValue)])
         == [Sent(0, first), Sent(100, first), Sent(130, newer), Sent(150, Stored(older))]
  {
    var events := [SetValue(0, first, true), Notification(20, 20, NilValue), SetValue(100, first, true), SetValue(110, older, true),
                   SetValue(130, newer, true), Notification(150, 150, NilValue)];
    assert Later(100, 20) == 130 && Later(130, 20) == 160;
    OneEvent(Flow(20, 160, Stored(older)), events[5], []);
    OneEvent(Flow(20, 130, Stored(older)), events[4], [events[5]]);
    OneEvent(Flow(20, 130, EmptyValue), events[3], events[4..]);
    OneEvent(Flow(20, 0, EmptyValue), events[2], events[3..]);
    OneEvent(Flow(-1, 0, EmptyValue), events[1], events[2..]);
    OneEvent(FRESH, events[0], events[1..]);
    assert [events[5]] + [] == [events[5]] && [events[4]] + [events[5]] == events[4..] && [events[3]] + events[4..] == events[3..];
    assert [events[2]] + events[3..] == events[2..] && [events[1]] + events[2..] == events[1..] && [events[0]] + events[1..] == events;
  }

  lemma OneEvent(f: Flow, e: Event, rest: seq<Event>)
    ensures Sends(f, [e] + rest) == Stepped(f, e).1 + Sends(Stepped(f, e).0, rest)
  {
    assert ([e] + rest)[1..] == rest;
  }
}
