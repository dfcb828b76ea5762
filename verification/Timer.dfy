/** The timer loop: logical fire times on a grid, whatever the clock says when the loop wakes up. */
module Timers {

  /** One fire: the time it stands for, and the clock when it happened. */
  datatype Fire = Fire(logical: int, clock: int)

  /** What one turn of the loop decides. */
  datatype Turn = Turn(fired: bool, nextFire: int, wait: int)

  /** The next logical time after a turn that starts at now; an early wake takes a step back first. */
  function Advanced(interval: int, last: int, nextFire: int, now: int): int {
    (if nextFire > now then nextFire - last else nextFire) + interval
  }

  function Turned(interval: int, last: int, nextFire: int, now: int): Turn {
    var fired, next := nextFire <= now, Advanced(interval, last, nextFire, now);
    if next >= now then Turn(fired, next, next - now)
    else if interval > 0 then
      var skipped := next + ((now - next) / interval + 1) * interval;
      Turn(fired, skipped, skipped - now)
    else Turn(fired, next, 0)
  }

  function Fires(interval: int, last: int, nextFire: int, clock: seq<int>): seq<Fire>
    decreases |clock|
  {
    if clock == [] then [] else
      var t := Turned(interval, last, nextFire, clock[0]);
      (if t.fired then [Fire(nextFire, clock[0])] else []) + Fires(interval, last, t.nextFire, clock[1..])
  }

  function Waits(interval: int, last: int, nextFire: int, clock: seq<int>): seq<int>
    decreases |clock|
  {
    if clock == [] then [] else
      var t := Turned(interval, last, nextFire, clock[0]);
      [t.wait] + Waits(interval, last, t.nextFire, clock[1..])
  }

  lemma FirstTurn(interval: int, last: int, nextFire: int, clock: seq<int>)
    requires clock != []
    ensures var t := Turned(interval, last, nextFire, clock[0]);
            && Fires(interval, last, nextFire, clock) ==
               (if t.fired then [Fire(nextFire, clock[0])] else []) + Fires(interval, last, t.nextFire, clock[1..])
            && Waits(interval, last, nextFire, clock) == [t.wait] + Waits(interval, last, t.nextFire, clock[1..])
  {
  }

  lemma NothingLeft(interval: int, last: int, nextFire: int, clock: seq<int>)
    requires clock == []
    ensures Fires(interval, last, nextFire, clock) == [] && Waits(interval, last, nextFire, clock) == []
  {
  }

  lemma AscendingTail(clock: seq<int>)
    requires clock != [] && Ascending(clock)
    ensures Ascending(clock[1..]) && (clock[1..] != [] ==> clock[0] <= clock[1..][0])
  {
  }

  class Timer {
    var interval: int
    var lastInterval: int

    constructor (interval: int)
      ensures this.interval == lastInterval == interval
    {
      this.interval, lastInterval := interval, interval;
    }

    /** set_interval. */
    method SetInterval(newInterval: int)
      modifies this
      ensures interval == newInterval && lastInterval == old(interval)
    {
      lastInterval := interval;
      interval := newInterval;
    }

    /** start with an interval, and the loop that it starts: the interval before is the step back. */
    method Start(newInterval: int, anchor: int, clock: seq<int>) returns (fires: seq<Fire>, waits: seq<int>)
      modifies this
      ensures interval == newInterval && lastInterval == old(interval)
      ensures fires == Fires(newInterval, old(interval), anchor, clock)
      ensures waits == Waits(newInterval, old(interval), anchor, clock)
    {
      SetInterval(newInterval);
      fires, waits := Run(anchor, clock);
    }

    /** run, for the readings of the clock at the turns of the loop; the owner's method is called at the
        fires, the thread sleeps for the waits. */
    method Run(anchor: int, clock: seq<int>) returns (fires: seq<Fire>, waits: seq<int>)
      ensures fires == Fires(interval, lastInterval, anchor, clock)
      ensures waits == Waits(interval, lastInterval, anchor, clock)
    {
      hide Fires, Waits;
      var nextFire := anchor;
      fires, waits := [], [];
      var i := 0;
      assert clock[0..] == clock;
      while i < |clock|
        invariant 0 <= i <= |clock|
        invariant fires + Fires(interval, lastInterval, nextFire, clock[i..]) == Fires(interval, lastInterval, anchor, clock)
        invariant waits + Waits(interval, lastInterval, nextFire, clock[i..]) == Waits(interval, lastInterval, anchor, clock)
      {
        ghost var rest, t := clock[i..], Turned(interval, lastInterval, nextFire, clock[i]);
        assert rest[1..] == clock[i + 1..];
        FirstTurn(interval, lastInterval, nextFire, rest);
        var now := clock[i];
        if nextFire > now {
          nextFire := nextFire - lastInterval; // interrupted: no fire
        } else {
          fires := fires + [Fire(nextFire, now)];
        }
        nextFire := nextFire + interval;
        var waitDuration := nextFire - now;
        if waitDuration < 0 {
          if interval > 0 {
            var k := (now - nextFire) / interval + 1;
            nextFire := nextFire + k * interval;
            waitDuration := nextFire - now;
          } else {
            waitDuration := 0;
          }
        }
        waits := waits + [waitDuration];
        assert t.nextFire == nextFire && t.wait == waitDuration;
        i := i + 1;
      }
      NothingLeft(interval, lastInterval, nextFire, clock[i..]);
    }
  }

  /* ---- the grid ---- */

  ghost predicate OnGrid(anchor: int, interval: int, t: int) {
    exists n: nat :: t == anchor + n * interval
  }

  predicate Ascending(clock: seq<int>) {
    forall i, j :: 0 <= i < j < |clock| ==> clock[i] <= clock[j]
  }

  lemma SkipBounds(a: int, interval: int)
    requires a > 0 && interval > 0
    ensures var k := a / interval + 1;
            k >= 1 && a < k * interval <= a + interval
  {
    var q, r := a / interval, a % interval;
    assert a == q * interval + r;
    assert (q + 1) * interval == q * interval + interval;
  }

  /** After t: the next point, unless the clock is past it; then the first point past the clock. */
  predicate Follows(t: int, next: int, interval: int, now: int) {
    if now <= t + interval then next == t + interval else next - interval <= now < next
  }

  /** One turn with a constant interval: the next time is on the grid and at most one interval ahead; nothing
      is stepped over before the clock has passed a whole interval. */
  lemma OneTurn(interval: int, nextFire: int, now: int, n: nat, anchor: int)
    requires interval > 0 && nextFire == anchor + n * interval && nextFire - interval <= now
    ensures var t := Turned(interval, interval, nextFire, now);
            && 0 <= t.wait == t.nextFire - now <= interval
            && OnGrid(anchor, interval, t.nextFire)
            && (t.fired <==> nextFire <= now)
            && (if t.fired then Follows(nextFire, t.nextFire, interval, now) else t.nextFire == nextFire)
  {
    var next := Advanced(interval, interval, nextFire, now);
    if next >= now {
      if nextFire <= now {
        assert next == anchor + (n + 1) * interval;
      }
    } else {
      SkipBounds(now - next, interval);
      var k := (now - next) / interval + 1;
      assert next + k * interval == anchor + (n + 1 + k) * interval;
    }
  }

  /** Fires that stand for points of the grid, never come early, strictly increase, and leave out between
      two of them only points that the clock had reached at the first, and none when that was in time. */
  ghost predicate Faithful(anchor: int, interval: int, fires: seq<Fire>) {
    && (forall i :: 0 <= i < |fires| ==> OnGrid(anchor, interval, fires[i].logical) && fires[i].logical <= fires[i].clock)
    && (forall i :: 0 <= i < |fires| - 1 ==>
          && fires[i].logical < fires[i + 1].logical
          && Follows(fires[i].logical, fires[i + 1].logical, interval, fires[i].clock)
          && fires[i + 1].logical - interval <= fires[i].clock <= fires[i + 1].logical)
  }

  lemma OneMoreFire(anchor: int, interval: int, first: Fire, rest: seq<Fire>)
    requires Faithful(anchor, interval, rest) && OnGrid(anchor, interval, first.logical) && first.logical <= first.clock
    requires rest != [] ==>
               && first.logical < rest[0].logical && rest[0].logical - interval <= first.clock <= rest[0].logical
               && Follows(first.logical, rest[0].logical, interval, first.clock)
    ensures Faithful(anchor, interval, [first] + rest)
  {
    hide OnGrid, Follows;
    var fires := [first] + rest;
    assert forall i :: 0 < i < |fires| ==> fires[i] == rest[i - 1];
  }

  lemma NoFire(anchor: int, interval: int)
    ensures Faithful(anchor, interval, [])
  {
  }

  /** All fires of a run that is at nextFire. */
  lemma {:induction false} FiresFrom(interval: int, nextFire: int, clock: seq<int>, anchor: int)
    requires interval > 0 && OnGrid(anchor, interval, nextFire) && Ascending(clock)
    requires clock != [] ==> nextFire - interval <= clock[0]
    ensures var fires := Fires(interval, interval, nextFire, clock);
            && Faithful(anchor, interval, fires)
            && (fires != [] ==> fires[0].logical == nextFire)
            && (clock != [] && nextFire <= clock[0] ==> fires != [] && fires[0] == Fire(nextFire, clock[0]))
    decreases |clock|
  {
    hide OnGrid, Turned, Faithful, Ascending, Fires, Follows;
    if clock == [] {
      NothingLeft(interval, interval, nextFire, clock);
      NoFire(anchor, interval);
    } else {
      var n := Steps(anchor, interval, nextFire);
      OneTurn(interval, nextFire, clock[0], n, anchor);
      FirstTurn(interval, interval, nextFire, clock);
      AscendingTail(clock);
      var t := Turned(interval, interval, nextFire, clock[0]);
      FiresFrom(interval, t.nextFire, clock[1..], anchor);
      var rest := Fires(interval, interval, t.nextFire, clock[1..]);
      if t.fired {
        OneMoreFire(anchor, interval, Fire(nextFire, clock[0]), rest);
      } else {
        assert [] + rest == rest;
      }
    }
  }

  lemma {:induction false} WaitsFrom(interval: int, nextFire: int, clock: seq<int>, anchor: int)
    requires interval > 0 && OnGrid(anchor, interval, nextFire) && Ascending(clock)
    requires clock != [] ==> nextFire - interval <= clock[0]
    ensures var waits := Waits(interval, interval, nextFire, clock);
            |waits| == |clock| && forall i :: 0 <= i < |waits| ==> 0 <= waits[i] <= interval
    decreases |clock|
  {
    hide OnGrid, Turned;
    if clock != [] {
      var n := Steps(anchor, interval, nextFire);
      OneTurn(interval, nextFire, clock[0], n, anchor);
      WaitsFrom(interval, Turned(interval, interval, nextFire, clock[0]).nextFire, clock[1..], anchor);
    }
  }

  lemma Steps(anchor: int, interval: int, t: int) returns (n: nat)
    requires OnGrid(anchor, interval, t)
    ensures t == anchor + n * interval
  {
    n :| t == anchor + n * interval;
  }

  /** The timer keeps its grid: with a constant positive interval and a clock that does not run backwards,
      the fires are faithful, the first is the anchor, and every wait is between 0 and the interval. */
  lemma KeepsGrid(interval: int, anchor: int, clock: seq<int>)
    requires interval > 0 && Ascending(clock) && (clock != [] ==> anchor <= clock[0])
    ensures var fires := Fires(interval, interval, anchor, clock);
            Faithful(anchor, interval, fires) && (clock != [] ==> fires != [] && fires[0] == Fire(anchor, clock[0]))
    ensures var waits := Waits(interval, interval, anchor, clock);
            |waits| == |clock| && forall i :: 0 <= i < |waits| ==> 0 <= waits[i] <= interval
  {
    hide Turned, Fires, Waits, Faithful;
    assert OnGrid(anchor, interval, anchor) by {
      assert anchor == anchor + 0 * interval;
    }
    FiresFrom(interval, anchor, clock, anchor);
    WaitsFrom(interval, anchor, clock, anchor);
  }

  /* ---- when the step back is not the interval ---- */

  lemma SameRest(a: int, b: int, interval: int)
    requires interval > 0 && 0 < a <= interval && 0 < b <= interval && (a - b) % interval == 0
    ensures a == b
  {
  }

  /** An early wake leaves the next fire where it is exactly when the step back equals the interval, or is
      a multiple of it that leads behind the clock. */
  lemma EarlyWake(interval: int, last: int, nextFire: int, now: int)
    requires interval > 0 && nextFire - interval <= now < nextFire
    ensures Turned(interval, last, nextFire, now).nextFire == nextFire
            <==> last == interval || (last > interval + (nextFire - now) && last % interval == 0)
  {
    var next := nextFire - last + interval;
    if next < now {
      SkipBounds(now - next, interval);
      var k := (now - next) / interval + 1;
      var skipped := next + k * interval;
      assert skipped - nextFire == (k + 1) * interval - last;
      if last % interval == 0 {
        assert last == (last / interval) * interval;
        assert skipped - nextFire == (k + 1 - last / interval) * interval;
        Multiple(k + 1 - last / interval, interval);
        SameRest(skipped - now, nextFire - now, interval);
      }
      if skipped == nextFire {
        Multiple(k + 1, interval);
      }
    }
  }

  lemma Multiple(k: int, interval: int)
    requires interval > 0
    ensures (k * interval) % interval == 0
  {
    var q, r := k * interval / interval, k * interval % interval;
    assert (k - q) * interval == r;
    BelowOne(k - q, interval);
  }

  lemma BelowOne(d: int, interval: int)
    requires interval > 0 && 0 <= d * interval < interval
    ensures d == 0
  {
  }

  /** A new interval, long or short, takes effect at the wake that it causes: the grid goes on from the last
      point before the one that was waited for, in steps of the new interval, and the wait is no longer than
      that. */
  lemma NewInterval(interval: int, last: int, nextFire: int, now: int)
    requires interval > 0 && nextFire - last <= now < nextFire
    ensures var t := Turned(interval, last, nextFire, now);
            && !t.fired && 0 <= t.wait == t.nextFire - now <= interval
            && Follows(nextFire - last, t.nextFire, interval, now) && OnGrid(nextFire - last, interval, t.nextFire)
  {
    var anchor := nextFire - last;
    var next := anchor + interval;
    if next >= now {
      assert next == anchor + 1 * interval;
    } else {
      SkipBounds(now - next, interval);
      var k := (now - next) / interval + 1;
      assert next + k * interval == anchor + (k + 1) * interval;
    }
  }

  /** Without an interval the loop runs as fast as it can: no wait, and the time it goes by stands still, or
      steps back when it is woken early. */
  lemma NoInterval(last: int, nextFire: int, now: int)
    requires nextFire <= now || nextFire - last <= now
    ensures Turned(0, last, nextFire, now) ==
            if nextFire <= now then Turn(true, nextFire, 0) else Turn(false, nextFire - last, 0)
  {
  }

  /** A timer made without an interval and then started with one has a step back of 0: an early wake
      moves it past a fire that was still to come, and the wait is longer than the interval. */
  lemma FreshTimerJumps()
    ensures Turned(100, 0, 200, 150) == Turn(false, 300, 150)
  {
  }
}
