/** Which received arguments the parsers can take: one scan from left to right, with a stack of open
    brackets, tells how the three mutually recursive parsers will end. */
module TagBalance {
  import opened Packet
  import opened Values
  import opened ValueCodec

  /** What surrounds the next argument: a list (or the first level), a hash in front of a key, or a hash
      in front of a value. */
  datatype Frame = InList | AtKey | AtValue

  datatype Verdict = Parses(rest: seq<Argument>) | RunsOff | Hangs

  /** The frame behind the value that comes next. */
  function Behind(f: Frame): Frame {
    if f == AtValue then AtKey else f
  }

  /** Reads on; the last frame is the innermost, and the first is the first level. */
  function Scan(open: seq<Frame>, s: seq<Argument>): (v: Verdict)
    requires open != []
    decreases |s|
  {
    var outer, f := open[..|open| - 1], open[|open| - 1];
    if s == [] then
      if outer == [] && f != AtValue then Parses([]) else RunsOff
    else
      var tag := s[0].Tag();
      if f == InList && tag == HASH_END_TAG then Hangs
      else if (f == InList && tag == ARRAY_END_TAG) || (f != InList && tag == HASH_END_TAG) then
        if outer == [] then Parses(s) else Scan(outer, s[1..])
      else if f == AtValue && tag == ARRAY_END_TAG then RunsOff
      else if f == AtKey then
        if !s[0].Text? || s[0].tag != STRING_TAG then RunsOff
        else if PackedKey(s[0].text) && s[0].text[1] != LETTER_M then Scan(open, s[1..])
        else Scan(outer + [AtValue], s[1..])
      else if tag == ARRAY_START_TAG then Scan(outer + [Behind(f), InList], s[1..])
      else if tag == HASH_START_TAG then Scan(outer + [Behind(f), AtKey], s[1..])
      else Scan(outer + [Behind(f)], s[1..])
  }

  /* ---- how the parsers end ---- */

  /** How a parser ended, and what it left. */
  function Ended(r: Parse): Verdict {
    match r
    case Got(_, rest) => Parses(rest)
    case Undefined => RunsOff
    case NeverReturns => Hangs
  }

  function ValueEnds(s: seq<Argument>, current: Value): Verdict {
    Ended(ParseValue(s, current))
  }

  function ListEnds(s: seq<Argument>, self: Value, current: Value): Verdict {
    Ended(ParseArray(s, self, current))
  }

  function HashEnds(s: seq<Argument>, self: Value): Verdict {
    Ended(ParseHash(s, self))
  }

  /** What follows when the innermost bracket is closed, or the arguments end. */
  function Closed(outer: seq<Frame>, v: Verdict): Verdict {
    if !v.Parses? || outer == [] then v
    else if v.rest == [] then RunsOff
    else Scan(outer, v.rest[1..])
  }

  /** What follows behind a value. */
  function Onward(open: seq<Frame>, v: Verdict): Verdict
    requires open != []
  {
    if v.Parses? then Scan(open, v.rest) else v
  }

  predicate Closing(s: seq<Argument>) {
    s != [] && (s[0].Tag() == ARRAY_END_TAG || s[0].Tag() == HASH_END_TAG)
  }

  /* ---- one step of the parsers ---- */

  lemma ValueStep(s: seq<Argument>, current: Value)
    requires s != [] && !Closing(s)
    ensures ValueEnds(s, current).Parses? ==> |ValueEnds(s, current).rest| < |s|
    ensures s[0].Tag() != ARRAY_START_TAG && s[0].Tag() != HASH_START_TAG ==> ValueEnds(s, current) == Parses(s[1..])
  {
    hide ParseArray, ParseHash;
  }

  lemma BracketStep(s: seq<Argument>, current: Value, outer: seq<Frame>)
    requires s != [] && outer != []
    ensures s[0].Tag() == ARRAY_START_TAG ==>
              Onward(outer, ValueEnds(s, current)) == Closed(outer, ListEnds(s[1..], ListValue([]), EmptyValue))
    ensures s[0].Tag() == HASH_START_TAG ==>
              Onward(outer, ValueEnds(s, current)) == Closed(outer, HashEnds(s[1..], HashValue([])))
  {
    hide ParseArray, ParseHash, Scan;
  }

  lemma NoValue(s: seq<Argument>, current: Value)
    requires s == [] || Closing(s)
    ensures ValueEnds(s, current) == if s == [] then RunsOff else Parses(s)
  {
    hide ParseArray, ParseHash;
  }

  lemma ListStep(s: seq<Argument>, self: Value, current: Value) returns (self': Value, current': Value)
    ensures s == [] ==> ListEnds(s, self, current) == Parses([])
    ensures s != [] ==>
              var v := ValueEnds(s, current);
              ListEnds(s, self, current) ==
              if !v.Parses? || (v.rest != [] && v.rest[0].Tag() == ARRAY_END_TAG) then v
              else if |v.rest| < |s| then ListEnds(v.rest, self', current')
              else Hangs
  {
    hide ParseValue;
    var r := if s == [] then Undefined else ParseValue(s, current);
    self', current' := self, current;
    if r.Got? {
      self', current' := PushBack(self, r.value), r.value;
    }
  }

  predicate PassedOver(key: Key) {
    PackedKey(key) && key[1] != LETTER_M
  }

  predicate AtString(s: seq<Argument>) {
    s != [] && s[0].Text? && s[0].tag == STRING_TAG
  }

  lemma KeyStep(s: seq<Argument>, self: Value) returns (self': Value)
    ensures s == [] || s[0].Tag() == HASH_END_TAG ==> HashEnds(s, self) == Parses(s)
    ensures s != [] && s[0].Tag() != HASH_END_TAG && !AtString(s) ==> HashEnds(s, self) == RunsOff
    ensures AtString(s) ==>
              var v := ValueEnds(s[1..], EmptyValue);
              HashEnds(s, self) ==
              if PassedOver(s[0].text) then HashEnds(s[1..], self)
              else if v.Parses? then HashEnds(v.rest, self')
              else v
  {
    hide ParseValue, SetKey, Unpack;
    self' := self;
    if AtString(s) && !PassedOver(s[0].text) {
      var r := ParseValue(s[1..], EmptyValue);
      if r.Got? {
        self' := if PackedKey(s[0].text) then Unpack(r.value) else SetKey(self, s[0].text, r.value);
      }
    }
  }

  /* ---- one step of the scan ---- */

  lemma ScanStep(outer: seq<Frame>, f: Frame, s: seq<Argument>)
    ensures s == [] ==> Scan(outer + [f], s) == if outer == [] && f != AtValue then Parses([]) else RunsOff
    ensures Closing(s) ==>
              Scan(outer + [f], s) ==
              (if s[0].Tag() == (if f == InList then ARRAY_END_TAG else HASH_END_TAG) then Closed(outer, Parses(s))
               else if f == InList then Hangs
               else RunsOff)
  {
    var open := outer + [f];
    assert open[..|open| - 1] == outer && open[|open| - 1] == f;
  }

  lemma ScanKey(outer: seq<Frame>, s: seq<Argument>)
    requires s != [] && s[0].Tag() != HASH_END_TAG
    ensures Scan(outer + [AtKey], s) ==
            if !AtString(s) then RunsOff
            else if PassedOver(s[0].text) then Scan(outer + [AtKey], s[1..])
            else Scan(outer + [AtValue], s[1..])
  {
    var open := outer + [AtKey];
    assert open[..|open| - 1] == outer && open[|open| - 1] == AtKey;
  }

  lemma ScanValue(outer: seq<Frame>, f: Frame, s: seq<Argument>)
    requires f != AtKey && s != [] && !Closing(s)
    ensures Scan(outer + [f], s) ==
            if s[0].Tag() == ARRAY_START_TAG then Scan(outer + [Behind(f)] + [InList], s[1..])
            else if s[0].Tag() == HASH_START_TAG then Scan(outer + [Behind(f)] + [AtKey], s[1..])
            else Scan(outer + [Behind(f)], s[1..])
  {
    var open := outer + [f];
    assert open[..|open| - 1] == outer && open[|open| - 1] == f;
    assert outer + [Behind(f), InList] == outer + [Behind(f)] + [InList];
    assert outer + [Behind(f), AtKey] == outer + [Behind(f)] + [AtKey];
  }

  /* ---- parsers and scan, side by side ---- */

  /** A value inside the frame f; a closing bracket is no value and is left where it is. */
  lemma {:induction false} ValueScanned(outer: seq<Frame>, f: Frame, s: seq<Argument>, current: Value)
    requires f != AtKey && s != [] && !Closing(s)
    ensures Scan(outer + [f], s) == Onward(outer + [Behind(f)], ValueEnds(s, current))
    decreases |s|, 0
  {
    hide ValueEnds, ListEnds, HashEnds, Scan, Behind, Closed, Onward, Closing;
    var inner := outer + [Behind(f)];
    ScanValue(outer, f, s);
    if s[0].Tag() == ARRAY_START_TAG {
      BracketStep(s, current, inner);
      ListScanned(inner, s[1..], ListValue([]), EmptyValue);
    } else if s[0].Tag() == HASH_START_TAG {
      BracketStep(s, current, inner);
      HashScanned(inner, s[1..], HashValue([]));
    } else {
      ValueStep(s, current);
      OnwardParses(inner, s[1..]);
    }
  }

  lemma OnwardParses(open: seq<Frame>, s: seq<Argument>)
    requires open != []
    ensures Onward(open, Parses(s)) == Scan(open, s)
  {
  }

  lemma {:induction false} ListScanned(outer: seq<Frame>, s: seq<Argument>, self: Value, current: Value)
    ensures Scan(outer + [InList], s) == Closed(outer, ListEnds(s, self, current))
    decreases |s|, 1
  {
    hide ValueEnds, ListEnds, Scan;
    ScanStep(outer, InList, s);
    var self', current' := ListStep(s, self, current);
    if Closing(s) {
      NoValue(s, current);
    } else if s != [] {
      ValueStep(s, current);
      ValueScanned(outer, InList, s, current);
      var v := ValueEnds(s, current);
      if v.Parses? {
        if v.rest != [] && v.rest[0].Tag() == ARRAY_END_TAG {
          ScanStep(outer, InList, v.rest);
        } else {
          ListScanned(outer, v.rest, self', current');
        }
      }
    }
  }

  lemma {:induction false} HashScanned(outer: seq<Frame>, s: seq<Argument>, self: Value)
    ensures Scan(outer + [AtKey], s) == Closed(outer, HashEnds(s, self))
    decreases |s|, 1
  {
    hide ValueEnds, HashEnds, Scan, PassedOver;
    var self' := KeyStep(s, self);
    if s == [] || s[0].Tag() == HASH_END_TAG {
      ScanStep(outer, AtKey, s);
    } else {
      ScanKey(outer, s);
      if AtString(s) {
        if PassedOver(s[0].text) {
          HashScanned(outer, s[1..], self);
        } else {
          AfterKey(outer, s[1..], self');
        }
      }
    }
  }

  /** Behind a key: a value, or a bracket or the end where it is missing. */
  lemma {:induction false} AfterKey(outer: seq<Frame>, s: seq<Argument>, self': Value)
    ensures var v := ValueEnds(s, EmptyValue);
            Scan(outer + [AtValue], s) == if v.Parses? then Closed(outer, HashEnds(v.rest, self')) else v
    decreases |s|, 2
  {
    hide ValueEnds, HashEnds, Scan;
    if s == [] || Closing(s) {
      NoValue(s, EmptyValue);
      ScanStep(outer, AtValue, s);
      var _ := KeyStep(s, self');
    } else {
      ValueStep(s, EmptyValue);
      ValueScanned(outer, AtValue, s, EmptyValue);
      var v := ValueEnds(s, EmptyValue);
      if v.Parses? {
        HashScanned(outer, v.rest, self');
      }
    }
  }

  /** The whole message: the parsers find a value exactly when the scan gets through, never return exactly
      when it meets a closing brace inside a list or on the first level, and leave the tags otherwise. */
  lemma ParsesExactly(s: seq<Argument>)
    ensures Ended(ParseArray(s, EmptyValue, EmptyValue)) == Scan([InList], s)
  {
    hide ParseArray, Scan;
    ListScanned([], s, EmptyValue, EmptyValue);
    assert [] + [InList] == [InList];
  }
}
