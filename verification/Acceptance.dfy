/** Which messages are accepted, said of their bytes: where strings end, and how the arguments lie behind one
    another, by the letters of their tags. */
module Acceptance {
  import opened Wrappers
  import opened Bytes
  import opened Packet
  import opened ReceivedElements
  import opened PacketRoundTrip

  /** A string from p that fills whole words up to next: its last word is the first to end with NUL. A string
      that starts with NUL is one word. */
  predicate StringEnds(m: seq<Byte>, p: nat, next: nat) {
    && p + 4 <= next <= |m| && (next - p) % 4 == 0
    && if m[p] == 0 then next == p + 4 else
         m[next - 1] == 0 && forall j :: p + 3 <= j < next - 1 && (j - p) % 4 == 3 ==> m[j] != 0
  }

  /** An argument with this tag lies from a to next. */
  predicate Occupies(m: seq<Byte>, tag: Byte, a: nat, next: nat) {
    if tag in [84, 70, 78, 73, 42, 91, 93, 123, 125] then next == a // T F N I * [ ] { }
    else if tag in [105, 102, 99, 114, 109] then next == a + 4 <= |m| // i f c r m
    else if tag in [104, 116, 100] then next == a + 8 <= |m| // h t d
    else if tag in [115, 83] then StringEnds(m, a, next) // s S
    else tag == 98 && a + 4 <= |m| && (next - a) % 4 == 0 && a + 4 + ReadWord32(m, a) <= next < a + 8 + ReadWord32(m, a) // b
  }

  /** The arguments with these tags lie end to end, at these offsets. */
  predicate LaidOut(m: seq<Byte>, tags: seq<Byte>, a: nat, offsets: seq<nat>) {
    && |offsets| == |tags| + 1 && offsets[0] == a
    && forall k :: 0 <= k < |tags| ==> Occupies(m, tags[k], offsets[k], offsets[k + 1])
  }

  /** The type tags: the bytes from p to the first NUL. */
  predicate TagsAt(m: seq<Byte>, p: nat, tags: seq<Byte>) {
    p + |tags| < |m| && m[p..p + |tags|] == tags && 0 !in tags && m[p + |tags|] == 0
  }

  /** Behind a comma: no tags, or tags whose arguments lie behind them. */
  ghost predicate TagsFollow(m: seq<Byte>, begin: nat) {
    && begin + 1 < |m| && m[begin] == 44
    && (m[begin + 1] == 0 || exists a, tags, offsets :: Follows(m, begin, a, tags, offsets))
  }

  predicate Follows(m: seq<Byte>, begin: nat, a: nat, tags: seq<Byte>, offsets: seq<nat>) {
    StringEnds(m, begin, a) && TagsAt(m, begin + 1, tags) && LaidOut(m, tags, a, offsets)
  }

  /** A message: an address alone, or an address and tags. */
  ghost predicate WellFormed(m: seq<Byte>) {
    |m| % 4 == 0 && exists begin :: StringEnds(m, 0, begin) && (begin == |m| || TagsFollow(m, begin))
  }

  /* ---- strings ---- */

  lemma {:induction false} ScanIs(m: seq<Byte>, p: nat, q: nat)
    requires p + 3 <= q && (q - p) % 4 == 3
    requires forall j :: p + 3 <= j < q && j < |m| && (j - p) % 4 == 3 ==> m[j] != 0
    ensures match ScanNul(m, q)
            case Some(next) =>
              && p + 4 <= next <= |m| && (next - p) % 4 == 0 && m[next - 1] == 0
              && forall j :: p + 3 <= j < next - 1 && (j - p) % 4 == 3 ==> m[j] != 0
            case None => forall j :: p + 3 <= j < |m| && (j - p) % 4 == 3 ==> m[j] != 0
    decreases |m| - q
  {
    if q < |m| && m[q] != NUL {
      ScanIs(m, p, q + 4);
    }
  }

  lemma StringIs(m: seq<Byte>, p: nat, next: nat)
    requires |m| % 4 == 0 && p % 4 == 0
    ensures Str4End(m, p) == Some(next) <==> StringEnds(m, p, next)
    ensures Str4End(m, p) == Some(next) ==> next % 4 == 0
  {
    hide ScanNul;
    ScanIs(m, p, p + 3);
    if ScanNul(m, p + 3).Some? {
      var e := ScanNul(m, p + 3).value;
      assert (e - 1 - p) % 4 == 3;
    }
    if StringEnds(m, p, next) {
      assert (next - 1 - p) % 4 == 3;
    }
  }

  lemma TagsAre(m: seq<Byte>, p: nat, tags: seq<Byte>)
    requires p <= |m| && p + |CString(m, p)| < |m|
    ensures TagsAt(m, p, tags) <==> tags == CString(m, p)
  {
    if TagsAt(m, p, tags) {
      CStringReads(m, p, tags);
    }
    CStringLies(m, p);
  }

  lemma {:induction false} CStringLies(m: seq<Byte>, p: nat)
    requires p <= |m|
    ensures p + |CString(m, p)| <= |m| && m[p..p + |CString(m, p)|] == CString(m, p)
    ensures p + |CString(m, p)| < |m| ==> m[p + |CString(m, p)|] == NUL
    decreases |m| - p
  {
    if p < |m| && m[p] != NUL {
      CStringLies(m, p + 1);
    }
  }

  /* ---- arguments ---- */

  lemma StepIs(m: seq<Byte>, tag: Byte, a: nat, next: nat)
    requires |m| % 4 == 0 && a % 4 == 0
    ensures CheckStep(m, tag, a) == At(next) <==> Occupies(m, tag, a, next)
    ensures CheckStep(m, tag, a) == At(next) ==> next % 4 == 0
  {
    hide Str4End, ReadWord32, RoundUp4;
    if tag == 115 || tag == 83 {
      StringIs(m, a, next);
    } else if tag == 98 && a + 4 <= |m| {
      RoundUpOnly(a + 4, ReadWord32(m, a), next);
    }
  }

  lemma RoundUpOnly(a: nat, n: nat, next: nat)
    requires a % 4 == 0
    ensures next == a + RoundUp4(n) <==> (next - a) % 4 == 0 && a + n <= next < a + n + 4
  {
  }

  lemma {:induction false} CheckIs(m: seq<Byte>, tags: seq<Byte>, a: nat)
    requires |m| % 4 == 0 && a % 4 == 0
    ensures Check(m, tags, a).At? <==> exists offsets :: LaidOut(m, tags, a, offsets)
    decreases |tags|
  {
    hide CheckStep, Occupies;
    if tags == [] {
      assert LaidOut(m, tags, a, [a]);
    } else {
      if Check(m, tags, a).At? {
        var next := CheckStep(m, tags[0], a).next;
        StepIs(m, tags[0], a, next);
        CheckIs(m, tags[1..], next);
        var rest :| LaidOut(m, tags[1..], next, rest);
        LaidFirst(m, tags, a, next, rest);
      }
      if offsets :| LaidOut(m, tags, a, offsets) {
        var next := offsets[1];
        StepIs(m, tags[0], a, next);
        LaidRest(m, tags, a, offsets);
        CheckIs(m, tags[1..], next);
      }
    }
  }

  lemma LaidFirst(m: seq<Byte>, tags: seq<Byte>, a: nat, next: nat, rest: seq<nat>)
    requires tags != [] && Occupies(m, tags[0], a, next) && LaidOut(m, tags[1..], next, rest)
    ensures LaidOut(m, tags, a, [a] + rest)
  {
    hide Occupies;
    var offsets := [a] + rest;
    forall k | 0 <= k < |tags|
      ensures Occupies(m, tags[k], offsets[k], offsets[k + 1])
    {
      if k > 0 {
        assert tags[k] == tags[1..][k - 1] && offsets[k] == rest[k - 1] && offsets[k + 1] == rest[k];
      }
    }
  }

  lemma LaidRest(m: seq<Byte>, tags: seq<Byte>, a: nat, offsets: seq<nat>)
    requires tags != [] && LaidOut(m, tags, a, offsets)
    ensures Occupies(m, tags[0], a, offsets[1]) && LaidOut(m, tags[1..], offsets[1], offsets[1..])
  {
    hide Occupies;
    forall k | 0 <= k < |tags| - 1
      ensures Occupies(m, tags[1..][k], offsets[1..][k], offsets[1..][k + 1])
    {
      assert Occupies(m, tags[k + 1], offsets[k + 1], offsets[k + 1 + 1]);
    }
  }

  /* ---- messages ---- */

  lemma TagsFollowIs(m: seq<Byte>, begin: nat)
    requires |m| % 4 == 0 && begin % 4 == 0 && begin < |m|
    ensures TagsFollow(m, begin) <==>
              m[begin] == COMMA &&
              (m[begin + 1] == NUL ||
               (Str4End(m, begin).Some? && Check(m, CString(m, begin + 1), Str4End(m, begin).value).At?))
  {
    hide Str4End, Check, LaidOut, StringEnds, TagsAt, CString;
    if m[begin] != COMMA {
      return;
    }
    if a, tags, offsets :| Follows(m, begin, a, tags, offsets) {
      StringIs(m, begin, a);
      TagsInside(m, begin, a);
      TagsAre(m, begin + 1, tags);
      CheckIs(m, tags, a);
    }
    if Str4End(m, begin).Some? {
      var a, tags := Str4End(m, begin).value, CString(m, begin + 1);
      StringIs(m, begin, a);
      TagsInside(m, begin, a);
      TagsAre(m, begin + 1, tags);
      CheckIs(m, tags, a);
      if offsets :| LaidOut(m, tags, a, offsets) {
        assert Follows(m, begin, a, tags, offsets);
      }
    }
  }

  /** The string behind the comma ends inside the message. */
  lemma TagsInside(m: seq<Byte>, begin: nat, a: nat)
    requires StringEnds(m, begin, a)
    ensures begin + 1 <= |m| && (m[begin] != 0 ==> begin + 1 + |CString(m, begin + 1)| < |m|)
  {
    hide CString;
    if m[begin] != 0 {
      NulAhead(m, begin + 1, a - 1);
    }
  }

  lemma {:induction false} NulAhead(m: seq<Byte>, p: nat, q: nat)
    requires p <= q < |m| && m[q] == NUL
    ensures p + |CString(m, p)| <= q
    decreases q - p
  {
    if p < q && m[p] != NUL {
      NulAhead(m, p + 1, q);
    }
  }

  /** Exactly the well-formed messages are accepted; where blobs keep their size words inside, all others are
      malformed. */
  lemma AcceptedExactly(m: seq<Byte>)
    ensures Validate(m).Accepted? <==> WellFormed(m)
  {
    hide Str4End, Check, TagsFollow, StringEnds, CString;
    if |m| > 0 && |m| % 4 == 0 {
      if Str4End(m, 0).Some? {
        var begin := Str4End(m, 0).value;
        StringIs(m, 0, begin);
        Str4EndBounds(m, 0);
        if begin < |m| {
          TagsFollowIs(m, begin);
        }
      }
      forall begin: nat | StringEnds(m, 0, begin)
        ensures Str4End(m, 0) == Some(begin)
      {
        StringIs(m, 0, begin);
      }
    } else if m == [] {
      NoStringInNothing(m);
    }
  }

  /** What is kept of an accepted message: nothing, or where its tags begin and end, and where its arguments
      begin. */
  lemma KeptExactly(m: seq<Byte>, b: nat, e: nat, a: nat)
    ensures Validate(m) == Accepted(TypeTags(b, e, a)) <==>
              && WellFormed(m) && 0 < b < e < |m|
              && StringEnds(m, 0, b - 1) && StringEnds(m, b - 1, a) && TagsAt(m, b, m[b..e])
  {
    hide Str4End, Check, StringEnds, CString, WellFormed, TagsAt;
    AcceptedExactly(m);
    if |m| % 4 == 0 && 0 < b < e < |m| {
      StringIs(m, 0, b - 1);
      if Str4End(m, 0) == Some(b - 1) {
        StringIs(m, b - 1, a);
        if m[b - 1] == COMMA && StringEnds(m, b - 1, a) {
          TagsKept(m, b, e, a);
        }
      }
    } else {
      KeptInside(m);
    }
  }

  lemma KeptInside(m: seq<Byte>)
    ensures Validate(m).Accepted? && Validate(m).view.TypeTags? ==> 0 < Validate(m).view.begin < Validate(m).view.end < |m|
  {
    hide Str4End, Check, StringEnds, CString;
    if |m| > 0 && |m| % 4 == 0 && Str4End(m, 0).Some? {
      var begin := Str4End(m, 0).value;
      StringIs(m, 0, begin);
      Str4EndBounds(m, 0);
      if begin < |m| && Str4End(m, begin).Some? {
        StringIs(m, begin, Str4End(m, begin).value);
        TagsInside(m, begin, Str4End(m, begin).value);
        if m[begin + 1] != NUL {
          TagsStart(m, begin + 1);
        }
      }
    }
  }

  lemma TagsStart(m: seq<Byte>, p: nat)
    requires p < |m| && m[p] != NUL
    ensures CString(m, p) != []
  {
  }


  lemma TagsKept(m: seq<Byte>, b: nat, e: nat, a: nat)
    requires |m| % 4 == 0 && 0 < b < e < |m| && m[b - 1] == COMMA && StringEnds(m, b - 1, a)
    ensures TagsAt(m, b, m[b..e]) <==> m[b] != NUL && e == b + |CString(m, b)|
  {
    hide StringEnds, CString;
    TagsInside(m, b - 1, a);
    TagsAre(m, b, m[b..e]);
    CStringLies(m, b);
    assert m[b..e][0] == m[b];
  }

  lemma NoStringInNothing(m: seq<Byte>)
    requires m == []
    ensures forall begin: nat :: !StringEnds(m, 0, begin)
  {
  }

  /** An address alone is a message. */
  lemma AddressAlone(address: seq<Byte>)
    requires NulFree(address)
    ensures Validate(OscString(address)) == Accepted(NoTypeTags)
  {
    hide OscString, Str4End, CString;
    var m := OscString(address);
    assert m[0..|m|] == m;
    OscStringReads(m, 0, address);
  }
}
