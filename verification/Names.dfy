/** Names in a tree: how a name that is taken is changed, and how names make up urls. */
module Names {
  import opened Wrappers
  import opened Bytes

  type Name = seq<Byte>

  const SLASH: Byte := 47  // '/'
  const HYPHEN: Byte := 45 // '-'
  const PLUS: Byte := 43   // '+'
  const ZERO: Byte := 48   // '0'

  /* ---- searching a name ---- */

  /** std::string::find: the first position of c, or the length for npos. */
  function IndexOf(s: seq<Byte>, c: Byte): (i: nat)
    ensures i <= |s| && (forall j :: 0 <= j < i ==> s[j] != c) && (i < |s| ==> s[i] == c)
  {
    if s == [] || s[0] == c then 0 else IndexOf(s[1..], c) + 1
  }

  /** std::string::rfind: the last position of c, or -1 for npos. */
  function LastIndexOf(s: seq<Byte>, c: Byte): (i: int)
    ensures -1 <= i < |s| && (forall j :: i < j < |s| ==> s[j] != c) && (i >= 0 ==> s[i] == c)
    decreases |s|
  {
    if s == [] then -1
    else if s[|s| - 1] == c then |s| - 1
    else LastIndexOf(s[..|s| - 1], c)
  }

  /** What has no c in it does not move the last position of c. */
  lemma {:induction false} LastBefore(s: seq<Byte>, c: Byte, n: seq<Byte>)
    requires c !in n
    ensures LastIndexOf(s + n, c) == LastIndexOf(s, c)
    decreases |n|
  {
    if n == [] {
      assert s + n == s;
    } else {
      var last := |n| - 1;
      assert (s + n)[..|s + n| - 1] == s + n[..last] && (s + n)[|s + n| - 1] == n[last];
      LastBefore(s, c, n[..last]);
    }
  }

  /** A url of one name more is split in front of that name. */
  lemma LastName(p: seq<Byte>, n: Name)
    requires SLASH !in n
    ensures LastIndexOf(p + [SLASH] + n, SLASH) == |p|
    ensures (p + [SLASH] + n)[..|p|] == p && (p + [SLASH] + n)[|p| + 1..] == n
  {
    LastBefore(p + [SLASH], SLASH, n);
  }

  /** The part before the last slash and the part behind it join up to the string again. */
  lemma {:induction false} SplitUnique(p: seq<Byte>, n: Name, q: seq<Byte>, m: Name)
    requires SLASH !in n && SLASH !in m && p + [SLASH] + n == q + [SLASH] + m
    ensures p == q && n == m
  {
    LastName(p, n);
    LastName(q, m);
  }

  /* ---- numbers in names ---- */

  predicate IsDigit(c: Byte) {
    ZERO <= c <= ZERO + 9
  }

  predicate IsSpace(c: Byte) {
    c == 32 || 9 <= c <= 13
  }

  function Digits(s: seq<Byte>, n: nat): nat
    decreases |s|
  {
    if s == [] || !IsDigit(s[0]) then n else Digits(s[1..], 10 * n + s[0] - ZERO)
  }

  /** atoi, for numbers that fit an int. */
  function Atoi(s: seq<Byte>): int
    decreases |s|
  {
    if s == [] then 0
    else if IsSpace(s[0]) then Atoi(s[1..])
    else if s[0] == HYPHEN then 0 - Digits(s[1..], 0)
    else if s[0] == PLUS then Digits(s[1..], 0)
    else Digits(s, 0)
  }

  function Decimal(n: nat): (s: seq<Byte>)
    ensures s != [] && forall i :: 0 <= i < |s| ==> IsDigit(s[i])
  {
    (if n < 10 then [] else Decimal(n / 10)) + [ZERO + n % 10]
  }

  /** What %i prints. */
  function Printed(n: int): (s: seq<Byte>)
    ensures SLASH !in s
    ensures n >= 0 ==> HYPHEN !in s
  {
    if n < 0 then [HYPHEN] + Decimal(-n) else Decimal(n)
  }

  /* ---- find_next_name ---- */

  /** find_next_name. It cuts the name one character before its first hyphen; a name that starts with
      one is kept whole, because 0 - 1 is the largest size. */
  function NextName(name: Name): Name {
    var pos := IndexOf(name, HYPHEN);
    if pos == |name| then name + [HYPHEN, ZERO + 1]
    else
      var base := if pos == 0 then name else name[..pos - 1];
      base + Printed(Atoi(name[pos + 1..]) + 1)
  }

  lemma NextNameSlashFree(name: Name)
    requires SLASH !in name
    ensures SLASH !in NextName(name)
  {
  }

  function Renamed(name: Name, times: nat): Name {
    if times == 0 then name else NextName(Renamed(name, times - 1))
  }

  lemma RenamedNever(name: Name)
    ensures Renamed(name, 0) == name
  {
  }

  lemma RenamedOnce(name: Name, times: nat)
    ensures Renamed(name, times + 1) == NextName(Renamed(name, times))
  {
  }

  lemma {:induction false} RenamedSlashFree(name: Name, times: nat)
    requires SLASH !in name
    ensures SLASH !in Renamed(name, times)
  {
    hide NextName;
    if times > 0 {
      RenamedSlashFree(name, times - 1);
      NextNameSlashFree(Renamed(name, times - 1));
    }
  }

  /** "c-1" for a name c without hyphen: the cut takes the last character of c away. */
  lemma AfterOne(c: Name)
    requires c != [] && HYPHEN !in c
    ensures NextName(c) == c + [HYPHEN, ZERO + 1]
    ensures NextName(c + [HYPHEN, ZERO + 1]) == c[..|c| - 1] + [ZERO + 2]
  {
    hide IndexOf, Atoi, Printed;
    var s := c + [HYPHEN, ZERO + 1];
    assert IndexOf(c, HYPHEN) == |c|;
    HyphenAt(c, [ZERO + 1]);
    assert s == c + [HYPHEN] + [ZERO + 1];
    assert s[..|c| - 1] == c[..|c| - 1] && s[|c| + 1..] == [ZERO + 1];
    OneAndTwo();
  }

  lemma HyphenAt(c: Name, rest: Name)
    requires HYPHEN !in c
    ensures IndexOf(c + [HYPHEN] + rest, HYPHEN) == |c|
  {
    var s := c + [HYPHEN] + rest;
    assert s[|c|] == HYPHEN;
    forall j | 0 <= j < |c|
      ensures s[j] != HYPHEN
    {
      assert s[j] == c[j];
    }
  }

  lemma OneAndTwo()
    ensures Atoi([ZERO + 1]) == 1 && Printed(2) == [ZERO + 2]
  {
    assert Atoi([ZERO + 1]) == Digits([ZERO + 1], 0) == Digits([ZERO + 1][1..], 1) == 1;
    assert Decimal(2) == [] + [ZERO + 2];
  }

  /** All names that a name without hyphen can ever be given: itself, with "-1", with its last character
      replaced by "2", and that with "-1". From the third on they repeat. */
  function Candidates(name: Name): set<Name>
    requires name != []
  {
    var two := name[..|name| - 1] + [ZERO + 2];
    {name, name + [HYPHEN, ZERO + 1], two, two + [HYPHEN, ZERO + 1]}
  }

  lemma {:induction false} RenamedStays(name: Name, times: nat)
    requires name != [] && HYPHEN !in name
    ensures Renamed(name, times) in Candidates(name)
  {
    hide NextName;
    if times >= 1 {
      RenamedStays(name, times - 1);
      NextOfCandidates(name);
    }
  }

  lemma NextOfCandidates(name: Name)
    requires name != [] && HYPHEN !in name
    ensures var one, two := [HYPHEN, ZERO + 1], name[..|name| - 1] + [ZERO + 2];
            && NextName(name) == name + one && NextName(name + one) == two
            && NextName(two) == two + one && NextName(two + one) == two
  {
    hide NextName;
    var two := name[..|name| - 1] + [ZERO + 2];
    AfterOne(name);
    AfterOne(two);
    assert two[..|two| - 1] + [ZERO + 2] == two;
  }

  lemma Visited(name: Name)
    requires name != [] && HYPHEN !in name
    ensures Candidates(name) == {Renamed(name, 0), Renamed(name, 1), Renamed(name, 2), Renamed(name, 3)}
  {
    hide NextName;
    NextOfCandidates(name);
    assert Renamed(name, 1) == NextName(Renamed(name, 0));
    assert Renamed(name, 2) == NextName(Renamed(name, 1));
    assert Renamed(name, 3) == NextName(Renamed(name, 2));
  }

  /** Every name that the rename loop can come to. None: it never comes to the same name twice, because
      a name that starts with a hyphen only grows. */
  function Visits(name: Name): Option<set<Name>>
    decreases if HYPHEN in name then IndexOf(name, HYPHEN) + 1 else 0
  {
    if name == [] || name[0] == HYPHEN then None
    else if HYPHEN !in name then Some(Candidates(name))
    else
      CutBeforeHyphen(name);
      match Visits(NextName(name))
      case None => None
      case Some(names) => Some({name} + names)
  }

  /** A hyphen behind the first character moves towards the front, or vanishes. */
  lemma CutBeforeHyphen(name: Name)
    requires HYPHEN in name && name[0] != HYPHEN
    ensures HYPHEN in NextName(name) ==> IndexOf(NextName(name), HYPHEN) < IndexOf(name, HYPHEN)
  {
    var pos, next := IndexOf(name, HYPHEN), NextName(name);
    var number := Printed(Atoi(name[pos + 1..]) + 1);
    assert next == name[..pos - 1] + number;
    if HYPHEN !in number {
      assert HYPHEN !in name[..pos - 1];
    } else {
      assert next[pos - 1] == number[0] == HYPHEN;
    }
  }

  lemma {:induction false} RenamedNext(name: Name, times: nat)
    ensures Renamed(NextName(name), times) == Renamed(name, times + 1)
  {
    hide NextName;
    if times > 0 {
      RenamedNext(name, times - 1);
    }
  }

  /** A name that starts with a hyphen grows for ever. */
  lemma {:induction false} Grows(name: Name, times: nat)
    requires name != [] && name[0] == HYPHEN
    ensures |Renamed(name, times)| >= |name| + times
    ensures Renamed(name, times) != [] && Renamed(name, times)[0] == HYPHEN
  {
    hide NextName;
    if times > 0 {
      Grows(name, times - 1);
      GrowsOnce(Renamed(name, times - 1));
    }
  }

  lemma GrowsOnce(name: Name)
    requires name != [] && name[0] == HYPHEN
    ensures |NextName(name)| > |name| && NextName(name)[0] == HYPHEN
  {
    hide Atoi, Printed;
    assert IndexOf(name, HYPHEN) == 0;
    assert Printed(Atoi(name[1..]) + 1) != [] by {
      PrintedSomething(Atoi(name[1..]) + 1);
    }
  }

  lemma PrintedSomething(n: int)
    ensures Printed(n) != []
  {
  }

  lemma {:induction false} LengthBound(names: set<Name>) returns (bound: nat)
    ensures forall n :: n in names ==> |n| < bound
  {
    bound := 0;
    if names != {} {
      var n :| n in names;
      bound := LengthBound(names - {n});
      bound := if |n| < bound then bound else |n| + 1;
    }
  }

  /** Growing names leave every finite set. */
  lemma GrowsFree(name: Name, taken: set<Name>) returns (times: nat)
    requires name != [] && name[0] == HYPHEN
    ensures Renamed(name, times) !in taken
  {
    times := LengthBound(taken);
    Grows(name, times);
  }

  lemma FreeLater(name: Name, times: nat, taken: set<Name>)
    requires Renamed(NextName(name), times) !in taken
    ensures exists t: nat :: Renamed(name, t) !in taken
  {
    RenamedNext(name, times);
  }

  lemma FreeNow(name: Name, taken: set<Name>)
    requires name !in taken
    ensures exists t: nat :: Renamed(name, t) !in taken
  {
    assert Renamed(name, 0) == name;
  }

  /** The rename loop ends, for any name, exactly when one of the names it can come to is free, or when
      there is no end to them. */
  lemma {:induction false} LoopEnds(name: Name, taken: set<Name>)
    ensures (exists times: nat :: Renamed(name, times) !in taken) <==> Visits(name) == None || !(Visits(name).value <= taken)
    decreases if HYPHEN in name then IndexOf(name, HYPHEN) + 1 else 0
  {
    hide NextName, Renamed, Candidates;
    if name == [] {
      EmptyName();
      var times := GrowsFree(NextName(name), taken);
      FreeLater(name, times, taken);
    } else if name[0] == HYPHEN {
      var times := GrowsFree(name, taken);
    } else if HYPHEN !in name {
      PlainLoopEnds(name, taken);
    } else {
      CutBeforeHyphen(name);
      LoopEnds(NextName(name), taken);
      OneMore(name, taken);
    }
  }

  lemma EmptyName()
    ensures NextName([]) == [HYPHEN, ZERO + 1]
  {
  }

  /** A free name is the name itself, or free for the next name. */
  lemma OneMore(name: Name, taken: set<Name>)
    ensures (exists times: nat :: Renamed(name, times) !in taken) <==>
              name !in taken || exists times: nat :: Renamed(NextName(name), times) !in taken
  {
    hide NextName;
    if times: nat :| Renamed(NextName(name), times) !in taken {
      FreeLater(name, times, taken);
    }
    if name !in taken {
      FreeNow(name, taken);
    }
    if times: nat :| Renamed(name, times) !in taken {
      if times > 0 {
        RenamedNext(name, times - 1);
      } else {
        assert Renamed(name, 0) == name;
      }
    }
  }

  /** A name without hyphen: one of its four candidates must be free. */
  lemma PlainLoopEnds(name: Name, taken: set<Name>)
    requires name != [] && HYPHEN !in name
    ensures (exists times: nat :: Renamed(name, times) !in taken) <==> !(Candidates(name) <= taken)
  {
    hide NextName, Renamed, Candidates;
    Visited(name);
    forall times: nat
      ensures Renamed(name, times) in Candidates(name)
    {
      RenamedStays(name, times);
    }
  }

  /* ---- numbers in names ---- */

  /** The number that a string of decimal digits stands for. */
  function NumberOf(s: seq<Byte>): int {
    if s == [] then 0 else
      var last: int := s[|s| - 1];
      10 * NumberOf(s[..|s| - 1]) + (last - 48)
  }

  lemma {:induction false} DecimalIs(n: nat)
    ensures NumberOf(Decimal(n)) == n
    ensures |Decimal(n)| > 1 ==> Decimal(n)[0] != 48
  {
    if n < 10 {
      assert Decimal(n) == [48 + n];
      assert NumberOf([]) == 0;
    } else {
      DecimalIs(n / 10);
      var s, head := Decimal(n), Decimal(n / 10);
      assert s == head + [48 + n % 10] && s[..|s| - 1] == head;
      if |head| == 1 {
        assert NumberOf(head) == 10 * NumberOf([]) + (head[0] - 48);
      }
    }
  }

  lemma {:induction false} DigitsAre(s: seq<Byte>, n: nat)
    requires forall i :: 0 <= i < |s| ==> 48 <= s[i] <= 57
    ensures Digits(s, n) == Scaled(n, |s|) + NumberOf(s)
    decreases |s|
  {
    if s != [] {
      var d := 10 * n + s[0] - ZERO;
      DigitsAre(s[1..], d);
      FirstDigit(s, s[0], n);
    }
  }

  /** n with so many zeros behind it. */
  function Scaled(n: int, zeros: nat): int
    decreases zeros
  {
    if zeros == 0 then n else Scaled(10 * n, zeros - 1)
  }

  lemma {:induction false} ScaledStep(n: int, zeros: nat)
    ensures Scaled(n, zeros + 1) == 10 * Scaled(n, zeros)
    decreases zeros
  {
    if zeros > 0 {
      ScaledStep(10 * n, zeros - 1);
    }
  }

  lemma {:induction false} FirstDigit(s: seq<Byte>, first: int, n: int)
    requires s != [] && s[0] == first
    ensures Scaled(10 * n + (first - 48), |s| - 1) + NumberOf(s[1..]) == Scaled(n, |s|) + NumberOf(s)
    decreases |s|
  {
    if |s| == 1 {
      assert NumberOf(s) == 10 * NumberOf([]) + (first - 48);
    } else {
      var front, last: int := s[..|s| - 1], s[|s| - 1];
      FirstDigit(front, first, n);
      assert front[1..] == s[1..][..|s| - 2];
      ScaledStep(10 * n + (first - 48), |s| - 2);
      ScaledStep(n, |s| - 1);
    }
  }

  /** The next name of "c-n", with anything but digits behind it and even more hyphens: c without its last
      character, and the decimal of n + 1. */
  lemma AfterNumber(c: Name, digits: seq<Byte>, rest: seq<Byte>, n: nat, next: seq<Byte>)
    requires c != [] && HYPHEN !in c && digits != [] && forall i :: 0 <= i < |digits| ==> 48 <= digits[i] <= 57
    requires rest == [] || rest[0] < 48 || rest[0] > 57
    requires NumberOf(digits) == n
    requires next == Decimal(n + 1)
    ensures NextName(c + [45] + (digits + rest)) == c[..|c| - 1] + next
    ensures NumberOf(next) == n + 1 && (forall i :: 0 <= i < |next| ==> 48 <= next[i] <= 57) && (|next| > 1 ==> next[0] != 48)
  {
    hide IndexOf, Digits, Decimal, NumberOf, Atoi;
    var tail := digits + rest;
    var name := c + [45] + tail;
    HyphenAt(c, tail);
    assert name[..|c| - 1] == c[..|c| - 1] && name[|c| + 1..] == tail;
    SignsAndSpaces(digits, rest);
    DecimalIs(n + 1);
  }

  /** A name that starts with a hyphen is kept whole. */
  lemma AfterLeading(digits: seq<Byte>, rest: seq<Byte>, n: nat)
    requires digits != [] && forall i :: 0 <= i < |digits| ==> 48 <= digits[i] <= 57
    requires rest == [] || rest[0] < 48 || rest[0] > 57
    requires NumberOf(digits) == n
    ensures NextName([45] + (digits + rest)) == [45] + (digits + rest) + Decimal(n + 1)
  {
    hide Digits, Decimal, NumberOf, Atoi;
    assert ([45] + (digits + rest))[1..] == digits + rest;
    SignsAndSpaces(digits, rest);
  }

  lemma {:induction false} ScaledZero(zeros: nat)
    ensures Scaled(0, zeros) == 0
  {
    if zeros > 0 {
      ScaledZero(zeros - 1);
    }
  }

  /** atoi: spaces in front are passed over, one sign counts, and what is no digit ends the number. */
  lemma SignsAndSpaces(digits: seq<Byte>, rest: seq<Byte>)
    requires digits != [] && forall i :: 0 <= i < |digits| ==> 48 <= digits[i] <= 57
    requires rest == [] || rest[0] < 48 || rest[0] > 57
    ensures Atoi(digits + rest) == NumberOf(digits)
    ensures Atoi([45] + (digits + rest)) == -NumberOf(digits)
    ensures Atoi([43] + (digits + rest)) == NumberOf(digits)
    ensures Atoi([32] + (digits + rest)) == NumberOf(digits)
    ensures Atoi(rest) == 0 || rest[0] in [9, 10, 11, 12, 13, 32, 43, 45]
  {
    hide NumberOf, Scaled;
    DigitsEnd(digits, rest, 0);
    DigitsAre(digits, 0);
    ScaledZero(|digits|);
    var s := digits + rest;
    assert s[0] == digits[0];
    assert ([45] + s)[1..] == s && ([43] + s)[1..] == s && ([32] + s)[1..] == s;
  }

  lemma {:induction false} DigitsEnd(digits: seq<Byte>, rest: seq<Byte>, n: nat)
    requires forall i :: 0 <= i < |digits| ==> 48 <= digits[i] <= 57
    requires rest == [] || rest[0] < 48 || rest[0] > 57
    ensures Digits(digits + rest, n) == Digits(digits, n)
    decreases |digits|
  {
    if digits == [] {
      assert digits + rest == rest;
    } else {
      assert (digits + rest)[1..] == digits[1..] + rest;
      DigitsEnd(digits[1..], rest, 10 * n + digits[0] - ZERO);
    }
  }
}
