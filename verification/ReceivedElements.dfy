/** The packet reader: one validating pass over a message or bundle, and the unchecked code that
    walks it afterwards. A message or bundle is a byte string; pointers are offsets into it. */
module ReceivedElements {
  import opened Wrappers
  import opened Bytes
  import opened Packet

  /* ---- strings that end on a 4-byte boundary ---- */

  /** Looks at q, q + 4, ... for a NUL and returns the offset behind it. */
  function ScanNul(m: seq<Byte>, q: nat): (r: Option<nat>)
    ensures r.Some? ==> q < r.value <= |m| && (r.value - q - 1) % 4 == 0
    decreases |m| - q
  {
    if q >= |m| then None else if m[q] == NUL then Some(q + 1) else ScanNul(m, q + 4)
  }

  /** The first 4-byte boundary after the string at p, None when the message ends before it does. */
  function Str4End(m: seq<Byte>, p: nat): Option<nat>
  {
    if p >= |m| then None
    else if m[p] == NUL then Some(p + 4) // an integer address pattern
    else ScanNul(m, p + 3)
  }

  lemma Str4EndBounds(m: seq<Byte>, p: nat)
    requires |m| % 4 == 0 && p % 4 == 0 && Str4End(m, p).Some?
    ensures p < Str4End(m, p).value <= |m| && Str4End(m, p).value % 4 == 0
  {
    hide ScanNul;
  }

  /** The checked version: reads only inside the message and answers None instead of a null pointer. */
  method FindStr4EndChecked(m: seq<Byte>, p: nat) returns (r: Option<nat>)
    requires |m| % 4 == 0 && (p < |m| ==> p % 4 == 0)
    ensures r == Str4End(m, p)
  {
    if p >= |m| {
      return None;
    }
    if m[p] == NUL {
      return Some(p + 4);
    }
    var q := p + 3;
    var last := |m| - 1;
    while q < last && m[q] != NUL
      invariant q <= last && (last - q) % 4 == 0
      invariant ScanNul(m, q) == ScanNul(m, p + 3)
    {
      q := q + 4;
    }
    if m[q] != NUL {
      r := None;
    } else {
      r := Some(q + 1);
    }
  }

  /** The unchecked version: on a string that validated it stops, inside the message, where the
      checked version stopped. */
  method FindStr4End(m: seq<Byte>, p: nat) returns (r: nat)
    requires Str4End(m, p).Some?
    ensures r == Str4End(m, p).value
  {
    if m[p] == NUL {
      return p + 4;
    }
    var q := p + 3;
    while m[q] != NUL
      invariant ScanNul(m, q) == ScanNul(m, p + 3) && ScanNul(m, q).Some?
      decreases |m| - q
    {
      q := q + 4;
    }
    r := q + 1;
  }

  /* ---- one argument ---- */

  /** Where the argument after this one starts, or why the code does not get there: it rejects the
      message, or it would read a byte outside of it. */
  datatype Step = At(next: nat) | Reject | Outside

  /** The switch of the validating loop. The two size tests for a blob have no effect: they build
      an exception and do not throw it. */
  function CheckStep(m: seq<Byte>, tag: Byte, a: nat): Step {
    match WidthOf(tag)
    case NoBytes => At(a)
    case FourBytes => if a + 4 > |m| then Reject else At(a + 4)
    case EightBytes => if a + 8 > |m| then Reject else At(a + 8)
    case StringBytes =>
      (match Str4End(m, a)
       case None => Reject
       case Some(end) => At(end))
    case BlobBytes => if a + 4 > |m| then Outside else At(a + 4 + RoundUp4(ReadWord32(m, a)))
    case Unknown => Reject
  }

  /** The switch of the unchecked Advance. */
  function SkipStep(m: seq<Byte>, tag: Byte, a: nat): Step {
    match WidthOf(tag)
    case NoBytes => At(a)
    case FourBytes => At(a + 4)
    case EightBytes => At(a + 8)
    case StringBytes =>
      (match Str4End(m, a)
       case None => Outside
       case Some(end) => At(end))
    case BlobBytes => if a + 4 > |m| then Outside else At(a + 4 + RoundUp4(ReadWord32(m, a)))
    case Unknown => Reject
  }

  function Check(m: seq<Byte>, tags: seq<Byte>, a: nat): Step
    decreases |tags|
  {
    if tags == [] then At(a) else
      match CheckStep(m, tags[0], a)
      case At(next) => Check(m, tags[1..], next)
      case stop => stop
  }

  function Skip(m: seq<Byte>, tags: seq<Byte>, a: nat): Step
    decreases |tags|
  {
    if tags == [] then At(a) else
      match SkipStep(m, tags[0], a)
      case At(next) => Skip(m, tags[1..], next)
      case stop => stop
  }

  /* ---- messages ---- */

  datatype View = NoTypeTags | TypeTags(begin: nat, end: nat, arguments: nat)

  datatype InitResult = Accepted(view: View) | Malformed | ReadsOutside

  /** What ReceivedMessage::Init makes of a byte string. */
  function Validate(m: seq<Byte>): InitResult {
    if |m| == 0 || |m| % 4 != 0 then Malformed
    else match Str4End(m, 0)
      case None => Malformed
      case Some(begin) =>
        if begin == |m| then Accepted(NoTypeTags)
        else if m[begin] != COMMA then Malformed
        else if m[begin + 1] == NUL then Accepted(NoTypeTags)
        else match Str4End(m, begin)
          case None => Malformed
          case Some(arguments) =>
            var tags := CString(m, begin + 1);
            match Check(m, tags, arguments)
            case At(_) => Accepted(TypeTags(begin + 1, begin + 1 + |tags|, arguments))
            case Reject => Malformed
            case Outside => ReadsOutside
  }

  /** The validating switch, run on one type tag. */
  method CheckArgument(m: seq<Byte>, tag: Byte, a: nat) returns (step: Step)
    requires |m| % 4 == 0 && a % 4 == 0
    ensures step == CheckStep(m, tag, a)
  {
    match WidthOf(tag) {
      case NoBytes =>
        return At(a);
      case FourBytes =>
        if a == |m| || a + 4 > |m| {
          return Reject;
        }
        return At(a + 4);
      case EightBytes =>
        if a == |m| || a + 8 > |m| {
          return Reject;
        }
        return At(a + 8);
      case StringBytes =>
        if a == |m| {
          return Reject;
        }
        var end := FindStr4EndChecked(m, a);
        return if end == None then Reject else At(end.value);
      case BlobBytes =>
        if a + 4 > |m| {
          return Outside;
        }
        return At(a + 4 + RoundUp4(ReadWord32(m, a)));
      case Unknown =>
        return Reject;
    }
  }

  /** The k-th tag is a blob's, everything in front of it checks, and fewer than four bytes are left for its
      size. */
  predicate BlobWithoutSize(m: seq<Byte>, tags: seq<Byte>, a: nat, k: nat) {
    && k < |tags| && WidthOf(tags[k]).BlobBytes?
    && Check(m, tags[..k], a).At? && Check(m, tags[..k], a).next + 4 > |m|
  }

  ghost predicate ShortBlob(m: seq<Byte>, tags: seq<Byte>, a: nat) {
    exists k :: BlobWithoutSize(m, tags, a, k)
  }

  lemma {:induction false} CheckOutside(m: seq<Byte>, tags: seq<Byte>, a: nat)
    ensures Check(m, tags, a) == Outside <==> ShortBlob(m, tags, a)
    decreases |tags|
  {
    hide CheckStep, WidthOf;
    if tags != [] {
      FirstOutside(m, tags[0], a);
      BlobFirst(m, tags, a);
      match CheckStep(m, tags[0], a) {
        case At(next) =>
          CheckOutside(m, tags[1..], next);
          BlobLater(m, tags, a, next);
        case _ => NoBlobLater(m, tags, a);
      }
    }
  }

  lemma FirstOutside(m: seq<Byte>, tag: Byte, a: nat)
    ensures CheckStep(m, tag, a) == Outside <==> WidthOf(tag).BlobBytes? && a + 4 > |m|
  {
    hide WidthOf, Str4End, ReadWord32;
  }

  lemma BlobFirst(m: seq<Byte>, tags: seq<Byte>, a: nat)
    requires tags != []
    ensures BlobWithoutSize(m, tags, a, 0) <==> WidthOf(tags[0]).BlobBytes? && a + 4 > |m|
  {
    hide CheckStep, WidthOf;
    assert tags[..0] == [];
  }

  lemma CheckHead(m: seq<Byte>, tags: seq<Byte>, a: nat, k: nat)
    requires 0 < k <= |tags|
    ensures Check(m, tags[..k], a) ==
            match CheckStep(m, tags[0], a)
            case At(next) => Check(m, tags[1..][..k - 1], next)
            case stop => stop
  {
    hide CheckStep;
    assert tags[..k][1..] == tags[1..][..k - 1];
  }

  lemma BlobLater(m: seq<Byte>, tags: seq<Byte>, a: nat, next: nat)
    requires tags != [] && CheckStep(m, tags[0], a) == At(next)
    ensures ShortBlob(m, tags, a) <==> BlobWithoutSize(m, tags, a, 0) || ShortBlob(m, tags[1..], next)
  {
    hide CheckStep, WidthOf, Check;
    if k: nat :| BlobWithoutSize(m, tags[1..], next, k) {
      BlobInside(m, tags[1..], next, k);
      CheckHead(m, tags, a, k + 1);
      assert BlobWithoutSize(m, tags, a, k + 1);
    }
    if k: nat :| BlobWithoutSize(m, tags, a, k) {
      if k > 0 {
        BlobInside(m, tags, a, k);
        CheckHead(m, tags, a, k);
        assert BlobWithoutSize(m, tags[1..], next, k - 1);
      }
    }
  }

  lemma NoBlobLater(m: seq<Byte>, tags: seq<Byte>, a: nat)
    requires tags != [] && !CheckStep(m, tags[0], a).At?
    ensures forall k :: BlobWithoutSize(m, tags, a, k) ==> k == 0
  {
    hide CheckStep, WidthOf, Check;
    forall k | BlobWithoutSize(m, tags, a, k)
      ensures k == 0
    {
      BlobInside(m, tags, a, k);
      if k > 0 {
        CheckHead(m, tags, a, k);
      }
    }
  }

  lemma BlobInside(m: seq<Byte>, tags: seq<Byte>, a: nat, k: nat)
    requires BlobWithoutSize(m, tags, a, k)
    ensures k < |tags|
  {
  }

  /** Init reads outside of the message exactly when the message has type tags and its check comes to a blob
      with fewer than four bytes left: the test for them builds an exception and does not throw it. */
  lemma InitReadsOutside(m: seq<Byte>)
    ensures Validate(m).ReadsOutside? <==>
              && |m| > 0 && |m| % 4 == 0 && Str4End(m, 0).Some?
              && var begin := Str4End(m, 0).value;
                 && begin + 1 < |m| && m[begin] == COMMA && m[begin + 1] != NUL && Str4End(m, begin).Some?
                 && ShortBlob(m, CString(m, begin + 1), Str4End(m, begin).value)
  {
    hide Str4End, CString, Check;
    if |m| > 0 && |m| % 4 == 0 && Str4End(m, 0).Some? {
      Str4EndBounds(m, 0);
      var begin := Str4End(m, 0).value;
      if begin + 1 < |m| && Str4End(m, begin).Some? {
        CheckOutside(m, CString(m, begin + 1), Str4End(m, begin).value);
      }
    }
  }

  lemma CheckStepAligned(m: seq<Byte>, tag: Byte, a: nat)
    requires |m| % 4 == 0 && a % 4 == 0 && CheckStep(m, tag, a).At?
    ensures CheckStep(m, tag, a).next % 4 == 0 && a <= CheckStep(m, tag, a).next
  {
    hide Str4End, ReadWord32, RoundUp4;
    if WidthOf(tag) == StringBytes {
      Str4EndBounds(m, a);
    } else if WidthOf(tag) == BlobBytes {
      RoundUpAligned(a + 4, ReadWord32(m, a));
    }
  }

  lemma RoundUpAligned(a: nat, x: nat)
    requires a % 4 == 0
    ensures (a + RoundUp4(x)) % 4 == 0
  {
    var words := (x + 3) / 4;
    assert RoundUp4(x) == 4 * words;
  }

  /** The validating loop: one type tag after the other up to the first NUL. */
  method CheckArguments(m: seq<Byte>, typeTagsBegin: nat, arguments: nat) returns (step: Step, typeTagsEnd: nat)
    requires |m| % 4 == 0 && arguments % 4 == 0 && typeTagsBegin <= |m|
    ensures step == Check(m, CString(m, typeTagsBegin), arguments)
    ensures step.At? ==> typeTagsEnd == typeTagsBegin + |CString(m, typeTagsBegin)|
  {
    var argument := arguments;
    typeTagsEnd := typeTagsBegin;
    while typeTagsEnd < |m| && m[typeTagsEnd] != NUL
      invariant typeTagsBegin <= typeTagsEnd <= |m| && argument % 4 == 0
      invariant Check(m, CString(m, typeTagsEnd), argument) == Check(m, CString(m, typeTagsBegin), arguments)
      invariant typeTagsEnd + |CString(m, typeTagsEnd)| == typeTagsBegin + |CString(m, typeTagsBegin)|
      decreases |m| - typeTagsEnd
    {
      step := CheckArgument(m, m[typeTagsEnd], argument);
      assert CString(m, typeTagsEnd)[1..] == CString(m, typeTagsEnd + 1);
      if !step.At? {
        return;
      }
      CheckStepAligned(m, m[typeTagsEnd], argument);
      argument := step.next;
      typeTagsEnd := typeTagsEnd + 1;
    }
    step := At(argument);
  }

  class ReceivedMessage {
    const message: seq<Byte>
    var typeTagsBegin: int // -1 for the null pointer
    var typeTagsEnd: int
    var arguments: int

    constructor (message: seq<Byte>)
      ensures this.message == message
    {
      this.message := message;
      typeTagsBegin, typeTagsEnd, arguments := -1, -1, -1;
    }

    /** The fields an accepted message ends up with. */
    predicate Holds(view: View)
      reads this
    {
      match view
      case NoTypeTags => typeTagsBegin == typeTagsEnd == arguments == -1
      case TypeTags(begin, end, first) => typeTagsBegin == begin && typeTagsEnd == end && arguments == first
    }

    method Init() returns (result: InitResult)
      modifies this
      ensures result == Validate(message)
      ensures result.Accepted? ==> Holds(result.view)
    {
      if |message| == 0 || |message| % 4 != 0 {
        return Malformed;
      }
      var begin := FindStr4EndChecked(message, 0);
      if begin == None {
        return Malformed;
      }
      Str4EndBounds(message, 0);
      typeTagsBegin := begin.value;
      if typeTagsBegin == |message| {
        typeTagsBegin, typeTagsEnd, arguments := -1, -1, -1;
        return Accepted(NoTypeTags);
      }
      if message[typeTagsBegin] != COMMA {
        return Malformed;
      }
      if message[typeTagsBegin + 1] == NUL {
        typeTagsBegin, typeTagsEnd, arguments := -1, -1, -1;
        return Accepted(NoTypeTags);
      }
      var first := FindStr4EndChecked(message, typeTagsBegin);
      if first == None {
        return Malformed;
      }
      Str4EndBounds(message, typeTagsBegin);
      arguments := first.value;
      typeTagsBegin := typeTagsBegin + 1;
      var step, end := CheckArguments(message, typeTagsBegin, arguments);
      if step == Reject {
        return Malformed;
      }
      if step == Outside {
        return ReadsOutside;
      }
      typeTagsEnd := end;
      result := Accepted(TypeTags(typeTagsBegin, end, arguments));
    }
  }

  /** A cursor over the arguments of a message that validated. */
  class ReceivedMessageArgumentIterator {
    const message: seq<Byte>
    var typeTag: int
    var argument: int

    constructor (message: seq<Byte>, typeTag: int, argument: int)
      ensures this.message == message && this.typeTag == typeTag && this.argument == argument
    {
      this.message := message;
      this.typeTag := typeTag;
      this.argument := argument;
    }

    /** Advance: no bounds are tested here, so the next argument must be known to be inside. */
    method Advance()
      requires typeTag == -1 || (0 <= typeTag < |message| && argument >= 0)
      requires typeTag != -1 && message[typeTag] != NUL ==> SkipStep(message, message[typeTag], argument) != Outside
      modifies this
      ensures (typeTag, argument) ==
              if old(typeTag) == -1 || message[old(typeTag)] == NUL then old((typeTag, argument)) else
              match SkipStep(message, message[old(typeTag)], old(argument))
              case At(next) => (old(typeTag) + 1, next)
              case _ => old((typeTag, argument))
    {
      if typeTag == -1 || message[typeTag] == NUL {
        return;
      }
      match WidthOf(message[typeTag]) {
        case NoBytes =>
          typeTag := typeTag + 1;
        case FourBytes =>
          typeTag, argument := typeTag + 1, argument + 4;
        case EightBytes =>
          typeTag, argument := typeTag + 1, argument + 8;
        case StringBytes =>
          var end := FindStr4End(message, argument);
          typeTag, argument := typeTag + 1, end;
        case BlobBytes =>
          var blobSize := ReadWord32(message, argument);
          typeTag, argument := typeTag + 1, argument + 4 + RoundUp4(blobSize);
        case Unknown =>
      }
    }
  }

  /* ---- validate once, walk unchecked ---- */

  /** The guards of the two tests that do not throw, along the whole message: the size word and the
      bytes of every blob lie inside it. */
  predicate BlobsFit(m: seq<Byte>, tags: seq<Byte>, a: nat)
    decreases |tags|
  {
    tags == [] ||
    ((tags[0] == BLOB_TAG ==> a + 4 <= |m| && a + 4 + RoundUp4(ReadWord32(m, a)) <= |m|)
     && match CheckStep(m, tags[0], a)
        case At(next) => BlobsFit(m, tags[1..], next)
        case _ => true)
  }

  /** The message's blobs lie inside it, if it has type tags at all. */
  predicate BlobsInside(m: seq<Byte>, view: View) {
    match view
    case NoTypeTags => true
    case TypeTags(begin, end, first) => begin <= end <= |m| && BlobsFit(m, m[begin..end], first)
  }

  /** The walk reaches the end of the tags, one tag at a time and never outside of the message. */
  predicate WalksInside(m: seq<Byte>, tags: seq<Byte>, a: nat)
  {
    forall i :: 0 <= i <= |tags| ==> Skip(m, tags[..i], a).At? && a <= Skip(m, tags[..i], a).next <= |m|
  }

  lemma {:induction false} WalkTail(m: seq<Byte>, tags: seq<Byte>, a: nat)
    requires tags != [] && a <= |m| && SkipStep(m, tags[0], a).At? && a <= SkipStep(m, tags[0], a).next
    ensures WalksInside(m, tags, a) <==> WalksInside(m, tags[1..], SkipStep(m, tags[0], a).next)
  {
    var next := SkipStep(m, tags[0], a).next;
    forall i | 0 <= i < |tags|
      ensures Skip(m, tags[..i + 1], a) == Skip(m, tags[1..][..i], next)
    {
      assert tags[..i + 1][1..] == tags[1..][..i];
    }
    assert forall i :: 0 < i <= |tags| ==> Skip(m, tags[..i], a) == Skip(m, tags[1..][..i - 1], next);
    if WalksInside(m, tags, a) {
      forall i | 0 <= i <= |tags[1..]|
        ensures Skip(m, tags[1..][..i], next).At? && next <= Skip(m, tags[1..][..i], next).next <= |m|
      {
        assert Skip(m, tags[..i + 1], a) == Skip(m, tags[1..][..i], next);
        SkipForward(m, tags[1..][..i], next);
      }
    }
  }

  lemma {:induction false} SkipForward(m: seq<Byte>, tags: seq<Byte>, a: nat)
    ensures Skip(m, tags, a).At? ==> a <= Skip(m, tags, a).next
    decreases |tags|
  {
    if tags != [] && SkipStep(m, tags[0], a).At? {
      SkipForward(m, tags[1..], SkipStep(m, tags[0], a).next);
    }
  }

  /** Once past the end of the message the checks never come back inside. */
  lemma {:induction false} StaysPast(m: seq<Byte>, tags: seq<Byte>, a: nat)
    requires a > |m| && Check(m, tags, a).At?
    ensures Check(m, tags, a).next > |m|
    decreases |tags|
  {
    if tags != [] {
      StaysPast(m, tags[1..], CheckStep(m, tags[0], a).next);
    }
  }

  /** When the validating loop accepts the tags, the unchecked walk passes through the same offsets,
      and it stays inside the message exactly when every blob fits, that is exactly when the
      validating loop itself ended inside. */
  lemma {:induction false} ValidatedWalk(m: seq<Byte>, tags: seq<Byte>, a: nat)
    requires |m| % 4 == 0 && a % 4 == 0 && a <= |m| && Check(m, tags, a).At?
    ensures Skip(m, tags, a) == Check(m, tags, a)
    ensures WalksInside(m, tags, a) <==> BlobsFit(m, tags, a)
    ensures WalksInside(m, tags, a) <==> Check(m, tags, a).next <= |m|
    decreases |tags|
  {
    if tags == [] {
      assert tags[..0] == [];
    } else {
      CheckStepAligned(m, tags[0], a);
      var next := CheckStep(m, tags[0], a).next;
      assert SkipStep(m, tags[0], a) == At(next);
      WalkTail(m, tags, a);
      if next <= |m| {
        ValidatedWalk(m, tags[1..], next);
      } else {
        StaysPast(m, tags[1..], next);
        SkipPast(m, tags[1..], next);
        assert tags[1..][..0] == [] && Skip(m, tags[1..][..0], next) == At(next);
      }
    }
  }

  lemma {:induction false} SkipPast(m: seq<Byte>, tags: seq<Byte>, a: nat)
    requires Check(m, tags, a).At?
    ensures Skip(m, tags, a) == Check(m, tags, a)
    decreases |tags|
  {
    if tags != [] {
      SkipPast(m, tags[1..], CheckStep(m, tags[0], a).next);
    }
  }

  lemma {:induction false} BlobFreeFits(m: seq<Byte>, tags: seq<Byte>, a: nat)
    requires BLOB_TAG !in tags
    ensures BlobsFit(m, tags, a)
    decreases |tags|
  {
    if tags != [] && CheckStep(m, tags[0], a).At? {
      BlobFreeFits(m, tags[1..], CheckStep(m, tags[0], a).next);
    }
  }

  lemma {:induction false} CStringSlice(m: seq<Byte>, p: nat)
    requires p <= |m|
    ensures p + |CString(m, p)| <= |m| && m[p..p + |CString(m, p)|] == CString(m, p)
    ensures p + |CString(m, p)| < |m| ==> m[p + |CString(m, p)|] == NUL
    decreases |m| - p
  {
    if p < |m| && m[p] != NUL {
      CStringSlice(m, p + 1);
      var n := |CString(m, p)|;
      assert m[p..p + n] == [m[p]] + m[p + 1..p + n];
    }
  }

  /** Where Init found the parts of a message. */
  lemma AcceptedParts(m: seq<Byte>)
    requires Validate(m).Accepted? && Validate(m).view.TypeTags?
    ensures var TypeTags(begin, end, first) := Validate(m).view;
            && 0 < begin <= |m| && |m| % 4 == 0 && first % 4 == 0 && first <= |m|
            && end == begin + |CString(m, begin)| && Check(m, CString(m, begin), first).At?
  {
    hide Str4End, CString, Check;
    var begin := Validate(m).view.begin;
    Str4EndBounds(m, 0);
    Str4EndBounds(m, begin - 1);
  }

  /** For every byte string that Init accepts: from ArgumentsBegin the unchecked iterator takes each
      type tag once, ends at ArgumentsEnd, and reads nothing outside of the message, if and only if
      every blob fits; a message without blobs always qualifies. */
  lemma AcceptedMessagesWalk(m: seq<Byte>)
    requires Validate(m).Accepted? && Validate(m).view.TypeTags?
    ensures var TypeTags(begin, end, first) := Validate(m).view;
            && begin <= end <= |m| && first <= |m|
            && NUL !in m[begin..end] && (end < |m| ==> m[end] == NUL)
            && (WalksInside(m, m[begin..end], first) <==> BlobsFit(m, m[begin..end], first))
            && (BLOB_TAG !in m[begin..end] ==> WalksInside(m, m[begin..end], first))
  {
    hide Validate, WalksInside, BlobsFit, CString, Check, RoundUp4;
    var TypeTags(begin, end, first) := Validate(m).view;
    AcceptedParts(m);
    CStringSlice(m, begin);
    ValidatedWalk(m, m[begin..end], first);
    if BLOB_TAG !in m[begin..end] {
      BlobFreeFits(m, m[begin..end], first);
    }
  }

  const OVERRUN_BLOB: seq<Byte> := [47, 97, 0, 0, 44, 98, 0, 0, 0, 0, 0, 100] // "/a", ",b", blob of size 100

  /** The condition is not idle: a message whose blob claims a hundred bytes that are not there is
      accepted, and the walk leaves it. */
  lemma OverrunBlobIsAccepted()
    ensures Validate(OVERRUN_BLOB) == Accepted(TypeTags(5, 6, 8))
    ensures !WalksInside(OVERRUN_BLOB, OVERRUN_BLOB[5..6], 8)
  {
    var m := OVERRUN_BLOB;
    assert ScanNul(m, 3) == Some(4);
    assert ScanNul(m, 7) == Some(8);
    assert CString(m, 6) == [];
    assert CString(m, 5) == [98];
    assert ReadBig(m, 8, 1) == 0 && ReadBig(m, 8, 2) == 0 && ReadBig(m, 8, 3) == 0;
    assert ReadWord32(m, 8) == 100;
    assert RoundUp4(100) == 100;
    assert CheckStep(m, 98, 8) == At(112);
    assert Check(m, [98], 8) == Check(m, [98][1..], 112) == At(112);
    assert m[5..6] == [98];
    ValidatedWalk(m, m[5..6], 8);
  }

  /** The loop over a message's arguments: begin to end, one Advance each. */
  method VisitArguments(m: seq<Byte>, begin: nat, end: nat, first: nat) returns (visited: seq<(Byte, nat)>)
    requires begin <= end <= |m| && NUL !in m[begin..end]
    requires WalksInside(m, m[begin..end], first)
    ensures |visited| == end - begin
    ensures forall i :: 0 <= i < |visited| ==>
              && visited[i].0 == m[begin + i]
              && Skip(m, m[begin..begin + i], first) == At(visited[i].1) && visited[i].1 <= |m|
  {
    hide Str4End, RoundUp4, ReadWord32, WidthOf;
    var it := new ReceivedMessageArgumentIterator(m, begin, first);
    ghost var tags := m[begin..end];
    visited := [];
    assert tags[..0] == [];
    while it.typeTag != end
      invariant begin <= it.typeTag <= end && fresh(it) && it.message == m && 0 <= it.argument
      invariant |visited| == it.typeTag - begin
      invariant Skip(m, tags[..it.typeTag - begin], first) == At(it.argument)
      invariant forall i :: 0 <= i < |visited| ==>
                  && visited[i].0 == m[begin + i]
                  && Skip(m, tags[..i], first) == At(visited[i].1) && visited[i].1 <= |m|
      decreases end - it.typeTag
    {
      ghost var i := it.typeTag - begin;
      visited := visited + [(m[it.typeTag], it.argument)];
      assert tags[i] == m[it.typeTag] && tags[i] in tags;
      assert Skip(m, tags[..i + 1], first).At?;
      SkipSnoc(m, tags, i, first);
      it.Advance();
    }
    forall i | 0 <= i < |visited|
      ensures tags[..i] == m[begin..begin + i]
    {
    }
  }

  lemma {:induction false} SkipSnoc(m: seq<Byte>, tags: seq<Byte>, i: nat, a: nat)
    requires i < |tags| && Skip(m, tags[..i], a).At?
    ensures Skip(m, tags[..i + 1], a) == SkipStep(m, tags[i], Skip(m, tags[..i], a).next)
    decreases i
  {
    if i == 0 {
      assert tags[..1][1..] == [];
    } else {
      var next := SkipStep(m, tags[0], a).next;
      assert tags[..i][1..] == tags[1..][..i - 1] && tags[..i + 1][1..] == tags[1..][..i];
      SkipSnoc(m, tags[1..], i - 1, next);
    }
  }
}
