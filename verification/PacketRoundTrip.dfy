/** What is written by matched calls is what arrives: same messages, same order, same addresses,
    tags and arguments. */
module PacketRoundTrip {
  import opened Wrappers
  import opened Bytes
  import opened Packet
  import opened ReceivedElements
  import opened PacketListener
  import Draft
  import StreamRuns

  /* ---- reading typed arguments off a message ---- */

  /** The argument at offset a, as the As... accessors read it. */
  function ArgumentAt(m: seq<Byte>, tag: Byte, a: nat): Argument
    requires a <= |m| && SkipStep(m, tag, a).At? && SkipStep(m, tag, a).next <= |m|
  {
    match WidthOf(tag)
    case NoBytes => Flag(tag)
    case FourBytes => Word(tag, ReadWord32(m, a))
    case EightBytes => Long(tag, ReadWord64(m, a))
    case StringBytes => Text(tag, CString(m, a))
    case BlobBytes => Blob(m[a + 4..a + 4 + ReadWord32(m, a)])
  }

  /** The arguments the iterator passes from offset a on. */
  function Items(m: seq<Byte>, tags: seq<Byte>, a: nat): seq<Argument>
    requires a <= |m|
    decreases |tags|
  {
    if tags == [] then [] else
      match SkipStep(m, tags[0], a)
      case At(next) => if next <= |m| then [ArgumentAt(m, tags[0], a)] + Items(m, tags[1..], next) else []
      case _ => []
  }

  /** A received message, read back. */
  function Decode(m: seq<Byte>): Element {
    Message(CString(m, 0),
            match Validate(m)
            case Accepted(TypeTags(begin, end, first)) =>
              if begin <= end <= |m| && first <= |m| then Items(m, m[begin..end], first) else []
            case _ => [])
  }

  /* ---- one argument there and back ---- */

  lemma {:induction false} ScanTo(m: seq<Byte>, q: nat, last: nat)
    requires q <= last < |m| && (last - q) % 4 == 0 && m[last] == NUL
    requires forall i :: q <= i && i + 4 <= last ==> m[i] != NUL
    ensures ScanNul(m, q) == Some(last + 1)
    decreases last - q
  {
    if q < last {
      ScanTo(m, q + 4, last);
    }
  }

  lemma OscStringReads(m: seq<Byte>, p: nat, s: seq<Byte>)
    requires NulFree(s) && p + RoundUp4(|s| + 1) <= |m| && m[p..p + RoundUp4(|s| + 1)] == OscString(s)
    ensures Str4End(m, p) == Some(p + RoundUp4(|s| + 1))
    ensures CString(m, p) == s
  {
    hide OscString;
    var n := RoundUp4(|s| + 1);
    OscStringShape(s);
    var r := m[p..p + n];
    assert forall i :: 0 <= i < n ==> r[i] == m[p + i];
    assert m[p..p + |s|] == r[..|s|];
    assert m[p + |s|] == r[|s|];
    CStringReads(m, p, s);
    if s != [] {
      assert m[p] == r[..|s|][0] && s[0] in s;
      forall i | p + 3 <= i && i + 4 <= p + n - 1
        ensures m[i] != NUL
      {
        assert m[i] == r[..|s|][i - p] == s[i - p] && s[i - p] in s;
      }
      assert m[p + n - 1] == r[n - 1] == NUL;
      assert (n - 4) % 4 == 0;
      ScanTo(m, p + 3, p + n - 1);
    }
  }

  lemma OscStringShape(s: seq<Byte>)
    ensures OscString(s)[..|s|] == s
    ensures forall i :: |s| <= i < |OscString(s)| ==> OscString(s)[i] == NUL
  {
    PaddedStart(s + [NUL]);
    assert OscString(s)[..|s|] == OscString(s)[..|s| + 1][..|s|];
    assert OscString(s)[|s|] == OscString(s)[..|s| + 1][|s|];
  }

  lemma ArgumentRoundTrip(m: seq<Byte>, a: nat, arg: Argument)
    requires arg.Proper() && a + |arg.Payload()| <= |m| < 0x1_0000_0000
    requires m[a..a + |arg.Payload()|] == arg.Payload()
    ensures CheckStep(m, arg.Tag(), a) == SkipStep(m, arg.Tag(), a) == At(a + |arg.Payload()|)
    ensures ArgumentAt(m, arg.Tag(), a) == arg
    ensures arg.Blob? ==> a + 4 <= |m| && a + 4 + RoundUp4(ReadWord32(m, a)) <= |m|
  {
    hide OscString, Padded, Word32, Word64, Str4End, ReadWord32, ReadWord64;
    match arg
    case Flag(_) =>
    case Word(_, x) => Word32RoundTrip(m, a, x);
    case Long(_, x) => Word64RoundTrip(m, a, x);
    case Text(_, s) => OscStringReads(m, a, s);
    case Blob(d) => BlobReads(m, a, d);
  }

  lemma BlobReads(m: seq<Byte>, a: nat, d: seq<Byte>)
    requires a + 4 + RoundUp4(|d|) <= |m| < 0x1_0000_0000
    requires m[a..a + 4 + RoundUp4(|d|)] == SizeWord(|d|) + Padded(d)
    ensures ReadWord32(m, a) == |d| && m[a + 4..a + 4 + |d|] == d
  {
    hide SizeWord, Padded, RoundUp4;
    TwoParts(m, a, SizeWord(|d|), Padded(d));
    SizeWordReads(m, a, |d|);
    PaddedReads(m, a + 4, d);
  }

  lemma PaddedReads(m: seq<Byte>, a: nat, d: seq<Byte>)
    requires a + |Padded(d)| <= |m| && m[a..a + |Padded(d)|] == Padded(d)
    ensures m[a..a + |d|] == d
  {
    hide Padded, RoundUp4;
    PaddedStart(d);
    StartOfPart(m, a, |Padded(d)|, |d|);
  }

  lemma StartOfPart(m: seq<Byte>, a: nat, n: nat, k: nat)
    requires k <= n && a + n <= |m|
    ensures m[a..a + n][..k] == m[a..a + k]
  {
  }

  lemma TwoParts(m: seq<Byte>, a: nat, x: seq<Byte>, y: seq<Byte>)
    requires a + |x| + |y| <= |m| && m[a..a + |x| + |y|] == x + y
    ensures m[a..a + |x|] == x && m[a + |x|..a + |x| + |y|] == y
  {
    assert m[a..a + |x|] == (x + y)[..|x|];
    assert m[a + |x|..a + |x| + |y|] == (x + y)[|x|..];
  }

  lemma SizeWordReads(m: seq<Byte>, p: nat, n: nat)
    requires p + 4 <= |m| && n < 0x1_0000_0000 && m[p..p + 4] == SizeWord(n)
    ensures ReadWord32(m, p) == n
  {
    Word32RoundTrip(m, p, n);
  }

  /** A list of arguments there and back: both switches pass through it alike, to its end. */
  lemma {:induction false} ArgumentsRoundTrip(m: seq<Byte>, a: nat, args: seq<Argument>)
    requires ProperArguments(args) && a <= |m| < 0x1_0000_0000 && m[a..] == Payloads(args)
    ensures Check(m, Tags(args), a) == At(|m|)
    ensures BlobsFit(m, Tags(args), a)
    ensures Items(m, Tags(args), a) == args
    decreases |args|
  {
    hide Argument.Payload, CheckStep, SkipStep, ArgumentAt;
    if args != [] {
      var arg, n := args[0], |args[0].Payload()|;
      assert arg in args;
      assert m[a..a + n] == m[a..][..n] == arg.Payload();
      assert m[a + n..] == m[a..][n..] == Payloads(args[1..]);
      ArgumentRoundTrip(m, a, arg);
      assert Tags(args)[1..] == Tags(args[1..]);
      ArgumentsRoundTrip(m, a + n, args[1..]);
    }
  }

  /* ---- one message there and back ---- */

  lemma TagsNulFree(args: seq<Argument>)
    requires ProperArguments(args)
    ensures NulFree(Tags(args))
  {
    forall i | 0 <= i < |args|
      ensures Tags(args)[i] != NUL
    {
      assert args[i] in args;
    }
  }

  /** Where the three parts of an encoded message end. */
  lemma MessageParts(m: seq<Byte>, e: Element)
    requires e.Message? && ProperElement(e) && m == Encode(e)
    ensures var b, t := RoundUp4(|e.address| + 1), [COMMA] + Tags(e.arguments);
            && b + 4 <= b + RoundUp4(|t| + 1) <= |m|
            && Str4End(m, 0) == Some(b) && CString(m, 0) == e.address
            && Str4End(m, b) == Some(b + RoundUp4(|t| + 1)) && CString(m, b) == t
            && m[b] == COMMA && (m[b + 1] == NUL <==> e.arguments == [])
            && m[b + RoundUp4(|t| + 1)..] == Payloads(e.arguments)
  {
    hide OscString, Payloads, CString, Str4End, Tags;
    var b, t := RoundUp4(|e.address| + 1), [COMMA] + Tags(e.arguments);
    assert m == OscString(e.address) + OscString(t) + Payloads(e.arguments);
    assert m[0..b] == OscString(e.address);
    OscStringReads(m, 0, e.address);
    var r := m[b..b + RoundUp4(|t| + 1)];
    assert r == OscString(t);
    TagsNulFree(e.arguments);
    OscStringReads(m, b, t);
    OscStringShape(t);
    assert m[b] == r[0] == r[..|t|][0] && m[b + 1] == r[1];
    assert |t| > 1 ==> r[1] == r[..|t|][1] && t[1] == Tags(e.arguments)[0] && t[1] in Tags(e.arguments);
  }

  /** Every message that C strings can carry is accepted and read back unchanged. */
  lemma MessageRoundTrip(e: Element)
    requires e.Message? && ProperElement(e) && |Encode(e)| < 0x1_0000_0000
    ensures Validate(Encode(e)).Accepted? && Decode(Encode(e)) == e
    ensures BlobsInside(Encode(e), Validate(Encode(e)).view)
    ensures match Validate(Encode(e)).view
            case NoTypeTags => e.arguments == []
            case TypeTags(begin, end, first) =>
              && begin <= end <= |Encode(e)| && first <= |Encode(e)|
              && Encode(e)[begin..end] == Tags(e.arguments)
              && WalksInside(Encode(e), Tags(e.arguments), first)
  {
    hide Encode, OscString, Payloads, Check, Items, CString, Str4End, BlobsFit, WalksInside;
    var m, args := Encode(e), e.arguments;
    var b, t := RoundUp4(|e.address| + 1), [COMMA] + Tags(args);
    var words := EncodeWords(e);
    MessageParts(m, e);
    if args != [] {
      CStringTail(m, b, t);
      assert t[1..] == Tags(args);
      var first := b + RoundUp4(|t| + 1);
      ArgumentsRoundTrip(m, first, args);
      CStringSlice(m, b + 1);
      ValidatedWalk(m, Tags(args), first);
    }
  }

  lemma CStringTail(m: seq<Byte>, p: nat, s: seq<Byte>)
    requires p < |m| && CString(m, p) == s && s != []
    ensures CString(m, p + 1) == s[1..]
  {
  }

  /* ---- whole packets there and back ---- */

  /** No address that the receiver would take for a bundle. */
  predicate Addressed(e: Element) {
    match e
    case Message(a, _) => a == [] || a[0] != NUMBER_SIGN
    case Bundle(_, es) => forall x :: x in es ==> Addressed(x)
  }

  function Encodings(ms: seq<Element>): seq<seq<Byte>> {
    if ms == [] then [] else [Encode(ms[0])] + Encodings(ms[1..])
  }

  lemma {:induction false} EncodingsAppend(a: seq<Element>, b: seq<Element>)
    ensures Encodings(a + b) == Encodings(a) + Encodings(b)
  {
    hide Encode;
    if a == [] {
      assert a + b == b;
    } else {
      EncodingsAppend(a[1..], b);
      assert (a + b)[1..] == a[1..] + b;
      Associate2([Encode(a[0])], Encodings(a[1..]), Encodings(b));
    }
  }

  /** Every tree of bundles and messages is accepted, and delivery hands over exactly its messages,
      in written order. */
  lemma {:induction false} Delivered(e: Element)
    requires ProperElement(e) && Addressed(e) && |Encode(e)| < 0x8000_0000
    ensures Deliver(Encode(e)) == Delivery(Encodings(Messages(e)), Done)
    decreases e
  {
    hide OscString, Validate, Word64, DeliverFrom;
    match e
    case Message(a, args) =>
      MessageRoundTrip(e);
      FirstByte(e);
      assert Encodings([e]) == [Encode(e)] + Encodings([e][1..]);
    case Bundle(t, es) =>
      var b := Encode(e);
      assert b[..8] == BUNDLE_MARK && b[16..] == EncodeElements(es);
      EncodeAligned(e);
      ElementsDelivered(b, 16, es);
  }

  lemma FirstByte(e: Element)
    requires e.Message? && NulFree(e.address) && Addressed(e)
    ensures |Encode(e)| > 0 && Encode(e)[0] != NUMBER_SIGN
  {
    hide OscString;
    OscStringShape(e.address);
    var words := EncodeWords(e);
    assert Encode(e)[0] == OscString(e.address)[0];
    if e.address != [] {
      assert OscString(e.address)[..|e.address|][0] == e.address[0];
    }
  }

  lemma SizedParts(b: seq<Byte>, p: nat, word: seq<Byte>, body: seq<Byte>, rest: seq<Byte>)
    requires p <= |b| && b[p..] == word + body + rest && |word| == 4
    ensures p + 4 + |body| <= |b|
    ensures b[p..p + 4] == word && b[p + 4..p + 4 + |body|] == body && b[p + 4 + |body|..] == rest
  {
    var s := b[p..];
    assert b[p..p + 4] == s[..4] && b[p + 4..p + 4 + |body|] == s[4..4 + |body|] && b[p + 4 + |body|..] == s[4 + |body|..];
  }

  lemma {:induction false} ElementsDelivered(b: seq<Byte>, p: nat, es: seq<Element>)
    requires 16 <= p <= |b| < 0x8000_0000 && b[p..] == EncodeElements(es)
    requires forall x :: x in es ==> ProperElement(x) && Addressed(x)
    ensures Scan(b, p).Elements? && |Scan(b, p).elements| == |es|
    ensures DeliverFrom(b, p, |es|) == Delivery(Encodings(MessagesOf(es)), Done)
    decreases es
  {
    hide SizeWord, Encode, Deliver, ReadWord32, ProperElement, Addressed, Messages;
    if es != [] {
      var first, n := es[0], |Encode(es[0])|;
      assert first in es;
      SizedParts(b, p, SizeWord(n), Encode(first), EncodeElements(es[1..]));
      SizeWordReads(b, p, n);
      EncodeAligned(first);
      Delivered(first);
      ElementsDelivered(b, p + 4 + n, es[1..]);
      EncodingsAppend(Messages(first), MessagesOf(es[1..]));
    }
  }

  /** The packet-tree round trip. Matched calls on an empty stream either run out of buffer or leave a
      packet that the listener takes apart into the messages that were written, and each of them reads
      back as its address, tags and arguments. */
  lemma PacketRoundTrip(le: bool, e: Element, capacity: nat)
    requires ProperElement(e) && Addressed(e) && capacity < 0x8000_0000
    ensures var (status, d) := StreamRuns.Execute(Draft.EMPTY_DRAFT, StreamRuns.Calls(e), capacity);
            status == Draft.Ok ==>
              var delivery := Deliver(Draft.Body(le, d));
              && delivery.end == Done
              && |delivery.messages| == |Messages(e)|
              && forall i :: 0 <= i < |Messages(e)| ==> Decode(delivery.messages[i]) == Messages(e)[i]
  {
    StreamRuns.WriteElement(le, e, capacity);
    if |Encode(e)| <= capacity {
      Delivered(e);
      MessagesInside(e);
      EncodingsDecode(Messages(e));
    }
  }

  lemma {:induction false} EncodingsDecode(ms: seq<Element>)
    requires forall m :: m in ms ==> m.Message? && ProperElement(m) && |Encode(m)| < 0x8000_0000
    ensures |Encodings(ms)| == |ms|
    ensures forall i :: 0 <= i < |ms| ==> Decode(Encodings(ms)[i]) == ms[i]
  {
    hide Encode, Decode, ProperElement, Validate;
    if ms != [] {
      assert ms[0] in ms;
      MessageRoundTrip(ms[0]);
      EncodingsDecode(ms[1..]);
    }
  }

  /** The messages of an element are proper and no longer than the element. */
  lemma {:induction false} MessagesInside(e: Element)
    requires ProperElement(e)
    ensures forall m :: m in Messages(e) ==> ProperElement(m) && |Encode(m)| <= |Encode(e)|
    decreases e
  {
    if e.Bundle? {
      MessagesOfInside(e.elements);
    }
  }

  lemma {:induction false} MessagesOfInside(es: seq<Element>)
    requires forall x :: x in es ==> ProperElement(x)
    ensures forall m :: m in MessagesOf(es) ==> ProperElement(m) && |Encode(m)| <= |EncodeElements(es)|
    decreases es
  {
    if es != [] {
      MessagesInside(es[0]);
      MessagesOfInside(es[1..]);
    }
  }
}
