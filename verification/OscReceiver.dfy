/** The three mutually recursive parsers as they run: a pointer into the type tags and an argument
    iterator that is moved beside it. */
module OscReceiver {
  import opened Wrappers
  import opened Bytes
  import opened Packet
  import opened Numbers
  import opened Values
  import opened ValueCodec
  import opened ReceivedElements
  import opened PacketRoundTrip
  import TagBalance

  /** The arguments s are what lies ahead of a type tag pointer at tt and an argument offset a: tag by
      tag and offset by offset, up to the NUL behind the tags. */
  predicate Ahead(m: seq<Byte>, end: int, tt: int, a: int, s: seq<Argument>)
    decreases |s|
  {
    && 0 <= tt < |m| && 0 <= a <= |m| && tt + |s| == end
    && if s == [] then m[tt] == NUL else
         && m[tt] != NUL && m[tt] == s[0].Tag()
         && match SkipStep(m, m[tt], a)
            case At(next) => next <= |m| && s[0] == ArgumentAt(m, m[tt], a) && Ahead(m, end, tt + 1, next, s[1..])
            case _ => false
  }

  lemma Look(m: seq<Byte>, end: int, tt: int, a: int, s: seq<Argument>)
    requires Ahead(m, end, tt, a, s)
    ensures 0 <= tt < |m| && 0 <= a <= |m| && tt + |s| == end
    ensures m[tt] == NUL <==> s == []
    ensures s != [] ==>
              && m[tt] == s[0].Tag() && SkipStep(m, m[tt], a).At? && SkipStep(m, m[tt], a).next <= |m|
              && s[0] == ArgumentAt(m, m[tt], a)
              && Ahead(m, end, tt + 1, SkipStep(m, m[tt], a).next, s[1..])
  {
    hide SkipStep, ArgumentAt;
  }

  /** In a message whose walk stays inside, the iterator's arguments lie ahead of its beginning. */
  lemma {:induction false} ItemsAhead(m: seq<Byte>, begin: nat, end: nat, a: nat)
    requires begin <= end < |m| && m[end] == NUL && NUL !in m[begin..end] && a <= |m|
    requires WalksInside(m, m[begin..end], a)
    ensures Ahead(m, end, begin, a, Items(m, m[begin..end], a))
    decreases end - begin
  {
    hide SkipStep, ArgumentAt, WalksInside;
    var tags := m[begin..end];
    if begin < end {
      assert tags[0] == m[begin] && tags[0] in tags && tags[1..] == m[begin + 1..end];
      FirstStep(m, tags, a);
      var next := SkipStep(m, tags[0], a).next;
      WalkTail(m, tags, a);
      forall x | x in tags[1..]
        ensures x in tags
      {
      }
      ItemsAhead(m, begin + 1, end, next);
      TagOfArgument(m, tags[0], a);
    }
  }

  lemma FirstStep(m: seq<Byte>, tags: seq<Byte>, a: nat)
    requires tags != [] && WalksInside(m, tags, a)
    ensures SkipStep(m, tags[0], a).At? && a <= SkipStep(m, tags[0], a).next <= |m|
  {
    hide SkipStep;
    assert Skip(m, tags[..1], a).At? && a <= Skip(m, tags[..1], a).next <= |m|;
    assert tags[..1][1..] == [];
    match SkipStep(m, tags[0], a) {
      case At(next) => assert Skip(m, [], next) == At(next);
      case _ =>
    }
  }

  lemma TagOfArgument(m: seq<Byte>, tag: Byte, a: nat)
    requires a <= |m| && SkipStep(m, tag, a).At? && SkipStep(m, tag, a).next <= |m|
    ensures ArgumentAt(m, tag, a).Tag() == tag
  {
    hide ReadWord32, ReadWord64, CString, Str4End;
  }

  datatype Outcome = Parsed | LeftTheTags | Loops

  /** A parser's result against its specification: the value, and both pointers in front of exactly
      the arguments that the specification leaves. */
  ghost predicate Answers(m: seq<Byte>, end: int, arg: ReceivedMessageArgumentIterator,
                          expected: Parse, outcome: Outcome, tt: int, value: Value)
    reads arg
  {
    match expected
    case Got(v, rest) =>
      outcome == Parsed && value == v && arg.typeTag == tt && Ahead(m, end, tt, arg.argument, rest)
    case Undefined => outcome == LeftTheTags
    case NeverReturns => outcome == Loops
  }

  /** One step of both pointers: ++type_tags, ++arg. */
  method StepBoth(m: seq<Byte>, ghost end: int, arg: ReceivedMessageArgumentIterator, tt: int, ghost s: seq<Argument>) returns (next: int)
    requires arg.message == m && arg.typeTag == tt && s != [] && Ahead(m, end, tt, arg.argument, s)
    modifies arg
    ensures next == tt + 1 == arg.typeTag && Ahead(m, end, next, arg.argument, s[1..])
  {
    hide SkipStep, Ahead, ArgumentAt;
    Look(m, end, tt, arg.argument, s);
    arg.Advance();
    next := tt + 1;
  }

  /** The value under the iterator, for the tags that stand for themselves. */
  function Plain(m: seq<Byte>, tag: Byte, a: nat, current: Value): Value
    requires a <= |m| && SkipStep(m, tag, a).At? && SkipStep(m, tag, a).next <= |m|
  {
    if tag == TRUE_TAG then TrueValue
    else if tag == FALSE_TAG then FalseValue
    else if tag == NIL_TAG then NilValue
    else if tag == ANY_TAG then AnyValue
    else if tag == INT32_TAG then RealValue(Int32(ReadWord32(m, a)))
    else if tag == FLOAT_TAG then RealValue(Single(ReadWord32(m, a)))
    else if tag == CHAR_TAG then RealValue(Char(ReadWord32(m, a)))
    else if tag == DOUBLE_TAG then RealValue(Double(ReadWord64(m, a)))
    else if tag == STRING_TAG then StringValue(CString(m, a))
    else if tag == MIDI_TAG then
      var w := ReadWord32(m, a);
      MidiValue([w / 0x1_0000 % 0x100, w / 0x100 % 0x100, w % 0x100], 0, 0)
    else current
  }

  lemma PlainParses(m: seq<Byte>, tag: Byte, a: nat, current: Value, s: seq<Argument>)
    requires a <= |m| && SkipStep(m, tag, a).At? && SkipStep(m, tag, a).next <= |m|
    requires s != [] && s[0] == ArgumentAt(m, tag, a) && s[0].Tag() == tag
    requires tag !in [ARRAY_START_TAG, ARRAY_END_TAG, HASH_START_TAG, HASH_END_TAG]
    ensures ParseValue(s, current) == Got(Plain(m, tag, a, current), s[1..])
  {
    hide ReadWord32, ReadWord64, CString, Str4End, ParseArray, ParseHash;
  }

  lemma ParseNothing(current: Value)
    ensures ParseValue([], current) == Undefined
  {
  }

  lemma ParseClosing(s: seq<Argument>, current: Value)
    requires s != [] && (s[0].Tag() == ARRAY_END_TAG || s[0].Tag() == HASH_END_TAG)
    ensures ParseValue(s, current) == Got(current, s)
  {
    hide ParseArray, ParseHash;
  }

  lemma TagOnly(m: seq<Byte>, tag: Byte, a: nat)
    requires tag == ARRAY_START_TAG || tag == HASH_START_TAG
    ensures SkipStep(m, tag, a) == At(a)
    ensures a <= |m| ==> ArgumentAt(m, tag, a) == Flag(tag)
  {
  }

  method ParseOscValue(m: seq<Byte>, ghost end: int, arg: ReceivedMessageArgumentIterator,
                       start: int, current: Value, ghost s: seq<Argument>)
    returns (outcome: Outcome, tt: int, res: Value)
    requires arg.message == m && arg.typeTag == start && Ahead(m, end, start, arg.argument, s)
    modifies arg
    ensures Answers(m, end, arg, ParseValue(s, current), outcome, tt, res)
    decreases |s|, 0
  {
    hide Ahead, ParseValue, ParseArray, ParseHash, SkipStep, ArgumentAt, Plain;
    Look(m, end, start, arg.argument, s);
    tt, res, outcome := start, current, Parsed;
    if m[tt] == NUL {
      ParseNothing(current);
      outcome := LeftTheTags; // ++type_tags steps over the terminating NUL
    } else if m[tt] == ARRAY_START_TAG {
      TagOnly(m, m[tt], arg.argument);
      ParseBracket(s, current);
      tt := StepBoth(m, end, arg, tt, s);
      outcome, tt, res := ParseOscArray(m, end, arg, tt, ListValue([]), s[1..]);
      if outcome == Parsed {
        outcome, tt := EatClosing(m, end, arg, tt, ParseArray(s[1..], ListValue([]), EmptyValue).rest);
      }
    } else if m[tt] == HASH_START_TAG {
      TagOnly(m, m[tt], arg.argument);
      ParseBrace(s, current);
      tt := StepBoth(m, end, arg, tt, s);
      outcome, tt, res := ParseOscHash(m, end, arg, tt, s[1..]);
      if outcome == Parsed {
        outcome, tt := EatClosing(m, end, arg, tt, ParseHash(s[1..], HashValue([])).rest);
      }
    } else if m[tt] == ARRAY_END_TAG || m[tt] == HASH_END_TAG {
      ParseClosing(s, current); // return before type_tags increment
    } else {
      PlainParses(m, m[tt], arg.argument, current, s);
      res := Plain(m, m[tt], arg.argument, current);
      tt := StepBoth(m, end, arg, tt, s);
    }
  }

  /** The step over the closing bracket; when the tags have ended, it steps over their NUL. */
  method EatClosing(m: seq<Byte>, ghost end: int, arg: ReceivedMessageArgumentIterator, at: int, ghost rest: seq<Argument>)
    returns (outcome: Outcome, tt: int)
    requires arg.message == m && arg.typeTag == at && Ahead(m, end, at, arg.argument, rest)
    modifies arg
    ensures if rest == [] then outcome == LeftTheTags else
              outcome == Parsed && arg.typeTag == tt && Ahead(m, end, tt, arg.argument, rest[1..])
  {
    hide Ahead, SkipStep, ArgumentAt;
    Look(m, end, at, arg.argument, rest);
    if m[at] == NUL {
      return LeftTheTags, at;
    }
    tt := StepBoth(m, end, arg, at, rest);
    outcome := Parsed;
  }

  method ParseOscArray(m: seq<Byte>, ghost end: int, arg: ReceivedMessageArgumentIterator, start: int, self: Value, ghost s: seq<Argument>)
    returns (outcome: Outcome, tt: int, res: Value)
    requires arg.message == m && arg.typeTag == start && Ahead(m, end, start, arg.argument, s)
    modifies arg
    ensures Answers(m, end, arg, ParseArray(s, self, EmptyValue), outcome, tt, res)
    decreases |s|, 1
  {
    hide Ahead, ParseValue, ParseArray, ParseHash, SkipStep, ArgumentAt, PushBack;
    ghost var left := s;
    var tmp := EmptyValue;
    tt, res, outcome := start, self, Parsed;
    Look(m, end, tt, arg.argument, left);
    while m[tt] != NUL
      invariant outcome == Parsed && arg.typeTag == tt && Ahead(m, end, tt, arg.argument, left)
      invariant 0 <= tt < |m| && (m[tt] == NUL <==> left == []) && tt + |left| == end
      invariant |left| <= |s| && ParseArray(left, res, tmp) == ParseArray(s, self, EmptyValue)
      decreases |left|
    {
      var before := tt;
      ArrayTurn(left, res, tmp);
      ghost var parse := ParseValue(left, tmp);
      outcome, tt, tmp := ParseOscValue(m, end, arg, tt, tmp, left);
      if outcome != Parsed {
        return;
      }
      res := PushBack(res, tmp);
      Look(m, end, tt, arg.argument, parse.rest);
      if m[tt] == ARRAY_END_TAG {
        return; // do not eat ending ']'
      }
      if tt == before {
        outcome := Loops; // a stray '}' is never eaten: the loop parses it again
        return;
      }
      left := parse.rest;
    }
    ArrayEnd([], res, tmp);
  }

  /** One turn of the hash loop, on the specification's side. */
  lemma HashTurn(s: seq<Argument>, self: Value)
    requires s != [] && s[0].Text? && s[0].tag == STRING_TAG
    ensures ParseHash(s, self) ==
            var r := ParseValue(s[1..], EmptyValue);
            if PackedKey(s[0].text) && s[0].text[1] != LETTER_M then ParseHash(s[1..], self)
            else if !r.Got? then r
            else if !PackedKey(s[0].text) then ParseHash(r.rest, SetKey(self, s[0].text, r.value))
            else ParseHash(r.rest, Unpack(r.value))
  {
    hide ParseValue, SetKey, Unpack;
  }

  lemma HashElse(s: seq<Argument>, self: Value)
    requires s != [] && s[0].Tag() != STRING_TAG
    ensures ParseHash(s, self) == if s[0].Tag() == HASH_END_TAG then Got(self, s) else Undefined
  {
    hide ParseValue;
  }

  lemma HashDone(self: Value)
    ensures ParseHash([], self) == Got(self, [])
  {
  }

  lemma KeyUnder(m: seq<Byte>, a: nat)
    requires a <= |m| && SkipStep(m, STRING_TAG, a).At? && SkipStep(m, STRING_TAG, a).next <= |m|
    ensures ArgumentAt(m, STRING_TAG, a) == Text(STRING_TAG, CString(m, a))
  {
    hide CString, Str4End;
  }

  method ParseOscHash(m: seq<Byte>, ghost end: int, arg: ReceivedMessageArgumentIterator, start: int, ghost s: seq<Argument>)
    returns (outcome: Outcome, tt: int, res: Value)
    requires arg.message == m && arg.typeTag == start && Ahead(m, end, start, arg.argument, s)
    modifies arg
    ensures Answers(m, end, arg, ParseHash(s, HashValue([])), outcome, tt, res)
    decreases |s|, 1
  {
    hide Ahead, ParseValue, ParseArray, ParseHash, SkipStep, ArgumentAt, SetKey, Unpack, CString;
    ghost var left := s;
    tt, res, outcome := start, HashValue([]), Parsed;
    Look(m, end, tt, arg.argument, left);
    while m[tt] != NUL
      invariant outcome == Parsed && arg.typeTag == tt && Ahead(m, end, tt, arg.argument, left)
      invariant 0 <= tt < |m| && (m[tt] == NUL <==> left == [])
      invariant |left| <= |s| && ParseHash(left, res) == ParseHash(s, HashValue([]))
      decreases |left|
    {
      Look(m, end, tt, arg.argument, left);
      if m[tt] == STRING_TAG {
        KeyUnder(m, arg.argument);
        var key := CString(m, arg.argument);
        HashTurn(left, res);
        tt := StepBoth(m, end, arg, tt, left);
        left := left[1..];
        if PackedKey(key) {
          if key[1] == LETTER_M {
            var tmp;
            ghost var parse := ParseValue(left, EmptyValue);
            outcome, tt, tmp := ParseOscValue(m, end, arg, tt, EmptyValue, left);
            if outcome != Parsed {
              return;
            }
            res := Unpack(tmp);
            left := parse.rest;
          }
        } else {
          var tmp;
          ghost var parse := ParseValue(left, EmptyValue);
          outcome, tt, tmp := ParseOscValue(m, end, arg, tt, EmptyValue, left);
          if outcome != Parsed {
            return;
          }
          res := SetKey(res, key, tmp);
          left := parse.rest;
        }
        Look(m, end, tt, arg.argument, left);
      } else {
        HashElse(left, res);
        if m[tt] == HASH_END_TAG {
          return; // do not eat ending '}'
        }
        outcome := LeftTheTags; // prunes to "", which the caller then steps over
        return;
      }
    }
    HashDone(res);
  }

  /** value_from_osc, on every message that Init accepted with its blobs inside: it answers what the
      specification says of the arguments that were written. */
  method ValueFromOsc(m: seq<Byte>) returns (outcome: Outcome, res: Value)
    requires Validate(m).Accepted? && BlobsInside(m, Validate(m).view)
    ensures var parse := ParseArray(Decode(m).arguments, EmptyValue, EmptyValue);
            && (parse.Got? <==> outcome == Parsed) && (parse.Undefined? <==> outcome == LeftTheTags)
            && (parse.Got? ==> res == parse.value)
    ensures var scan := TagBalance.Scan([TagBalance.InList], Decode(m).arguments);
            (outcome == Parsed <==> scan.Parses?) && (outcome == Loops <==> scan.Hangs?)
  {
    hide ParseValue, ParseArray, ParseHash, Validate, Ahead, BlobsFit, TagBalance.Scan;
    TagBalance.ParsesExactly(Decode(m).arguments);
    hide Decode;
    var message := new ReceivedMessage(m);
    var result := message.Init();
    if message.typeTagsBegin == -1 {
      NoArguments(m);
      ArrayEnd([], EmptyValue, EmptyValue);
      return Parsed, EmptyValue; // no type tags: set_empty
    }
    var TypeTags(begin, end, first) := result.view;
    AcceptedIsAhead(m);
    var arg := new ReceivedMessageArgumentIterator(m, begin, first);
    var tt;
    outcome, tt, res := ParseOscArray(m, end, arg, begin, EmptyValue, Decode(m).arguments);
  }

  lemma NoArguments(m: seq<Byte>)
    requires Validate(m) == Accepted(NoTypeTags)
    ensures Decode(m).Message? && Decode(m).arguments == []
  {
    hide Validate, CString;
  }

  lemma AcceptedIsAhead(m: seq<Byte>)
    requires Validate(m).Accepted? && Validate(m).view.TypeTags?
    requires BlobsInside(m, Validate(m).view)
    ensures Decode(m).Message?
    ensures var TypeTags(begin, end, first) := Validate(m).view; Ahead(m, end, begin, first, Decode(m).arguments)
  {
    hide Validate, Items, Ahead, WalksInside, BlobsFit, CString;
    var TypeTags(begin, end, first) := Validate(m).view;
    AcceptedMessagesWalk(m);
    TagsTerminated(m);
    ItemsAhead(m, begin, end, first);
  }

  /** The NUL that ends the type tags lies inside the message. */
  lemma TagsTerminated(m: seq<Byte>)
    requires Validate(m).Accepted? && Validate(m).view.TypeTags?
    ensures Validate(m).view.end < |m| && m[Validate(m).view.end] == NUL
  {
    hide Check;
    var begin := Validate(m).view.begin;
    Str4EndBounds(m, 0);
    ScanFinds(m, begin + 2);
    NulStops(m, begin, ScanNul(m, begin + 2).value - 1);
    CStringSlice(m, begin);
  }

  lemma {:induction false} ScanFinds(m: seq<Byte>, q: nat)
    requires ScanNul(m, q).Some?
    ensures m[ScanNul(m, q).value - 1] == NUL
    decreases |m| - q
  {
    if m[q] != NUL {
      ScanFinds(m, q + 4);
    }
  }

  lemma {:induction false} NulStops(m: seq<Byte>, p: nat, q: nat)
    requires p <= q < |m| && m[q] == NUL
    ensures p + |CString(m, p)| <= q
    decreases q - p
  {
    if p < q && m[p] != NUL {
      NulStops(m, p + 1, q);
    }
  }
}
