/** Message boundaries in a growing buffer: `find_complete_message` and the
    laws a stream consumer relies on. */
module Framing {
  import opened Bytes
  import opened Decimal
  import opened Message
  import opened MessageLaws

  const TRAILER_LEN: nat := 7

  /** The two ways the call does not return are outcomes of their own:
      `SlicePanic` is the range that starts after its end, `LengthOverflow`
      the declared length that does not fit in a `usize`. */
  datatype Outcome =
    | NeedMore
    | Complete(length: nat)
    | Malformed
    | SlicePanic
    | LengthOverflow

  function FindCompleteMessage(buf: bytes): (verdict: Outcome)
    ensures verdict.Complete? ==> 0 < verdict.length <= |buf|
  {
    if |buf| < 2 then NeedMore
    else if buf[..2] != [0x38, EQUALS] then Malformed
    else
      match Position(buf, SOH)
      case None => NeedMore
      case Some(tag8End) => AfterBeginString(|buf|, tag8End, buf[tag8End + 1..])
  }

  function AfterBeginString(bufLen: nat, tag8End: nat, rest: bytes): Outcome {
    if |rest| >= 2 && rest[..2] != [0x39, EQUALS] then Malformed
    else
      match Position(rest, SOH)
      case None => NeedMore
      case Some(tag9End) =>
        if tag9End < 2 then SlicePanic
        else Total(bufLen, tag8End + 1 + tag9End + 1, rest[2..tag9End])
  }

  function Total(bufLen: nat, headerLen: nat, digits: bytes): Outcome {
    match ParseUint(digits, USIZE_MAX)
    case None => Malformed
    case Some(bodyLen) =>
      var total := headerLen + bodyLen + TRAILER_LEN;
      if total > USIZE_MAX then LengthOverflow
      else if bufLen < total then NeedMore
      else Complete(total)
  }

  // ---------------------------------------------------------------------
  // Shape of a frame
  // ---------------------------------------------------------------------

  function Header(begin: bytes, digits: bytes): bytes {
    [0x38, EQUALS] + begin + [SOH] + [0x39, EQUALS] + digits + [SOH]
  }

  lemma Delimited(first: byte, text: bytes, tail: bytes)
    requires first != SOH && SOH !in text
    ensures var s := [first, EQUALS] + text + [SOH] + tail;
            && s[..2] == [first, EQUALS]
            && Position(s, SOH) == Some(2 + |text|)
            && s[2..2 + |text|] == text
            && s[2 + |text| + 1..] == tail
  {
    PositionOfDelimiter([first, EQUALS] + text, SOH, tail);
  }

  lemma HeaderSplits(begin: bytes, digits: bytes, tail: bytes)
    ensures Header(begin, digits) + tail
         == [0x38, EQUALS] + begin + [SOH] + ([0x39, EQUALS] + digits + [SOH] + tail)
    ensures |Header(begin, digits)| == 2 + |begin| + 1 + 2 + |digits| + 1
  {}

  /** A header that has fully arrived decides everything. */
  lemma FindAfterHeader(begin: bytes, digits: bytes, tail: bytes)
    requires SOH !in begin && SOH !in digits
    ensures FindCompleteMessage(Header(begin, digits) + tail)
         == Total(|Header(begin, digits) + tail|, |Header(begin, digits)|, digits)
  {
    hide Total, Header, FindCompleteMessage;
    HeaderSplits(begin, digits, tail);
    Delimited(0x38, begin, [0x39, EQUALS] + digits + [SOH] + tail);
    Delimited(0x39, digits, tail);
    FindFrom(Header(begin, digits) + tail, 2 + |begin|, 2 + |digits|);
  }

  lemma FindFrom(buf: bytes, i: nat, j: nat)
    requires |buf| >= 2 && buf[..2] == [0x38, EQUALS] && Position(buf, SOH) == Some(i)
    requires |buf[i + 1..]| >= 2 && buf[i + 1..][..2] == [0x39, EQUALS] && Position(buf[i + 1..], SOH) == Some(j)
    ensures 2 <= j && FindCompleteMessage(buf) == Total(|buf|, i + 1 + j + 1, buf[i + 1..][2..j])
  {
    hide Total;
    var rest := buf[i + 1..];
    assert rest[0] == rest[..2][0] && rest[1] == rest[..2][1];
  }

  /** `8=` BeginString SOH `9=` digits SOH at the start of a buffer, the digits
      reading as a body length. */
  ghost predicate Declares(buf: bytes, begin: bytes, digits: bytes) {
    && SOH !in begin && SOH !in digits
    && Header(begin, digits) <= buf
    && ParseUint(digits, USIZE_MAX).Some?
  }

  /** The length a header declares for its whole message. */
  function DeclaredLength(begin: bytes, digits: bytes): nat
    requires ParseUint(digits, USIZE_MAX).Some?
  {
    |Header(begin, digits)| + ParseUint(digits, USIZE_MAX).value + TRAILER_LEN
  }

  /** A declared length decides the verdict. */
  lemma DeclaredVerdict(buf: bytes, begin: bytes, digits: bytes)
    requires Declares(buf, begin, digits)
    ensures var n := DeclaredLength(begin, digits);
            FindCompleteMessage(buf)
            == if n > USIZE_MAX then LengthOverflow else if |buf| < n then NeedMore else Complete(n)
  {
    hide FindCompleteMessage;
    var header := Header(begin, digits);
    assert buf == header + buf[|header|..];
    FindAfterHeader(begin, digits, buf[|header|..]);
  }

  /** The two delimiters seen, with `8=` and `9=` in front of what they end. */
  predicate ShowsHeader(buf: bytes) {
    && |buf| >= 2 && buf[..2] == [0x38, EQUALS] && SOH in buf
    && var rest := buf[Position(buf, SOH).value + 1..];
       |rest| >= 2 && rest[..2] == [0x39, EQUALS] && SOH in rest
  }

  lemma HeaderAt(buf: bytes) returns (begin: bytes, digits: bytes)
    requires ShowsHeader(buf)
    ensures SOH !in begin && SOH !in digits && Header(begin, digits) <= buf
  {
    var i := Position(buf, SOH).value;
    var rest := buf[i + 1..];
    var j := Position(rest, SOH).value;
    assert rest[0] == rest[..2][0] && rest[1] == rest[..2][1];
    begin, digits := buf[2..i], rest[2..j];
    HeaderSlice(buf, i, j);
    hide *;
    assert SOH !in begin by { assert forall b | b in begin :: b in buf[..i]; }
    assert SOH !in digits by { assert forall b | b in digits :: b in rest[..j]; }
  }

  /** Both verdicts that rest on a declared length come from a header. */
  lemma HeaderParts(buf: bytes) returns (begin: bytes, digits: bytes)
    requires FindCompleteMessage(buf).Complete? || FindCompleteMessage(buf).LengthOverflow?
    ensures Declares(buf, begin, digits)
  {
    hide Header;
    assert ShowsHeader(buf);
    begin, digits := HeaderAt(buf);
    FindAfterHeader(begin, digits, buf[|Header(begin, digits)|..]);
    assert buf == Header(begin, digits) + buf[|Header(begin, digits)|..];
  }

  ghost predicate IsFrame(buf: bytes, begin: bytes, digits: bytes, n: nat) {
    Declares(buf, begin, digits) && DeclaredLength(begin, digits) == n && n <= |buf| && n <= USIZE_MAX
  }

  /** `Complete` is reported exactly for buffers that start with such a header
      and already hold the body and the seven trailer bytes. */
  lemma CompleteIff(buf: bytes, n: nat)
    ensures FindCompleteMessage(buf) == Complete(n) <==>
            exists begin: bytes, digits: bytes :: IsFrame(buf, begin, digits, n)
  {
    hide FindCompleteMessage, DeclaredLength, Declares;
    if FindCompleteMessage(buf) == Complete(n) {
      var begin, digits := HeaderParts(buf);
      DeclaredVerdict(buf, begin, digits);
      assert IsFrame(buf, begin, digits, n);
    }
    forall begin: bytes, digits: bytes | IsFrame(buf, begin, digits, n)
      ensures FindCompleteMessage(buf) == Complete(n)
    {
      DeclaredVerdict(buf, begin, digits);
    }
  }

  ghost predicate IsOversized(buf: bytes, begin: bytes, digits: bytes) {
    Declares(buf, begin, digits) && DeclaredLength(begin, digits) > USIZE_MAX
  }

  /** The addition overflows exactly for buffers that start with a header whose
      declared length, header and trailer included, does not fit. */
  lemma LengthOverflowIff(buf: bytes)
    ensures FindCompleteMessage(buf) == LengthOverflow <==>
            exists begin: bytes, digits: bytes :: IsOversized(buf, begin, digits)
  {
    hide FindCompleteMessage, DeclaredLength, Declares;
    if FindCompleteMessage(buf) == LengthOverflow {
      var begin, digits := HeaderParts(buf);
      DeclaredVerdict(buf, begin, digits);
      assert IsOversized(buf, begin, digits);
    }
    forall begin: bytes, digits: bytes | IsOversized(buf, begin, digits)
      ensures FindCompleteMessage(buf) == LengthOverflow
    {
      DeclaredVerdict(buf, begin, digits);
    }
  }

  lemma HeaderSlice(buf: bytes, i: nat, j: nat)
    requires 2 <= i && i + 1 + j < |buf| && 2 <= j
    requires buf[..2] == [0x38, EQUALS] && buf[i] == SOH
    requires buf[i + 1..][..2] == [0x39, EQUALS] && buf[i + 1 + j] == SOH
    ensures Header(buf[2..i], buf[i + 1..][2..j]) == buf[..i + 1 + j + 1]
  {
    var rest := buf[i + 1..];
    UpToDelimiter(buf, 0x38, i);
    UpToDelimiter(rest, 0x39, j);
    Associate([0x38, EQUALS] + buf[2..i] + [SOH], [0x39, EQUALS], rest[2..j], [SOH]);
    assert buf[..i + 1] + rest[..j + 1] == buf[..i + 1 + j + 1];
  }

  lemma UpToDelimiter(s: bytes, a: byte, i: nat)
    requires |s| >= 2 && s[..2] == [a, EQUALS] && i < |s| && s[i] == SOH && a != SOH
    ensures 2 <= i && s[..i + 1] == [a, EQUALS] + s[2..i] + [SOH]
  {
    assert s[0] == s[..2][0] && s[1] == s[..2][1];
    assert s[..i] == [a, EQUALS] + s[2..i];
  }

  // ---------------------------------------------------------------------
  // Prefix laws
  // ---------------------------------------------------------------------

  /** A verdict other than "need more" survives later bytes, with one
      exception: the slice panic turns into a plain error. */
  lemma ExtensionLaw(buf: bytes, ext: bytes)
    ensures match FindCompleteMessage(buf)
            case NeedMore => true
            case SlicePanic => ext != [] ==> FindCompleteMessage(buf + ext) == Malformed
            case verdict => FindCompleteMessage(buf + ext) == verdict
  {
    if |buf| >= 2 {
      assert (buf + ext)[..2] == buf[..2];
      if SOH in buf {
        PositionExtends(buf, ext, SOH);
        var i := Position(buf, SOH).value;
        assert (buf + ext)[i + 1..] == buf[i + 1..] + ext;
        ExtendRest(|buf|, i, buf[i + 1..], ext);
      }
    }
  }

  lemma ExtendRest(bufLen: nat, i: nat, rest: bytes, ext: bytes)
    ensures match AfterBeginString(bufLen, i, rest)
            case NeedMore => true
            case SlicePanic => ext != [] ==> AfterBeginString(bufLen + |ext|, i, rest + ext) == Malformed
            case verdict => AfterBeginString(bufLen + |ext|, i, rest + ext) == verdict
  {
    if |rest| >= 2 { assert (rest + ext)[..2] == rest[..2]; }
    if SOH in rest {
      PositionExtends(rest, ext, SOH);
      var j := Position(rest, SOH).value;
      if 2 <= j {
        assert (rest + ext)[2..j] == rest[2..j];
      } else if ext != [] && |rest| == 1 {
        assert (rest + ext)[..2][0] == SOH;
      }
    }
  }

  /** A complete message is complete on its own, and nothing shorter is. */
  lemma CompleteIsMinimal(buf: bytes, k: nat)
    requires FindCompleteMessage(buf).Complete?
    requires k <= |buf|
    ensures FindCompleteMessage(buf[..k])
         == if k < FindCompleteMessage(buf).length then NeedMore else FindCompleteMessage(buf)
  {
    hide FindCompleteMessage;
    var begin, digits := HeaderParts(buf);
    var header, cut := Header(begin, digits), buf[..k];
    DeclaredVerdict(buf, begin, digits);
    if |header| <= k {
      DeclaredVerdict(cut, begin, digits);
    } else {
      assert cut == header[..k];
      HeaderPrefixNeedsMore(begin, digits, k);
    }
  }

  lemma HeaderPrefixNeedsMore(begin: bytes, digits: bytes, k: nat)
    requires SOH !in begin && SOH !in digits
    requires k < |Header(begin, digits)|
    ensures FindCompleteMessage(Header(begin, digits)[..k]) == NeedMore
  {
    hide Total;
    var front, back: bytes := [0x38, EQUALS] + begin, [0x39, EQUALS] + digits;
    HeaderCut(begin, digits, k);
    if k <= |front| {
      assert SOH !in front[..k];
      if 2 <= k { assert front[..k][..2] == [0x38, EQUALS]; }
    } else {
      var rest := back[..k - |front| - 1];
      Delimited(0x38, begin, rest);
      assert SOH !in rest;
      if 2 <= |rest| { assert rest[..2] == [0x39, EQUALS]; }
    }
  }

  lemma HeaderCut(begin: bytes, digits: bytes, k: nat)
    requires k < |Header(begin, digits)|
    ensures var front, back: bytes := [0x38, EQUALS] + begin, [0x39, EQUALS] + digits;
            Header(begin, digits)[..k]
            == if k <= |front| then front[..k] else front + [SOH] + back[..k - |front| - 1]
  {
    var front, back: bytes := [0x38, EQUALS] + begin, [0x39, EQUALS] + digits;
    assert Header(begin, digits) == front + [SOH] + (back + [SOH]);
  }

  // ---------------------------------------------------------------------
  // Exactly which buffers wait for more
  // ---------------------------------------------------------------------

  ghost predicate StartsHeader(buf: bytes, begin: bytes, digits: bytes) {
    SOH !in begin && SOH !in digits && buf < Header(begin, digits)
  }

  /** One byte after BeginString, not yet compared with `9=`. */
  predicate OneByteIn(buf: bytes, begin: bytes, b: byte) {
    SOH !in begin && b != SOH && buf == [0x38, EQUALS] + begin + [SOH] + [b]
  }

  ghost predicate Awaits(buf: bytes, begin: bytes, digits: bytes) {
    Declares(buf, begin, digits) && |buf| < DeclaredLength(begin, digits) <= USIZE_MAX
  }

  /** Fewer than two bytes, the beginning of some header, one byte after
      BeginString, or a header that declares a length not reached yet. */
  ghost predicate IsUnderWay(buf: bytes) {
    || |buf| < 2
    || (exists begin: bytes, digits: bytes :: StartsHeader(buf, begin, digits))
    || (exists begin: bytes, b: byte :: OneByteIn(buf, begin, b))
    || (exists begin: bytes, digits: bytes :: Awaits(buf, begin, digits))
  }

  lemma NeedMoreIff(buf: bytes)
    ensures FindCompleteMessage(buf) == NeedMore <==> IsUnderWay(buf)
  {
    hide FindCompleteMessage, StartsHeader, OneByteIn, Awaits;
    if FindCompleteMessage(buf) == NeedMore && |buf| >= 2 { WhyNeedMore(buf); }
    if |buf| < 2 { TooShort(buf); }
    forall begin: bytes, digits: bytes | StartsHeader(buf, begin, digits)
      ensures FindCompleteMessage(buf) == NeedMore
    {
      StartNeedsMore(buf, begin, digits);
    }
    forall begin: bytes, b: byte | OneByteIn(buf, begin, b) ensures FindCompleteMessage(buf) == NeedMore {
      OneByteNeedsMore(buf, begin, b);
    }
    forall begin: bytes, digits: bytes | Awaits(buf, begin, digits) ensures FindCompleteMessage(buf) == NeedMore {
      AwaitingNeedsMore(buf, begin, digits);
    }
  }

  lemma TooShort(buf: bytes)
    requires |buf| < 2
    ensures FindCompleteMessage(buf) == NeedMore
  {}

  lemma StartNeedsMore(buf: bytes, begin: bytes, digits: bytes)
    requires StartsHeader(buf, begin, digits)
    ensures FindCompleteMessage(buf) == NeedMore
  {
    hide FindCompleteMessage, Header;
    HeaderPrefixNeedsMore(begin, digits, |buf|);
    assert buf == Header(begin, digits)[..|buf|];
  }

  lemma OneByteNeedsMore(buf: bytes, begin: bytes, b: byte)
    requires OneByteIn(buf, begin, b)
    ensures FindCompleteMessage(buf) == NeedMore
  {
    Delimited(0x38, begin, [b]);
  }

  lemma AwaitingNeedsMore(buf: bytes, begin: bytes, digits: bytes)
    requires Awaits(buf, begin, digits)
    ensures FindCompleteMessage(buf) == NeedMore
  {
    hide FindCompleteMessage, Declares, DeclaredLength;
    DeclaredVerdict(buf, begin, digits);
  }

  lemma WhyNeedMore(buf: bytes)
    requires FindCompleteMessage(buf) == NeedMore && |buf| >= 2
    ensures || (exists begin: bytes, digits: bytes :: StartsHeader(buf, begin, digits))
            || (exists begin: bytes, b: byte :: OneByteIn(buf, begin, b))
            || (exists begin: bytes, digits: bytes :: Awaits(buf, begin, digits))
  {
    hide Total, Header;
    if SOH !in buf {
      HeaderSplits(buf[2..], [], []);
      assert buf == [0x38, EQUALS] + buf[2..];
      assert StartsHeader(buf, buf[2..], []) by { PrefixOfHeader(buf[2..], [], buf); }
    } else if ShowsHeader(buf) {
      var begin, digits := HeaderAt(buf);
      FindAfterHeader(begin, digits, buf[|Header(begin, digits)|..]);
      assert buf == Header(begin, digits) + buf[|Header(begin, digits)|..];
      TotalNeedsMore(|buf|, |Header(begin, digits)|, digits);
      assert Awaits(buf, begin, digits);
    } else {
      HeaderUnderWay(buf);
    }
  }

  lemma TotalNeedsMore(bufLen: nat, headerLen: nat, digits: bytes)
    requires Total(bufLen, headerLen, digits) == NeedMore
    ensures ParseUint(digits, USIZE_MAX).Some?
    ensures bufLen < headerLen + ParseUint(digits, USIZE_MAX).value + TRAILER_LEN <= USIZE_MAX
  {}

  lemma PrefixOfHeader(begin: bytes, digits: bytes, buf: bytes)
    requires buf == [0x38, EQUALS] + begin || buf == [0x38, EQUALS] + begin + [SOH]
             || buf == [0x38, EQUALS] + begin + [SOH] + ([0x39, EQUALS] + digits)
    ensures buf < Header(begin, digits)
  {
    HeaderSplits(begin, digits, []);
    assert Header(begin, digits) + [] == Header(begin, digits);
    assert [0x39, EQUALS] + digits + [SOH] + [] == [0x39, EQUALS] + digits + [SOH];
  }

  lemma HeaderUnderWay(buf: bytes)
    requires |buf| >= 2 && buf[..2] == [0x38, EQUALS] && SOH in buf
    requires var rest := buf[Position(buf, SOH).value + 1..];
             SOH !in rest && (|rest| >= 2 ==> rest[..2] == [0x39, EQUALS])
    ensures || (exists begin: bytes, digits: bytes :: StartsHeader(buf, begin, digits))
            || (exists begin: bytes, b: byte :: OneByteIn(buf, begin, b))
  {
    hide Header;
    var i := Position(buf, SOH).value;
    var begin, rest := buf[2..i], buf[i + 1..];
    UpToDelimiter(buf, 0x38, i);
    assert buf == [0x38, EQUALS] + begin + [SOH] + rest;
    assert SOH !in begin by { assert forall b | b in begin :: b in buf[..i]; }
    if |rest| == 0 {
      PrefixOfHeader(begin, [], buf);
      assert StartsHeader(buf, begin, []);
    } else if |rest| == 1 {
      assert rest[0] in rest;
      assert OneByteIn(buf, begin, rest[0]);
    } else {
      assert rest == [0x39, EQUALS] + rest[2..];
      PrefixOfHeader(begin, rest[2..], buf);
      assert StartsHeader(buf, begin, rest[2..]);
    }
  }

  // ---------------------------------------------------------------------
  // Exactly when the call does not return
  // ---------------------------------------------------------------------

  predicate EndsDoubled(buf: bytes) {
    && |buf| >= 4 && buf[..2] == [0x38, EQUALS]
    && Position(buf, SOH) == Some(|buf| - 2) && buf[|buf| - 1] == SOH
  }

  /** The slice panics exactly when the buffer ends with the SOH of
      BeginString followed by one more SOH. */
  lemma SlicePanicIff(buf: bytes)
    ensures FindCompleteMessage(buf) == SlicePanic <==> EndsDoubled(buf)
  {
    if |buf| >= 2 && SOH in buf && buf[..2] == [0x38, EQUALS] {
      var i := Position(buf, SOH).value;
      var rest := buf[i + 1..];
      assert buf[0] == buf[..2][0] && buf[1] == buf[..2][1];
      if |rest| >= 2 && rest[..2] == [0x39, EQUALS] {
        assert rest[0] == rest[..2][0] && rest[1] == rest[..2][1];
      }
      if |rest| == 1 { assert rest[0] == buf[|buf| - 1]; }
    }
  }

  /** So the error is exactly for what is left: bytes that are not the beginning
      of a frame, nor a frame and more, nor one of the two faults. */
  lemma MalformedIff(buf: bytes)
    ensures FindCompleteMessage(buf) == Malformed <==>
            && !IsUnderWay(buf)
            && !EndsDoubled(buf)
            && (forall begin: bytes, digits: bytes, n: nat :: !IsFrame(buf, begin, digits, n))
            && (forall begin: bytes, digits: bytes :: !IsOversized(buf, begin, digits))
  {
    hide FindCompleteMessage, IsUnderWay, EndsDoubled, IsFrame, IsOversized;
    NeedMoreIff(buf);
    SlicePanicIff(buf);
    LengthOverflowIff(buf);
    if FindCompleteMessage(buf).Complete? { CompleteIff(buf, FindCompleteMessage(buf).length); }
    forall begin: bytes, digits: bytes, n: nat | IsFrame(buf, begin, digits, n)
      ensures FindCompleteMessage(buf) == Complete(n)
    {
      CompleteIff(buf, n);
    }
  }

  // ---------------------------------------------------------------------
  // Re-printed messages frame themselves
  // ---------------------------------------------------------------------

  /** Whatever follows it, a message printed by `set_field` is found as one
      frame of exactly its own length, for any new value; and its three
      trailer digits are the byte sum modulo 256 of everything before `10=`.
      The length bound is the address-space limit on a byte vector. */
  lemma SelfFraming(s: bytes, t: tag, v: bytes, rest: bytes)
    requires Settable(s)
    requires |SetField(s, t, v).message| <= USIZE_MAX
    ensures var out := SetField(s, t, v).message;
            && FindCompleteMessage(out + rest) == Complete(|out|)
            && HasValidTrailer(out)
  {
    SettablePartsAreSohFree(s);
    EncodedFrames(BeginString(s), Replace(BodyOf(s), t, v), rest);
  }

  predicate HasValidTrailer(m: bytes) {
    && |m| >= TRAILER_LEN
    && m[|m| - 7..|m| - 4] == [0x31, 0x30, EQUALS]
    && AllDigits(m[|m| - 4..|m| - 1])
    && Value(m[|m| - 4..|m| - 1]) == Sum(m[..|m| - 7]) % 256
    && m[|m| - 1] == SOH
  }

  lemma EncodedFrames(begin: bytes, fs: seq<Field>, rest: bytes)
    requires SOH !in begin
    requires |Encode(begin, fs)| <= USIZE_MAX
    ensures FindCompleteMessage(Encode(begin, fs) + rest) == Complete(|Encode(begin, fs)|)
    ensures HasValidTrailer(Encode(begin, fs))
  {
    hide FindCompleteMessage, HasValidTrailer, Header, Trailer, Print, ParseUint, Front;
    var body := Render(fs);
    var front, digits, out := Front(begin, body), Print(|body|), Encode(begin, fs);
    var header := Header(begin, digits);
    DigitsAvoid(digits, SOH);
    FrontIsHeader(begin, body);
    TrailerIsValid(front);
    assert out + rest == header + (body + Trailer(front) + rest);
    FindAfterHeader(begin, digits, body + Trailer(front) + rest);
    PrintRoundTrip(|body|, USIZE_MAX);
  }

  lemma FrontIsHeader(begin: bytes, body: bytes)
    ensures Front(begin, body) == Header(begin, Print(|body|)) + body
  {
    hide Print;
  }

  lemma TrailerIsValid(front: bytes)
    ensures HasValidTrailer(front + Trailer(front))
  {
    var m := front + Trailer(front);
    assert m[|m| - 7..|m| - 4] == [0x31, 0x30, EQUALS];
    assert m[|m| - 4..|m| - 1] == PrintThree(Sum(front) % 256);
    assert m[..|m| - 7] == front;
  }

  /** A framed message that parses starts with tag 8, so the `expect` in
      `set_field` cannot fire on it. */
  lemma FramedIsSettable(buf: bytes)
    requires FindCompleteMessage(buf).Complete?
    requires Parse(buf[..FindCompleteMessage(buf).length]).Ok?
    ensures var frame := buf[..FindCompleteMessage(buf).length];
            && Parse(frame).value[0].tag == 8
            && Settable(frame)
            && Parse(frame).value[0].value == BeginString(frame)
  {
    hide FindCompleteMessage, Header, FieldsOf;
    var frame := buf[..FindCompleteMessage(buf).length];
    var begin, digits := HeaderParts(buf);
    var first: bytes := [0x38, EQUALS] + begin;
    DeclaredVerdict(buf, begin, digits);
    HeaderStart(begin, digits, frame);
    ParseBegin(begin, frame[|first| + 1..]);
  }

  lemma HeaderStart(begin: bytes, digits: bytes, s: bytes)
    requires Header(begin, digits) <= s
    ensures 2 + |begin| < |s| && s == [0x38, EQUALS] + begin + [SOH] + s[2 + |begin| + 1..]
  {
    assert s[..2 + |begin| + 1] == [0x38, EQUALS] + begin + [SOH];
  }

  lemma ParseBegin(begin: bytes, tail: bytes)
    requires SOH !in begin
    ensures var s := [0x38, EQUALS] + begin + [SOH] + tail;
            FieldsOf(s).Ok? ==> FieldsOf(s).value != [] && FieldsOf(s).value[0] == Field(8, begin)
  {
    assert Print(8) == [0x38] && [0x38] + [EQUALS] == [0x38, EQUALS];
    FieldsOfPiece(Field(8, begin));
    FieldsOfConcat(Piece(Field(8, begin)), tail);
  }
}
