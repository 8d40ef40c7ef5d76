/** FIX messages: the tag=value parser, the CheckSum and `set_field`, the
    re-printer that recomputes BodyLength (9) and CheckSum (10). */
module Message {
  import opened Words
  import opened Bytes
  import opened Decimal

  datatype ParseError = Empty | MissingSoh | MalformedTag
  datatype Result<+T> = Ok(value: T) | Err(error: ParseError)

  type tag = u32
  datatype Field = Field(tag: tag, value: bytes)

  // ---------------------------------------------------------------------
  // Parsing
  // ---------------------------------------------------------------------

  /** The pieces between SOH bytes; always at least one. */
  function Split(s: bytes): (pieces: seq<bytes>)
    ensures forall p | p in pieces :: SOH !in p
    decreases |s|
  {
    match Position(s, SOH)
    case None => [s]
    case Some(i) => [s[..i]] + Split(s[i + 1..])
  }

  function ParseField(piece: bytes): (r: Result<Field>)
    ensures SOH !in piece && r.Ok? ==> SOH !in r.value.value
  {
    match Position(piece, EQUALS)
    case None => Err(MalformedTag)
    case Some(eq) =>
      match ParseUint(piece[..eq], U32_MAX)
      case None => Err(MalformedTag)
      case Some(t) => Ok(Field(t, piece[eq + 1..]))
  }

  function Join(a: Result<seq<Field>>, b: Result<seq<Field>>): Result<seq<Field>> {
    if a.Err? then a else if b.Err? then b else Ok(a.value + b.value)
  }

  /** Empty pieces are skipped; the first malformed piece is the error. */
  function ParsePieces(pieces: seq<bytes>): Result<seq<Field>> {
    if pieces == [] then Ok([])
    else if pieces[0] == [] then ParsePieces(pieces[1..])
    else
      match ParseField(pieces[0])
      case Err(e) => Err(e)
      case Ok(f) => Join(Ok([f]), ParsePieces(pieces[1..]))
  }

  function FieldsOf(s: bytes): Result<seq<Field>> {
    ParsePieces(Split(s))
  }

  function Parse(s: bytes): Result<seq<Field>> {
    if s == [] then Err(Empty)
    else if FieldsOf(s) == Ok([]) then Err(MissingSoh)
    else FieldsOf(s)
  }

  method ParseMessage(s: bytes) returns (r: Result<seq<Field>>)
    ensures r == Parse(s)
  {
    if s == [] { return Err(Empty); }
    var fields: seq<Field> := [];
    var pieces := Split(s);
    assert pieces[0..] == pieces;
    if FieldsOf(s).Ok? { assert fields + FieldsOf(s).value == FieldsOf(s).value; }
    for i := 0 to |pieces|
      invariant FieldsOf(s) == Join(Ok(fields), ParsePieces(pieces[i..]))
    {
      assert pieces[i..][0] == pieces[i] && pieces[i..][1..] == pieces[i + 1..];
      if pieces[i] != [] {
        var field := ParseField(pieces[i]);
        if field.Err? { return Err(field.error); }
        assert fields + ([field.value] + []) == fields + [field.value];
        JoinAssociates(Ok(fields), Ok([field.value]), ParsePieces(pieces[i + 1..]));
        fields := fields + [field.value];
      }
    }
    assert fields + [] == fields;
    r := if fields == [] then Err(MissingSoh) else Ok(fields);
  }

  lemma JoinAssociates(a: Result<seq<Field>>, b: Result<seq<Field>>, c: Result<seq<Field>>)
    ensures Join(Join(a, b), c) == Join(a, Join(b, c))
  {
    if a.Ok? && b.Ok? && c.Ok? { assert a.value + b.value + c.value == a.value + (b.value + c.value); }
  }

  lemma {:induction false} SplitConcat(a: bytes, b: bytes)
    ensures Split(a + [SOH] + b) == Split(a) + Split(b)
    decreases |a|
  {
    var s := a + [SOH] + b;
    match Position(a, SOH)
    case None =>
      PositionOfDelimiter(a, SOH, b);
      assert s[..|a|] == a && s[|a| + 1..] == b;
    case Some(i) =>
      assert s[..i] == a[..i] && s[i + 1..] == a[i + 1..] + [SOH] + b;
      PositionIs(s, SOH, i);
      SplitConcat(a[i + 1..], b);
      assert [a[..i]] + (Split(a[i + 1..]) + Split(b)) == Split(a) + Split(b);
  }

  lemma {:induction false} ParsePiecesConcat(p: seq<bytes>, q: seq<bytes>)
    ensures ParsePieces(p + q) == Join(ParsePieces(p), ParsePieces(q))
  {
    if p == [] {
      assert p + q == q;
      if ParsePieces(q).Ok? { assert [] + ParsePieces(q).value == ParsePieces(q).value; }
    } else {
      assert (p + q)[1..] == p[1..] + q;
      ParsePiecesConcat(p[1..], q);
      if p[0] != [] && ParseField(p[0]).Ok? {
        JoinAssociates(Ok([ParseField(p[0]).value]), ParsePieces(p[1..]), ParsePieces(q));
      }
    }
  }

  /** Parsing is compositional at every SOH. */
  lemma FieldsOfConcat(a: bytes, b: bytes)
    ensures FieldsOf(a + [SOH] + b) == Join(FieldsOf(a), FieldsOf(b))
  {
    SplitConcat(a, b);
    ParsePiecesConcat(Split(a), Split(b));
  }

  /** The pieces put back together with SOH between them. */
  function Joined(pieces: seq<bytes>): bytes
    requires pieces != []
  {
    if |pieces| == 1 then pieces[0] else pieces[0] + [SOH] + Joined(pieces[1..])
  }

  /** Splitting is exact: it is the one way to write a byte string as SOH-free
      pieces with SOH between them. */
  lemma {:induction false} SplitIff(s: bytes, pieces: seq<bytes>)
    requires pieces != [] && forall p | p in pieces :: SOH !in p
    ensures Split(s) == pieces <==> s == Joined(pieces)
    decreases |s| + |pieces|
  {
    match Position(s, SOH)
    case None =>
      if |pieces| > 1 { assert Joined(pieces)[|pieces[0]|] == SOH; }
    case Some(i) =>
      var head, tail := s[..i], s[i + 1..];
      assert s == head + [SOH] + tail;
      if |pieces| == 1 {
        assert pieces[0] in pieces;
        assert |Split(tail)| >= 1;
      } else {
        assert forall p | p in pieces[1..] :: p in pieces;
        SplitIff(tail, pieces[1..]);
        if s == Joined(pieces) {
          PositionOfDelimiter(pieces[0], SOH, Joined(pieces[1..]));
          assert s[..i] == pieces[0] && s[i + 1..] == Joined(pieces[1..]);
        }
      }
  }

  function NonEmpty(pieces: seq<bytes>): seq<bytes> {
    if pieces == [] then [] else (if pieces[0] == [] then [] else [pieces[0]]) + NonEmpty(pieces[1..])
  }

  /** A piece reads as a field: a tag number, the first `=`, the value. */
  ghost predicate Reads(piece: bytes, f: Field) {
    exists text: bytes :: ReadsAs(piece, text, f)
  }

  predicate ReadsAs(piece: bytes, text: bytes, f: Field) {
    EQUALS !in text && ParseUint(text, U32_MAX) == Some(f.tag) && piece == text + [EQUALS] + f.value
  }

  lemma ReadsIff(piece: bytes, f: Field)
    ensures Reads(piece, f) <==> ParseField(piece) == Ok(f)
  {
    hide ParseField, ReadsAs;
    if ParseField(piece) == Ok(f) { FieldIsRead(piece, f); }
    forall text: bytes | ReadsAs(piece, text, f) ensures ParseField(piece) == Ok(f) {
      ReadIsField(piece, text, f);
    }
  }

  lemma FieldIsRead(piece: bytes, f: Field)
    requires ParseField(piece) == Ok(f)
    ensures Reads(piece, f)
  {
    hide ParseUint;
    var eq := Position(piece, EQUALS).value;
    assert piece == piece[..eq] + [EQUALS] + piece[eq + 1..];
    assert ReadsAs(piece, piece[..eq], f);
  }

  lemma ReadIsField(piece: bytes, text: bytes, f: Field)
    requires ReadsAs(piece, text, f)
    ensures ParseField(piece) == Ok(f)
  {
    hide ParseUint;
    PositionOfDelimiter(text, EQUALS, f.value);
    assert piece[..|text|] == text && piece[|text| + 1..] == f.value;
  }

  /** Parsing is exact: it yields `fs` iff the non-empty pieces of the input
      read, one for one and in order, as the fields `fs`. */
  lemma {:induction false} ParsePiecesIff(pieces: seq<bytes>, fs: seq<Field>)
    ensures ParsePieces(pieces) == Ok(fs) <==>
            && |NonEmpty(pieces)| == |fs|
            && forall i :: 0 <= i < |fs| ==> Reads(NonEmpty(pieces)[i], fs[i])
    decreases |pieces|
  {
    hide Reads, ParseField;
    if pieces != [] {
      var rest := NonEmpty(pieces[1..]);
      if pieces[0] == [] {
        assert NonEmpty(pieces) == rest;
        ParsePiecesIff(pieces[1..], fs);
      } else if fs != [] {
        ReadsIff(pieces[0], fs[0]);
        ParsePiecesIff(pieces[1..], fs[1..]);
        ReadsInOrder(pieces[0], rest, fs);
        assert fs == [fs[0]] + fs[1..];
      }
    }
  }

  lemma ReadsInOrder(first: bytes, rest: seq<bytes>, fs: seq<Field>)
    requires fs != []
    ensures var pieces := [first] + rest;
            (|pieces| == |fs| && forall i :: 0 <= i < |fs| ==> Reads(pieces[i], fs[i]))
            <==> && Reads(first, fs[0])
                 && |rest| == |fs[1..]| && forall i :: 0 <= i < |fs[1..]| ==> Reads(rest[i], fs[1..][i])
  {
    hide Reads;
    var pieces := [first] + rest;
    assert forall i :: 0 < i < |fs| ==> fs[i] == fs[1..][i - 1];
    assert forall i :: 0 < i < |pieces| ==> pieces[i] == rest[i - 1];
    assert forall i :: 0 <= i < |fs| - 1 ==> fs[1..][i] == fs[i + 1];
    assert forall i :: 0 <= i < |rest| ==> rest[i] == pieces[i + 1];
  }

  /** No field reads so. */
  ghost predicate Unreadable(piece: bytes) {
    forall f: Field :: !Reads(piece, f)
  }

  lemma UnreadableIff(piece: bytes)
    ensures Unreadable(piece) <==> ParseField(piece) == Err(MalformedTag)
  {
    hide Reads;
    if ParseField(piece).Ok? {
      ReadsIff(piece, ParseField(piece).value);
    } else {
      forall f: Field ensures !Reads(piece, f) {
        ReadsIff(piece, f);
      }
    }
  }

  lemma {:induction false} PiecesFailIff(pieces: seq<bytes>)
    ensures ParsePieces(pieces) == Err(MalformedTag) <==> exists p :: p in NonEmpty(pieces) && Unreadable(p)
    ensures ParsePieces(pieces).Err? ==> ParsePieces(pieces) == Err(MalformedTag)
    decreases |pieces|
  {
    hide Unreadable, ParseField;
    if pieces != [] {
      PiecesFailIff(pieces[1..]);
      UnreadableIff(pieces[0]);
      FieldErrors(pieces[0]);
      if pieces[0] != [] { assert NonEmpty(pieces)[0] == pieces[0]; }
    }
  }

  lemma FieldErrors(piece: bytes)
    ensures ParseField(piece).Err? ==> ParseField(piece) == Err(MalformedTag)
  {}

  predicate AllEmpty(pieces: seq<bytes>) {
    forall i :: 0 <= i < |pieces| ==> pieces[i] == []
  }

  predicate OnlySoh(s: bytes) {
    forall i :: 0 <= i < |s| ==> s[i] == SOH
  }

  lemma AllEmptyFirst(pieces: seq<bytes>)
    requires pieces != []
    ensures AllEmpty(pieces) <==> pieces[0] == [] && AllEmpty(pieces[1..])
  {
    assert forall i :: 0 < i < |pieces| ==> pieces[i] == pieces[1..][i - 1];
  }

  lemma {:induction false} NoFieldsIff(pieces: seq<bytes>)
    ensures ParsePieces(pieces) == Ok([]) <==> AllEmpty(pieces)
    decreases |pieces|
  {
    hide ParseField, AllEmpty;
    if pieces == [] {
      assert AllEmpty(pieces) by { NothingIsEmpty(); }
    } else {
      AllEmptyFirst(pieces);
      NoFieldsIff(pieces[1..]);
    }
  }

  lemma NothingIsEmpty()
    ensures AllEmpty([]) && OnlySoh([])
  {}

  lemma {:induction false} OnlySohIff(s: bytes)
    ensures AllEmpty(Split(s)) <==> OnlySoh(s)
    decreases |s|
  {
    match Position(s, SOH)
    case None =>
      assert Split(s) == [s] && Split(s)[0] == s;
      if s != [] { assert s[0] != SOH; }
    case Some(i) =>
      hide AllEmpty, OnlySoh;
      OnlySohIff(s[i + 1..]);
      OnlySohStep(s, i);
      AllEmptyFirst(Split(s));
      assert Split(s)[0] == s[..i] && Split(s)[1..] == Split(s[i + 1..]);
  }

  lemma OnlySohStep(s: bytes, i: nat)
    requires i < |s| && s[i] == SOH && SOH !in s[..i]
    ensures OnlySoh(s) <==> s[..i] == [] && OnlySoh(s[i + 1..])
  {
    if i > 0 { assert s[0] in s[..i]; }
    assert forall j :: i < j < |s| ==> s[j] == s[i + 1..][j - i - 1];
  }

  /** Which error a message that does not parse gives: none of the input is
      there, none of it is a field, or some piece does not read. */
  lemma ParseErrorsIff(s: bytes)
    ensures Parse(s) == Err(Empty) <==> s == []
    ensures Parse(s) == Err(MissingSoh) <==> s != [] && OnlySoh(s)
    ensures Parse(s) == Err(MalformedTag) <==> exists p :: p in NonEmpty(Split(s)) && Unreadable(p)
  {
    hide ParsePieces, Unreadable, Split;
    NoFieldsIff(Split(s));
    OnlySohIff(s);
    PiecesFailIff(Split(s));
    if s == [] { NothingToRead(); }
  }

  lemma NothingToRead()
    ensures NonEmpty(Split([])) == []
  {
    assert Split([]) == [[]] && |Split([])[1..]| == 0;
  }

  predicate SohFree(fs: seq<Field>) {
    forall i :: 0 <= i < |fs| ==> SOH !in fs[i].value
  }

  lemma {:induction false} ParsedPiecesAreSohFree(pieces: seq<bytes>)
    requires forall p | p in pieces :: SOH !in p
    requires ParsePieces(pieces).Ok?
    ensures SohFree(ParsePieces(pieces).value)
  {
    if pieces != [] {
      assert pieces[0] in pieces;
      assert forall p | p in pieces[1..] :: p in pieces;
      ParsedPiecesAreSohFree(pieces[1..]);
    }
  }

  lemma ParsedIsSohFree(s: bytes)
    requires Parse(s).Ok?
    ensures SohFree(Parse(s).value)
  {
    ParsedPiecesAreSohFree(Split(s));
  }

  // ---------------------------------------------------------------------
  // Lookup
  // ---------------------------------------------------------------------

  function Get(fs: seq<Field>, t: int): (r: Option<bytes>)
    ensures r.None? <==> forall i :: 0 <= i < |fs| ==> fs[i].tag != t
    ensures r.Some? ==>
              exists i :: 0 <= i < |fs| && fs[i] == Field(t, r.value) && forall j :: 0 <= j < i ==> fs[j].tag != t
  {
    if fs == [] then None
    else if fs[0].tag == t then Some(fs[0].value)
    else
      var r := Get(fs[1..], t);
      assert forall i :: 0 < i < |fs| ==> fs[i] == fs[1..][i - 1];
      assert forall i :: 0 <= i < |fs| - 1 ==> fs[1..][i] == fs[i + 1];
      assert r.Some? ==>
          exists i :: 0 <= i < |fs| && fs[i] == Field(t, r.value) && forall j :: 0 <= j < i ==> fs[j].tag != t by {
        if r.Some? {
          var i :| 0 <= i < |fs| - 1 && fs[1..][i] == Field(t, r.value) && forall j :: 0 <= j < i ==> fs[1..][j].tag != t;
          assert fs[i + 1] == Field(t, r.value);
        }
      }
      r
  }

  predicate Is(fs: seq<Field>, t: int, expected: bytes) {
    Get(fs, t) == Some(expected)
  }

  // ---------------------------------------------------------------------
  // CheckSum
  // ---------------------------------------------------------------------

  function Sum(s: bytes): nat {
    if s == [] then 0 else Sum(s[..|s| - 1]) + s[|s| - 1]
  }

  /** The sum counts every byte once, with its own value. */
  lemma {:induction false} SumConcat(a: bytes, b: bytes)
    ensures Sum(a + b) == Sum(a) + Sum(b)
    ensures |b| == 1 ==> Sum(b) == b[0]
    decreases |b|
  {
    if b == [] {
      assert a + b == a;
    } else {
      assert (a + b)[..|a + b| - 1] == a + b[..|b| - 1];
      SumConcat(a, b[..|b| - 1]);
    }
  }

  method ComputeChecksum(s: bytes) returns (sum: byte)
    ensures sum == Sum(s) % 256
  {
    sum := 0;
    for i := 0 to |s|
      invariant sum == Sum(s[..i]) % 256
    {
      assert s[..i + 1][..i] == s[..i];
      sum := (sum + s[i]) % 256;
    }
    assert s[..|s|] == s;
  }

  // ---------------------------------------------------------------------
  // Printing and set_field
  // ---------------------------------------------------------------------

  function Piece(f: Field): bytes {
    Print(f.tag) + [EQUALS] + f.value
  }

  function Render(fs: seq<Field>): bytes {
    if fs == [] then [] else Piece(fs[0]) + [SOH] + Render(fs[1..])
  }

  predicate Structural(t: int) {
    t == 8 || t == 9 || t == 10
  }

  function Body(fs: seq<Field>): (body: seq<Field>)
    ensures forall i :: 0 <= i < |body| ==> !Structural(body[i].tag)
    ensures SohFree(fs) ==> SohFree(body)
  {
    if fs == [] then []
    else
      assert SohFree(fs) ==> SohFree(fs[1..]);
      (if Structural(fs[0].tag) then [] else [fs[0]]) + Body(fs[1..])
  }

  function Replace(fs: seq<Field>, t: int, v: bytes): (r: seq<Field>)
    ensures |r| == |fs|
    ensures forall i :: 0 <= i < |fs| ==> r[i] == Field(fs[i].tag, if fs[i].tag == t then v else fs[i].value)
  {
    if fs == [] then []
    else [Field(fs[0].tag, if fs[0].tag == t then v else fs[0].value)] + Replace(fs[1..], t, v)
  }

  /** Everything before the CheckSum field. */
  function Front(begin: bytes, body: bytes): bytes {
    [0x38, EQUALS] + begin + [SOH] + [0x39, EQUALS] + Print(|body|) + [SOH] + body
  }

  function Trailer(front: bytes): (r: bytes)
    ensures |r| == 7
  {
    [0x31, 0x30, EQUALS] + PrintThree(Sum(front) % 256) + [SOH]
  }

  /** A complete message with the given BeginString and body fields. */
  function Encode(begin: bytes, fs: seq<Field>): bytes {
    var front := Front(begin, Render(fs));
    front + Trailer(front)
  }

  /** `ExpectFailed` is the `expect` on a message that has no tag 8. */
  datatype SetOutcome = Done(message: bytes) | Rejected(error: ParseError) | ExpectFailed

  function SetField(s: bytes, t: int, v: bytes): SetOutcome {
    match Parse(s)
    case Err(e) => Rejected(e)
    case Ok(fs) =>
      match Get(fs, 8)
      case None => ExpectFailed
      case Some(begin) => Done(Encode(begin, Replace(Body(fs), t, v)))
  }

  method SetFieldInPlace(s: bytes, t: tag, v: bytes) returns (r: SetOutcome)
    ensures r == SetField(s, t, v)
  {
    var parsed := ParseMessage(s);
    if parsed.Err? { return Rejected(parsed.error); }
    var begin := Get(parsed.value, 8);
    if begin.None? { return ExpectFailed; }

    var body := RenderBody(parsed.value, t, v);
    var full: bytes := [0x38, EQUALS];
    full := full + begin.value;
    full := full + [SOH];
    full := full + [0x39, EQUALS];
    full := full + Print(|body|);
    full := full + [SOH];
    full := full + body;

    var checksum := ComputeChecksum(full);
    Associate(full, [0x31, 0x30, EQUALS], PrintThree(checksum), [SOH]);
    full := full + [0x31, 0x30, EQUALS];
    full := full + PrintThree(checksum);
    full := full + [SOH];
    r := Done(full);
  }

  method RenderBody(fields: seq<Field>, t: tag, v: bytes) returns (body: bytes)
    ensures body == Render(Replace(Body(fields), t, v))
  {
    hide Render, Replace, Body, Print;
    body := [];
    assert fields[0..] == fields;
    RenderNothing(t, v);
    for i := 0 to |fields|
      invariant Render(Replace(Body(fields), t, v)) == body + Render(Replace(Body(fields[i..]), t, v))
    {
      var f := fields[i];
      RenderStep(body, fields, i, t, v);
      if Structural(f.tag) {
        continue; // recomputed by the caller, never copied
      }
      var value := if f.tag == t then v else f.value;
      body := body + Print(f.tag);
      body := body + [EQUALS];
      body := body + value;
      body := body + [SOH];
    }
    assert fields[|fields|..] == [];
  }

  lemma RenderNothing(t: int, v: bytes)
    ensures Render(Replace(Body([]), t, v)) == []
  {}

  function Rendered(body: bytes, f: Field, t: int, v: bytes): bytes {
    if Structural(f.tag) then body
    else body + Print(f.tag) + [EQUALS] + (if f.tag == t then v else f.value) + [SOH]
  }

  lemma RenderStep(body: bytes, fields: seq<Field>, i: nat, t: int, v: bytes)
    requires i < |fields|
    ensures body + Render(Replace(Body(fields[i..]), t, v))
         == Rendered(body, fields[i], t, v) + Render(Replace(Body(fields[i + 1..]), t, v))
  {
    var f, rest := fields[i], Body(fields[i + 1..]);
    assert fields[i..][0] == f && fields[i..][1..] == fields[i + 1..];
    if Structural(f.tag) {
      assert Body(fields[i..]) == rest;
    } else {
      RenderReplaceHead(f, rest, t, v);
      Regroup(body, Print(f.tag), [EQUALS], if f.tag == t then v else f.value, [SOH], Render(Replace(rest, t, v)));
    }
  }

  lemma Associate(a: bytes, b: bytes, c: bytes, d: bytes)
    ensures a + b + c + d == a + (b + c + d)
  {}

  lemma Regroup(a: bytes, b: bytes, c: bytes, d: bytes, e: bytes, rest: bytes)
    ensures a + (b + c + d + e + rest) == a + b + c + d + e + rest
  {}

  lemma RenderReplaceHead(f: Field, rest: seq<Field>, t: int, v: bytes)
    ensures Render(Replace([f] + rest, t, v))
         == Print(f.tag) + [EQUALS] + (if f.tag == t then v else f.value) + [SOH] + Render(Replace(rest, t, v))
  {
    var r := Replace([f] + rest, t, v);
    assert r[1..] == Replace(rest, t, v);
  }
}
