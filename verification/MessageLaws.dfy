/** What `set_field` promises: its output parses back to exactly the fields it
    was built from, and it behaves as a lens onto the body fields. */
module MessageLaws {
  import opened Words
  import opened Bytes
  import opened Decimal
  import opened Message

  // ---------------------------------------------------------------------
  // Printing then parsing
  // ---------------------------------------------------------------------

  lemma FieldsOfPiece(f: Field)
    requires SOH !in f.value
    ensures FieldsOf(Piece(f)) == Ok([f])
  {
    var piece, text := Piece(f), Print(f.tag);
    DigitsAvoid(text, SOH);
    DigitsAvoid(text, EQUALS);
    var pieces: seq<bytes> := [piece];
    assert Split(piece) == pieces && |pieces[1..]| == 0;
    PositionOfDelimiter(text, EQUALS, f.value);
    assert piece[..|text|] == text && piece[|text| + 1..] == f.value;
    PrintRoundTrip(f.tag, U32_MAX);
    assert ParseField(piece) == Ok(f);
    assert ParsePieces(pieces[1..]) == Ok([]) && [f] + [] == [f];
  }

  lemma {:induction false} FieldsOfRender(fs: seq<Field>)
    requires SohFree(fs)
    ensures FieldsOf(Render(fs)) == Ok(fs)
  {
    if fs == [] {
      assert Split([]) == [[]] && |Split([])[1..]| == 0;
    } else {
      assert SohFree(fs[1..]);
      FieldsOfPiece(fs[0]);
      FieldsOfRender(fs[1..]);
      FieldsOfConcat(Piece(fs[0]), Render(fs[1..]));
      assert [fs[0]] + fs[1..] == fs;
    }
  }

  /** The parser inverts the printer on every list of SOH-free fields. */
  lemma ParseRender(fs: seq<Field>)
    requires fs != [] && SohFree(fs)
    ensures Parse(Render(fs)) == Ok(fs)
  {
    FieldsOfRender(fs);
  }

  lemma {:induction false} RenderConcat(a: seq<Field>, b: seq<Field>)
    ensures Render(a + b) == Render(a) + Render(b)
  {
    if a == [] {
      assert a + b == b;
    } else {
      assert (a + b)[1..] == a[1..] + b;
      RenderConcat(a[1..], b);
    }
  }

  /** The fields of a rebuilt message. */
  function Rebuilt(begin: bytes, fs: seq<Field>): seq<Field> {
    [Field(8, begin), Field(9, Print(|Render(fs)|))]
    + fs
    + [Field(10, PrintThree(Sum(Front(begin, Render(fs))) % 256))]
  }

  lemma {:induction false} EncodeIsRender(begin: bytes, fs: seq<Field>)
    ensures Encode(begin, fs) == Render(Rebuilt(begin, fs))
  {
    var first, len := Field(8, begin), Field(9, Print(|Render(fs)|));
    var sum := Field(10, PrintThree(Sum(Front(begin, Render(fs))) % 256));
    FrontIsRender(begin, fs);
    assert Print(10) == [0x31, 0x30] by { assert Print(1) == [0x31]; }
    RenderConcat([first, len] + fs, [sum]);
    assert Trailer(Front(begin, Render(fs))) == Render([sum]) by { RenderOne(sum); }
  }

  lemma FrontIsRender(begin: bytes, fs: seq<Field>)
    ensures Front(begin, Render(fs)) == Render([Field(8, begin), Field(9, Print(|Render(fs)|))] + fs)
  {
    var first, len := Field(8, begin), Field(9, Print(|Render(fs)|));
    assert Print(8) == [0x38] && Print(9) == [0x39];
    assert [0x38] + [EQUALS] == [0x38, EQUALS] && [0x39] + [EQUALS] == [0x39, EQUALS];
    calc {
      Render([first, len] + fs);
      { RenderConcat([first, len], fs); }
      Render([first, len]) + Render(fs);
      { assert [first, len] == [first] + [len]; RenderConcat([first], [len]); }
      Render([first]) + Render([len]) + Render(fs);
      { RenderOne(first); RenderOne(len); }
      [0x38, EQUALS] + begin + [SOH] + ([0x39, EQUALS] + Print(|Render(fs)|) + [SOH]) + Render(fs);
      { Associate([0x38, EQUALS] + begin + [SOH], [0x39, EQUALS], Print(|Render(fs)|), [SOH]); }
      Front(begin, Render(fs));
    }
  }

  lemma RenderOne(f: Field)
    ensures Render([f]) == Print(f.tag) + [EQUALS] + f.value + [SOH]
  {
    assert |[f][1..]| == 0;
  }

  /** A message `set_field` accepts: it parses and carries a BeginString. */
  predicate Settable(s: bytes) {
    Parse(s).Ok? && Get(Parse(s).value, 8).Some?
  }

  function BeginString(s: bytes): bytes
    requires Settable(s)
  {
    Get(Parse(s).value, 8).value
  }

  function BodyOf(s: bytes): seq<Field>
    requires Settable(s)
  {
    Body(Parse(s).value)
  }

  lemma SettablePartsAreSohFree(s: bytes)
    requires Settable(s)
    ensures SOH !in BeginString(s) && SohFree(BodyOf(s))
  {
    ParsedIsSohFree(s);
  }

  /** Parser/printer round trip: re-parsing the output of `set_field` gives
      BeginString, the recomputed BodyLength, the old body fields in order
      with every occurrence of the tag replaced, and the CheckSum. This is so
      exactly when the new value has no SOH or there is nothing to replace. */
  lemma RoundTrip(s: bytes, t: tag, v: bytes)
    requires Settable(s)
    ensures SetField(s, t, v).Done?
    ensures Parse(SetField(s, t, v).message) == Ok(Rebuilt(BeginString(s), Replace(BodyOf(s), t, v)))
            <==> SOH !in v || Get(BodyOf(s), t).None?
  {
    if SOH !in v || Get(BodyOf(s), t).None? {
      RoundTripHolds(s, t, v);
    } else {
      RoundTripBreaks(s, t, v);
    }
  }

  lemma RoundTripHolds(s: bytes, t: tag, v: bytes)
    requires Settable(s) && (SOH !in v || Get(BodyOf(s), t).None?)
    ensures Parse(SetField(s, t, v).message) == Ok(Rebuilt(BeginString(s), Replace(BodyOf(s), t, v)))
  {
    var begin, fs := BeginString(s), Replace(BodyOf(s), t, v);
    SettablePartsAreSohFree(s);
    EncodeIsRender(begin, fs);
    RebuiltIsSohFree(begin, fs);
    ParseRender(Rebuilt(begin, fs));
  }

  lemma {:induction false} RoundTripBreaks(s: bytes, t: tag, v: bytes)
    requires Settable(s) && SOH in v && Get(BodyOf(s), t).Some?
    ensures Parse(SetField(s, t, v).message) != Ok(Rebuilt(BeginString(s), Replace(BodyOf(s), t, v)))
  {
    var fs := Replace(BodyOf(s), t, v);
    var i :| 0 <= i < |fs| && fs[i].tag == t;
    RebuiltKeepsValue(BeginString(s), fs, i);
    if Parse(SetField(s, t, v).message).Ok? { ParsedIsSohFree(SetField(s, t, v).message); }
  }

  lemma RebuiltKeepsValue(begin: bytes, fs: seq<Field>, i: nat)
    requires i < |fs| && SOH in fs[i].value
    ensures !SohFree(Rebuilt(begin, fs))
  {
    assert Rebuilt(begin, fs)[2 + i] == fs[i];
  }

  lemma RebuiltIsSohFree(begin: bytes, fs: seq<Field>)
    requires SOH !in begin && SohFree(fs)
    ensures SohFree(Rebuilt(begin, fs))
  {
    DigitsAvoid(Print(|Render(fs)|), SOH);
    DigitsAvoid(PrintThree(Sum(Front(begin, Render(fs))) % 256), SOH);
  }

  /** A value holding an SOH breaks the round trip: the tail of the value is
      read back as a field of its own. */
  lemma RoundTripNeedsSohFreeValue()
    ensures exists s: bytes, v: bytes ::
              Settable(s) && Parse(SetField(s, 44, v).message) != Ok(Rebuilt(BeginString(s), Replace(BodyOf(s), 44, v)))
  {
    var fs := [Field(8, [0x46]), Field(44, [0x31])];
    var s, v: bytes := Render(fs), [SOH];
    ParseRender(fs);
    assert Get(fs, 8) == Some([0x46]);
    assert Body(fs) == [Field(44, [0x31])] by {
      assert fs[1..] == [Field(44, [0x31])] && fs[1..][1..] == [];
    }
    assert Get(BodyOf(s), 44).Some?;
    RoundTrip(s, 44, v);
  }

  // ---------------------------------------------------------------------
  // Lens laws
  // ---------------------------------------------------------------------

  predicate NoStructural(fs: seq<Field>) {
    forall i :: 0 <= i < |fs| ==> fs[i].tag !in {8, 9, 10}
  }

  lemma {:induction false} BodyConcat(a: seq<Field>, b: seq<Field>)
    ensures Body(a + b) == Body(a) + Body(b)
  {
    if a == [] {
      assert a + b == b;
    } else {
      assert (a + b)[1..] == a[1..] + b;
      BodyConcat(a[1..], b);
    }
  }

  lemma {:induction false} BodyKeeps(fs: seq<Field>)
    requires NoStructural(fs)
    ensures Body(fs) == fs
  {
    if fs != [] { BodyKeeps(fs[1..]); }
  }

  /** Encoding loses nothing: BeginString and body are read back unchanged. */
  lemma EncodedView(begin: bytes, fs: seq<Field>)
    requires SOH !in begin && SohFree(fs) && NoStructural(fs)
    ensures Settable(Encode(begin, fs))
    ensures BeginString(Encode(begin, fs)) == begin && BodyOf(Encode(begin, fs)) == fs
  {
    var head := [Field(8, begin), Field(9, Print(|Render(fs)|))];
    var last := [Field(10, PrintThree(Sum(Front(begin, Render(fs))) % 256))];
    EncodeIsRender(begin, fs);
    RebuiltIsSohFree(begin, fs);
    ParseRender(Rebuilt(begin, fs));
    BodyConcat(head, fs);
    BodyConcat(head + fs, last);
    BodyKeeps(fs);
    assert |head[1..][1..]| == 0 && |last[1..]| == 0;
    assert Body(head) == [] && Body(last) == [];
  }

  lemma SetOnEncoded(begin: bytes, fs: seq<Field>, t: tag, v: bytes)
    requires SOH !in begin && SohFree(fs) && NoStructural(fs)
    ensures SetField(Encode(begin, fs), t, v) == Done(Encode(begin, Replace(fs, t, v)))
  {
    EncodedView(begin, fs);
  }

  lemma ReplaceReplace(fs: seq<Field>, t: int, v: bytes, w: bytes)
    ensures Replace(Replace(fs, t, v), t, w) == Replace(fs, t, w)
  {}

  lemma ReplacesCommute(fs: seq<Field>, t: int, v: bytes, u: int, w: bytes)
    requires t != u
    ensures Replace(Replace(fs, t, v), u, w) == Replace(Replace(fs, u, w), t, v)
  {}

  /** Setting twice keeps only the last value. The second value is arbitrary. */
  lemma SetSet(s: bytes, t: tag, v: bytes, w: bytes)
    requires Settable(s) && SOH !in v
    ensures SetField(SetField(s, t, v).message, t, w) == SetField(s, t, w)
  {
    var fs := BodyOf(s);
    SettablePartsAreSohFree(s);
    SetOnEncoded(BeginString(s), Replace(fs, t, v), t, w);
    ReplaceReplace(fs, t, v, w);
  }

  /** Sets on different tags commute. */
  lemma {:induction false} SetsCommute(s: bytes, t: tag, v: bytes, u: tag, w: bytes)
    requires Settable(s) && t != u && SOH !in v && SOH !in w
    ensures SetField(SetField(s, t, v).message, u, w) == SetField(SetField(s, u, w).message, t, v)
  {
    var fs := BodyOf(s);
    SettablePartsAreSohFree(s);
    SetOnEncoded(BeginString(s), Replace(fs, t, v), u, w);
    SetOnEncoded(BeginString(s), Replace(fs, u, w), t, v);
    ReplacesCommute(fs, t, v, u, w);
  }

  /** What was set is what is read, and every other body tag reads as before. */
  lemma GetAfterSet(s: bytes, t: tag, v: bytes, u: tag)
    requires Settable(s) && SOH !in v && u !in {8, 9, 10}
    ensures Settable(SetField(s, t, v).message)
    ensures Get(Parse(SetField(s, t, v).message).value, u)
         == if u == t && Get(Parse(s).value, t).Some? then Some(v) else Get(Parse(s).value, u)
  {
    var fs := BodyOf(s);
    var out := SetField(s, t, v).message;
    SettablePartsAreSohFree(s);
    EncodedView(BeginString(s), Replace(fs, t, v));
    GetInBody(Parse(s).value, u);
    GetInBody(Parse(out).value, u);
    GetInReplaced(fs, t, v, u);
  }

  lemma {:induction false} GetInBody(fs: seq<Field>, u: int)
    requires u !in {8, 9, 10}
    ensures Get(Body(fs), u) == Get(fs, u)
  {
    if fs != [] {
      GetInBody(fs[1..], u);
      if Structural(fs[0].tag) {
        assert Body(fs) == Body(fs[1..]);
      } else {
        assert Body(fs)[0] == fs[0] && Body(fs)[1..] == Body(fs[1..]);
      }
    }
  }

  lemma {:induction false} GetInReplaced(fs: seq<Field>, t: int, v: bytes, u: int)
    ensures Get(Replace(fs, t, v), u) == if u == t && Get(fs, t).Some? then Some(v) else Get(fs, u)
  {
    if fs != [] {
      GetInReplaced(fs[1..], t, v, u);
      assert Replace(fs, t, v)[1..] == Replace(fs[1..], t, v);
    }
  }

  /** Setting an absent tag normalises: the result does not depend on the tag
      or the value, ... */
  lemma {:induction false} AbsentSetNormalises(s: bytes, t: tag, v: bytes)
    requires Settable(s) && (t in {8, 9, 10} || Get(Parse(s).value, t).None?)
    ensures SetField(s, t, v) == Done(Encode(BeginString(s), BodyOf(s)))
  {
    if t !in {8, 9, 10} { GetInBody(Parse(s).value, t); }
    assert Replace(BodyOf(s), t, v) == BodyOf(s);
  }

  /** ... and it leaves every message that `set_field` itself produced
      byte-for-byte unchanged, so normalising is idempotent. */
  lemma OutputsAreNormal(s: bytes, t: tag, v: bytes, u: tag, w: bytes)
    requires Settable(s) && SOH !in v
    requires u in {8, 9, 10} || Get(Parse(s).value, u).None?
    ensures SetField(SetField(s, t, v).message, u, w) == SetField(s, t, v)
  {
    var out := SetField(s, t, v).message;
    SettablePartsAreSohFree(s);
    EncodedView(BeginString(s), Replace(BodyOf(s), t, v));
    if u !in {8, 9, 10} { GetAfterSet(s, t, v, u); }
    AbsentSetNormalises(out, u, w);
  }
}
