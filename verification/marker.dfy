/** `CreateMarker`: the whole pipeline.  The base marker of the requested kind
    is generated from the ID, enlarged to the requested size, and the label
    text, if any, is expanded against the system parameters (just `id`). */
module Markers {
  import opened Wrappers
  import opened Pixels
  import opened Synthesis
  import opened Resizing
  import opened Template
  import opened Decimal
  import opened Rounding

  /** The result: the ID used (given or freshly drawn), the resized marker, and
      the label text drawn on it, if any.  The drawing itself is not modelled. */
  datatype MarkerData = MarkerData(markerId: Int32, image: Grid, labelText: Option<string>)

  /** The parameters a label may name: `id`, the marker ID in decimal. */
  function SystemParameters(id: Int32): (params: seq<Param>)
    ensures |params| == 1 && params[0].name == "id"
    ensures IsCanonicalDecimal(params[0].value) && ParseInt(params[0].value) == id as int
  {
    IntToStringRoundTrip(id as int);
    [Param("id", IntToString(id as int))]
  }

  /** Height of the label strip, `(int)Math.Round(size * 0.0625f)`: the
      product is `size / 16` exactly, rounded half to even. */
  function LabelStripHeight(size: nat): nat {
    RoundHalfEven(size, 16)
  }

  /** Em size of the label font, `padding / 3`. */
  function LabelFontSize(size: nat): nat {
    LabelStripHeight(size) / 3
  }

  /** The font size is zero exactly for sizes up to 40: 40 / 16 = 2.5 rounds
      to the even 2, while 41 / 16 already rounds to 3. */
  lemma {:induction false} LabelFontSizeZero(size: nat)
    ensures LabelFontSize(size) == 0 <==> size <= 40
  {
    var q := LabelStripHeight(size);
    if size <= 40 && q >= 3 {
      assert false;
    }
  }

  /** Why `CreateMarker` can throw: `new Font(family, emSize)` rejects an em
      size that is not positive with an `ArgumentException`. */
  datatype MarkerError = FontSizeNotPositive

  /** `CreateMarker(id, size, information, type)`.  `freshId` stands for the
      value `GenerateRandomID` would return when no ID is given; `gen` stands
      for `new Random(seed)`.  A label that is not blank is drawn with a font
      of em size `LabelFontSize(size)`, so for sizes up to 40 the call throws
      instead of returning a marker. */
  method CreateMarker(id: Option<Int32>, size: nat, information: Option<string>, t: MarkerType,
                      freshId: Int32, gen: Generator)
    returns (r: Result<MarkerData, MarkerError>)
    requires size >= 2
    ensures r.Failure? <==> !IsNullOrWhiteSpace(information) && size <= 40
    ensures r.Success? ==> var m := r.value;
      && m.markerId == (if id.Some? then id.value else freshId)
      && IsSquare(m.image, size)
      && (var p := ProfileFor(t);
          m.image == Resize(MarkerImage(p.baseSize, p.border, p.padding, gen(m.markerId)), size))
      && (m.labelText.None? <==> IsNullOrWhiteSpace(information))
      && (m.labelText.Some? ==> m.labelText.value == Expanded(information.value, SystemParameters(m.markerId)))
  {
    var markerId := if id.Some? then id.value else freshId;
    var params := SystemParameters(markerId);
    var marker := GenerateMarkerImageForType(t, markerId, gen);
    ProfilesDrawable(t);
    var fullRes := Resize(marker, size);
    var labelText: Option<string> := None;
    if !IsNullOrWhiteSpace(information) {
      var text := ExpandTemplate(information.value, params);
      LabelFontSizeZero(size);
      if LabelFontSize(size) == 0 {
        return Failure(FontSizeNotPositive);
      }
      labelText := Some(text);
    }
    r := Success(MarkerData(markerId, fullRes, labelText));
  }

  /** Every base marker is black and white, with a black frame. */
  lemma MarkerImageBlackAndWhite(size: nat, border: nat, padding: nat, bits: BitStream)
    ensures IsBlackAndWhite(MarkerImage(size, border, padding, bits), size)
  {
  }

  /** The resized base marker of either kind, before any label is drawn on it,
      is purely black and white, and its corners are black: the frame survives
      the enlargement. */
  lemma {:induction false} OutputBlackAndWhite(t: MarkerType, bits: BitStream, size: nat)
    requires size >= 2
    ensures var p := ProfileFor(t);
      var img := Resize(MarkerImage(p.baseSize, p.border, p.padding, bits), size);
      IsBlackAndWhite(img, size) && img[0][0] == Black && img[size - 1][size - 1] == Black
  {
    var p := ProfileFor(t);
    var base := MarkerImage(p.baseSize, p.border, p.padding, bits);
    MarkerImageBlackAndWhite(p.baseSize, p.border, p.padding, bits);
    ResizeKeepsBlackAndWhite(base, size);
    SourceIndexEndpoints(p.baseSize, size);
  }

  /** The ID 42 prints as "42". */
  lemma IdExample()
    ensures IntToString(42) == "42"
    ensures SystemParameters(42) == [Param("id", "42")]
  {
    assert NatToDigits(4) == "4";
    assert NatToDigits(42) == NatToDigits(4) + ['2'];
  }

  /** `"ID: {id}"` with ID 42 reads `"ID: 42"`. */
  lemma ExampleIdPlaceholder()
    ensures Expanded("ID: {id}", SystemParameters(42)) == "ID: 42"
  {
    IdExample();
    var s := "ID: {id}";
    assert AlnumRun(s, 7) == 0;
    assert AlnumRun(s, 5) == 2;
    assert MatchAt(s, 4) == Some(4);
    assert MatchesFrom(s, 8) == [];
    assert s[5..7] == "id";
    assert MatchesFrom(s, 4) == [Match(4, 4, "id")];
    assert MatchesFrom(s, 0) == MatchesFrom(s, 4);
    assert SameKey("id", "id");
    assert Resolve("id", SystemParameters(42)) == "42";
    assert s[0..4] == "ID: " && s[8..] == "";
  }

  /** `"{ID}"` with ID 42 reads `"42"`: keys ignore letter case. */
  lemma ExampleUpperCaseKey()
    ensures Expanded("{ID}", SystemParameters(42)) == "42"
  {
    IdExample();
    var s := "{ID}";
    assert AlnumRun(s, 3) == 0;
    assert AlnumRun(s, 1) == 2;
    assert MatchAt(s, 0) == Some(4);
    assert MatchesFrom(s, 4) == [];
    assert s[1..3] == "ID";
    assert MatchesFrom(s, 0) == [Match(0, 4, "ID")];
    assert SameKey("id", "ID");
    assert Resolve("ID", SystemParameters(42)) == "42";
  }

  /** `"{unknown}"` reads `"unknown"`: a key without a parameter stands for itself. */
  lemma ExampleUnknownKey()
    ensures Expanded("{unknown}", SystemParameters(42)) == "unknown"
  {
    IdExample();
    var s := "{unknown}";
    assert AlnumRun(s, 8) == 0;
    assert AlnumRun(s, 1) == 7;
    assert MatchAt(s, 0) == Some(9);
    assert MatchesFrom(s, 9) == [];
    assert s[1..8] == "unknown";
    assert MatchesFrom(s, 0) == [Match(0, 9, "unknown")];
    assert !SameKey("id", "unknown");
    assert Resolve("unknown", SystemParameters(42)) == "unknown";
  }

  /** Braces around nothing, or around anything but letters and digits, stay as they are. */
  lemma ExampleLiteralBraces(params: seq<Param>)
    ensures Expanded("{}", params) == "{}"
    ensures Expanded("{a-b}", params) == "{a-b}"
  {
    var e := "{}";
    assert AlnumRun(e, 1) == 0;
    assert MatchAt(e, 0).None? && MatchAt(e, 1).None?;
    assert MatchesFrom(e, 0) == [];
    var s := "{a-b}";
    assert AlnumRun(s, 1) == 1;
    assert MatchAt(s, 0).None?;
    assert forall i :: 1 <= i < 5 ==> s[i] != '{';
    assert MatchesFrom(s, 0) == [];
  }
}
