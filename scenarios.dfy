/** Concrete cases of the matchers and of the frame conversion. */
module Scenarios {
  import opened GlyphTables
  import opened Matching
  import opened Frames

  /** Query 40 against keys 0, 50, 100: 50 is nearest, drawn as "bb". */
  lemma NearestKeyIsDoubled()
    ensures ClosestBw(40.0, [AsciiEntry(0.0, 'a'), AsciiEntry(50.0, 'b'), AsciiEntry(100.0, 'c')]) == "bb"
  {
  }

  /** Query 10 (grey 10, 10, 10) against black and white: black's glyph,
      not doubled. */
  lemma NearestColourIsSingle()
    ensures ClosestRgb(Grey(10.0), [EmojiEntry(Rgb(0.0, 0.0, 0.0), "\U{1F642}"), EmojiEntry(Rgb(255.0, 255.0, 255.0), "\U{2B1C}")])
         == "\U{1F642}"
  {
  }

  const ThreeLevels: seq<AsciiEntry> := [AsciiEntry(0.0, 'a'), AsciiEntry(128.0, 'b'), AsciiEntry(256.0, 'c')]
  const Grey128: Pixel := Pixel(128, 128, 128)

  lemma MidGreyIsMiddleGlyph()
    ensures ClosestBw(Mean(Grey128), ThreeLevels) == "bb"
  {
  }

  lemma MidGreyRow()
    ensures RowText(AsciiMode, [Grey128, Grey128], AsciiVocabulary(ThreeLevels)) == "bbbb"
  {
    var row := [Grey128, Grey128];
    MidGreyIsMiddleGlyph();
    AsciiLine(row, ThreeLevels);
    var line := RowText(AsciiMode, row, AsciiVocabulary(ThreeLevels));
    assert line[0..2] == "bb" && line[2..4] == "bb";
    assert line == line[0..2] + line[2..4];
  }

  /** A 2×2 frame of grey 128 against keys 0, 128, 256: two lines, each the
      doubled middle glyph twice. */
  lemma UniformGreyFrame()
    ensures FrameText(AsciiMode, [[Grey128, Grey128], [Grey128, Grey128]], AsciiVocabulary(ThreeLevels))
         == ["bbbb", "bbbb"]
  {
    MidGreyRow();
  }
}
