/** Frame to glyph lines: `_image_to_vocab` walks the pixel grid row by
    row and replaces every pixel by the glyph nearest to its channel mean. */
module Frames {
  import opened Common
  import opened GlyphTables
  import opened Matching

  /** One pixel of the resized, contrast-adjusted frame (OpenCV's BGR order). */
  datatype Pixel = Pixel(b: Byte, g: Byte, r: Byte)

  /** Rows of pixels, top to bottom; each row left to right. */
  type Frame = seq<seq<Pixel>>

  /** The mean of a pixel's three channels. */
  function Mean(p: Pixel): (m: real)
    ensures 0.0 <= m <= 255.0
  {
    (p.b + p.g + p.r) as real / 3.0
  }

  /** A frame with no pixel at all. */
  predicate Blank(img: Frame)
  {
    forall i :: 0 <= i < |img| ==> img[i] == []
  }

  /** The frame can be drawn in `mode` with `v`: the table matches the mode,
      and it has entries unless there is no pixel to match. */
  predicate Drawable(mode: string, v: Vocabulary, img: Frame)
  {
    Matches(mode, v) && (v.Size() > 0 || Blank(img))
  }

  /** The line one row becomes: the matcher outputs of its pixels, left to right. */
  function RowText(mode: string, row: seq<Pixel>, v: Vocabulary): string
    requires Matches(mode, v) && (row != [] ==> v.Size() > 0)
  {
    if row == [] then ""
    else RowText(mode, row[..|row| - 1], v) + ClosestCharacter(mode, Mean(row[|row| - 1]), v).value
  }

  /** The lines a frame becomes: one per row, top to bottom. */
  function FrameText(mode: string, img: Frame, v: Vocabulary): (lines: seq<string>)
    requires Drawable(mode, v, img)
  {
    seq(|img|, i requires 0 <= i < |img| => RowText(mode, img[i], v))
  }

  /** `_image_to_vocab`, with `mode` the camera's mode. */
  method ImageToVocab(mode: string, img: Frame, v: Vocabulary) returns (lines: seq<string>)
    requires Drawable(mode, v, img)
    ensures lines == FrameText(mode, img, v)
  {
    lines := [];
    for i := 0 to |img|
      invariant |lines| == i
      invariant forall k :: 0 <= k < i ==> lines[k] == RowText(mode, img[k], v)
    {
      var row := img[i];
      var line := "";
      for j := 0 to |row|
        invariant line == RowText(mode, row[..j], v)
      {
        assert row[..j + 1][..j] == row[..j];
        line := line + ClosestCharacter(mode, Mean(row[j]), v).value;
      }
      assert row[..|row|] == row;
      lines := lines + [line];
    }
  }

  /** In ascii mode a row of W pixels becomes 2·W characters, and characters
      2·j and 2·j+1 are the doubled nearest glyph of pixel j. */
  lemma {:induction false} AsciiLine(row: seq<Pixel>, table: seq<AsciiEntry>)
    requires |table| > 0
    ensures var line := RowText(AsciiMode, row, AsciiVocabulary(table));
      |line| == 2 * |row| &&
      forall j :: 0 <= j < |row| ==> line[2 * j..2 * j + 2] == ClosestBw(Mean(row[j]), table)
  {
    if row != [] {
      var v := AsciiVocabulary(table);
      var front := row[..|row| - 1];
      AsciiLine(front, table);
      var head := RowText(AsciiMode, front, v);
      var last := ClosestBw(Mean(row[|row| - 1]), table);
      var line := head + last;
      assert line == RowText(AsciiMode, row, v);
      forall j | 0 <= j < |row|
        ensures line[2 * j..2 * j + 2] == ClosestBw(Mean(row[j]), table)
      {
        if j < |row| - 1 {
          assert line[2 * j..2 * j + 2] == head[2 * j..2 * j + 2];
          assert front[j] == row[j];
        } else {
          assert |head| == 2 * j;
          assert line[2 * j..2 * j + 2] == last;
        }
      }
    }
  }

  /** In emoji mode, with one-code-point glyphs, a row of W pixels becomes
      W characters, character j being the glyph nearest to the grey of
      pixel j's mean. */
  lemma {:induction false} EmojiLine(row: seq<Pixel>, table: seq<EmojiEntry>)
    requires |table| > 0
    requires forall e :: e in table ==> |e.glyph| == 1
    ensures var line := RowText(EmojiMode, row, EmojiVocabulary(table));
      |line| == |row| &&
      forall j :: 0 <= j < |row| ==> [line[j]] == ClosestRgb(Grey(Mean(row[j])), table)
  {
    if row != [] {
      var v := EmojiVocabulary(table);
      var front := row[..|row| - 1];
      EmojiLine(front, table);
      var head := RowText(EmojiMode, front, v);
      var last := ClosestRgb(Grey(Mean(row[|row| - 1])), table);
      ClosestRgbNearest(Grey(Mean(row[|row| - 1])), table);
      assert |last| == 1;
      var line := head + last;
      assert line == RowText(EmojiMode, row, v);
      forall j | 0 <= j < |row|
        ensures [line[j]] == ClosestRgb(Grey(Mean(row[j])), table)
      {
        if j < |row| - 1 {
          assert line[j] == head[j];
          assert front[j] == row[j];
        } else {
          assert [line[j]] == last;
        }
      }
    }
  }
}
