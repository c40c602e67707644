/** The two glyph tables `AsciiCamera` builds once at start-up:
    printable characters keyed by normalised coverage, and emoji keyed
    by average colour. The font rasteriser is a parameter: for a
    character it yields the coverage mask, for an emoji the average
    colour of its mask, or `None` when that average has no shape. */
module GlyphTables {
  import opened Common
  import opened Sorting

  const FontHeight: nat := 64
  const FontWidth: nat := 64

  /** `string.printable[:94]`: digits, lower-case letters, upper-case
      letters and punctuation, in Python's order. */
  const Printable: string :=
    "0123456789abcdefghijklmnopqrstuvwxyzABCDEFGHIJKLMNOPQRSTUVWXYZ!\"#$%&'()*+,-./:;<=>?@[\\]^_`{|}~"

  /** A character with its coverage key. */
  datatype AsciiEntry = AsciiEntry(key: real, glyph: char)

  /** An average colour, one component per channel. */
  datatype Rgb = Rgb(r: real, g: real, b: real)

  /** An emoji with its average colour. */
  datatype EmojiEntry = EmojiEntry(color: Rgb, glyph: string)

  function AsciiKey(e: AsciiEntry): real { e.key }

  function AsciiGlyph(e: AsciiEntry): char { e.glyph }

  /** The emoji table's sort key: the sum of the colour components. */
  function ColorSum(e: EmojiEntry): real { e.color.r + e.color.g + e.color.b }

  // ---------------------------------------------------------------- ASCII

  function MaskSum(mask: seq<Byte>): nat
  {
    if mask == [] then 0 else MaskSum(mask[..|mask| - 1]) + mask[|mask| - 1]
  }

  /** The coverage sum divided by the font height and multiplied by the
      font width; since both are 64 this is the plain coverage sum. */
  function CharacterIntensity(mask: seq<Byte>): (v: real)
    ensures v == MaskSum(mask) as real
    ensures v >= 0.0
  {
    MaskSum(mask) as real / FontHeight as real * FontWidth as real
  }

  /** The raw intensity of `c` under the rasteriser `font`. */
  function Intensity(font: char -> seq<Byte>, c: char): real
  {
    CharacterIntensity(font(c))
  }

  /** Each printable character paired with its raw intensity, in `Printable` order. */
  function Measure(font: char -> seq<Byte>): (s: seq<AsciiEntry>)
  {
    seq(|Printable|, i requires 0 <= i < |Printable| => AsciiEntry(Intensity(font, Printable[i]), Printable[i]))
  }

  /** The largest key, found by a left-to-right scan as Python's `max` does. */
  function MaxKey(s: seq<AsciiEntry>): (m: real)
    requires |s| > 0
    ensures forall e :: e in s ==> e.key <= m
    ensures exists e :: e in s && e.key == m
  {
    if |s| == 1 then s[0].key
    else
      var m := MaxKey(s[..|s| - 1]);
      assert s == s[..|s| - 1] + [s[|s| - 1]];
      if s[|s| - 1].key > m then s[|s| - 1].key else m
  }

  function MaxIntensity(font: char -> seq<Byte>): real
  {
    MaxKey(Measure(font))
  }

  /** Every key divided by `m` and scaled by 256; glyphs and order unchanged. */
  function Normalise(s: seq<AsciiEntry>, m: real): seq<AsciiEntry>
    requires m != 0.0
  {
    seq(|s|, i requires 0 <= i < |s| => AsciiEntry(s[i].key / m * 256.0, s[i].glyph))
  }

  /** The ASCII table before sorting, in the order of `Printable`. */
  function NormalisedIntensities(font: char -> seq<Byte>): seq<AsciiEntry>
    requires MaxIntensity(font) != 0.0
  {
    Normalise(Measure(font), MaxIntensity(font))
  }

  /** Every printable character rasterises to an empty mask. */
  predicate AllBlank(font: char -> seq<Byte>)
  {
    forall i :: 0 <= i < |Printable| ==> Intensity(font, Printable[i]) == 0.0
  }

  /** `_init_intensity_to_ascii`; a zero maximum makes the division raise. */
  function BuildAsciiTable(font: char -> seq<Byte>): Result<seq<AsciiEntry>>
  {
    if MaxIntensity(font) == 0.0 then Failure(DivisionByZero)
    else Success(SortBy(NormalisedIntensities(font), AsciiKey))
  }

  /** The table fails exactly when every glyph is blank, and then with a
      division by zero. */
  lemma AsciiTableFailsIffBlank(font: char -> seq<Byte>)
    ensures BuildAsciiTable(font).Failure? <==> AllBlank(font)
    ensures BuildAsciiTable(font).Failure? ==> BuildAsciiTable(font).error == DivisionByZero
  {
    var s, m := Measure(font), MaxIntensity(font);
    if m == 0.0 {
      forall i | 0 <= i < |Printable|
        ensures Intensity(font, Printable[i]) == 0.0
      {
        assert s[i] in s;
      }
    } else {
      var e :| e in s && e.key == m;
      var i :| 0 <= i < |s| && s[i] == e;
      assert Intensity(font, Printable[i]) != 0.0;
    }
  }

  /** Scaling a value of [0, m] by 256 / m lands in [0, 256], at the top
      exactly for the maximum. */
  lemma ScaleBounds(x: real, m: real)
    requires 0.0 <= x <= m && m > 0.0
    ensures 0.0 <= x / m * 256.0 <= 256.0
    ensures x / m * 256.0 == 256.0 <==> x == m
  {
  }

  /** Each ASCII-table entry belongs to a printable character, its key is
      that character's raw intensity scaled so that the maximum maps to
      256, and one entry reaches 256. */
  lemma AsciiTableKeys(font: char -> seq<Byte>)
    requires !AllBlank(font)
    ensures BuildAsciiTable(font).Success?
    ensures
      var t, m := BuildAsciiTable(font).value, MaxIntensity(font);
      (forall e :: e in t ==>
         e.glyph in Printable &&
         e.key == Intensity(font, e.glyph) / m * 256.0 &&
         0.0 <= e.key <= 256.0 &&
         (e.key == 256.0 <==> Intensity(font, e.glyph) == m)) &&
      (exists e :: e in t && e.key == 256.0)
  {
    AsciiTableFailsIffBlank(font);
    var t, m := BuildAsciiTable(font).value, MaxIntensity(font);
    var s := Measure(font);
    var n := NormalisedIntensities(font);
    assert multiset(t) == multiset(n);
    forall e | e in t
      ensures e.glyph in Printable
      ensures e.key == Intensity(font, e.glyph) / m * 256.0
      ensures 0.0 <= e.key <= 256.0
      ensures e.key == 256.0 <==> Intensity(font, e.glyph) == m
    {
      assert e in multiset(n);
      var i :| 0 <= i < |n| && n[i] == e;
      assert s[i] in s;
      ScaleBounds(s[i].key, m);
    }
    var top :| top in s && top.key == m;
    var i :| 0 <= i < |s| && s[i] == top;
    ScaleBounds(m, m);
    assert n[i] in multiset(t);
  }

  /** Before sorting, the glyphs are `Printable` in order. */
  lemma NormalisedGlyphs(font: char -> seq<Byte>)
    requires MaxIntensity(font) != 0.0
    ensures MapSeq(NormalisedIntensities(font), AsciiGlyph) == Printable
  {
    var g := MapSeq(NormalisedIntensities(font), AsciiGlyph);
    assert |g| == |Printable|;
    forall i | 0 <= i < |g|
      ensures g[i] == Printable[i]
    {
    }
  }

  /** The ASCII table has 94 entries whose glyphs are `string.printable[:94]`
      rearranged, each character as often as it occurs there. */
  lemma AsciiTableGlyphs(font: char -> seq<Byte>)
    requires !AllBlank(font)
    ensures BuildAsciiTable(font).Success?
    ensures
      var t := BuildAsciiTable(font).value;
      |t| == |Printable| == 94 &&
      multiset(MapSeq(t, AsciiGlyph)) == multiset(Printable)
  {
    AsciiTableFailsIffBlank(font);
    var n := NormalisedIntensities(font);
    var t := SortBy(n, AsciiKey);
    assert BuildAsciiTable(font) == Success(t);
    PermutationMaps(t, n, AsciiGlyph);
    NormalisedGlyphs(font);
    assert |t| == |multiset(t)| == |multiset(n)| == |n|;
  }

  /** The ASCII table is a stable sort, by key, of the normalised list in
      `Printable` order: equal keys keep their character order. */
  lemma AsciiTableOrder(font: char -> seq<Byte>)
    requires !AllBlank(font)
    ensures BuildAsciiTable(font).Success?
    ensures IsStableSortOf(BuildAsciiTable(font).value, NormalisedIntensities(font), AsciiKey)
  {
    AsciiTableFailsIffBlank(font);
    var n := NormalisedIntensities(font);
    assert BuildAsciiTable(font) == Success(SortBy(n, AsciiKey));
    SortByIsStableSort(n, AsciiKey);
  }

  // ---------------------------------------------------------------- emoji

  /** A candidate is kept when it is one code point long and its average
      colour has a shape. */
  predicate Usable(c: string, font: string -> Option<Rgb>)
  {
    |c| == 1 && font(c).Some?
  }

  /** The filtered list, in the candidates' order. */
  function Measured(candidates: seq<string>, font: string -> Option<Rgb>): seq<EmojiEntry>
  {
    if candidates == [] then []
    else
      var c := candidates[0];
      (if Usable(c, font) then [EmojiEntry(font(c).value, c)] else []) + Measured(candidates[1..], font)
  }

  /** `_init_intensity_to_emoji`. */
  function BuildEmojiTable(candidates: seq<string>, font: string -> Option<Rgb>): seq<EmojiEntry>
  {
    SortBy(Measured(candidates, font), ColorSum)
  }

  /** The filtered list holds exactly the usable candidates with their colours. */
  lemma {:induction false} MeasuredMembers(candidates: seq<string>, font: string -> Option<Rgb>, e: EmojiEntry)
    ensures e in Measured(candidates, font) <==>
      exists i :: 0 <= i < |candidates| && Usable(candidates[i], font) &&
        e == EmojiEntry(font(candidates[i]).value, candidates[i])
  {
    if candidates != [] {
      var c := candidates[0];
      var tail := candidates[1..];
      MeasuredMembers(tail, font, e);
      if e in Measured(candidates, font) {
        if !(Usable(c, font) && e == EmojiEntry(font(c).value, c)) {
          var i :| 0 <= i < |tail| && Usable(tail[i], font) && e == EmojiEntry(font(tail[i]).value, tail[i]);
          assert candidates[i + 1] == tail[i];
        }
      } else {
        forall i | 0 <= i < |candidates| && Usable(candidates[i], font)
          ensures e != EmojiEntry(font(candidates[i]).value, candidates[i])
        {
          if i > 0 { assert candidates[i] == tail[i - 1]; }
        }
      }
    }
  }

  /** The emoji table holds exactly the one-code-point candidates whose
      colour has a shape, each with that colour; so every glyph in it is
      one code point long. */
  lemma EmojiTableMembers(candidates: seq<string>, font: string -> Option<Rgb>, e: EmojiEntry)
    ensures e in BuildEmojiTable(candidates, font) <==>
      exists i :: 0 <= i < |candidates| && |candidates[i]| == 1 &&
        font(candidates[i]) == Some(e.color) && candidates[i] == e.glyph
    ensures e in BuildEmojiTable(candidates, font) ==> |e.glyph| == 1
  {
    var t, s := BuildEmojiTable(candidates, font), Measured(candidates, font);
    assert e in t <==> e in multiset(s);
    MeasuredMembers(candidates, font, e);
  }

  /** The emoji table is the filtered list, nothing added or removed,
      sorted stably by colour sum. */
  lemma EmojiTableOrder(candidates: seq<string>, font: string -> Option<Rgb>)
    ensures multiset(BuildEmojiTable(candidates, font)) == multiset(Measured(candidates, font))
    ensures IsStableSortOf(BuildEmojiTable(candidates, font), Measured(candidates, font), ColorSum)
  {
    SortByIsStableSort(Measured(candidates, font), ColorSum);
  }

  /** The emoji table is empty only when no candidate is usable. */
  lemma EmojiTableEmpty(candidates: seq<string>, font: string -> Option<Rgb>)
    ensures |BuildEmojiTable(candidates, font)| == 0 <==>
      forall i :: 0 <= i < |candidates| ==> !Usable(candidates[i], font)
  {
    var t, s := BuildEmojiTable(candidates, font), Measured(candidates, font);
    if |t| == 0 {
      forall i | 0 <= i < |candidates|
        ensures !Usable(candidates[i], font)
      {
        if Usable(candidates[i], font) {
          var e := EmojiEntry(font(candidates[i]).value, candidates[i]);
          MeasuredMembers(candidates, font, e);
        }
      }
    } else {
      assert t[0] in multiset(s);
      MeasuredMembers(candidates, font, t[0]);
    }
  }
}
