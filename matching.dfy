/** Nearest-glyph lookup: `_get_closest_character` and the two matchers
    it dispatches to. */
module Matching {
  import opened Common
  import opened ArgMin
  import opened GlyphTables

  const AsciiMode: string := "ascii"
  const EmojiMode: string := "emoji"

  /** The table a mode works with: the ASCII table or the emoji table. */
  datatype Vocabulary =
    | AsciiVocabulary(ascii: seq<AsciiEntry>)
    | EmojiVocabulary(emoji: seq<EmojiEntry>)
  {
    function Size(): nat
    {
      match this
      case AsciiVocabulary(t) => |t|
      case EmojiVocabulary(t) => |t|
    }
  }

  /** The table kind agrees with the mode, as `run` arranges it. */
  predicate Matches(mode: string, v: Vocabulary)
  {
    (mode == AsciiMode && v.AsciiVocabulary?) || (mode == EmojiMode && v.EmojiVocabulary?)
  }

  function Abs(x: real): real { if x < 0.0 then -x else x }

  /** The absolute difference between each entry's key and `q`, in table order. */
  function BwDistances(q: real, table: seq<AsciiEntry>): (d: seq<real>)
    ensures |d| == |table|
  {
    seq(|table|, i requires 0 <= i < |table| => Abs(table[i].key - q))
  }

  /** `_get_closest_character_bw`: the glyph of the first entry whose key
      is nearest to `q`, written twice. */
  function ClosestBw(q: real, table: seq<AsciiEntry>): (r: string)
    requires |table| > 0
    ensures |r| == 2 && r[0] == r[1]
  {
    var closest := table[FirstArgMin(BwDistances(q, table))].glyph;
    [closest] + [closest]
  }

  /** The doubled glyph belongs to an entry at least as near to `q` as
      every entry and strictly nearer than every earlier one. */
  lemma ClosestBwNearest(q: real, table: seq<AsciiEntry>)
    requires |table| > 0
    ensures exists i ::
      0 <= i < |table| &&
      (forall j :: 0 <= j < |table| ==> Abs(table[i].key - q) <= Abs(table[j].key - q)) &&
      (forall j :: 0 <= j < i ==> Abs(table[i].key - q) < Abs(table[j].key - q)) &&
      ClosestBw(q, table) == [table[i].glyph, table[i].glyph]
    ensures |table| == 1 ==> ClosestBw(q, table) == [table[0].glyph, table[0].glyph]
  {
    var d := BwDistances(q, table);
    var i := FirstArgMin(d);
    assert forall j :: 0 <= j < |table| ==> d[j] == Abs(table[j].key - q);
    assert ClosestBw(q, table) == [table[i].glyph, table[i].glyph];
  }

  /** Squared Euclidean distance; `sqrt` is monotone, so it orders the
      entries as `np.linalg.norm` does. */
  function SqDistance(a: Rgb, b: Rgb): real
  {
    (a.r - b.r) * (a.r - b.r) + (a.g - b.g) * (a.g - b.g) + (a.b - b.b) * (a.b - b.b)
  }

  /** A scalar broadcast against a colour: `(m, m, m)`. */
  function Grey(m: real): Rgb { Rgb(m, m, m) }

  /** The distance of every entry's colour to `q`, in table order. */
  function RgbDistances(q: Rgb, table: seq<EmojiEntry>): (d: seq<real>)
    ensures |d| == |table|
  {
    seq(|table|, i requires 0 <= i < |table| => SqDistance(table[i].color, q))
  }

  /** `_get_closest_character_rgb`: the glyph of the first entry whose
      colour is nearest to `q`, not doubled. */
  function ClosestRgb(q: Rgb, table: seq<EmojiEntry>): (r: string)
    requires |table| > 0
  {
    table[FirstArgMin(RgbDistances(q, table))].glyph
  }

  /** The glyph belongs to an entry whose colour is at least as near to `q`
      as every entry's and strictly nearer than every earlier entry's. */
  lemma ClosestRgbNearest(q: Rgb, table: seq<EmojiEntry>)
    requires |table| > 0
    ensures exists i ::
      0 <= i < |table| &&
      (forall j :: 0 <= j < |table| ==> SqDistance(table[i].color, q) <= SqDistance(table[j].color, q)) &&
      (forall j :: 0 <= j < i ==> SqDistance(table[i].color, q) < SqDistance(table[j].color, q)) &&
      ClosestRgb(q, table) == table[i].glyph
    ensures |table| == 1 ==> ClosestRgb(q, table) == table[0].glyph
  {
    var d := RgbDistances(q, table);
    var i := FirstArgMin(d);
    assert forall j :: 0 <= j < |table| ==> d[j] == SqDistance(table[j].color, q);
  }

  /** `_get_closest_character`: "emoji" compares the grey colour of the
      mean with the emoji table, "ascii" compares the mean with the ASCII
      table, and any other mode gives no glyph (Python's `None`). */
  function ClosestCharacter(mode: string, q: real, v: Vocabulary): (r: Option<string>)
    requires mode == AsciiMode || mode == EmojiMode ==> Matches(mode, v) && v.Size() > 0
    ensures r.Some? <==> mode == AsciiMode || mode == EmojiMode
    ensures mode == EmojiMode ==> r == Some(ClosestRgb(Grey(q), v.emoji))
    ensures mode == AsciiMode ==> r == Some(ClosestBw(q, v.ascii))
  {
    if mode == EmojiMode then Some(ClosestRgb(Grey(q), v.emoji))
    else if mode == AsciiMode then Some(ClosestBw(q, v.ascii))
    else None
  }
}
