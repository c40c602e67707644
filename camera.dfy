/** `AsciiCamera`: the tables built once by `__init__`, the mode check at
    the top of `run`, and the per-frame conversion `run` repeats. The
    camera, the resize and contrast steps and the terminal are outside
    the model: `Run` receives the frames that reach `_image_to_vocab`
    and returns the lines painted for each. */
module AsciiCamera {
  import opened Common
  import opened Sorting
  import opened GlyphTables
  import opened Matching
  import opened Frames

  /** The fields of an `AsciiCamera`; none changes after `__init__`. */
  datatype Camera = Camera(
    mode: string,
    width: int,
    height: int,
    asciiTable: seq<AsciiEntry>,
    emojiTable: seq<EmojiEntry>)

  /** What `__init__` establishes about the two tables. */
  ghost predicate WellFormed(cam: Camera)
  {
    |cam.asciiTable| == |Printable| &&
    SortedBy(cam.asciiTable, AsciiKey) &&
    (forall e :: e in cam.asciiTable ==> 0.0 <= e.key <= 256.0) &&
    SortedBy(cam.emojiTable, ColorSum) &&
    (forall e :: e in cam.emojiTable ==> |e.glyph| == 1)
  }

  /** The constructor of `AsciiCamera`: builds the ASCII table (which
      raises when every glyph is blank), then the emoji table, then stores
      the arguments. The mode is not checked here. */
  function NewCamera(
    mode: string, width: int, height: int,
    font: char -> seq<Byte>, candidates: seq<string>, emojiFont: string -> Option<Rgb>): (r: Result<Camera>)
    ensures r.Failure? <==> AllBlank(font)
    ensures r.Failure? ==> r.error == DivisionByZero
    ensures r.Success? ==>
      r.value.mode == mode && r.value.width == width && r.value.height == height &&
      Success(r.value.asciiTable) == BuildAsciiTable(font) &&
      r.value.emojiTable == BuildEmojiTable(candidates, emojiFont) &&
      WellFormed(r.value)
  {
    AsciiTableFailsIffBlank(font);
    match BuildAsciiTable(font)
    case Failure(e) => Failure(e)
    case Success(ascii) =>
      var cam := Camera(mode, width, height, ascii, BuildEmojiTable(candidates, emojiFont));
      BuiltCameraWellFormed(cam, font, candidates, emojiFont);
      Success(cam)
  }

  lemma BuiltCameraWellFormed(
    cam: Camera, font: char -> seq<Byte>, candidates: seq<string>, emojiFont: string -> Option<Rgb>)
    requires !AllBlank(font)
    requires Success(cam.asciiTable) == BuildAsciiTable(font)
    requires cam.emojiTable == BuildEmojiTable(candidates, emojiFont)
    ensures WellFormed(cam)
  {
    AsciiTableKeys(font);
    AsciiTableGlyphs(font);
    AsciiTableOrder(font);
    EmojiTableOrder(candidates, emojiFont);
    forall e | e in cam.emojiTable
      ensures |e.glyph| == 1
    {
      EmojiTableMembers(candidates, emojiFont, e);
    }
  }

  /** The mode check at the top of `run`: "ascii" draws with the ASCII
      table, "emoji" with the emoji table, and any other mode is rejected. */
  function SelectVocabulary(cam: Camera): (r: Result<Vocabulary>)
    ensures r.Success? <==> cam.mode == AsciiMode || cam.mode == EmojiMode
    ensures r.Failure? ==> r.error == ModeNotSupported
    ensures r.Success? ==> Matches(cam.mode, r.value)
    ensures r.Success? && cam.mode == AsciiMode ==> r.value.ascii == cam.asciiTable
    ensures r.Success? && cam.mode == EmojiMode ==> r.value.emoji == cam.emojiTable
  {
    if cam.mode == AsciiMode then Success(AsciiVocabulary(cam.asciiTable))
    else if cam.mode == EmojiMode then Success(EmojiVocabulary(cam.emojiTable))
    else Failure(ModeNotSupported)
  }

  /** `_image_to_emoji`: the same walk as `_image_to_vocab`, always with the
      emoji table. It dispatches on the camera's mode too; the model covers
      emoji mode only. */
  method ImageToEmoji(cam: Camera, img: Frame) returns (lines: seq<string>)
    requires Drawable(cam.mode, EmojiVocabulary(cam.emojiTable), img)
    ensures lines == FrameText(EmojiMode, img, EmojiVocabulary(cam.emojiTable))
  {
    lines := ImageToVocab(cam.mode, img, EmojiVocabulary(cam.emojiTable));
  }

  /** `run` without its devices: the mode is checked before any frame is
      taken; then every frame becomes one screen of lines, until a frame
      with a pixel meets an empty table (`min` of an empty list raises). */
  method Run(cam: Camera, frames: seq<Frame>) returns (r: Result<seq<seq<string>>>)
    ensures SelectVocabulary(cam).Failure? ==> r == Failure(ModeNotSupported)
    ensures SelectVocabulary(cam).Success? ==>
      var v := SelectVocabulary(cam).value;
      (r.Success? <==> forall k :: 0 <= k < |frames| ==> Drawable(cam.mode, v, frames[k])) &&
      (r.Failure? ==> r.error == EmptyVocabulary) &&
      (r.Success? ==>
        |r.value| == |frames| &&
        forall k :: 0 <= k < |frames| ==> r.value[k] == FrameText(cam.mode, frames[k], v))
  {
    var vocabulary := SelectVocabulary(cam);
    if vocabulary.Failure? {
      return Failure(ModeNotSupported);
    }
    var v := vocabulary.value;
    var screens: seq<seq<string>> := [];
    for k := 0 to |frames|
      invariant |screens| == k
      invariant forall n :: 0 <= n < k ==>
        Drawable(cam.mode, v, frames[n]) && screens[n] == FrameText(cam.mode, frames[n], v)
    {
      if !Drawable(cam.mode, v, frames[k]) {
        return Failure(EmptyVocabulary);
      }
      var lines := ImageToVocab(cam.mode, frames[k], v);
      screens := screens + [lines];
    }
    return Success(screens);
  }

  /** A camera built by `NewCamera` draws an H×W frame as H lines of 2·W
      characters in ascii mode and of W characters in emoji mode. */
  lemma ScreenShape(cam: Camera, img: Frame, w: nat)
    requires WellFormed(cam) && SelectVocabulary(cam).Success?
    requires forall i :: 0 <= i < |img| ==> |img[i]| == w
    requires Drawable(cam.mode, SelectVocabulary(cam).value, img)
    ensures var lines := FrameText(cam.mode, img, SelectVocabulary(cam).value);
      |lines| == |img| &&
      forall i :: 0 <= i < |img| ==> |lines[i]| == if cam.mode == AsciiMode then 2 * w else w
  {
    var v := SelectVocabulary(cam).value;
    var lines := FrameText(cam.mode, img, v);
    forall i | 0 <= i < |img|
      ensures |lines[i]| == if cam.mode == AsciiMode then 2 * w else w
    {
      if img[i] != [] {
        if cam.mode == AsciiMode {
          AsciiLine(img[i], cam.asciiTable);
        } else {
          EmojiLine(img[i], cam.emojiTable);
        }
      }
    }
  }
}
