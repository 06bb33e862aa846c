/**
 * The whole run: timings of every image stacked into a matrix, the sequence
 * map read from the same images' comments and corrected, and the message
 * decoded column by column and unescaped.
 */
module Pipeline {
  import opened Common
  import opened Text
  import opened Timing
  import opened Matrix
  import opened SequenceMap
  import opened Decoder

  /** What the program reads from one image file: its frames and its comment text. */
  datatype Image = Image(frames: seq<Frame>, comment: string)

  function FramesOf(images: seq<Image>): seq<seq<Frame>>
  {
    seq(|images|, i requires 0 <= i < |images| => images[i].frames)
  }

  function CommentsOf(images: seq<Image>): seq<string>
  {
    seq(|images|, i requires 0 <= i < |images| => images[i].comment)
  }

  /** The message the run prints, or the first failure it stops with, in the order the steps run. */
  function Lore(images: seq<Image>): Result<string>
  {
    var m := Survivors(seq(|images|, i requires 0 <= i < |images| => TimingArray(images[i].frames)));
    if |m| == 0 then Err(NoValidImage)
    else if !Rectangular(m) then Err(RowLengthMismatch)
    else
      match EmbeddedMapOf(CommentsOf(images))
      case Err(e) => Err(e)
      case Ok(scanned) =>
        match Corrected(scanned)
        case Err(e) => Err(e)
        case Ok(d) =>
          match LetterMapOf(m, d.keys, d.values)
          case Err(e) => Err(e)
          case Ok(lm) => Ok(Unescape(Decoded(m, lm, FirstOccurrenceMap(m, Width(m)), Width(m))))
  }

  /** The run, step by step; the printed message carries no caret escape. */
  method Run(images: seq<Image>) returns (r: Result<string>)
    ensures r == Lore(images)
    ensures r.Ok? ==> !Occurs(r.value, '^', 'J') && !Occurs(r.value, '^', 'I') && !Occurs(r.value, '^', 'L')
  {
    var results := ExtractAll(FramesOf(images));
    assert results == seq(|images|, i requires 0 <= i < |images| => TimingArray(images[i].frames));
    var timings := GetAllTimings(results);
    if timings.Err? {
      return Err(timings.error);
    }
    var m := timings.value;
    var scanned := EmbeddedSequenceMap(CommentsOf(images));
    if scanned.Err? {
      return Err(scanned.error);
    }
    var corrected := ApplyCorrections(scanned.value);
    if corrected.Err? {
      return Err(corrected.error);
    }
    var lm := BuildLetterMap(m, corrected.value);
    if lm.Err? {
      return Err(lm.error);
    }
    var fo := FirstOccurrences(m);
    var lore := Decode(m, lm.value, fo);
    UnescapeLeavesNoEscapes(lore);
    return Ok(Unescape(lore));
  }
}
