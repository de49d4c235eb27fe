/**
 * The SubRip track of the command-line program: cues carry SubRip
 * timestamps and a list of text lines, and the transform restyles every
 * line and shifts the timestamps through the duration conversion.
 */
module SubRipTrack {
  import opened Wrappers
  import opened Text
  import opened Markup
  import opened Timestamp

  /** An explicit on-screen box of a cue, which the transform discards. */
  datatype LinePosition = LinePosition(x1: int, x2: int, y1: int, y2: int)

  /** One cue: number, start and end timestamps, optional box, text lines. */
  datatype Subtitle = Subtitle(sequence: nat, start: SrtTimestamp, end: SrtTimestamp,
                               linePosition: Option<LinePosition>, text: seq<string>)

  /** A loaded track whose cues the transform rewrites in place. */
  class SubRip {
    var subtitles: seq<Subtitle>

    constructor (subtitles: seq<Subtitle>)
      ensures this.subtitles == subtitles
    {
      this.subtitles := subtitles;
    }
  }

  /** Every line of a cue restyled. */
  function DecorateLines(position: SubPosition, color: Option<string>, lines: seq<string>): (r: seq<string>)
    ensures |r| == |lines|
    ensures forall k :: 0 <= k < |lines| ==> r[k] == Decorate(position, color, lines[k])
  {
    if lines == [] then []
    else DecorateLines(position, color, lines[..|lines| - 1]) + [Decorate(position, color, lines[|lines| - 1])]
  }

  /** One cue after the transform: no box, restyled lines, both timestamps shifted. */
  function ChangeSubtitle(sub: Subtitle, color: Option<string>, position: SubPosition, offset: int): Subtitle {
    sub.(linePosition := None, text := DecorateLines(position, color, sub.text),
         start := Shift(sub.start, offset), end := Shift(sub.end, offset))
  }

  /**
   * `apply_sub_changes` of the program: for every cue, drop its box, strip
   * one leading `{\an8}` from every line, then put the position tag, a
   * space and the color markup around every line, and move both
   * timestamps by the offset through the duration conversion.
   */
  method ApplySubChanges(srt: SubRip, color: Option<string>, position: SubPosition, offset: int)
    modifies srt
    ensures |srt.subtitles| == |old(srt.subtitles)|
    ensures forall i :: 0 <= i < |srt.subtitles| ==>
      srt.subtitles[i] == ChangeSubtitle(old(srt.subtitles)[i], color, position, offset)
  {
    var i := 0;
    while i < |srt.subtitles|
      invariant 0 <= i <= |srt.subtitles| == |old(srt.subtitles)|
      invariant forall k :: 0 <= k < i ==> srt.subtitles[k] == ChangeSubtitle(old(srt.subtitles)[k], color, position, offset)
      invariant forall k :: i <= k < |srt.subtitles| ==> srt.subtitles[k] == old(srt.subtitles)[k]
    {
      var sub := srt.subtitles[i];
      var text := RestyleLines(sub.text, color, position);
      var start := ChronoToSrt(SrtToChrono(sub.start) + offset);
      var end := ChronoToSrt(SrtToChrono(sub.end) + offset);
      srt.subtitles := srt.subtitles[i := sub.(linePosition := None, text := text, start := start, end := end)];
      i := i + 1;
    }
  }

  /**
   * The two loops over a cue's lines: first strip one leading `{\an8}` from
   * every line, then put the position tag, a space and the color markup
   * around every line.
   */
  method RestyleLines(lines: seq<string>, color: Option<string>, position: SubPosition) returns (text: seq<string>)
    ensures text == DecorateLines(position, color, lines)
  {
    var tag := Tag(position);
    var colorStart, colorEnd := ColorStart(color), ColorEnd(color);
    text := lines;
    var j := 0;
    while j < |text|
      invariant 0 <= j <= |text| == |lines|
      invariant forall k :: 0 <= k < j ==> text[k] == StripTopCenter(lines[k])
      invariant forall k :: j <= k < |text| ==> text[k] == lines[k]
    {
      if StartsWith(text[j], TopCenterTag) {
        text := text[j := text[j][|TopCenterTag|..]];
      }
      j := j + 1;
    }
    j := 0;
    while j < |text|
      invariant 0 <= j <= |text| == |lines|
      invariant forall k :: 0 <= k < j ==> text[k] == Decorate(position, color, lines[k])
      invariant forall k :: j <= k < |text| ==> text[k] == StripTopCenter(lines[k])
    {
      text := text[j := tag + " " + colorStart + text[j] + colorEnd];
      j := j + 1;
    }
  }

  /**
   * What the transform does to one cue: the number and the line count are
   * kept, the box is gone, every line starts with the position tag and a
   * space and gives back its text without the leading `{\an8}`, and both
   * timestamps come out with fields in range.
   */
  lemma ChangeSubtitleSpec(sub: Subtitle, color: Option<string>, position: SubPosition, offset: int)
    ensures var r := ChangeSubtitle(sub, color, position, offset);
      && r.sequence == sub.sequence && |r.text| == |sub.text| && r.linePosition.None?
      && (forall k :: 0 <= k < |r.text| ==>
            StartsWith(r.text[k], Tag(position) + " ")
            && Undecorate(position, color, r.text[k]) == StripTopCenter(sub.text[k]))
      && ValidFields(r.start) && ValidFields(r.end)
  {
    var r := ChangeSubtitle(sub, color, position, offset);
    forall k | 0 <= k < |r.text|
      ensures StartsWith(r.text[k], Tag(position) + " ")
      ensures Undecorate(position, color, r.text[k]) == StripTopCenter(sub.text[k])
    {
      DecorateSpec(position, color, sub.text[k]);
    }
  }

  /** A zero offset leaves timestamps with fields in range as they were. */
  lemma ZeroOffsetKeepsTimes(sub: Subtitle, color: Option<string>, position: SubPosition)
    requires ValidFields(sub.start) && ValidFields(sub.end)
    ensures ChangeSubtitle(sub, color, position, 0).start == sub.start
    ensures ChangeSubtitle(sub, color, position, 0).end == sub.end
  {
    ShiftZero(sub.start);
    ShiftZero(sub.end);
  }

  /**
   * While both shifted times stay between zero and 256 hours, the cue keeps
   * its duration and moves by exactly the offset.
   */
  lemma ShiftKeepsDuration(sub: Subtitle, color: Option<string>, position: SubPosition, offset: int)
    requires 0 <= SrtToChrono(sub.start) + offset < 256 * MillisPerHour
    requires 0 <= SrtToChrono(sub.end) + offset < 256 * MillisPerHour
    ensures var r := ChangeSubtitle(sub, color, position, offset);
      && SrtToChrono(r.start) == SrtToChrono(sub.start) + offset
      && SrtToChrono(r.end) - SrtToChrono(r.start) == SrtToChrono(sub.end) - SrtToChrono(sub.start)
  {
    ShiftInRange(sub.start, offset);
    ShiftInRange(sub.end, offset);
  }
}
