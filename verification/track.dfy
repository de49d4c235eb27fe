/**
 * The SubRip track of the merge module: loading a track by extension,
 * restyling and shifting every cue of a track in place, and appending one
 * track to another with the renumbering loop.
 *
 * Timestamps here are signed durations in whole milliseconds.
 */
module Track {
  import opened Wrappers
  import opened Text
  import opened Markup

  /** One cue: its sequence number, start and end, and its text. */
  datatype SrtLine = SrtLine(sequenceNumber: nat, start: int, end: int, text: string)

  /** A loaded track, a list of cues that the transforms rewrite in place. */
  class Srt {
    var lines: seq<SrtLine>

    constructor (lines: seq<SrtLine>)
      ensures this.lines == lines
    {
      this.lines := lines;
    }
  }

  // ---------------------------------------------------------------------
  // apply_sub_changes
  // ---------------------------------------------------------------------

  /** One cue after the transform: restyled text, both ends moved by the offset. */
  function ChangeLine(line: SrtLine, color: Option<string>, position: SubPosition, offset: int): SrtLine {
    line.(text := Decorate(position, color, line.text), start := line.start + offset, end := line.end + offset)
  }

  /**
   * What the transform keeps and what it brings back: the number and the
   * length of the cue are kept, undoing the markup gives the text without
   * its leading `{\an8}`, and moving back by the offset gives the old times.
   */
  lemma ChangeLineSpec(line: SrtLine, color: Option<string>, position: SubPosition, offset: int)
    ensures var r := ChangeLine(line, color, position, offset);
      && r.sequenceNumber == line.sequenceNumber
      && r.end - r.start == line.end - line.start
      && r.start - offset == line.start && r.end - offset == line.end
      && StartsWith(r.text, Tag(position) + " ")
      && Undecorate(position, color, r.text) == StripTopCenter(line.text)
  {
    DecorateSpec(position, color, line.text);
  }

  /**
   * `apply_sub_changes` of the merge module: for every cue, strip one
   * leading `{\an8}`, put the position tag, a space and the color markup
   * around the text, and move start and end by the offset.
   */
  method ApplySubChanges(srt: Srt, color: Option<string>, position: SubPosition, offset: int)
    modifies srt
    ensures |srt.lines| == |old(srt.lines)|
    ensures forall i :: 0 <= i < |srt.lines| ==> srt.lines[i] == ChangeLine(old(srt.lines)[i], color, position, offset)
  {
    var tag := Tag(position);
    var colorStart, colorEnd := ColorStart(color), ColorEnd(color);
    var i := 0;
    while i < |srt.lines|
      invariant 0 <= i <= |srt.lines| == |old(srt.lines)|
      invariant forall k :: 0 <= k < i ==> srt.lines[k] == ChangeLine(old(srt.lines)[k], color, position, offset)
      invariant forall k :: i <= k < |srt.lines| ==> srt.lines[k] == old(srt.lines)[k]
    {
      var line := srt.lines[i];
      var text := line.text;
      if StartsWith(text, TopCenterTag) {
        text := text[|TopCenterTag|..];
      }
      text := tag + " " + colorStart + text + colorEnd;
      srt.lines := srt.lines[i := line.(text := text, start := line.start + offset, end := line.end + offset)];
      i := i + 1;
    }
  }

  // ---------------------------------------------------------------------
  // merge
  // ---------------------------------------------------------------------

  /** The cues with the first `n` renumbered 1..n by position, the others as they were. */
  function RenumberPrefix(lines: seq<SrtLine>, n: nat): (r: seq<SrtLine>)
    requires n <= |lines|
    ensures |r| == |lines|
    ensures forall i :: 0 <= i < n ==> r[i] == lines[i].(sequenceNumber := i + 1)
    ensures forall i :: n <= i < |lines| ==> r[i] == lines[i]
  {
    if n == 0 then lines
    else RenumberPrefix(lines, n - 1)[n - 1 := lines[n - 1].(sequenceNumber := n)]
  }

  /**
   * The cues of `merge` as written: the second track appended to the first,
   * then as many positions renumbered as the second track has cues.
   */
  function MergedLines(lines1: seq<SrtLine>, lines2: seq<SrtLine>): seq<SrtLine> {
    RenumberPrefix(lines1 + lines2, |lines2|)
  }

  /**
   * `merge`: extends the first track with the second, then renumbers
   * positions `0..n2` with `i + 1`, where `n2` is the second track's length.
   */
  method Merge(srt1: Srt, srt2: Srt)
    modifies srt1
    ensures srt1.lines == MergedLines(old(srt1.lines), old(srt2.lines))
  {
    var lines2 := srt2.lines;
    var len2 := |lines2|;
    srt1.lines := srt1.lines + lines2;
    ghost var joined := srt1.lines;
    for i := 0 to len2
      invariant srt1.lines == RenumberPrefix(joined, i)
    {
      srt1.lines := srt1.lines[i := srt1.lines[i].(sequenceNumber := i + 1)];
    }
  }

  /**
   * What `merge` as written keeps: the length is the sum, the cues are the
   * first track's then the second's with text and times untouched, the
   * first `n2` positions are numbered by position and every other cue keeps
   * its number.
   */
  lemma MergedLinesSpec(lines1: seq<SrtLine>, lines2: seq<SrtLine>)
    ensures var r := MergedLines(lines1, lines2);
      && |r| == |lines1| + |lines2|
      && (forall i :: 0 <= i < |lines1| ==>
            r[i].text == lines1[i].text && r[i].start == lines1[i].start && r[i].end == lines1[i].end)
      && (forall j :: 0 <= j < |lines2| ==>
            r[|lines1| + j].text == lines2[j].text && r[|lines1| + j].start == lines2[j].start
            && r[|lines1| + j].end == lines2[j].end)
      && (forall i :: 0 <= i < |lines2| ==> r[i].sequenceNumber == i + 1)
      && (forall i :: |lines2| <= i < |r| ==> r[i].sequenceNumber == (lines1 + lines2)[i].sequenceNumber)
  {
    var r := MergedLines(lines1, lines2);
    var c := lines1 + lines2;
    forall j | 0 <= j < |lines2|
      ensures r[|lines1| + j].text == lines2[j].text && r[|lines1| + j].start == lines2[j].start
        && r[|lines1| + j].end == lines2[j].end
    {
      assert c[|lines1| + j] == lines2[j];
    }
  }

  /** A track as a codec loads it: cues numbered 1, 2, ... in document order. */
  predicate NumberedFromOne(lines: seq<SrtLine>) {
    forall i :: 0 <= i < |lines| ==> lines[i].sequenceNumber == i + 1
  }

  /** No two cues share a number. */
  predicate DistinctNumbers(lines: seq<SrtLine>) {
    forall i, j :: 0 <= i < j < |lines| ==> lines[i].sequenceNumber != lines[j].sequenceNumber
  }

  /**
   * As written, merging two non-empty tracks that are each numbered from 1
   * always repeats a number: renumbering stops after `n2` positions, so
   * either the second track's first cue keeps number 1 (when `n2 <= n1`)
   * or its last cue keeps number `n2`, which position `n2 - 1` also got.
   */
  lemma MergeRepeatsNumbers(lines1: seq<SrtLine>, lines2: seq<SrtLine>)
    requires |lines1| > 0 && |lines2| > 0
    requires NumberedFromOne(lines1) && NumberedFromOne(lines2)
    ensures !DistinctNumbers(MergedLines(lines1, lines2))
  {
    var n1, n2 := |lines1|, |lines2|;
    var r := MergedLines(lines1, lines2);
    var c := lines1 + lines2;
    if n2 <= n1 {
      assert c[n1] == lines2[0];
      assert r[0].sequenceNumber == 1 == r[n1].sequenceNumber;
    } else {
      assert c[n1 + n2 - 1] == lines2[n2 - 1];
      assert r[n2 - 1].sequenceNumber == n2 == r[n1 + n2 - 1].sequenceNumber;
    }
  }

  /**
   * Two one-cue tracks, `Hello` from 1.000 s to 2.000 s and `こんにちは`
   * from 1.500 s to 2.500 s, both numbered 1: as written both cues of the
   * merged track are numbered 1.
   */
  lemma MergeOneCueEach()
    ensures var hello := SrtLine(1, 1000, 2000, "{\\an2} Hello");
      var konnichiwa := SrtLine(1, 1500, 2500, "{\\an2} こんにちは");
      MergedLines([hello], [konnichiwa]) == [hello, konnichiwa]
  {
    var hello := SrtLine(1, 1000, 2000, "{\\an2} Hello");
    var konnichiwa := SrtLine(1, 1500, 2500, "{\\an2} こんにちは");
    var r := MergedLines([hello], [konnichiwa]);
    assert r[0] == hello && r[1] == konnichiwa;
  }

  /** The cues of the merge with every position renumbered: 1 to n1 + n2. */
  function MergedContiguous(lines1: seq<SrtLine>, lines2: seq<SrtLine>): seq<SrtLine> {
    RenumberPrefix(lines1 + lines2, |lines1| + |lines2|)
  }

  /** The merge with the renumbering loop running over the whole merged track. */
  method MergeRenumbered(srt1: Srt, srt2: Srt)
    modifies srt1
    ensures srt1.lines == MergedContiguous(old(srt1.lines), old(srt2.lines))
  {
    var lines2 := srt2.lines;
    srt1.lines := srt1.lines + lines2;
    ghost var joined := srt1.lines;
    for i := 0 to |srt1.lines|
      invariant |srt1.lines| == |joined|
      invariant srt1.lines == RenumberPrefix(joined, i)
    {
      srt1.lines := srt1.lines[i := srt1.lines[i].(sequenceNumber := i + 1)];
    }
  }

  /**
   * The corrected merge: the first track's cues then the second's, text and
   * times untouched, numbered exactly 1 to n1 + n2 in order whatever the
   * inputs' numbers were, so no number repeats.
   */
  lemma MergedContiguousSpec(lines1: seq<SrtLine>, lines2: seq<SrtLine>)
    ensures var r := MergedContiguous(lines1, lines2);
      && |r| == |lines1| + |lines2|
      && NumberedFromOne(r) && DistinctNumbers(r)
      && (forall i :: 0 <= i < |lines1| ==> r[i] == lines1[i].(sequenceNumber := i + 1))
      && (forall j :: 0 <= j < |lines2| ==> r[|lines1| + j] == lines2[j].(sequenceNumber := |lines1| + j + 1))
  {
    var c := lines1 + lines2;
    forall j | 0 <= j < |lines2|
      ensures c[|lines1| + j] == lines2[j]
    {
    }
  }

  // ---------------------------------------------------------------------
  // load_sub
  // ---------------------------------------------------------------------

  /** The containers a track can be loaded from. */
  datatype Format = SubRip | WebVtt | SubStationAlpha

  /** Why loading failed: the read, the extension, or the codec. */
  datatype LoadError = ReadFailed(reason: string) | UnknownFormat | ParseFailed(reason: string)

  /** The position of the last dot of `s`, or -1. */
  function LastDot(s: string): (k: int)
    ensures -1 <= k < |s|
    ensures k >= 0 ==> s[k] == '.'
    ensures forall j :: k < j < |s| ==> s[j] != '.'
  {
    if s == [] then -1
    else if s[|s| - 1] == '.' then |s| - 1
    else LastDot(s[..|s| - 1])
  }

  /**
   * The extension of a file name as paths define it: what follows the last
   * dot, if that dot is not the first character; `..` has none.
   */
  function Extension(name: string): Option<string> {
    if name == ".." then None
    else
      var k := LastDot(name);
      if k <= 0 then None else Some(name[k + 1..])
  }

  /**
   * The extension is the dot-free text after a dot that is not the first
   * character; a name without such a dot, and `..`, have none.
   */
  lemma ExtensionSpec(name: string, e: string)
    ensures Extension(name) == Some(e) <==>
      name != ".." && exists k :: 0 < k < |name| && name[k] == '.' && NoDot(name[k + 1..]) && e == name[k + 1..]
  {
    if name != ".." && exists k :: 0 < k < |name| && name[k] == '.' && NoDot(name[k + 1..]) && e == name[k + 1..] {
      var k :| 0 < k < |name| && name[k] == '.' && NoDot(name[k + 1..]) && e == name[k + 1..];
      LastDotAt(name, k);
    }
  }

  /** A dot followed by no other dot is the last one. */
  lemma LastDotAt(s: string, k: nat)
    requires k < |s| && s[k] == '.' && NoDot(s[k + 1..])
    ensures LastDot(s) == k
  {
    var d := LastDot(s);
    assert d >= k;
  }


  function AsciiLower(c: char): char {
    if 'A' <= c <= 'Z' then (c as int + 32) as char else c
  }

  /** ASCII lower case, other characters unchanged. */
  function Lower(s: string): (r: string)
    ensures |r| == |s|
    ensures forall i :: 0 <= i < |s| ==> r[i] == AsciiLower(s[i])
  {
    if s == [] then [] else Lower(s[..|s| - 1]) + [AsciiLower(s[|s| - 1])]
  }

  /** The dispatch on the lower-cased extension; the empty text stands for no extension. */
  function FormatOf(ext: string): Option<Format> {
    match Lower(ext)
    case "srt" => Some(SubRip)
    case "vtt" => Some(WebVtt)
    case "ass" => Some(SubStationAlpha)
    case "ssa" => Some(SubStationAlpha)
    case _ => None
  }

  /**
   * `load_sub`: the file's content (or the read error) comes first, then the
   * extension selects the codec; the codecs are the `parse` parameter.
   */
  function LoadSub(name: string, content: Result<string, string>,
                   parse: (Format, string) -> Result<seq<SrtLine>, string>): Result<seq<SrtLine>, LoadError>
  {
    if content.Failure? then Failure(ReadFailed(content.error))
    else
      var ext := match Extension(name) case Some(e) => e case None => "";
      match FormatOf(ext)
      case None => Failure(UnknownFormat)
      case Some(format) =>
        match parse(format, content.value)
        case Success(lines) => Success(lines)
        case Failure(reason) => Failure(ParseFailed(reason))
  }

  /**
   * Loading fails on a failed read whatever the name; otherwise an
   * extension other than srt, vtt, ass or ssa in any letter case, or none,
   * is an unknown format, and a known one gives exactly what its codec
   * gives.
   */
  lemma LoadSubSpec(name: string, content: Result<string, string>,
                    parse: (Format, string) -> Result<seq<SrtLine>, string>)
    ensures content.Failure? ==> LoadSub(name, content, parse) == Failure(ReadFailed(content.error))
    ensures content.Success? && (Extension(name).None? || FormatOf(Extension(name).value).None?) ==>
      LoadSub(name, content, parse) == Failure(UnknownFormat)
    ensures content.Success? && Extension(name).Some? && FormatOf(Extension(name).value).Some? ==>
      var f := FormatOf(Extension(name).value).value;
      LoadSub(name, content, parse) ==
        (if parse(f, content.value).Success? then Success(parse(f, content.value).value)
         else Failure(ParseFailed(parse(f, content.value).error)))
  {
    if content.Success? && Extension(name).None? {
      assert Lower("") == "";
    }
  }

  /** Lower-casing twice is lower-casing once. */
  lemma LowerIdempotent(s: string)
    ensures Lower(Lower(s)) == Lower(s)
  {
    var l := Lower(s);
    assert forall i :: 0 <= i < |s| ==> AsciiLower(l[i]) == l[i];
  }

  /** Only the letter case of an extension is ignored: every case of `srt` loads as SubRip. */
  lemma FormatOfCases(ext: string)
    ensures FormatOf(ext) == FormatOf(Lower(ext))
    ensures FormatOf(ext) == Some(SubRip) <==> Lower(ext) == "srt"
    ensures FormatOf(ext) == Some(WebVtt) <==> Lower(ext) == "vtt"
    ensures FormatOf(ext) == Some(SubStationAlpha) <==> Lower(ext) == "ass" || Lower(ext) == "ssa"
  {
    LowerIdempotent(ext);
  }

  /** Names from the program's use: upper-case extensions load, hidden and bare names do not. */
  lemma ExtensionExamples()
    ensures Extension("Movie.en.SRT") == Some("SRT") && FormatOf("SRT") == Some(SubRip)
    ensures Extension("show.ja.Ass") == Some("Ass") && FormatOf("Ass") == Some(SubStationAlpha)
  {
    var a, b := "Movie.en.SRT", "show.ja.Ass";
    assert a[9..] == "SRT" && NoDot(a[9..]);
    LastDotAt(a, 8);
    assert Lower("SRT") == "srt";
    assert b[8..] == "Ass" && NoDot(b[8..]);
    LastDotAt(b, 7);
    assert Lower("Ass") == "ass";
  }

  /**
   * A name whose only dot leads it, a name without a dot and `..` have no
   * extension; a trailing dot gives the empty one, which names no format.
   */
  lemma NoExtensionExamples()
    ensures Extension(".srt") == None && Extension("movie") == None && Extension("..") == None
    ensures Extension("movie.") == Some("") && FormatOf("") == None
  {
    var c := ".srt";
    assert c[1..] == "srt" && NoDot(c[1..]);
    LastDotAt(c, 0);
    assert LastDot("movie") == -1;
    assert "movie."[6..] == "" && NoDot("movie."[6..]);
    LastDotAt("movie.", 5);
    assert Lower("") == "";
  }

}
