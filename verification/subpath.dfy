/**
 * Subtitle file names. The pattern string that discovery compiles, the set
 * of file names that pattern accepts together with what it captures
 * (language, hearing-impaired flag, extension), and the base stem of a
 * file name (its first run of non-dot characters).
 *
 * The pattern is unanchored at the start and anchored at the end:
 * `[^\.]+\.(?P<lang>L1|L2)(\.(?P<hearing>hi))?\.(?P<ext>srt|vtt)$`.
 * Match below states its accepted language directly on strings.
 */
module SubPath {
  import opened Wrappers
  import opened Text

  // ---------------------------------------------------------------------
  // Language codes and configuration
  // ---------------------------------------------------------------------

  /**
   * Characters with a meaning in the pattern syntax outside a character
   * class; language codes are spliced in unescaped. `-`, `&`, `~` and `#`
   * are read literally there, so codes such as `pt-BR` are valid.
   */
  predicate IsMeta(c: char) {
    || c == '\\' || c == '.' || c == '+' || c == '*' || c == '?' || c == '(' || c == ')'
    || c == '|' || c == '[' || c == ']' || c == '{' || c == '}' || c == '^' || c == '$'
  }

  /**
   * A language code the pattern reads literally: non-empty, free of
   * pattern syntax (and so of dots), and not `hi`, which would make the
   * language and the hearing-impaired group capture the same segment.
   */
  predicate ValidLang(l: string) {
    |l| > 0 && l != "hi" && forall i :: 0 <= i < |l| ==> !IsMeta(l[i])
  }

  /** The two requested languages and whether `.vtt` files are looked for as well as `.srt`. */
  datatype Config = Config(lang1: string, lang2: string, findVtt: bool)

  predicate ValidConfig(cfg: Config) {
    ValidLang(cfg.lang1) && ValidLang(cfg.lang2)
  }

  lemma ValidLangNoDot(l: string)
    requires ValidLang(l)
    ensures NoDot(l)
  {
    forall i | 0 <= i < |l| ensures l[i] != '.' {
      assert !IsMeta(l[i]);
    }
  }

  // ---------------------------------------------------------------------
  // The pattern string (get_sub_path_regex) and its inverse
  // ---------------------------------------------------------------------

  const PatternHead: string := "[^\\.]+\\.(?P<lang>"
  const PatternMid: string := ")(\\.(?P<hearing>hi))?\\.(?P<ext>"
  const PatternTail: string := ")$"

  /** The extension alternatives: `srt|vtt`, or `srt` alone. */
  function ExtAlternatives(findVtt: bool): string {
    if findVtt then "srt|vtt" else "srt"
  }

  /** `get_sub_path_regex`: the pattern built by concatenation around the two codes. */
  function SubPathRegex(lang1: string, lang2: string, findVtt: bool): string {
    var langs := lang1 + "|" + lang2;
    PatternHead + (langs + (PatternMid + ExtAlternatives(findVtt) + PatternTail))
  }

  /** The index of the first `c` in `s`, or |s| if there is none. */
  function IndexOf(s: string, c: char): (i: nat)
    ensures i <= |s|
    ensures i < |s| ==> s[i] == c
    ensures forall k :: 0 <= k < i ==> s[k] != c
  {
    if s == [] then 0
    else if s[0] == c then 0
    else 1 + IndexOf(s[1..], c)
  }

  /** Reads the extension choice back out of the text after the second language. */
  function ParseExtensions(tail: string): Option<bool> {
    if tail == PatternMid + ExtAlternatives(true) + PatternTail then Some(true)
    else if tail == PatternMid + ExtAlternatives(false) + PatternTail then Some(false)
    else None
  }

  /**
   * Splits the text after the pattern head into the first language (up to
   * the first `|`), the second language (up to the next `)`) and the rest.
   */
  function SplitLanguages(rest: string): Option<(string, string, string)> {
    var i := IndexOf(rest, '|');
    if i == |rest| then None
    else
      var rest2 := rest[i + 1..];
      var j := IndexOf(rest2, ')');
      Some((rest[..i], rest2[..j], rest2[j..]))
  }

  /**
   * Reads a configuration back out of a pattern string: the fixed head, the
   * two languages, then the fixed middle with one of the two extension lists.
   */
  function ParsePattern(s: string): Option<Config> {
    if !StartsWith(s, PatternHead) then None
    else
      match SplitLanguages(s[|PatternHead|..])
      case None => None
      case Some((lang1, lang2, tail)) =>
        match ParseExtensions(tail)
        case Some(findVtt) => Some(Config(lang1, lang2, findVtt))
        case None => None
  }

  lemma ParseExtensionsRoundTrip(findVtt: bool)
    ensures ParseExtensions(PatternMid + ExtAlternatives(findVtt) + PatternTail) == Some(findVtt)
  {
    if !findVtt {
      assert |PatternMid + ExtAlternatives(false) + PatternTail| != |PatternMid + ExtAlternatives(true) + PatternTail|;
    }
  }

  /** The first occurrence of `c` in `a + [c] + b`, when `a` has none, is at |a|. */
  lemma IndexOfSplit(a: string, c: char, b: string)
    requires forall k :: 0 <= k < |a| ==> a[k] != c
    ensures IndexOf(a + [c] + b, c) == |a|
  {
    var s := a + [c] + b;
    var i := IndexOf(s, c);
    assert forall k :: 0 <= k < |a| ==> s[k] == a[k];
    assert s[|a|] == c;
  }

  /** A valid code contains neither `|` nor `)`, the two characters that delimit it. */
  lemma ValidLangDelimiters(l: string)
    requires ValidLang(l)
    ensures forall k :: 0 <= k < |l| ==> l[k] != '|' && l[k] != ')'
  {
    assert IsMeta('|') && IsMeta(')');
  }

  /** Two codes free of `|` and `)`, joined by `|` and followed by `)…`, split back apart. */
  lemma SplitLanguagesRoundTrip(l1: string, l2: string, tail: string)
    requires forall k :: 0 <= k < |l1| ==> l1[k] != '|'
    requires forall k :: 0 <= k < |l2| ==> l2[k] != ')'
    requires |tail| > 0 && tail[0] == ')'
    ensures SplitLanguages(l1 + "|" + l2 + tail) == Some((l1, l2, tail))
  {
    var rest := l1 + "|" + l2 + tail;
    assert rest == l1 + ['|'] + (l2 + tail);
    IndexOfSplit(l1, '|', l2 + tail);
    assert rest[..|l1|] == l1;
    var rest2 := rest[|l1| + 1..];
    assert rest2 == l2 + [')'] + tail[1..];
    IndexOfSplit(l2, ')', tail[1..]);
    assert rest2[..|l2|] == l2 && rest2[|l2|..] == tail;
  }

  /** The pattern string determines the configuration it was built from. */
  lemma PatternRoundTrip(cfg: Config)
    requires ValidConfig(cfg)
    ensures ParsePattern(SubPathRegex(cfg.lang1, cfg.lang2, cfg.findVtt)) == Some(cfg)
  {
    var l1, l2 := cfg.lang1, cfg.lang2;
    var tail := PatternMid + ExtAlternatives(cfg.findVtt) + PatternTail;
    var s := SubPathRegex(l1, l2, cfg.findVtt);
    assert s[|PatternHead|..] == l1 + "|" + l2 + tail;
    ValidLangDelimiters(l1);
    ValidLangDelimiters(l2);
    SplitLanguagesRoundTrip(l1, l2, tail);
    ParseExtensionsRoundTrip(cfg.findVtt);
  }

  lemma HeadForEnJa()
    ensures PatternHead + ("en" + "|" + "ja") == "[^\\.]+\\.(?P<lang>en|ja"
  {
    assert "en" + "|" + "ja" == "en|ja";
  }

  lemma TailFor(findVtt: bool)
    ensures PatternMid + ExtAlternatives(findVtt) + PatternTail ==
      if findVtt then ")(\\.(?P<hearing>hi))?\\.(?P<ext>srt|vtt)$" else ")(\\.(?P<hearing>hi))?\\.(?P<ext>srt)$"
  {
  }

  /** The example pattern of the builder's documentation, for `en`, `ja` with `.vtt` on. */
  lemma DocumentedPattern()
    ensures SubPathRegex("en", "ja", true) ==
      "[^\\.]+\\.(?P<lang>en|ja" + ")(\\.(?P<hearing>hi))?\\.(?P<ext>srt|vtt)$"
  {
    HeadForEnJa();
    TailFor(true);
    assert SubPathRegex("en", "ja", true) == (PatternHead + ("en" + "|" + "ja")) + (PatternMid + ExtAlternatives(true) + PatternTail);
  }

  /** With `.vtt` off, the extension group holds `srt` alone. */
  lemma DocumentedPatternSrtOnly()
    ensures SubPathRegex("en", "ja", false) ==
      "[^\\.]+\\.(?P<lang>en|ja" + ")(\\.(?P<hearing>hi))?\\.(?P<ext>srt)$"
  {
    HeadForEnJa();
    TailFor(false);
    assert SubPathRegex("en", "ja", false) == (PatternHead + ("en" + "|" + "ja")) + (PatternMid + ExtAlternatives(false) + PatternTail);
  }

  // ---------------------------------------------------------------------
  // The accepted language of the pattern
  // ---------------------------------------------------------------------

  /** What a match captures: the language, whether `.hi` was present, and the extension. */
  datatype Capture = Capture(lang: string, hi: bool, ext: string)

  /** `q` ends with `.` then `l`, and the character before that dot is not a dot. */
  predicate EndsWithSegment(q: string, l: string) {
    |l| + 2 <= |q| && q[|q| - |l|..] == l && q[|q| - |l| - 1] == '.' && q[|q| - |l| - 2] != '.'
  }

  /** Which of the two languages, tried in order, `q` ends with as a segment. */
  function LangAt(cfg: Config, q: string): Option<string> {
    if EndsWithSegment(q, cfg.lang1) then Some(cfg.lang1)
    else if EndsWithSegment(q, cfg.lang2) then Some(cfg.lang2)
    else None
  }

  /** Matches what precedes `.ext`: a language segment, with the optional `.hi` tried first. */
  function MatchBeforeExt(cfg: Config, p: string, ext: string): Option<Capture> {
    if EndsWith(p, ".hi") && LangAt(cfg, p[..|p| - 3]).Some? then
      Some(Capture(LangAt(cfg, p[..|p| - 3]).value, true, ext))
    else
      match LangAt(cfg, p)
      case Some(l) => Some(Capture(l, false, ext))
      case None => None
  }

  /**
   * The captures of the discovery pattern on a file name, or None when the
   * name is not accepted: it must end in `.srt` (or `.vtt` when enabled),
   * before that optionally `.hi`, before that `.` and one of the two
   * languages, and before that a character other than a dot.
   */
  function Match(cfg: Config, name: string): Option<Capture> {
    if EndsWith(name, ".srt") then MatchBeforeExt(cfg, name[..|name| - 4], "srt")
    else if cfg.findVtt && EndsWith(name, ".vtt") then MatchBeforeExt(cfg, name[..|name| - 4], "vtt")
    else None
  }

  /** The extensions the pattern admits. */
  function AllowedExts(findVtt: bool): set<string> {
    if findVtt then {"srt", "vtt"} else {"srt"}
  }

  /** The text a capture stands for at the end of a name: `.L`, maybe `.hi`, then `.E`. */
  function Suffix(c: Capture): string {
    "." + c.lang + (if c.hi then ".hi" else "") + "." + c.ext
  }

  /**
   * Reference description of an accepted name: it ends in Suffix(c) for a
   * requested language and an admitted extension, and the character just
   * before that suffix exists and is not a dot.
   */
  predicate Accepts(cfg: Config, name: string, c: Capture) {
    && (c.lang == cfg.lang1 || c.lang == cfg.lang2)
    && c.ext in AllowedExts(cfg.findVtt)
    && |Suffix(c)| < |name|
    && EndsWith(name, Suffix(c))
    && name[|name| - |Suffix(c)| - 1] != '.'
  }

  /** EndsWithSegment spelled as a suffix `.l` plus the character before it. */
  lemma EndsWithSegmentIff(q: string, l: string)
    ensures EndsWithSegment(q, l) <==>
      |l| + 2 <= |q| && EndsWith(q, "." + l) && q[|q| - |l| - 2] != '.'
  {
    if |l| + 2 <= |q| {
      EndsWithConcat(q, ".", l);
    }
  }

  /** Two dot-free codes that both end `q` as a segment are the same code. */
  lemma SegmentUnique(q: string, a: string, b: string)
    requires NoDot(a) && NoDot(b)
    requires EndsWithSegment(q, a) && EndsWithSegment(q, b)
    ensures a == b
  {
  }

  /** A name whose last segment is a valid code does not end in `.hi`. */
  lemma NotHiSuffix(p: string, l: string)
    requires ValidLang(l) && EndsWithSegment(p, l)
    ensures !EndsWith(p, ".hi")
  {
    ValidLangNoDot(l);
    assert |l| >= 3 ==> l[|l| - 3] == p[|p| - 3];
    assert |l| == 2 ==> l == p[|p| - 2..];
    assert |l| == 1 ==> p[|p| - 2] == '.';
  }

  /** LangAt finds exactly the requested code that ends `q` as a segment. */
  lemma LangAtSpec(cfg: Config, q: string, l: string)
    requires ValidConfig(cfg)
    ensures LangAt(cfg, q) == Some(l) <==> (l == cfg.lang1 || l == cfg.lang2) && EndsWithSegment(q, l)
  {
    ValidLangNoDot(cfg.lang1);
    ValidLangNoDot(cfg.lang2);
    if EndsWithSegment(q, cfg.lang1) && EndsWithSegment(q, l) && l == cfg.lang2 {
      SegmentUnique(q, cfg.lang1, cfg.lang2);
    }
  }

  /** The part before `.ext`, read as `.L` with an optional `.hi`. */
  lemma MatchBeforeExtSpec(cfg: Config, p: string, ext: string, c: Capture)
    requires ValidConfig(cfg) && c.ext == ext
    ensures MatchBeforeExt(cfg, p, ext) == Some(c) <==>
      (c.lang == cfg.lang1 || c.lang == cfg.lang2) &&
      if c.hi then EndsWith(p, ".hi") && EndsWithSegment(p[..|p| - 3], c.lang)
      else EndsWithSegment(p, c.lang)
  {
    if (c.lang == cfg.lang1 || c.lang == cfg.lang2) && EndsWithSegment(p, c.lang) {
      NotHiSuffix(p, c.lang);
    }
    LangAtSpec(cfg, p, c.lang);
    if EndsWith(p, ".hi") {
      LangAtSpec(cfg, p[..|p| - 3], c.lang);
    }
  }

  /** The suffix `.L.hi.E` (or `.L.E`) splits into its extension part and the rest. */
  lemma SuffixSplit(name: string, c: Capture)
    requires |c.ext| == 3
    ensures EndsWith(name, Suffix(c)) <==>
      EndsWith(name, "." + c.ext) &&
      var p := name[..|name| - 4];
      if c.hi then EndsWith(p, ".hi") && EndsWith(p[..|p| - 3], "." + c.lang)
      else EndsWith(p, "." + c.lang)
  {
    var hiPart := if c.hi then ".hi" else "";
    assert Suffix(c) == ("." + c.lang + hiPart) + ("." + c.ext);
    EndsWithConcat(name, "." + c.lang + hiPart, "." + c.ext);
    if EndsWith(name, "." + c.ext) {
      var p := name[..|name| - 4];
      EndsWithConcat(p, "." + c.lang, hiPart);
      if !c.hi {
        assert "." + c.lang + hiPart == "." + c.lang;
        assert p[..|p| - |hiPart|] == p;
      }
    }
  }

  /** The dot-check character of Accepts, read inside the part before `.ext`. */
  lemma GuardCharacter(name: string, c: Capture)
    requires |c.ext| == 3 && |Suffix(c)| < |name|
    ensures var p := name[..|name| - 4];
      if c.hi then name[|name| - |Suffix(c)| - 1] == p[..|p| - 3][|p| - 3 - |c.lang| - 2]
      else name[|name| - |Suffix(c)| - 1] == p[|p| - |c.lang| - 2]
  {
  }

  /** Match cuts off the admitted extension and hands the rest to MatchBeforeExt. */
  lemma MatchExtension(cfg: Config, name: string)
    requires Match(cfg, name).Some?
    ensures var c := Match(cfg, name).value;
      && c.ext in AllowedExts(cfg.findVtt) && |c.ext| == 3
      && EndsWith(name, "." + c.ext)
      && MatchBeforeExt(cfg, name[..|name| - 4], c.ext) == Some(c)
  {
  }

  /** An accepted remainder before an admitted extension makes an accepted name. */
  lemma MatchBeforeExtSound(cfg: Config, name: string, c: Capture)
    requires ValidConfig(cfg)
    requires c.ext in AllowedExts(cfg.findVtt) && |c.ext| == 3 && EndsWith(name, "." + c.ext)
    requires MatchBeforeExt(cfg, name[..|name| - 4], c.ext) == Some(c)
    ensures Accepts(cfg, name, c)
  {
    var p := name[..|name| - 4];
    MatchBeforeExtSpec(cfg, p, c.ext, c);
    SuffixSplit(name, c);
    if c.hi {
      EndsWithSegmentIff(p[..|p| - 3], c.lang);
    } else {
      EndsWithSegmentIff(p, c.lang);
    }
    GuardCharacter(name, c);
  }

  /** What Match reports is accepted. */
  lemma MatchSound(cfg: Config, name: string, c: Capture)
    requires ValidConfig(cfg)
    requires Match(cfg, name) == Some(c)
    ensures Accepts(cfg, name, c)
  {
    MatchExtension(cfg, name);
    MatchBeforeExtSound(cfg, name, c);
  }

  /** Once the name ends in an admitted extension, Match looks at what precedes it. */
  lemma MatchOfExtension(cfg: Config, name: string, ext: string)
    requires ext in AllowedExts(cfg.findVtt) && EndsWith(name, "." + ext)
    ensures Match(cfg, name) == MatchBeforeExt(cfg, name[..|name| - 4], ext)
  {
    assert ext == "vtt" ==> name[|name| - 3] == 'v';
  }

  /** An accepted name ends in its extension, and what precedes it reads as its capture. */
  lemma AcceptedBeforeExt(cfg: Config, name: string, c: Capture)
    requires ValidConfig(cfg)
    requires Accepts(cfg, name, c)
    ensures EndsWith(name, "." + c.ext) && MatchBeforeExt(cfg, name[..|name| - 4], c.ext) == Some(c)
  {
    if c.hi {
      AcceptedBeforeExtHi(cfg, name, c);
    } else {
      AcceptedBeforeExtPlain(cfg, name, c);
    }
  }

  /** AcceptedBeforeExt for a hearing-impaired capture. */
  lemma AcceptedBeforeExtHi(cfg: Config, name: string, c: Capture)
    requires ValidConfig(cfg)
    requires Accepts(cfg, name, c) && c.hi
    ensures EndsWith(name, "." + c.ext) && MatchBeforeExt(cfg, name[..|name| - 4], c.ext) == Some(c)
  {
    assert |c.ext| == 3;
    SuffixSplit(name, c);
    var p := name[..|name| - 4];
    var q := p[..|p| - 3];
    assert |Suffix(c)| == |c.lang| + 8 && |q| == |name| - 7;
    GuardCharacter(name, c);
    assert q[|q| - |c.lang| - 2] != '.';
    EndsWithSegmentIff(q, c.lang);
    assert EndsWithSegment(q, c.lang);
    MatchBeforeExtSpec(cfg, p, c.ext, c);
  }

  /** AcceptedBeforeExt for a plain capture. */
  lemma AcceptedBeforeExtPlain(cfg: Config, name: string, c: Capture)
    requires ValidConfig(cfg)
    requires Accepts(cfg, name, c) && !c.hi
    ensures EndsWith(name, "." + c.ext) && MatchBeforeExt(cfg, name[..|name| - 4], c.ext) == Some(c)
  {
    assert |c.ext| == 3;
    SuffixSplit(name, c);
    var p := name[..|name| - 4];
    GuardCharacter(name, c);
    EndsWithSegmentIff(p, c.lang);
    MatchBeforeExtSpec(cfg, p, c.ext, c);
  }

  /** What is accepted, Match reports. */
  lemma MatchComplete(cfg: Config, name: string, c: Capture)
    requires ValidConfig(cfg)
    requires Accepts(cfg, name, c)
    ensures Match(cfg, name) == Some(c)
  {
    AcceptedBeforeExt(cfg, name, c);
    MatchOfExtension(cfg, name, c.ext);
  }

  /**
   * Match and Accepts agree on every name and capture: a name is accepted
   * with exactly the captures Match reports.
   */
  lemma MatchIffAccepts(cfg: Config, name: string, c: Capture)
    requires ValidConfig(cfg)
    ensures Match(cfg, name) == Some(c) <==> Accepts(cfg, name, c)
  {
    if Match(cfg, name) == Some(c) {
      MatchSound(cfg, name, c);
    }
    if Accepts(cfg, name, c) {
      MatchComplete(cfg, name, c);
    }
  }

  /** A rejected name has no capture that Accepts admits. */
  lemma RejectedIffNoCapture(cfg: Config, name: string)
    requires ValidConfig(cfg)
    ensures Match(cfg, name).None? <==> forall c :: !Accepts(cfg, name, c)
  {
    if Match(cfg, name).Some? {
      MatchIffAccepts(cfg, name, Match(cfg, name).value);
    }
    forall c | Accepts(cfg, name, c) ensures Match(cfg, name).Some? {
      MatchIffAccepts(cfg, name, c);
    }
  }

  /** The configuration of the source's tests: `en` and `ja`. */
  function EnJa(findVtt: bool): Config {
    Config("en", "ja", findVtt)
  }

  /** A region-tagged code such as `pt-BR` is read literally by the pattern. */
  lemma RegionCodeValid()
    ensures ValidLang("pt-BR") && ValidLang("zh-Hans")
  {
    assert !IsMeta('-');
  }

  /** `en` and `ja` are valid codes. */
  lemma EnJaValid(findVtt: bool)
    ensures ValidConfig(EnJa(findVtt))
  {
    assert !IsMeta('e') && !IsMeta('n') && !IsMeta('j') && !IsMeta('a');
  }

  /**
   * Every name of the documented shape is matched: a base that ends in a
   * character other than a dot, then `.L`, optionally `.hi`, then `.E`, for
   * a requested L and an admitted E, gives exactly (L, hi, E).
   */
  lemma MatchOfSuffix(cfg: Config, base: string, c: Capture)
    requires ValidConfig(cfg)
    requires (c.lang == cfg.lang1 || c.lang == cfg.lang2) && c.ext in AllowedExts(cfg.findVtt)
    requires base != [] && base[|base| - 1] != '.'
    ensures Match(cfg, base + Suffix(c)) == Some(c)
  {
    var name := base + Suffix(c);
    assert name[|name| - |Suffix(c)|..] == Suffix(c);
    assert name[|name| - |Suffix(c)| - 1] == base[|base| - 1];
    MatchComplete(cfg, name, c);
  }

  /** An accepted `.srt` name of the test table. */
  lemma TableAcceptsSrt()
    ensures Match(EnJa(true), "movie.en.srt") == Some(Capture("en", false, "srt"))
  {
    var n := "movie.en.srt";
    assert n == "movie" + Suffix(Capture("en", false, "srt")) by {
      assert n[..5] == "movie" && n[5..] == Suffix(Capture("en", false, "srt"));
      assert n == n[..5] + n[5..];
    }
    EnJaValid(true);
    MatchOfSuffix(EnJa(true), "movie", Capture("en", false, "srt"));
  }

  /** An accepted hearing-impaired `.srt` name, with `.vtt` not looked for. */
  lemma TableAcceptsHiSrt()
    ensures Match(EnJa(false), "song.en.hi.srt") == Some(Capture("en", true, "srt"))
  {
    var n := "song.en.hi.srt";
    assert n == "song" + Suffix(Capture("en", true, "srt")) by {
      assert n[..4] == "song" && n[4..] == Suffix(Capture("en", true, "srt"));
      assert n == n[..4] + n[4..];
    }
    EnJaValid(false);
    MatchOfSuffix(EnJa(false), "song", Capture("en", true, "srt"));
  }

  /** An accepted `.vtt` name of the test table. */
  lemma TableAcceptsVtt()
    ensures Match(EnJa(true), "movie.ja.vtt") == Some(Capture("ja", false, "vtt"))
  {
    var n := "movie.ja.vtt";
    assert n == "movie" + Suffix(Capture("ja", false, "vtt")) by {
      assert n[..5] == "movie" && n[5..] == Suffix(Capture("ja", false, "vtt"));
      assert n == n[..5] + n[5..];
    }
    EnJaValid(true);
    MatchOfSuffix(EnJa(true), "movie", Capture("ja", false, "vtt"));
  }

  /** An accepted hearing-impaired `.vtt` name of the test table. */
  lemma TableAcceptsHiVtt()
    ensures Match(EnJa(true), "song.ja.hi.vtt") == Some(Capture("ja", true, "vtt"))
  {
    var n := "song.ja.hi.vtt";
    assert n == "song" + Suffix(Capture("ja", true, "vtt")) by {
      assert n[..4] == "song" && n[4..] == Suffix(Capture("ja", true, "vtt"));
      assert n == n[..4] + n[4..];
    }
    EnJaValid(true);
    MatchOfSuffix(EnJa(true), "song", Capture("ja", true, "vtt"));
  }

  /** Rejected names of the test table: a language not requested, or none at all. */
  lemma TableRejectsLanguage()
    ensures Match(EnJa(true), "movie.de.srt").None?
    ensures Match(EnJa(true), "movie.srt").None?
  {
    var n, m := "movie.de.srt", "movie.srt";
    assert n[|n| - 4..] == ".srt" && n[..|n| - 4] == "movie.de";
    assert "movie.de"[5..] == ".de" && "movie.de"[6..] == "de";
    assert m[|m| - 4..] == ".srt" && m[..|m| - 4] == "movie";
    assert "movie"[2..] == "vie" && "movie"[3..] == "ie";
  }

  /** A rejected name of the test table: an extension the pattern does not admit. */
  lemma TableRejectsExtension()
    ensures Match(EnJa(true), "movie.ja.txt").None?
  {
    var t := "movie.ja.txt";
    assert t[|t| - 4..] == ".txt";
  }

  /** A rejected name of the test table: no dot between `hi` and the extension. */
  lemma TableRejectsJoinedHi()
    ensures Match(EnJa(true), "movie.en.hisrt").None?
  {
    var h := "movie.en.hisrt";
    assert h[|h| - 4..] == "isrt";
  }

  /** Names ending in `.vtt` are rejected when `.vtt` files are not looked for. */
  lemma VttOffRejects(cfg: Config, name: string)
    requires !cfg.findVtt && EndsWith(name, ".vtt")
    ensures Match(cfg, name).None?
  {
    assert name[|name| - 4..][1] == 'v';
  }

  /** The rejected names of the test table without `.vtt`. */
  lemma TableRejectsVttWhenOff()
    ensures Match(EnJa(false), "movie.en.vtt").None?
    ensures Match(EnJa(false), "movie.ja.vtt").None?
  {
    var e, j := "movie.en.vtt", "movie.ja.vtt";
    assert e[|e| - 4..] == ".vtt" && j[|j| - 4..] == ".vtt";
    VttOffRejects(EnJa(false), e);
    VttOffRejects(EnJa(false), j);
  }

  /** A rejected name of the test table: no dot between the language and `hi`. */
  lemma TableRejectsMissingDot()
    ensures Match(EnJa(true), "movie.enhi.vtt").None?
  {
    var v := "movie.enhi.vtt";
    assert v[|v| - 4..] == ".vtt" && v[|v| - 3] == 'v' && v[..|v| - 4] == "movie.enhi";
    assert "movie.enhi"[7..] == "nhi" && "movie.enhi"[8..] == "hi";
  }

  /** A rejected name of the test table: two dots before the language. */
  lemma TableRejectsDoubleDot()
    ensures Match(EnJa(true), "movie..en.srt").None?
  {
    var d := "movie..en.srt";
    assert d[|d| - 4..] == ".srt" && d[..|d| - 4] == "movie..en";
    var p := "movie..en";
    assert p[6..] == ".en" && p[7..] == "en" && p[5] == '.';
  }

  // ---------------------------------------------------------------------
  // The base stem of a file name (base_file_stem)
  // ---------------------------------------------------------------------

  /** A file name with no non-dot character has no stem. */
  datatype StemError = NoStem(name: string)

  /** The number of dots at the start of `s`. */
  function LeadingDots(s: string): (n: nat)
    ensures n <= |s|
  {
    if s == [] || s[0] != '.' then 0 else 1 + LeadingDots(s[1..])
  }

  /** The number of non-dot characters at the start of `s`. */
  function NonDotRun(s: string): (n: nat)
    ensures n <= |s|
  {
    if s == [] || s[0] == '.' then 0 else 1 + NonDotRun(s[1..])
  }

  /** LeadingDots counts a maximal run: dots up to it, no dot at it. */
  lemma {:induction false} LeadingDotsSpec(s: string)
    ensures forall i :: 0 <= i < LeadingDots(s) ==> s[i] == '.'
    ensures LeadingDots(s) < |s| ==> s[LeadingDots(s)] != '.'
  {
    if s != [] && s[0] == '.' {
      LeadingDotsSpec(s[1..]);
      assert forall i :: 1 <= i < |s| ==> s[i] == s[1..][i - 1];
    }
  }

  /** NonDotRun counts a maximal run: no dot up to it, a dot at it. */
  lemma {:induction false} NonDotRunSpec(s: string)
    ensures forall i :: 0 <= i < NonDotRun(s) ==> s[i] != '.'
    ensures NonDotRun(s) < |s| ==> s[NonDotRun(s)] == '.'
  {
    if s != [] && s[0] != '.' {
      NonDotRunSpec(s[1..]);
      assert forall i :: 1 <= i < |s| ==> s[i] == s[1..][i - 1];
    }
  }

  /** `base_file_stem`: the first run of non-dot characters of a file name, if any. */
  function BaseFileStem(name: string): Result<string, StemError> {
    var k := LeadingDots(name);
    if k == |name| then Failure(NoStem(name))
    else
      var rest := name[k..];
      Success(rest[..NonDotRun(rest)])
  }

  /** A name has no stem exactly when it is made of dots alone, the empty name included. */
  lemma NoStemIffDots(name: string)
    ensures BaseFileStem(name).Failure? <==> forall i :: 0 <= i < |name| ==> name[i] == '.'
  {
    LeadingDotsSpec(name);
    if LeadingDots(name) < |name| {
      assert name[LeadingDots(name)] != '.';
    }
  }

  /**
   * A stem is the first maximal run of non-dot characters: only dots
   * precede it and a dot (or the end) follows it.
   */
  lemma StemIsFirstRun(name: string)
    requires BaseFileStem(name).Success?
    ensures var stem, k := BaseFileStem(name).value, LeadingDots(name);
      && stem != [] && NoDot(stem)
      && (forall i :: 0 <= i < k ==> name[i] == '.')
      && k + |stem| <= |name| && name[k..k + |stem|] == stem
      && (k + |stem| < |name| ==> name[k + |stem|] == '.')
  {
    var k := LeadingDots(name);
    LeadingDotsSpec(name);
    var rest := name[k..];
    var n := NonDotRun(rest);
    NonDotRunSpec(rest);
    assert rest[0] == name[k] != '.';
    assert name[k..k + n] == rest[..n];
  }

  lemma {:induction false} LeadingDotsAppend(s: string, t: string)
    requires LeadingDots(s) < |s|
    ensures LeadingDots(s + t) == LeadingDots(s)
  {
    if s[0] == '.' {
      assert (s + t)[1..] == s[1..] + t;
      LeadingDotsAppend(s[1..], t);
    }
  }

  lemma {:induction false} NonDotRunAppend(s: string, t: string)
    requires NonDotRun(s) < |s| || t == [] || t[0] == '.'
    ensures NonDotRun(s + t) == NonDotRun(s)
  {
    if s == [] {
      assert s + t == t;
    } else if s[0] != '.' {
      assert (s + t)[1..] == s[1..] + t;
      NonDotRunAppend(s[1..], t);
    }
  }

  /** Whatever follows a dot after the stem does not change the stem. */
  lemma StemOfExtended(r: string, tail: string)
    requires BaseFileStem(r).Success?
    requires tail == [] || tail[0] == '.'
    ensures BaseFileStem(r + tail) == BaseFileStem(r)
  {
    var k := LeadingDots(r);
    LeadingDotsAppend(r, tail);
    var rest := r[k..];
    assert (r + tail)[k..] == rest + tail;
    NonDotRunAppend(rest, tail);
    var n := NonDotRun(rest);
    assert (rest + tail)[..n] == rest[..n];
  }

  /**
   * Every accepted name has a stem, and it is the stem of what precedes the
   * language segment: all language and hearing-impaired variants of one
   * name share it.
   */
  lemma StemOfAccepted(cfg: Config, name: string, c: Capture)
    requires Accepts(cfg, name, c)
    ensures BaseFileStem(name).Success?
    ensures var r := name[..|name| - |Suffix(c)|];
      BaseFileStem(name) == BaseFileStem(r)
  {
    var r := name[..|name| - |Suffix(c)|];
    assert r[|r| - 1] != '.';
    NoStemIffDots(r);
    assert name == r + Suffix(c);
    StemOfExtended(r, Suffix(c));
  }

  /** The stem of the source's example: `movie.en.hi.srt` gives `movie`. */
  lemma StemExample()
    ensures BaseFileStem("movie.en.hi.srt") == Success("movie")
  {
    var movie := "movie";
    assert LeadingDots(movie) == 0;
    assert forall i :: 0 <= i < |movie| ==> movie[i] != '.';
    assert movie[0..] == movie;
    assert NonDotRun(movie) == 5;
    assert movie[..5] == movie;
    assert BaseFileStem(movie) == Success(movie);
    assert "movie.en.hi.srt" == movie + ".en.hi.srt";
    StemOfExtended(movie, ".en.hi.srt");
  }

  /** A name made of dots alone, such as `...`, has no stem. */
  lemma DotsHaveNoStem()
    ensures BaseFileStem("...") == Failure(NoStem("..."))
  {
    var dots := "...";
    assert dots[1..] == ".." && dots[2..] == "." && dots[3..] == "";
    assert LeadingDots(dots) == 3;
  }
}
