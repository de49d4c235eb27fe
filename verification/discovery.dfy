/**
 * Discovery: the grouping of matching subtitle files by directory. The walk
 * of the directory tree is given as the flat list of entries it encounters,
 * each the directory it was listed in, a file name, and whether it is a
 * regular file.
 */
module Discovery {
  import opened Wrappers
  import opened SubPath

  /** One entry listed inside a directory during the walk. */
  datatype DirEntry = DirEntry(dir: string, name: string, isFile: bool)

  /** A discovered subtitle file: where it is, its name, its language and whether it is hearing-impaired. */
  datatype SubFile = SubFile(dir: string, name: string, lang: string, hi: bool)

  /** The root given to the scan is a file, not a directory. */
  datatype DiscoveryError = NotADirectory

  /** The SubFile an entry is recorded as: a regular file whose name the pattern accepts. */
  function Recorded(cfg: Config, e: DirEntry): Option<SubFile> {
    if !e.isFile then None
    else
      match Match(cfg, e.name)
      case Some(c) => Some(SubFile(e.dir, e.name, c.lang, c.hi))
      case None => None
  }

  /** Reference grouping: the files recorded for directory `d`, in encounter order. */
  function MatchesIn(cfg: Config, entries: seq<DirEntry>, d: string): seq<SubFile> {
    if entries == [] then []
    else
      var before := MatchesIn(cfg, entries[..|entries| - 1], d);
      match Recorded(cfg, entries[|entries| - 1])
      case Some(f) => if f.dir == d then before + [f] else before
      case None => before
  }

  /** `m` holds exactly the non-empty groups MatchesIn gives for `entries`. */
  ghost predicate GroupedAs(cfg: Config, entries: seq<DirEntry>, m: map<string, seq<SubFile>>) {
    && (forall d :: d in m <==> MatchesIn(cfg, entries, d) != [])
    && (forall d :: d in m ==> m[d] == MatchesIn(cfg, entries, d))
  }

  /**
   * `find_matching_subtitle_files`: an error when the root is a file;
   * otherwise a map whose keys are exactly the directories with at least
   * one recorded file, each holding its files in encounter order.
   */
  method FindMatchingSubtitleFiles(cfg: Config, rootIsFile: bool, entries: seq<DirEntry>)
    returns (r: Result<map<string, seq<SubFile>>, DiscoveryError>)
    requires ValidConfig(cfg)
    ensures r.Failure? <==> rootIsFile
    ensures r.Success? ==> forall d :: d in r.value <==> MatchesIn(cfg, entries, d) != []
    ensures r.Success? ==> forall d :: d in r.value ==> r.value[d] == MatchesIn(cfg, entries, d)
  {
    if rootIsFile {
      return Failure(NotADirectory);
    }
    var ret: map<string, seq<SubFile>> := map[];
    var i := 0;
    while i < |entries|
      invariant 0 <= i <= |entries|
      invariant GroupedAs(cfg, entries[..i], ret)
    {
      var e := entries[i];
      GroupStep(cfg, entries, i, ret);
      if e.isFile {
        var captures := Match(cfg, e.name);
        if captures.Some? {
          var val := SubFile(e.dir, e.name, captures.value.lang, captures.value.hi);
          if e.dir !in ret {
            ret := ret[e.dir := []];
          }
          ret := ret[e.dir := ret[e.dir] + [val]];
        }
      }
      i := i + 1;
    }
    assert entries[..i] == entries;
    return Success(ret);
  }

  /** The loop step of FindMatchingSubtitleFiles: appending an entry's recorded file keeps the grouping exact. */
  lemma GroupStep(cfg: Config, entries: seq<DirEntry>, i: nat, ret: map<string, seq<SubFile>>)
    requires i < |entries| && GroupedAs(cfg, entries[..i], ret)
    ensures match Recorded(cfg, entries[i])
      case None => GroupedAs(cfg, entries[..i + 1], ret)
      case Some(f) =>
        var group := if f.dir in ret then ret[f.dir] else [];
        GroupedAs(cfg, entries[..i + 1], ret[f.dir := []][f.dir := group + [f]])
  {
    MatchesInStep(cfg, entries, i);
    match Recorded(cfg, entries[i])
    case None =>
    case Some(f) =>
      var group := if f.dir in ret then ret[f.dir] else [];
      var m := ret[f.dir := []][f.dir := group + [f]];
      assert group == MatchesIn(cfg, entries[..i], f.dir);
      forall d
        ensures d in m <==> MatchesIn(cfg, entries[..i + 1], d) != []
        ensures d in m ==> m[d] == MatchesIn(cfg, entries[..i + 1], d)
      {
        if d != f.dir {
          assert MatchesIn(cfg, entries[..i + 1], d) == MatchesIn(cfg, entries[..i], d);
        }
      }
  }

  /** One more entry adds its recorded file, if any, to its own directory and to no other. */
  lemma MatchesInStep(cfg: Config, entries: seq<DirEntry>, i: nat)
    requires i < |entries|
    ensures forall d ::
      MatchesIn(cfg, entries[..i + 1], d) ==
        match Recorded(cfg, entries[i])
        case Some(f) => if f.dir == d then MatchesIn(cfg, entries[..i], d) + [f] else MatchesIn(cfg, entries[..i], d)
        case None => MatchesIn(cfg, entries[..i], d)
  {
    assert entries[..i + 1][..i] == entries[..i];
  }

  /**
   * Every file recorded for `d` is a regular-file entry of `d` whose name is
   * accepted, with the language and flag the pattern captured; its language
   * is one of the two requested, and it has a stem.
   */
  lemma {:induction false} MatchesInSound(cfg: Config, entries: seq<DirEntry>, d: string, f: SubFile)
    requires ValidConfig(cfg)
    requires f in MatchesIn(cfg, entries, d)
    ensures f.dir == d && DirEntry(d, f.name, true) in entries
    ensures Match(cfg, f.name).Some? && Match(cfg, f.name).value.lang == f.lang && Match(cfg, f.name).value.hi == f.hi
    ensures f.lang == cfg.lang1 || f.lang == cfg.lang2
    ensures BaseFileStem(f.name).Success?
  {
    var n := |entries|;
    var init := entries[..n - 1];
    if f in MatchesIn(cfg, init, d) {
      MatchesInSound(cfg, init, d, f);
    } else {
      assert entries[n - 1] == DirEntry(d, f.name, true);
      var c := Match(cfg, f.name).value;
      MatchSound(cfg, f.name, c);
      StemOfAccepted(cfg, f.name, c);
    }
  }

  /** Every regular file of `d` whose name is accepted is recorded for `d`. */
  lemma {:induction false} MatchesInComplete(cfg: Config, entries: seq<DirEntry>, k: nat)
    requires k < |entries| && entries[k].isFile && Match(cfg, entries[k].name).Some?
    ensures var e := entries[k]; var c := Match(cfg, e.name).value;
      SubFile(e.dir, e.name, c.lang, c.hi) in MatchesIn(cfg, entries, e.dir)
  {
    var n := |entries|;
    if k < n - 1 {
      assert entries[..n - 1][k] == entries[k];
      MatchesInComplete(cfg, entries[..n - 1], k);
    }
  }
}
