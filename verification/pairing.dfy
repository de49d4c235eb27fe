/**
 * Pair selection of the recursive mode: for every discovered file of the
 * first language, the file of the second language with the same stem that
 * it is merged with, and the name of the merged output.
 */
module Pairing {
  import opened Wrappers
  import opened SubPath
  import opened Discovery
  import opened Text

  /** One planned merge: the directory, the two chosen files and the output file name. */
  datatype Job = Job(dir: string, sub1: SubFile, sub2: SubFile, out: string)

  /** A file name in the group has no stem; the error names it. */
  datatype PairError = NoStemFor(name: string)

  /** The stem of a discovered file's name. */
  function Stem(f: SubFile): Result<string, StemError> {
    BaseFileStem(f.name)
  }

  predicate AllStemmed(subs: seq<SubFile>) {
    forall k :: 0 <= k < |subs| ==> Stem(subs[k]).Success?
  }

  /** The first position whose name has no stem, or |subs|. */
  function FirstWithoutStem(subs: seq<SubFile>): (k: nat)
    ensures k <= |subs|
    ensures forall q :: 0 <= q < k ==> Stem(subs[q]).Success?
    ensures k < |subs| ==> Stem(subs[k]).Failure?
  {
    if subs == [] then 0
    else if Stem(subs[0]).Failure? then 0
    else 1 + FirstWithoutStem(subs[1..])
  }

  /** `sub2` can partner `sub1`: equal stems, `sub1` in the first language, `sub2` in the second. */
  predicate IsCandidate(lang1: string, lang2: string, sub1: SubFile, sub2: SubFile) {
    && Stem(sub1).Success? && Stem(sub2).Success? && Stem(sub1).value == Stem(sub2).value
    && sub1.lang == lang1 && sub2.lang == lang2
  }

  /** The candidates for `sub1` in `subs`, in list order. */
  function Candidates(lang1: string, lang2: string, sub1: SubFile, subs: seq<SubFile>): seq<SubFile>
  {
    if subs == [] then []
    else
      var before := Candidates(lang1, lang2, sub1, subs[..|subs| - 1]);
      var last := subs[|subs| - 1];
      if IsCandidate(lang1, lang2, sub1, last) then before + [last] else before
  }

  /** The last candidate that is not hearing-impaired. */
  function LastNonHi(cands: seq<SubFile>): Option<SubFile> {
    if cands == [] then None
    else if !cands[|cands| - 1].hi then Some(cands[|cands| - 1])
    else LastNonHi(cands[..|cands| - 1])
  }

  /** The partner chosen among the candidates: the last non-hearing-impaired one, else the first. */
  function Preferred(cands: seq<SubFile>): Option<SubFile> {
    match LastNonHi(cands)
    case Some(f) => Some(f)
    case None => if cands == [] then None else Some(cands[0])
  }

  /** `with_extension` on a stem, which has no extension of its own. */
  function OutputName(stem: string, outExt: string): string {
    if outExt == "" then stem else stem + "." + outExt
  }

  /** The jobs of the first `i` files of a directory's list, in list order. */
  function JobsFor(dir: string, lang1: string, lang2: string, outExt: string, subs: seq<SubFile>, i: nat): seq<Job>
    requires i <= |subs| && AllStemmed(subs)
  {
    if i == 0 then []
    else
      var sub1 := subs[i - 1];
      var before := JobsFor(dir, lang1, lang2, outExt, subs, i - 1);
      match Preferred(Candidates(lang1, lang2, sub1, subs))
      case Some(sub2) => before + [Job(dir, sub1, sub2, OutputName(Stem(sub1).value, outExt))]
      case None => before
  }

  /** Appending one file to the candidates updates the choice the way the loop does. */
  lemma PreferredStep(cands: seq<SubFile>, x: SubFile)
    ensures Preferred(cands + [x]) == if !x.hi || Preferred(cands).None? then Some(x) else Preferred(cands)
  {
    var c := cands + [x];
    assert c[|c| - 1] == x;
    if x.hi {
      assert c[..|c| - 1] == cands;
      assert LastNonHi(c) == LastNonHi(cands);
      if cands == [] {
        assert c == [x];
      } else {
        assert c[0] == cands[0];
      }
    }
  }

  lemma CandidatesStep(lang1: string, lang2: string, sub1: SubFile, subs: seq<SubFile>, j: nat)
    requires j < |subs|
    ensures Candidates(lang1, lang2, sub1, subs[..j + 1]) ==
      Candidates(lang1, lang2, sub1, subs[..j]) + (if IsCandidate(lang1, lang2, sub1, subs[j]) then [subs[j]] else [])
  {
    assert subs[..j + 1][..j] == subs[..j];
  }

  /** The first `j` files of the list have stems. */
  predicate StemmedUpTo(subs: seq<SubFile>, j: nat) {
    forall k :: 0 <= k < j && k < |subs| ==> Stem(subs[k]).Success?
  }

  /** The first file without a stem, found by a scan that saw only stemmed files before it. */
  lemma FirstWithoutStemAt(subs: seq<SubFile>, j: nat)
    requires j < |subs| && Stem(subs[j]).Failure?
    requires forall k :: 0 <= k < j ==> Stem(subs[k]).Success?
    ensures !AllStemmed(subs) && FirstWithoutStem(subs) == j
  {
    var f := FirstWithoutStem(subs);
    assert f <= j;
  }

  /**
   * The inner loop of the selection for the file at position `i`: scans the
   * whole list, computing both stems of every pair before comparing them,
   * and updates the two choices. `l1` is the outer file as soon as one
   * candidate exists; `l2` is replaced by every non-hearing-impaired
   * candidate and taken by a hearing-impaired one only while still empty.
   */
  method ScanPartners(subs: seq<SubFile>, i: nat, lang1: string, lang2: string)
    returns (r: Result<(Option<SubFile>, Option<SubFile>), PairError>)
    requires i < |subs|
    requires i > 0 ==> AllStemmed(subs)
    ensures r.Failure? <==> !AllStemmed(subs)
    ensures r.Failure? ==> r.error == NoStemFor(subs[FirstWithoutStem(subs)].name)
    ensures r.Success? ==>
      var cands := Candidates(lang1, lang2, subs[i], subs);
      && r.value.0 == (if cands == [] then None else Some(subs[i]))
      && r.value.1 == Preferred(cands)
  {
    var sub1 := subs[i];
    // The first pass computes the outer file's stem before any other; the
    // later passes compute the same value again.
    var stem1 := BaseFileStem(sub1.name);
    if stem1.Failure? {
      FirstWithoutStemAt(subs, i);
      return Failure(NoStemFor(sub1.name));
    }
    var l1: Option<SubFile> := None;
    var l2: Option<SubFile> := None;
    ghost var cands: seq<SubFile> := [];
    var j := 0;
    while j < |subs|
      invariant 0 <= j <= |subs|
      invariant StemmedUpTo(subs, j)
      invariant cands == Candidates(lang1, lang2, sub1, subs[..j])
      invariant l1 == if cands == [] then None else Some(sub1)
      invariant l2 == Preferred(cands)
    {
      var sub2 := subs[j];
      var stem2 := BaseFileStem(sub2.name);
      if stem2.Failure? {
        FirstWithoutStemAt(subs, j);
        return Failure(NoStemFor(sub2.name));
      }
      CandidatesStep(lang1, lang2, sub1, subs, j);
      if stem1.value == stem2.value && sub1.lang == lang1 && sub2.lang == lang2 {
        assert IsCandidate(lang1, lang2, sub1, sub2);
        PreferredStep(cands, sub2);
        cands := cands + [sub2];
        if !sub1.hi || l1.None? {
          l1 := Some(sub1);
        }
        if !sub2.hi || l2.None? {
          l2 := Some(sub2);
        }
      } else {
        assert !IsCandidate(lang1, lang2, sub1, sub2);
      }
      j := j + 1;
    }
    assert subs[..j] == subs;
    return Success((l1, l2));
  }

  /** There is a partner exactly when there is a candidate. */
  lemma PreferredNoneIff(cands: seq<SubFile>)
    ensures Preferred(cands).None? <==> cands == []
  {
    if cands != [] {
      assert LastNonHi(cands).None? ==> Preferred(cands) == Some(cands[0]);
    }
  }

  /** One more outer file adds its job when it has a candidate, and nothing otherwise. */
  lemma JobsForStep(dir: string, lang1: string, lang2: string, outExt: string, subs: seq<SubFile>, i: nat)
    requires i < |subs| && AllStemmed(subs)
    ensures var cands := Candidates(lang1, lang2, subs[i], subs);
      && (Preferred(cands).None? <==> cands == [])
      && JobsFor(dir, lang1, lang2, outExt, subs, i + 1) ==
           JobsFor(dir, lang1, lang2, outExt, subs, i) +
           (if cands == [] then [] else [Job(dir, subs[i], Preferred(cands).value, OutputName(Stem(subs[i]).value, outExt))])
  {
    PreferredNoneIff(Candidates(lang1, lang2, subs[i], subs));
  }

  /**
   * The selection loop for one directory (the body of `for (dir, subs)`):
   * an error naming the first file without a stem if there is one, and
   * otherwise one job per first-language file that has a partner, in list
   * order.
   */
  method PairsInDir(dir: string, subs: seq<SubFile>, lang1: string, lang2: string, outExt: string)
    returns (r: Result<seq<Job>, PairError>)
    ensures r.Failure? <==> !AllStemmed(subs)
    ensures r.Failure? ==> r.error == NoStemFor(subs[FirstWithoutStem(subs)].name)
    ensures r.Success? ==> r.value == JobsFor(dir, lang1, lang2, outExt, subs, |subs|)
  {
    var jobs: seq<Job> := [];
    var i := 0;
    while i < |subs|
      invariant 0 <= i <= |subs|
      invariant i > 0 ==> AllStemmed(subs)
      invariant i > 0 ==> jobs == JobsFor(dir, lang1, lang2, outExt, subs, i)
      invariant i == 0 ==> jobs == []
    {
      var scan := ScanPartners(subs, i, lang1, lang2);
      if scan.Failure? {
        return Failure(scan.error);
      }
      var (l1, l2) := scan.value;
      JobsForStep(dir, lang1, lang2, outExt, subs, i);
      if l1.Some? && l2.Some? {
        var noExt := BaseFileStem(l1.value.name);
        jobs := jobs + [Job(dir, l1.value, l2.value, OutputName(noExt.value, outExt))];
      }
      i := i + 1;
    }
    return Success(jobs);
  }

  /**
   * The selection rule stated on positions: no candidate, no partner; if
   * some candidate is not hearing-impaired, the last such one; otherwise
   * the first candidate.
   */
  lemma {:induction false} PreferredSpec(cands: seq<SubFile>)
    ensures Preferred(cands).None? <==> cands == []
    ensures forall p :: 0 <= p < |cands| && !cands[p].hi && (forall q :: p < q < |cands| ==> cands[q].hi) ==>
      Preferred(cands) == Some(cands[p])
    ensures (forall q :: 0 <= q < |cands| ==> cands[q].hi) && cands != [] ==> Preferred(cands) == Some(cands[0])
    ensures Preferred(cands).Some? ==> Preferred(cands).value in cands
  {
    if cands != [] {
      var n := |cands|;
      var init := cands[..n - 1];
      PreferredSpec(init);
      if cands[n - 1].hi {
        assert LastNonHi(cands) == LastNonHi(init);
        forall p | 0 <= p < n && !cands[p].hi && (forall q :: p < q < n ==> cands[q].hi)
          ensures Preferred(cands) == Some(cands[p])
        {
          assert init[p] == cands[p];
          assert forall q :: p < q < n - 1 ==> init[q] == cands[q];
        }
        if LastNonHi(init).None? && init != [] {
          assert init[0] == cands[0];
        }
        if LastNonHi(init).Some? {
          assert LastNonHi(init) == Preferred(init);
        }
      }
    }
  }

  /** Every candidate is a file of the list in the second language with the outer file's stem. */
  lemma {:induction false} CandidatesSound(lang1: string, lang2: string, sub1: SubFile, subs: seq<SubFile>, f: SubFile)
    requires f in Candidates(lang1, lang2, sub1, subs)
    ensures f in subs && IsCandidate(lang1, lang2, sub1, f)
  {
    var n := |subs|;
    if f in Candidates(lang1, lang2, sub1, subs[..n - 1]) {
      CandidatesSound(lang1, lang2, sub1, subs[..n - 1], f);
    }
  }

  /**
   * What a job pairs: a first-language file of the directory (the outer
   * file) with its preferred second-language partner of the same stem, and
   * the output is that stem with the output extension.
   */
  lemma {:induction false} JobsForSound(dir: string, lang1: string, lang2: string, outExt: string, subs: seq<SubFile>, i: nat, job: Job)
    requires i <= |subs| && AllStemmed(subs)
    requires job in JobsFor(dir, lang1, lang2, outExt, subs, i)
    ensures job.dir == dir && job.sub1 in subs[..i] && job.sub2 in subs
    ensures job.sub1.lang == lang1 && job.sub2.lang == lang2
    ensures Stem(job.sub1).Success? && Stem(job.sub2) == Stem(job.sub1)
    ensures Some(job.sub2) == Preferred(Candidates(lang1, lang2, job.sub1, subs))
    ensures job.out == OutputName(Stem(job.sub1).value, outExt)
  {
    JobsForStep(dir, lang1, lang2, outExt, subs, i - 1);
    if job in JobsFor(dir, lang1, lang2, outExt, subs, i - 1) {
      JobsForSound(dir, lang1, lang2, outExt, subs, i - 1, job);
      assert subs[..i - 1] <= subs[..i];
    } else {
      var cands := Candidates(lang1, lang2, subs[i - 1], subs);
      assert job == Job(dir, subs[i - 1], Preferred(cands).value, OutputName(Stem(subs[i - 1]).value, outExt));
      assert subs[..i][i - 1] == subs[i - 1];
      PreferredSpec(cands);
      CandidatesSound(lang1, lang2, subs[i - 1], subs, job.sub2);
    }
  }

  /** Later files only add jobs: the jobs of a shorter prefix come first. */
  lemma {:induction false} JobsForPrefix(dir: string, lang1: string, lang2: string, outExt: string, subs: seq<SubFile>, i: nat, j: nat)
    requires i <= j <= |subs| && AllStemmed(subs)
    ensures JobsFor(dir, lang1, lang2, outExt, subs, i) <= JobsFor(dir, lang1, lang2, outExt, subs, j)
  {
    if i < j {
      JobsForPrefix(dir, lang1, lang2, outExt, subs, i, j - 1);
    }
  }

  /** Every file of the list that has a candidate gives a job, as the outer file. */
  lemma JobsForComplete(dir: string, lang1: string, lang2: string, outExt: string, subs: seq<SubFile>, i: nat, k: nat)
    requires i <= |subs| && AllStemmed(subs) && k < i
    requires Candidates(lang1, lang2, subs[k], subs) != []
    ensures Job(dir, subs[k], Preferred(Candidates(lang1, lang2, subs[k], subs)).value,
                OutputName(Stem(subs[k]).value, outExt)) in JobsFor(dir, lang1, lang2, outExt, subs, i)
  {
    var job := Job(dir, subs[k], Preferred(Candidates(lang1, lang2, subs[k], subs)).value,
                   OutputName(Stem(subs[k]).value, outExt));
    JobsForStep(dir, lang1, lang2, outExt, subs, k);
    assert JobsFor(dir, lang1, lang2, outExt, subs, k + 1)[|JobsFor(dir, lang1, lang2, outExt, subs, k + 1)| - 1] == job;
    JobsForPrefix(dir, lang1, lang2, outExt, subs, k + 1, i);
  }

  // ---------------------------------------------------------------------
  // The outer loop over directories
  // ---------------------------------------------------------------------

  /**
   * The jobs of the whole run, directory after directory in the order the
   * grouping map is iterated, and the error that stops the run, if any.
   */
  function Plan(groups: seq<(string, seq<SubFile>)>, lang1: string, lang2: string, outExt: string)
    : (seq<Job>, Option<PairError>)
  {
    if groups == [] then ([], None)
    else
      var (dir, subs) := groups[0];
      if !AllStemmed(subs) then ([], Some(NoStemFor(subs[FirstWithoutStem(subs)].name)))
      else
        var (rest, err) := Plan(groups[1..], lang1, lang2, outExt);
        (JobsFor(dir, lang1, lang2, outExt, subs, |subs|) + rest, err)
  }

  /**
   * `for (dir, subs) in matches`: the jobs carried out, in order, until the
   * first directory whose selection fails; that failure ends the run and
   * the jobs already carried out stay done.
   */
  method PlanMerges(groups: seq<(string, seq<SubFile>)>, lang1: string, lang2: string, outExt: string)
    returns (jobs: seq<Job>, err: Option<PairError>)
    ensures (jobs, err) == Plan(groups, lang1, lang2, outExt)
  {
    jobs := [];
    var i := 0;
    assert groups[0..] == groups;
    assert [] + Plan(groups, lang1, lang2, outExt).0 == Plan(groups, lang1, lang2, outExt).0;
    while i < |groups|
      invariant 0 <= i <= |groups|
      invariant Plan(groups, lang1, lang2, outExt).0 == jobs + Plan(groups[i..], lang1, lang2, outExt).0
      invariant Plan(groups, lang1, lang2, outExt).1 == Plan(groups[i..], lang1, lang2, outExt).1
    {
      var (dir, subs) := groups[i];
      assert groups[i..][0] == groups[i];
      assert groups[i..][1..] == groups[i + 1..];
      var r := PairsInDir(dir, subs, lang1, lang2, outExt);
      if r.Failure? {
        assert Plan(groups[i..], lang1, lang2, outExt) == ([], Some(r.error));
        assert jobs + [] == jobs;
        return jobs, Some(r.error);
      }
      jobs := jobs + r.value;
      i := i + 1;
    }
    assert groups[i..] == [];
    assert jobs + [] == jobs;
    return jobs, None;
  }

  /** Every group's names have stems. */
  predicate GroupsStemmed(groups: seq<(string, seq<SubFile>)>) {
    forall k :: 0 <= k < |groups| ==> AllStemmed(groups[k].1)
  }

  /** Reference list of a run without stem errors: each directory's jobs, concatenated in group order. */
  function JobsOfGroups(groups: seq<(string, seq<SubFile>)>, lang1: string, lang2: string, outExt: string): seq<Job>
    requires GroupsStemmed(groups)
  {
    if groups == [] then []
    else
      var (dir, subs) := groups[0];
      JobsFor(dir, lang1, lang2, outExt, subs, |subs|) + JobsOfGroups(groups[1..], lang1, lang2, outExt)
  }

  /** When every name has a stem, the run has no error and carries out every directory's jobs in order. */
  lemma {:induction false} PlanWithoutStemErrors(groups: seq<(string, seq<SubFile>)>, lang1: string, lang2: string, outExt: string)
    requires GroupsStemmed(groups)
    ensures Plan(groups, lang1, lang2, outExt) == (JobsOfGroups(groups, lang1, lang2, outExt), None)
  {
    if groups != [] {
      assert forall k :: 0 <= k < |groups| - 1 ==> groups[1..][k] == groups[k + 1];
      PlanWithoutStemErrors(groups[1..], lang1, lang2, outExt);
    }
  }

  /**
   * Groups as discovery produces them, each directory with the files
   * recorded for it, never reach the stem error: every accepted name has
   * a stem, so the run carries out every directory's jobs.
   */
  lemma PlanOfDiscovered(cfg: Config, entries: seq<DirEntry>, groups: seq<(string, seq<SubFile>)>,
                         lang1: string, lang2: string, outExt: string)
    requires ValidConfig(cfg)
    requires forall k :: 0 <= k < |groups| ==> groups[k].1 == MatchesIn(cfg, entries, groups[k].0)
    ensures GroupsStemmed(groups)
    ensures Plan(groups, lang1, lang2, outExt) == (JobsOfGroups(groups, lang1, lang2, outExt), None)
  {
    forall k, q | 0 <= k < |groups| && 0 <= q < |groups[k].1|
      ensures Stem(groups[k].1[q]).Success?
    {
      MatchesInSound(cfg, entries, groups[k].0, groups[k].1[q]);
    }
    PlanWithoutStemErrors(groups, lang1, lang2, outExt);
  }

  // ---------------------------------------------------------------------
  // Several first-language files of one stem
  // ---------------------------------------------------------------------

  /** Which partners a file has depends on it only through its stem and its language. */
  lemma {:induction false} CandidatesOnStem(lang1: string, lang2: string, a: SubFile, b: SubFile, subs: seq<SubFile>)
    requires Stem(a) == Stem(b) && a.lang == b.lang
    ensures Candidates(lang1, lang2, a, subs) == Candidates(lang1, lang2, b, subs)
  {
    if subs != [] {
      CandidatesOnStem(lang1, lang2, a, b, subs[..|subs| - 1]);
    }
  }

  /** Different stems give different output names. */
  lemma OutputNameInjective(a: string, b: string, outExt: string)
    requires NoDot(a) && NoDot(b)
    requires OutputName(a, outExt) == OutputName(b, outExt)
    ensures a == b
  {
    if outExt != "" {
      var x, y := a + "." + outExt, b + "." + outExt;
      assert a == x[..|a|] && b == y[..|b|];
    }
  }

  /**
   * As written, every first-language file with a partner is an outer file
   * of its own job, and `l1` is never anything but the outer file. Two
   * first-language files with one stem, a plain and a hearing-impaired one,
   * give two jobs writing the same output file with the same partner; the
   * one later in the directory listing overwrites the other.
   */
  lemma SameStemSameOutput(dir: string, lang1: string, lang2: string, outExt: string, subs: seq<SubFile>, a: nat, b: nat)
    requires AllStemmed(subs) && a < |subs| && b < |subs|
    requires subs[a].lang == lang1 && subs[b].lang == lang1 && Stem(subs[a]) == Stem(subs[b])
    requires Candidates(lang1, lang2, subs[a], subs) != []
    ensures var jobs := JobsFor(dir, lang1, lang2, outExt, subs, |subs|);
      exists ja, jb :: ja in jobs && jb in jobs && ja.sub1 == subs[a] && jb.sub1 == subs[b]
        && ja.out == jb.out && ja.sub2 == jb.sub2
  {
    CandidatesOnStem(lang1, lang2, subs[a], subs[b], subs);
    var cands := Candidates(lang1, lang2, subs[a], subs);
    var out := OutputName(Stem(subs[a]).value, outExt);
    JobsForComplete(dir, lang1, lang2, outExt, subs, |subs|, a);
    JobsForComplete(dir, lang1, lang2, outExt, subs, |subs|, b);
    var ja := Job(dir, subs[a], Preferred(cands).value, out);
    var jb := Job(dir, subs[b], Preferred(cands).value, out);
    assert ja in JobsFor(dir, lang1, lang2, outExt, subs, |subs|);
    assert jb in JobsFor(dir, lang1, lang2, outExt, subs, |subs|);
  }

  /** `m.en.srt`, `m.en.hi.srt` and `m.ja.srt`, listed in that order. */
  function OverwriteExample(): seq<SubFile> {
    [SubFile("d", "m.en.srt", "en", false), SubFile("d", "m.en.hi.srt", "en", true), SubFile("d", "m.ja.srt", "ja", false)]
  }

  lemma OverwriteExampleStems()
    ensures Stem(OverwriteExample()[0]) == Success("m")
    ensures Stem(OverwriteExample()[1]) == Success("m")
    ensures Stem(OverwriteExample()[2]) == Success("m")
    ensures AllStemmed(OverwriteExample())
    ensures OutputName("m", "srt") == "m.srt"
  {
    var m := "m";
    assert LeadingDots(m) == 0 && NonDotRun(m) == 1;
    assert m[0..] == m && m[..1] == m;
    assert "m.en.srt" == m + ".en.srt";
    assert "m.en.hi.srt" == m + ".en.hi.srt";
    assert "m.ja.srt" == m + ".ja.srt";
    StemOfExtended(m, ".en.srt");
    StemOfExtended(m, ".en.hi.srt");
    StemOfExtended(m, ".ja.srt");
    assert m + "." + "srt" == "m.srt";
  }

  /** A single candidate is the partner. */
  lemma PreferredOfOne(c: SubFile)
    ensures Preferred([c]) == Some(c)
  {
    assert [c][..0] == [];
    assert LastNonHi([c]) == if c.hi then LastNonHi([]) else Some(c);
  }

  /** Among two first-language files and one second-language file, only the last can be a partner. */
  lemma PartnerOfThree(lang1: string, lang2: string, x: SubFile, a: SubFile, b: SubFile, c: SubFile)
    requires lang1 != lang2 && a.lang == lang1 && b.lang == lang1 && c.lang == lang2
    ensures Candidates(lang1, lang2, x, [a, b, c]) == if IsCandidate(lang1, lang2, x, c) then [c] else []
  {
    var subs := [a, b, c];
    CandidatesStep(lang1, lang2, x, subs, 0);
    CandidatesStep(lang1, lang2, x, subs, 1);
    CandidatesStep(lang1, lang2, x, subs, 2);
    assert subs[..0] == [] && subs[..3] == subs;
  }

  /**
   * Two first-language files and one second-language file on one stem:
   * the selection as written plans a job for each first-language file,
   * both with the same partner and the same output name.
   */
  lemma TwoJobsOneOutput(dir: string, lang1: string, lang2: string, outExt: string, a: SubFile, b: SubFile, c: SubFile)
    requires lang1 != lang2 && a.lang == lang1 && b.lang == lang1 && c.lang == lang2
    requires Stem(a).Success? && Stem(b) == Stem(a) && Stem(c) == Stem(a)
    ensures var out := OutputName(Stem(a).value, outExt);
      JobsFor(dir, lang1, lang2, outExt, [a, b, c], 3) == [Job(dir, a, c, out), Job(dir, b, c, out)]
  {
    var subs := [a, b, c];
    var out := OutputName(Stem(a).value, outExt);
    var ja, jb := Job(dir, a, c, out), Job(dir, b, c, out);
    assert AllStemmed(subs);
    assert IsCandidate(lang1, lang2, a, c) && IsCandidate(lang1, lang2, b, c);
    assert !IsCandidate(lang1, lang2, c, c);
    PartnerOfThree(lang1, lang2, a, a, b, c);
    PartnerOfThree(lang1, lang2, b, a, b, c);
    PartnerOfThree(lang1, lang2, c, a, b, c);
    PreferredOfOne(c);
    JobsForStep(dir, lang1, lang2, outExt, subs, 0);
    assert JobsFor(dir, lang1, lang2, outExt, subs, 1) == [ja];
    JobsForStep(dir, lang1, lang2, outExt, subs, 1);
    assert JobsFor(dir, lang1, lang2, outExt, subs, 2) == [ja, jb];
    JobsForStep(dir, lang1, lang2, outExt, subs, 2);
  }

  /**
   * On that directory the selection as written plans two jobs that both
   * write `m.srt`, and the last one merges the hearing-impaired English
   * file although a plain one exists.
   */
  lemma OverwriteCounterexample(dir: string)
    ensures var subs := OverwriteExample();
      && subs[1].hi && !subs[0].hi
      && JobsFor(dir, "en", "ja", "srt", subs, |subs|) ==
           [Job(dir, subs[0], subs[2], "m.srt"), Job(dir, subs[1], subs[2], "m.srt")]
  {
    var subs := OverwriteExample();
    OverwriteExampleStems();
    assert subs == [subs[0], subs[1], subs[2]];
    TwoJobsOneOutput(dir, "en", "ja", "srt", subs[0], subs[1], subs[2]);
  }

  /**
   * The selection with the preference applied to the first language as
   * well: a first-language file is an outer file only when it is the one
   * the rule prefers among the first-language files of its stem (the last
   * plain one, else the first hearing-impaired one).
   */
  function JobsPreferring(dir: string, lang1: string, lang2: string, outExt: string, subs: seq<SubFile>, i: nat): seq<Job>
    requires i <= |subs| && AllStemmed(subs)
  {
    if i == 0 then []
    else
      var sub1 := subs[i - 1];
      var before := JobsPreferring(dir, lang1, lang2, outExt, subs, i - 1);
      if Preferred(Candidates(lang1, lang1, sub1, subs)) != Some(sub1) then before
      else match Preferred(Candidates(lang1, lang2, sub1, subs))
        case Some(sub2) => before + [Job(dir, sub1, sub2, OutputName(Stem(sub1).value, outExt))]
        case None => before
  }

  /** One more file adds its job when it is the preferred first-language file of its stem and has a candidate. */
  lemma JobsPreferringStep(dir: string, lang1: string, lang2: string, outExt: string, subs: seq<SubFile>, i: nat)
    requires i < |subs| && AllStemmed(subs)
    ensures var cands := Candidates(lang1, lang2, subs[i], subs);
      && (Preferred(cands).None? <==> cands == [])
      && JobsPreferring(dir, lang1, lang2, outExt, subs, i + 1) ==
           JobsPreferring(dir, lang1, lang2, outExt, subs, i) +
           (if Preferred(Candidates(lang1, lang1, subs[i], subs)) != Some(subs[i]) || cands == [] then []
            else [Job(dir, subs[i], Preferred(cands).value, OutputName(Stem(subs[i]).value, outExt))])
  {
    PreferredNoneIff(Candidates(lang1, lang2, subs[i], subs));
  }

  /** What a job of the corrected selection pairs, with the preference on its outer file. */
  lemma {:induction false} JobsPreferringSound(dir: string, lang1: string, lang2: string, outExt: string, subs: seq<SubFile>, i: nat, job: Job)
    requires i <= |subs| && AllStemmed(subs)
    requires job in JobsPreferring(dir, lang1, lang2, outExt, subs, i)
    ensures job.dir == dir && job.sub1 in subs && job.sub1.lang == lang1
    ensures Stem(job.sub1).Success? && Stem(job.sub2) == Stem(job.sub1) && job.sub2.lang == lang2
    ensures Some(job.sub1) == Preferred(Candidates(lang1, lang1, job.sub1, subs))
    ensures Some(job.sub2) == Preferred(Candidates(lang1, lang2, job.sub1, subs))
    ensures job.out == OutputName(Stem(job.sub1).value, outExt)
  {
    JobsPreferringStep(dir, lang1, lang2, outExt, subs, i - 1);
    if job in JobsPreferring(dir, lang1, lang2, outExt, subs, i - 1) {
      JobsPreferringSound(dir, lang1, lang2, outExt, subs, i - 1, job);
    } else {
      var cands := Candidates(lang1, lang2, subs[i - 1], subs);
      assert job == Job(dir, subs[i - 1], Preferred(cands).value, OutputName(Stem(subs[i - 1]).value, outExt));
      PreferredSpec(cands);
      CandidatesSound(lang1, lang2, subs[i - 1], subs, job.sub2);
    }
  }

  /**
   * The corrected selection writes every output file at most once: two of
   * its jobs with one output name are the same job.
   */
  lemma OneJobPerOutput(dir: string, lang1: string, lang2: string, outExt: string, subs: seq<SubFile>, j1: Job, j2: Job)
    requires AllStemmed(subs)
    requires j1 in JobsPreferring(dir, lang1, lang2, outExt, subs, |subs|)
    requires j2 in JobsPreferring(dir, lang1, lang2, outExt, subs, |subs|)
    requires j1.out == j2.out
    ensures j1 == j2
  {
    JobsPreferringSound(dir, lang1, lang2, outExt, subs, |subs|, j1);
    JobsPreferringSound(dir, lang1, lang2, outExt, subs, |subs|, j2);
    StemIsFirstRun(j1.sub1.name);
    StemIsFirstRun(j2.sub1.name);
    OutputNameInjective(Stem(j1.sub1).value, Stem(j2.sub1).value, outExt);
    CandidatesOnStem(lang1, lang1, j1.sub1, j2.sub1, subs);
    CandidatesOnStem(lang1, lang2, j1.sub1, j2.sub1, subs);
  }

  /**
   * The corrected selection merges a hearing-impaired first-language file
   * only when its stem has no plain first-language file.
   */
  lemma PreferringPlainFirst(dir: string, lang1: string, lang2: string, outExt: string, subs: seq<SubFile>, job: Job, k: nat)
    requires AllStemmed(subs)
    requires job in JobsPreferring(dir, lang1, lang2, outExt, subs, |subs|)
    requires k < |subs| && subs[k].lang == lang1 && Stem(subs[k]) == Stem(job.sub1) && !subs[k].hi
    ensures !job.sub1.hi
  {
    JobsPreferringSound(dir, lang1, lang2, outExt, subs, |subs|, job);
    var peers := Candidates(lang1, lang1, job.sub1, subs);
    PeerIn(lang1, job.sub1, subs, k);
    PreferredNonHi(peers);
  }

  /** A first-language file of the stem is among the first-language peers of that stem. */
  lemma {:induction false} PeerIn(lang1: string, sub1: SubFile, subs: seq<SubFile>, k: nat)
    requires k < |subs| && sub1.lang == lang1 && subs[k].lang == lang1
    requires Stem(sub1).Success? && Stem(subs[k]) == Stem(sub1)
    ensures subs[k] in Candidates(lang1, lang1, sub1, subs)
  {
    var n := |subs|;
    if k < n - 1 {
      assert subs[..n - 1][k] == subs[k];
      PeerIn(lang1, sub1, subs[..n - 1], k);
    }
  }

  /** If some candidate is plain, the chosen one is plain. */
  lemma {:induction false} PreferredNonHi(cands: seq<SubFile>)
    requires exists f :: f in cands && !f.hi
    ensures Preferred(cands).Some? && !Preferred(cands).value.hi
  {
    var n := |cands|;
    if cands[n - 1].hi {
      var f :| f in cands && !f.hi;
      assert f in cands[..n - 1];
      PreferredNonHi(cands[..n - 1]);
    }
  }

  /**
   * The corrected selection drops no output of the original one: every
   * output name the original selection writes, it writes too.
   */
  lemma PreferringCoversOutputs(dir: string, lang1: string, lang2: string, outExt: string, subs: seq<SubFile>, job: Job)
    requires AllStemmed(subs)
    requires job in JobsFor(dir, lang1, lang2, outExt, subs, |subs|)
    ensures exists j :: j in JobsPreferring(dir, lang1, lang2, outExt, subs, |subs|) && j.out == job.out
  {
    JobsForSound(dir, lang1, lang2, outExt, subs, |subs|, job);
    var sub1 := job.sub1;
    var k :| 0 <= k < |subs| && subs[k] == sub1;
    var peers := Candidates(lang1, lang1, sub1, subs);
    PeerIn(lang1, sub1, subs, k);
    PreferredSpec(peers);
    var p := Preferred(peers).value;
    CandidatesSound(lang1, lang1, sub1, subs, p);
    var kp :| 0 <= kp < |subs| && subs[kp] == p;
    CandidatesOnStem(lang1, lang1, sub1, p, subs);
    CandidatesOnStem(lang1, lang2, sub1, p, subs);
    JobsPreferringComplete(dir, lang1, lang2, outExt, subs, |subs|, kp);
  }

  /** Later files only add jobs: the jobs of a shorter prefix come first. */
  lemma {:induction false} JobsPreferringPrefix(dir: string, lang1: string, lang2: string, outExt: string, subs: seq<SubFile>, i: nat, j: nat)
    requires i <= j <= |subs| && AllStemmed(subs)
    ensures JobsPreferring(dir, lang1, lang2, outExt, subs, i) <= JobsPreferring(dir, lang1, lang2, outExt, subs, j)
  {
    if i < j {
      JobsPreferringPrefix(dir, lang1, lang2, outExt, subs, i, j - 1);
    }
  }

  /** A preferred first-language file with a partner gives a job of the corrected selection. */
  lemma JobsPreferringComplete(dir: string, lang1: string, lang2: string, outExt: string, subs: seq<SubFile>, i: nat, k: nat)
    requires i <= |subs| && AllStemmed(subs) && k < i
    requires Preferred(Candidates(lang1, lang1, subs[k], subs)) == Some(subs[k])
    requires Candidates(lang1, lang2, subs[k], subs) != []
    ensures Job(dir, subs[k], Preferred(Candidates(lang1, lang2, subs[k], subs)).value,
                OutputName(Stem(subs[k]).value, outExt)) in JobsPreferring(dir, lang1, lang2, outExt, subs, i)
  {
    var job := Job(dir, subs[k], Preferred(Candidates(lang1, lang2, subs[k], subs)).value,
                   OutputName(Stem(subs[k]).value, outExt));
    JobsPreferringStep(dir, lang1, lang2, outExt, subs, k);
    assert JobsPreferring(dir, lang1, lang2, outExt, subs, k + 1)[|JobsPreferring(dir, lang1, lang2, outExt, subs, k + 1)| - 1] == job;
    JobsPreferringPrefix(dir, lang1, lang2, outExt, subs, k + 1, i);
  }
}
