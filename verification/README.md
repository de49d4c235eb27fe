# submerger in Dafny

A model of the core of submerger, a tool that merges two subtitle tracks
of one video (for example English and Japanese) into one SubRip file in
which each track has its own screen position, color and time offset. In
its recursive mode it walks a directory tree, finds subtitle files named
`<stem>.<lang>[.hi].<ext>`, pairs every file of the first language with a
file of the second language that has the same stem, and writes
`<stem>.<out_ext>` for each pair.

The model covers:

- **File names** (`SubPath`, in `subpath.dfy`):
  - the pattern string `get_sub_path_regex` builds, and a parser that reads the configuration back out of it;
  - the set of names that pattern accepts, with what it captures (language, hearing-impaired flag, extension), stated as a string function `Match` and a declarative description `Accepts`, proved equal;
  - `base_file_stem`, the first run of non-dot characters of a name.
- **Discovery** (`Discovery`, in `discovery.dfy`): the grouping of accepted regular files by directory in `find_matching_subtitle_files`. It runs as a loop that builds a map over the list of entries the directory walk produces.
- **Pair selection** (`Pairing`, in `pairing.dfy`):
  - the nested loops of the recursive mode, with the mutable `l1`/`l2` choices;
  - the per-directory and per-run job lists they produce;
  - a corrected selection (see Findings).
- **Cue transforms and merging**:
  - `Markup` (`markup.dfy`): the `SubPosition` to `{\anN}` table, and the restyling of one text: strip one `{\an8}`, then add tag, space and color markup.
  - `Timestamp` (`timestamp.dfy`): `srt_to_chrono` and `chrono_to_srt`.
  - `Track` (`track.dfy`): the merge module's `load_sub` extension dispatch, its `apply_sub_changes` and `merge`, over a track class whose cue list the methods rewrite in place.
  - `SubRipTrack` (`subrip.dfy`): the command-line program's own `apply_sub_changes` over SubRip cues with timestamp fields and several text lines.
- `Wrappers` and `Text` hold `Option`/`Result` and prefix/suffix helpers.

Language codes are taken as the pattern reads them: non-empty, free of pattern syntax (hence of dots), and not `hi` (`SubPath.ValidLang`). Hyphenated codes such as `pt-BR` are valid. Offsets are whole milliseconds.

Choices the code makes that a reader might not expect:

- **Partner choice.** The partner is the *last* plain candidate in list order, else the *first* hearing-impaired one (src/main.rs:322-324). The help text at src/main.rs:139-141 promises the fallback to hearing-impaired files for both languages; the first language does not get it (see Findings).
- **Merge renumbering.** `merge` renumbers only the first `n2` cues, where `n2` is the second track's length (src/merge.rs:156-158).
- **Extensions.** `load_sub` accepts `srt`, `vtt`, `ass` and `ssa` in any letter case. Any other extension, or none, is a plain "Unknown format" error that does not name the extension (src/merge.rs:114-124).
- **Stem errors.** A name without a stem in the selection loop ends the whole run through `?` (src/main.rs:315), rather than skipping that file. `Pairing.PlanOfDiscovered` shows this cannot happen for files that discovery recorded.

## Model

| member | source | states |
|---|---|---|
| Markup.GridIndex | src/main.rs:18-30 | every position has a grid index from 1 (bottom left) to 9 (top right) |
| Markup.Tag | src/main.rs:66-81 | every position's Display text is six characters long |
| Markup.TagShape | src/main.rs:66-81 | the tag of a position is `{\an`, the digit of its grid index, `}` |
| Markup.TagInjective | src/main.rs:66-81 | two positions have the same tag iff they are the same position; the default position's tag is `{\an2}` |
| Markup.StripTopCenter | src/merge.rs:144-146 | a text starting with `{\an8}` loses exactly that prefix once; any other text is unchanged |
| Markup.StripRemovesAtMostOne | src/main.rs:244-248 | stripping removes six characters or none; the text is unchanged iff it does not start with `{\an8}` |
| Markup.ColorStart | src/merge.rs:137-141 | the opening `<font color="C">` markup, or nothing without a color (also src/main.rs:235-239); DecorateSpec states its place in the restyled text |
| Markup.ColorEnd | src/merge.rs:137-141 | the closing `</font>` markup, or nothing without a color (also src/main.rs:235-239); DecorateSpec states its place in the restyled text |
| Markup.Decorate | src/merge.rs:144-147 | the restyled text of one cue; DecorateSpec states its shape and its inverse, DecorateInjective that it loses nothing but the stripped tag |
| Markup.DecorateSpec | src/merge.rs:137-147 | a restyled text starts with the position tag and a space; without a color it is tag, space, stripped text; removing the markup gives back the stripped text; its length is the sum of the parts |
| Markup.DecorateInjective | src/main.rs:251-253 | restyling loses nothing but the stripped tag: two texts that restyle alike agree once stripped |
| Timestamp.SrtToChrono | src/main.rs:202-209 | the duration of a timestamp is never negative |
| Timestamp.ChronoToSrt | src/main.rs:212-226 | minutes and seconds come out below 60 and milliseconds below 1000, whatever the duration |
| Timestamp.FieldsOfTotal | src/main.rs:215-218 | the divisions and remainders recover hours, minutes, seconds and milliseconds from a total built of in-range fields |
| Timestamp.RoundTrip | src/main.rs:371-384 | a timestamp with fields in clock range survives the trip to a duration and back |
| Timestamp.SignDropped | src/main.rs:213 | a duration and its negation give the same timestamp; zero gives all-zero fields |
| Timestamp.ChronoToSrtDenotes | src/main.rs:212-226 | the fields of the result denote the absolute duration modulo 256 hours, which is the `as u8` cast on the hours |
| Timestamp.Shift | src/main.rs:254-256 | a shifted timestamp has fields in clock range |
| Timestamp.ShiftZero | src/main.rs:255-256 | a zero offset leaves a timestamp with in-range fields as it was |
| Timestamp.ShiftInRange | src/main.rs:255 | while the shifted time stays between zero and 256 hours, the timestamp moves by exactly the offset |
| Timestamp.ShiftUndo | src/main.rs:255-256 | shifting by d and then by -d restores the timestamp when the intermediate time is in range |
| Timestamp.ShiftBelowZero | src/main.rs:213 | a shift below zero lands on the mirror image of the negative time |
| Timestamp.SourceExamples | src/main.rs:371-411 | 1:23:45.678 round-trips, and -3723678 ms reads as 1:02:03.678 |
| SubPath.SubPathRegex | src/merge.rs:31-35 | the pattern built from two codes and the `.vtt` choice; PatternRoundTrip reads both back out of it and DocumentedPattern gives the documented string |
| SubPath.RegionCodeValid | src/merge.rs:32 | codes with a hyphen such as `pt-BR` and `zh-Hans` are valid: the pattern reads them literally |
| SubPath.PatternRoundTrip | src/merge.rs:31-35 | parsing the built pattern gives back the two codes and the `.vtt` choice, so the builder loses nothing |
| SubPath.DocumentedPattern | src/merge.rs:28 | for `en`, `ja` with `.vtt` on, the builder returns exactly the documented pattern |
| SubPath.DocumentedPatternSrtOnly | src/merge.rs:33 | with `.vtt` off the extension group is `srt` alone |
| SubPath.Match | src/merge.rs:31-35 | the captures of the pattern on a file name, or none; MatchIffAccepts states exactly which names it accepts and with which captures |
| SubPath.LangAtSpec | src/merge.rs:34 | the language group finds exactly a requested code that ends the text as a dot-led segment after a non-dot |
| SubPath.MatchBeforeExtSpec | src/merge.rs:34 | before the extension, the name reads `.L.hi` (hearing-impaired) or `.L` (plain) |
| SubPath.MatchSound | src/merge.rs:34 | every capture the matcher reports is accepted |
| SubPath.MatchComplete | src/merge.rs:34 | every accepted name and capture is reported |
| SubPath.MatchIffAccepts | src/merge.rs:31-35 | a name matches with capture c iff it ends in `.L[.hi].E` for a requested L and admitted E with a non-dot before; `hi` is set iff `.hi` is present |
| SubPath.RejectedIffNoCapture | src/merge.rs:82 | a name is rejected iff no capture describes it |
| SubPath.MatchOfSuffix | src/merge.rs:31-35 | any base whose last character is not a dot, followed by `.L`, optionally `.hi`, and `.E` for a requested L and admitted E, is matched with exactly (L, hi, E) |
| SubPath.TableAcceptsSrt | src/test.rs:14 | `movie.en.srt` gives (en, plain, srt) |
| SubPath.TableAcceptsHiSrt | src/test.rs:59 | `song.en.hi.srt` gives (en, hi, srt) with `.vtt` not looked for |
| SubPath.TableAcceptsVtt | src/test.rs:17 | `movie.ja.vtt` gives (ja, plain, vtt) |
| SubPath.TableAcceptsHiVtt | src/test.rs:18 | `song.ja.hi.vtt` gives (ja, hi, vtt) |
| SubPath.TableRejectsLanguage | src/test.rs:21-22 | `movie.de.srt` and `movie.srt` are rejected |
| SubPath.TableRejectsExtension | src/test.rs:23 | `movie.ja.txt` is rejected |
| SubPath.TableRejectsJoinedHi | src/test.rs:25 | `movie.en.hisrt` is rejected |
| SubPath.VttOffRejects | src/merge.rs:33 | with `.vtt` not looked for, every name ending in `.vtt` is rejected |
| SubPath.TableRejectsVttWhenOff | src/test.rs:61-62 | `movie.en.vtt` and `movie.ja.vtt` are rejected with `.vtt` not looked for |
| SubPath.TableRejectsMissingDot | src/test.rs:24 | `movie.enhi.vtt` is rejected |
| SubPath.TableRejectsDoubleDot | src/test.rs:26 | `movie..en.srt` is rejected |
| SubPath.BaseFileStem | src/merge.rs:39-50 | the stem of a file name or the error for a name without one; NoStemIffDots and StemIsFirstRun state which |
| SubPath.NoStemIffDots | src/merge.rs:45-47 | a name has no stem iff it is made of dots alone, the empty name included |
| SubPath.StemIsFirstRun | src/merge.rs:37-50 | a stem is non-empty and dot-free, preceded only by dots and followed by a dot or the end: the first maximal run of non-dot characters |
| SubPath.StemOfExtended | src/merge.rs:45-48 | appending text that starts with a dot keeps the stem |
| SubPath.StemOfAccepted | src/merge.rs:39-50 | every accepted name has a stem, the stem of what precedes its language segment, so all variants of one name share it |
| SubPath.StemExample | src/merge.rs:38 | `movie.en.hi.srt` has stem `movie` |
| SubPath.DotsHaveNoStem | src/merge.rs:45-47 | `...` has no stem |
| Discovery.FindMatchingSubtitleFiles | src/merge.rs:53-109 | an error iff the root is a file; otherwise the keys are exactly the directories with an accepted regular file, each mapped to those files in encounter order |
| Discovery.Recorded | src/merge.rs:80-98 | the `is_file` and `captures` filter and the `SubFile` built from the captures; MatchesInSound and MatchesInComplete state what it records |
| Discovery.MatchesIn | src/merge.rs:78-103 | the files recorded for one directory, in encounter order; MatchesInSound and MatchesInComplete state which, and FindMatchingSubtitleFiles is proved to build exactly these groups |
| Discovery.MatchesInSound | src/merge.rs:80-103 | every recorded file is a regular-file entry of its directory whose name is accepted with the recorded language and flag; the language is a requested one and the name has a stem |
| Discovery.MatchesInComplete | src/merge.rs:80-103 | every accepted regular file is recorded under its directory |
| Pairing.FirstWithoutStem | src/main.rs:315 | the first position whose name has no stem: all before it have one |
| Pairing.Candidates | src/main.rs:314-318 | the files the inner loop accepts for the outer file, in list order; CandidatesSound and CandidatesOnStem state what they are |
| Pairing.Preferred | src/main.rs:322-324 | the partner left in `l2` after the inner loop; PreferredSpec states it is the last plain candidate, else the first |
| Pairing.PreferredStep | src/main.rs:322-324 | one more candidate becomes the partner if it is plain or none was chosen yet, which is the `l2` update |
| Pairing.PreferredNoneIff | src/main.rs:329-331 | there is a partner iff there is a candidate |
| Pairing.PreferredSpec | src/main.rs:322-324 | the partner is the last plain candidate, else the first candidate; it is one of the candidates |
| Pairing.CandidatesSound | src/main.rs:315-317 | a candidate is a file of the list in the second language with the outer file's stem |
| Pairing.ScanPartners | src/main.rs:310-326 | the inner loop fails iff some name has no stem, naming the first; otherwise `l1` is the outer file iff it has a candidate and `l2` is the preferred candidate |
| Pairing.JobsFor | src/main.rs:310-350 | the jobs of a directory's outer files in list order; PairsInDir is proved to compute it, JobsForSound and JobsForComplete state what it holds |
| Pairing.JobsForStep | src/main.rs:329-331 | each outer file adds one job exactly when it has a candidate |
| Pairing.PairsInDir | src/main.rs:310-350 | one directory fails iff some name has no stem, naming the first; otherwise it gives one job per first-language file with a partner, in list order |
| Pairing.JobsForSound | src/main.rs:315-350 | a job pairs a first-language file with its preferred partner of the same stem, and writes that stem with the output extension |
| Pairing.JobsForPrefix | src/main.rs:310 | later files only append jobs |
| Pairing.JobsForComplete | src/main.rs:329-331 | every file with a candidate gives a job as outer file |
| Pairing.Plan | src/main.rs:309-359 | the jobs of the whole run and the error that stops it; PlanMerges is proved to compute it and PlanWithoutStemErrors and PlanOfDiscovered state its result |
| Pairing.PlanWithoutStemErrors | src/main.rs:309-315 | when every name has a stem, the run has no error and its jobs are every directory's jobs, concatenated in group order |
| Pairing.PlanOfDiscovered | src/main.rs:307-315 | for groups holding what discovery recorded, every name has a stem, so the stem error is never reached and every directory's jobs are carried out |
| Pairing.PlanMerges | src/main.rs:309-359 | the run's jobs, directory after directory in map order, up to the first directory whose selection fails, and that failure |
| Pairing.CandidatesOnStem | src/main.rs:315-317 | a file's candidates depend only on its stem and language |
| Pairing.OutputName | src/main.rs:349-350 | `with_extension` on a stem that has no extension: an empty extension adds nothing, any other gives stem, dot, extension; OutputNameInjective states that different dot-free stems give different names |
| Pairing.OutputNameInjective | src/main.rs:349-350 | different dot-free stems give different output names |
| Pairing.SameStemSameOutput | src/main.rs:319-321 | two first-language files of one stem each give a job, with the same partner and the same output name |
| Pairing.TwoJobsOneOutput | src/main.rs:319-321 | two first-language files and one partner of one stem give exactly two jobs writing one output |
| Pairing.OverwriteCounterexample | src/main.rs:319-321 | `m.en.srt`, `m.en.hi.srt`, `m.ja.srt` give two jobs both writing `m.srt`, the second from the hearing-impaired file |
| Pairing.JobsPreferringStep | src/main.rs:139-141 | in the corrected selection a file adds its job iff it is the preferred first-language file of its stem and has a candidate |
| Pairing.JobsPreferringSound | src/main.rs:139-141 | a corrected job's outer file is the preferred first-language file of its stem, and its partner is the preferred one |
| Pairing.OneJobPerOutput | src/main.rs:349-350 | the corrected selection writes every output file at most once |
| Pairing.PreferringPlainFirst | src/main.rs:139-141 | the corrected selection takes a hearing-impaired first-language file only when its stem has no plain one |
| Pairing.PeerIn | src/main.rs:315-316 | every first-language file of a stem is among that stem's first-language files |
| Pairing.PreferredNonHi | src/main.rs:322 | if some candidate is plain, the chosen partner is plain |
| Pairing.PreferringCoversOutputs | src/main.rs:349-350 | every output the original selection writes, the corrected one writes too |
| Pairing.JobsPreferringPrefix | src/main.rs:310 | in the corrected selection too, later files only append jobs |
| Pairing.JobsPreferringComplete | src/main.rs:139-141 | a preferred first-language file with a candidate gives a corrected job |
| Track.Srt.constructor | src/merge.rs:143 | the track value the codec hands back holds the given cues in its `lines` list |
| Track.ChangeLine | src/merge.rs:143-150 | one cue after the loop body; ChangeLineSpec states what it keeps and what it changes |
| Track.ChangeLineSpec | src/merge.rs:143-150 | one cue keeps its number and length, starts with the position tag and a space, gives back its stripped text, and moves back by the offset to its old times |
| Track.ApplySubChanges | src/merge.rs:130-151 | the cue count is unchanged and every cue is restyled and moved by the offset in place |
| Track.RenumberPrefix | src/merge.rs:156-158 | positions below n get number i + 1, and every other cue is unchanged |
| Track.Merge | src/merge.rs:153-160 | the first track becomes both tracks' cues with positions `0..n2` renumbered |
| Track.MergedLinesSpec | src/merge.rs:153-160 | length n1 + n2; the first track's cues then the second's, text and times untouched; positions below n2 numbered i + 1, the rest keep their numbers |
| Track.MergeRepeatsNumbers | src/merge.rs:156-158 | merging two non-empty tracks numbered from 1 always repeats a number |
| Track.MergeOneCueEach | src/merge.rs:156-158 | two one-cue tracks merge into two cues both numbered 1 |
| Track.MergeRenumbered | src/merge.rs:153-160 | the corrected merge renumbers every position of the merged track |
| Track.MergedContiguousSpec | src/merge.rs:153-160 | the corrected merge keeps the cues in order with text and times untouched, numbered exactly 1 to n1 + n2, with no repeats |
| Track.ExtensionSpec | src/merge.rs:114-115 | the extension is the dot-free text after a dot that is not the first character; `..` and names without such a dot have none |
| Track.Lower | src/merge.rs:116 | lower-casing keeps the length and lower-cases each ASCII letter |
| Track.LowerIdempotent | src/merge.rs:116 | lower-casing twice is lower-casing once |
| Track.Extension | src/merge.rs:114-115 | `Path::extension` of a file name; ExtensionSpec states when there is one and what it is |
| Track.FormatOf | src/merge.rs:116-124 | the format an extension selects, if any; FormatOfCases lists them |
| Track.FormatOfCases | src/merge.rs:120-124 | the dispatch ignores letter case: `srt`, `vtt` and `ass` or `ssa` select the three formats and nothing else does |
| Track.LoadSub | src/merge.rs:111-128 | the read first, then the extension dispatch; LoadSubSpec states its outcomes |
| Track.LoadSubSpec | src/merge.rs:111-128 | a failed read fails whatever the name; otherwise an unknown or missing extension is "Unknown format", and a known one gives what its codec gives |
| Track.ExtensionExamples | src/merge.rs:114-123 | `Movie.en.SRT` loads as SubRip and `show.ja.Ass` as SubStation |
| Track.NoExtensionExamples | src/merge.rs:114-124 | `.srt`, `movie` and `..` have no extension; `movie.` has the empty one, which is unknown |
| SubRipTrack.SubRip.constructor | src/main.rs:241 | the SubRip track value holds the given cues in its `subtitles` list |
| SubRipTrack.DecorateLines | src/main.rs:251-253 | every line of a cue is restyled, and the line count is kept |
| SubRipTrack.RestyleLines | src/main.rs:244-253 | the strip loop followed by the format loop gives every line restyled |
| SubRipTrack.ApplySubChanges | src/main.rs:228-258 | the cue count is unchanged; in place, every cue loses its box, has every line restyled and both timestamps shifted |
| SubRipTrack.ChangeSubtitle | src/main.rs:241-256 | one cue after the loop body; ChangeSubtitleSpec states what it keeps and what it changes |
| SubRipTrack.ChangeSubtitleSpec | src/main.rs:241-256 | a cue keeps its number and line count, has no box, every line starts with the tag and a space and gives back its stripped text, and its timestamps have in-range fields |
| SubRipTrack.ZeroOffsetKeepsTimes | src/main.rs:254-256 | a zero offset leaves in-range timestamps as they were |
| SubRipTrack.ShiftKeepsDuration | src/main.rs:254-256 | while both times stay between zero and 256 hours, the cue moves by exactly the offset and keeps its duration |

## Left out

- Command-line parsing, the single-pair mode's wiring, and logging. These are configuration with no core behaviour.
- The directory walk:
  - `WalkDir`, `read_dir`, symlink following and `is_file` are replaced by the list of entries they yield and a flag for the root being a file;
  - walk and read errors are not modelled;
  - paths are reduced to a directory string and a file name;
  - names that are not valid UTF-8 are not modelled.
- Reading and writing files. The recursive mode is modelled up to the list of merges it carries out; loading, writing and their errors for each job are not.
- The codecs for SubRip, WebVTT and SubStation parsing, `to_srt` and rendering. In `LoadSub` they are the `parse` parameter.
- The regex engine. Its accepted language for this one pattern is stated directly, for valid language codes only, since codes are spliced in unescaped.
- Floating point. `f32_to_chrono` and `Duration::seconds_f32` are left out, and offsets are given as whole milliseconds.
- Overflow and panics of the duration arithmetic, such as the absolute value of the most negative duration. Durations are unbounded integers.
- The time type of the merge module's cues belongs to the codec and is abstracted to a signed count of milliseconds. `line.start += Duration::seconds_f32(offset)` (src/merge.rs:148-149) is plain addition in `Track.ChangeLine`, so whatever that type does with a result below zero or past its range is not modelled.
- Track.Merge: the `i as u32 + 1` cast is taken without 32-bit wrap-around.
- The iteration order of the grouping map. `PlanMerges` takes the groups as a sequence in whatever order the map yields them.
- The glue in the program's `main` that hands the merge module's track type to the program's own `apply_sub_changes`. It does not type-check as written, so each `apply_sub_changes` is modelled on its own track type.
- Pairing.ScanPartners: the outer file's stem is computed once before the loop rather than again on every pass. Each pass computes the same value and fails in the same place.

## Findings

| source | as written | input that shows it | evidently intended | confidence | as-written member | corrected member |
|---|---|---|---|---|---|---|
| src/merge.rs:156-158 | the renumbering loop runs over `0..n2` only, so the cues at positions n2 and later keep their old numbers | two one-cue tracks, each cue numbered 1, merge into two cues both numbered 1 | every cue of the merged track numbered 1 to n1 + n2 | not executed | Track.MergeOneCueEach | Track.MergedContiguousSpec |
| src/main.rs:319-321 | `l1` is set to the outer file itself, so the preference for a plain file never applies to the first language and every first-language file with a partner gets its own job | `m.en.srt`, `m.en.hi.srt`, `m.ja.srt` with languages `en`, `ja` give two jobs that both write `m.srt`, and the hearing-impaired one, listed last, overwrites the plain one | one job per stem, with the plain first-language file preferred as the help text at src/main.rs:139-141 says | not executed | Pairing.OverwriteCounterexample | Pairing.OneJobPerOutput |
