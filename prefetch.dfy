/**
 * The image prefetch script: `safe_filename`, `filename_from_url`, and the
 * loop of `main` that downloads each row's `image_url` into the bundled
 * image folder, counting downloads, skips and failures. The database read is
 * the `rows` input; whether a download (fetch and write) succeeds is the
 * `fetchOk` oracle, one answer per row; the folder's files are the set of
 * their names, starting from `present`.
 */
module Prefetch {
  import opened Wrappers
  import opened Text

  const MaxLength := 160
  const Fallback := "file.png"

  /** The set `keep`: ASCII letters, digits, `-`, `_`, `.`, `(`, `)` and space. */
  predicate Keep(c: char)
  {
    ('a' <= c <= 'z') || ('A' <= c <= 'Z') || ('0' <= c <= '9') ||
    c == '-' || c == '_' || c == '.' || c == '(' || c == ')' || c == ' '
  }

  /** `safe_filename(name)`: kept characters, cut to 160, then `file.png` if nothing is left. */
  function SafeFilename(name: Option<string>): (r: string)
    ensures r != "" && |r| <= MaxLength
    ensures forall i :: 0 <= i < |r| ==> Keep(r[i])
    ensures name.None? ==> r == Fallback
    ensures var kept := Filter(name.GetOr(""), Keep);
      r == if kept == "" then Fallback else Take(kept, MaxLength)
  {
    var kept := Filter(name.GetOr(""), Keep);
    assert forall i :: 0 <= i < |Fallback| ==> Keep(Fallback[i]);
    var cut := Take(kept, MaxLength);
    assert forall i :: 0 <= i < |cut| ==> cut[i] == kept[i];
    if cut == "" then Fallback else cut
  }

  /** A name of at most 160 kept characters, and at least one, is its own safe name; so `safe_filename` is idempotent. */
  lemma SafeFilenameKeeps(name: string)
    requires name != "" && |name| <= MaxLength
    requires forall i :: 0 <= i < |name| ==> Keep(name[i])
    ensures SafeFilename(Some(name)) == name
  {
  }

  /** Characters outside `keep` make no difference wherever they stand in the name. */
  lemma SafeFilenameIgnoresDropped(a: string, junk: string, b: string)
    requires forall i :: 0 <= i < |junk| ==> !Keep(junk[i])
    ensures SafeFilename(Some(a + junk + b)) == SafeFilename(Some(a + b))
  {
    FilterSkips(a, junk, b, Keep);
  }

  lemma SafeFilenameIdempotent(name: Option<string>)
    ensures SafeFilename(Some(SafeFilename(name))) == SafeFilename(name)
  {
    SafeFilenameKeeps(SafeFilename(name));
  }

  const Separators := {'/', '\\'}

  /** Python `s.replace('\\\\', '/')`: each pair of backslashes, left to right, becomes one `/`. */
  function ReplaceDouble(s: string): (r: string)
    ensures !HasAny(s, Separators) ==> r == s
    decreases |s|
  {
    if s == [] then ""
    else if |s| >= 2 && s[0] == '\\' && s[1] == '\\' then
      assert s[0] in Separators;
      "/" + ReplaceDouble(s[2..])
    else
      HasAnyCons(s[0], s[1..], Separators);
      assert s == [s[0]] + s[1..];
      [s[0]] + ReplaceDouble(s[1..])
  }

  /** Collapsing backslash pairs moves no segment boundary: the last segment is the same. */
  lemma {:induction false} ReplaceDoubleSegment(s: string)
    ensures AfterLast(ReplaceDouble(s), Separators) == AfterLast(s, Separators)
    ensures HasAny(ReplaceDouble(s), Separators) <==> HasAny(s, Separators)
    decreases |s|
  {
    if s == [] {
    } else if |s| >= 2 && s[0] == '\\' && s[1] == '\\' {
      ReplaceDoubleSegment(s[2..]);
      PairStep(s);
    } else {
      ReplaceDoubleSegment(s[1..]);
      SingleStep(s);
    }
  }

  /** The step of `ReplaceDoubleSegment` for a leading backslash pair. */
  lemma PairStep(s: string)
    requires |s| >= 2 && s[0] == '\\' && s[1] == '\\'
    requires AfterLast(ReplaceDouble(s[2..]), Separators) == AfterLast(s[2..], Separators)
    requires HasAny(ReplaceDouble(s[2..]), Separators) <==> HasAny(s[2..], Separators)
    ensures AfterLast(ReplaceDouble(s), Separators) == AfterLast(s, Separators)
    ensures HasAny(ReplaceDouble(s), Separators) <==> HasAny(s, Separators)
  {
    var rest := s[2..];
    var rd := ReplaceDouble(rest);
    assert ReplaceDouble(s) == ['/'] + rd;
    AfterLastCons('/', rd, Separators);
    HasAnyCons('/', rd, Separators);
    HeadTail(s);
    HeadTail(s[1..]);
    assert s[1..][1..] == rest;
    HasAnyCons('\\', rest, Separators);
    HasAnyCons('\\', ['\\'] + rest, Separators);
    AfterLastCons('\\', ['\\'] + rest, Separators);
    AfterLastCons('\\', rest, Separators);
  }

  /** The step of `ReplaceDoubleSegment` for a leading character kept as it is. */
  lemma SingleStep(s: string)
    requires s != [] && !(|s| >= 2 && s[0] == '\\' && s[1] == '\\')
    requires AfterLast(ReplaceDouble(s[1..]), Separators) == AfterLast(s[1..], Separators)
    requires HasAny(ReplaceDouble(s[1..]), Separators) <==> HasAny(s[1..], Separators)
    ensures AfterLast(ReplaceDouble(s), Separators) == AfterLast(s, Separators)
    ensures HasAny(ReplaceDouble(s), Separators) <==> HasAny(s, Separators)
  {
    var rest := s[1..];
    var rd := ReplaceDouble(rest);
    HeadTail(s);
    assert ReplaceDouble(s) == [s[0]] + rd;
    AfterLastCons(s[0], rd, Separators);
    AfterLastCons(s[0], rest, Separators);
    HasAnyCons(s[0], rd, Separators);
    HasAnyCons(s[0], rest, Separators);
  }

  /**
   * `filename_from_url(url)`: the text before the first `?`, with each pair
   * of backslashes and then each single backslash turned into `/`, cut after
   * its last `/`, made safe.
   */
  function FilenameFromUrl(url: string): (name: string)
    ensures name != "" && |name| <= MaxLength
    ensures forall i :: 0 <= i < |name| ==> Keep(name[i])
  {
    SafeFilename(Some(AfterLast(ReplaceChar(ReplaceDouble(BeforeFirst(url, {'?'})), '\\', '/'), {'/'})))
  }

  /** The name ignores everything from the first `?` and everything up to the last `/` or backslash. */
  lemma FilenameFromUrlSegment(url: string)
    ensures FilenameFromUrl(url) == SafeFilename(Some(AfterLast(BeforeFirst(url, {'?'}), Separators)))
  {
    var path := BeforeFirst(url, {'?'});
    ReplaceDoubleSegment(path);
    AfterLastReplaced(ReplaceDouble(path));
  }

  /** What became of one row. */
  datatype Outcome = Downloaded | Skipped | Failed

  /** A row whose `image_url` is falsy: `None` or empty. */
  predicate Blank(row: Option<string>)
  {
    row.None? || row.value == ""
  }

  /**
   * One iteration of the loop: a blank row, or one whose file is already in
   * the folder, is skipped without a fetch; otherwise the download succeeds
   * or fails as the oracle says.
   */
  function Step(row: Option<string>, files: set<string>, ok: bool): (o: Outcome)
    ensures Blank(row) ==> o == Skipped
    ensures !Blank(row) ==> (o == Skipped <==> FilenameFromUrl(row.value) in files)
    ensures o == Downloaded <==> !Blank(row) && FilenameFromUrl(row.value) !in files && ok
    ensures o == Failed <==> !Blank(row) && FilenameFromUrl(row.value) !in files && !ok
  {
    if Blank(row) then Skipped
    else if FilenameFromUrl(row.value) in files then Skipped
    else if ok then Downloaded
    else Failed
  }

  /** The folder after one row: a download adds its file. */
  function StepFiles(row: Option<string>, files: set<string>, ok: bool): (f: set<string>)
    ensures files <= f
    ensures Step(row, files, ok) == Downloaded ==> f == files + {FilenameFromUrl(row.value)}
    ensures Step(row, files, ok) != Downloaded ==> f == files
  {
    if Step(row, files, ok) == Downloaded then files + {FilenameFromUrl(row.value)} else files
  }

  /** The folder's files after the given rows. */
  function FilesAfter(rows: seq<Option<string>>, fetchOk: seq<bool>, present: set<string>): (f: set<string>)
    requires |fetchOk| == |rows|
    ensures present <= f
  {
    if rows == [] then present
    else
      var n := |rows| - 1;
      StepFiles(rows[n], FilesAfter(rows[..n], fetchOk[..n], present), fetchOk[n])
  }

  /** The outcome of every row, in order. */
  function Outcomes(rows: seq<Option<string>>, fetchOk: seq<bool>, present: set<string>): (os: seq<Outcome>)
    requires |fetchOk| == |rows|
    ensures |os| == |rows|
  {
    if rows == [] then []
    else
      var n := |rows| - 1;
      Outcomes(rows[..n], fetchOk[..n], present) + [Step(rows[n], FilesAfter(rows[..n], fetchOk[..n], present), fetchOk[n])]
  }

  /** Each row has exactly one outcome, so the three counts add up to the number of rows. */
  lemma {:induction false} CountsAddUp(os: seq<Outcome>)
    ensures multiset(os)[Downloaded] + multiset(os)[Skipped] + multiset(os)[Failed] == |os|
  {
    if os != [] {
      var n := |os| - 1;
      var init := os[..n];
      CountsAddUp(init);
      assert os == init + [os[n]];
      CountSnoc(init, os[n], Downloaded);
      CountSnoc(init, os[n], Skipped);
      CountSnoc(init, os[n], Failed);
    }
  }

  /** The outcomes of a prefix of the rows are a prefix of the outcomes. */
  lemma {:induction false} OutcomesPrefix(rows: seq<Option<string>>, fetchOk: seq<bool>, present: set<string>, k: nat)
    requires |fetchOk| == |rows| && k <= |rows|
    ensures Outcomes(rows[..k], fetchOk[..k], present) == Outcomes(rows, fetchOk, present)[..k]
    ensures FilesAfter(rows[..k], fetchOk[..k], present) <= FilesAfter(rows, fetchOk, present)
    decreases |rows|
  {
    if k < |rows| {
      var n := |rows| - 1;
      assert rows[..n][..k] == rows[..k] && fetchOk[..n][..k] == fetchOk[..k];
      OutcomesPrefix(rows[..n], fetchOk[..n], present, k);
    } else {
      assert rows[..k] == rows && fetchOk[..k] == fetchOk;
    }
  }

  /** Row `i`'s outcome is its step on the folder as the rows before it left it. */
  lemma OutcomeAt(rows: seq<Option<string>>, fetchOk: seq<bool>, present: set<string>, i: nat)
    requires |fetchOk| == |rows| && i < |rows|
    ensures Outcomes(rows, fetchOk, present)[i] == Step(rows[i], FilesAfter(rows[..i], fetchOk[..i], present), fetchOk[i])
  {
    OutcomesPrefix(rows, fetchOk, present, i + 1);
    assert rows[..i + 1][..i] == rows[..i] && fetchOk[..i + 1][..i] == fetchOk[..i];
  }

  /** One more row: its outcome is appended and its step applied to the folder. */
  lemma Extend(rows: seq<Option<string>>, fetchOk: seq<bool>, present: set<string>, i: nat)
    requires |fetchOk| == |rows| && i < |rows|
    ensures Outcomes(rows[..i + 1], fetchOk[..i + 1], present) ==
      Outcomes(rows[..i], fetchOk[..i], present) + [Step(rows[i], FilesAfter(rows[..i], fetchOk[..i], present), fetchOk[i])]
    ensures FilesAfter(rows[..i + 1], fetchOk[..i + 1], present) ==
      StepFiles(rows[i], FilesAfter(rows[..i], fetchOk[..i], present), fetchOk[i])
  {
    assert rows[..i + 1][..i] == rows[..i] && fetchOk[..i + 1][..i] == fetchOk[..i];
  }

  /** Counting in a sequence with one more element. */
  lemma CountSnoc(os: seq<Outcome>, o: Outcome, x: Outcome)
    ensures multiset(os + [o])[x] == multiset(os)[x] + (if o == x then 1 else 0)
  {
    assert multiset(os + [o]) == multiset(os) + multiset{o};
  }

  /** The folder only grows as rows are processed. */
  lemma FilesGrow(rows: seq<Option<string>>, fetchOk: seq<bool>, present: set<string>, k: nat, j: nat)
    requires |fetchOk| == |rows| && k <= j <= |rows|
    ensures FilesAfter(rows[..k], fetchOk[..k], present) <= FilesAfter(rows[..j], fetchOk[..j], present)
  {
    OutcomesPrefix(rows[..j], fetchOk[..j], present, k);
    assert rows[..j][..k] == rows[..k] && fetchOk[..j][..k] == fetchOk[..k];
  }

  /** No file is downloaded twice: a later row naming a downloaded file is skipped. */
  lemma NoDoubleDownload(rows: seq<Option<string>>, fetchOk: seq<bool>, present: set<string>, i: nat, j: nat)
    requires |fetchOk| == |rows| && i < j < |rows|
    requires !Blank(rows[i]) && !Blank(rows[j]) && FilenameFromUrl(rows[i].value) == FilenameFromUrl(rows[j].value)
    requires Outcomes(rows, fetchOk, present)[i] == Downloaded
    ensures Outcomes(rows, fetchOk, present)[j] == Skipped
  {
    var name := FilenameFromUrl(rows[i].value);
    OutcomeAt(rows, fetchOk, present, i);
    Extend(rows, fetchOk, present, i);
    assert name in FilesAfter(rows[..i + 1], fetchOk[..i + 1], present);
    FilesGrow(rows, fetchOk, present, i + 1, j);
    assert name in FilesAfter(rows[..j], fetchOk[..j], present);
    OutcomeAt(rows, fetchOk, present, j);
  }

  /** The loop invariant of `main` after `i` rows: the folder and the three counts. */
  ghost predicate Progress(rows: seq<Option<string>>, fetchOk: seq<bool>, present: set<string>, i: nat,
                           files: set<string>, downloaded: nat, skipped: nat, failed: nat)
    requires |fetchOk| == |rows| && i <= |rows|
  {
    && files == FilesAfter(rows[..i], fetchOk[..i], present)
    && downloaded == multiset(Outcomes(rows[..i], fetchOk[..i], present))[Downloaded]
    && skipped == multiset(Outcomes(rows[..i], fetchOk[..i], present))[Skipped]
    && failed == multiset(Outcomes(rows[..i], fetchOk[..i], present))[Failed]
  }

  /** One row's step keeps the invariant. */
  lemma ProgressStep(rows: seq<Option<string>>, fetchOk: seq<bool>, present: set<string>, i: nat,
                     files: set<string>, downloaded: nat, skipped: nat, failed: nat,
                     files': set<string>, downloaded': nat, skipped': nat, failed': nat)
    requires |fetchOk| == |rows| && i < |rows|
    requires Progress(rows, fetchOk, present, i, files, downloaded, skipped, failed)
    requires files' == StepFiles(rows[i], files, fetchOk[i])
    requires var o := Step(rows[i], files, fetchOk[i]);
      && downloaded' == downloaded + (if o == Downloaded then 1 else 0)
      && skipped' == skipped + (if o == Skipped then 1 else 0)
      && failed' == failed + (if o == Failed then 1 else 0)
    ensures Progress(rows, fetchOk, present, i + 1, files', downloaded', skipped', failed')
  {
    var o := Step(rows[i], files, fetchOk[i]);
    var before := Outcomes(rows[..i], fetchOk[..i], present);
    Extend(rows, fetchOk, present, i);
    CountSnoc(before, o, Downloaded);
    CountSnoc(before, o, Skipped);
    CountSnoc(before, o, Failed);
  }

  /** After every row, the counts are those of all the outcomes, and they add up to the number of rows. */
  lemma ProgressDone(rows: seq<Option<string>>, fetchOk: seq<bool>, present: set<string>,
                     files: set<string>, downloaded: nat, skipped: nat, failed: nat)
    requires |fetchOk| == |rows|
    requires Progress(rows, fetchOk, present, |rows|, files, downloaded, skipped, failed)
    ensures downloaded == multiset(Outcomes(rows, fetchOk, present))[Downloaded]
    ensures skipped == multiset(Outcomes(rows, fetchOk, present))[Skipped]
    ensures failed == multiset(Outcomes(rows, fetchOk, present))[Failed]
    ensures downloaded + skipped + failed == |rows|
  {
    assert rows[..|rows|] == rows && fetchOk[..|rows|] == fetchOk;
    CountsAddUp(Outcomes(rows, fetchOk, present));
  }

  /**
   * The loop of `main`: each row adds one to exactly one of the counters, a
   * download adds its file to the folder, and the counts are those of the
   * rows' outcomes.
   */
  method Run(rows: seq<Option<string>>, fetchOk: seq<bool>, present: set<string>)
    returns (downloaded: nat, skipped: nat, failed: nat)
    requires |fetchOk| == |rows|
    ensures downloaded == multiset(Outcomes(rows, fetchOk, present))[Downloaded]
    ensures skipped == multiset(Outcomes(rows, fetchOk, present))[Skipped]
    ensures failed == multiset(Outcomes(rows, fetchOk, present))[Failed]
    ensures downloaded + skipped + failed == |rows|
  {
    downloaded, skipped, failed := 0, 0, 0;
    var files := present;
    var i := 0;
    assert rows[..0] == [] && fetchOk[..0] == [];
    while i < |rows|
      invariant 0 <= i <= |rows|
      invariant Progress(rows, fetchOk, present, i, files, downloaded, skipped, failed)
    {
      var row := rows[i];
      ghost var o := Step(row, files, fetchOk[i]);
      ghost var filesBefore, d0, s0, f0 := files, downloaded, skipped, failed;
      if Blank(row) {
        skipped := skipped + 1;
      } else {
        var name := FilenameFromUrl(row.value);
        if name in files {
          skipped := skipped + 1;
        } else if fetchOk[i] {
          files := files + {name};
          downloaded := downloaded + 1;
        } else {
          failed := failed + 1;
        }
      }
      assert files == StepFiles(row, filesBefore, fetchOk[i]);
      assert downloaded == d0 + (if o == Downloaded then 1 else 0);
      assert skipped == s0 + (if o == Skipped then 1 else 0);
      assert failed == f0 + (if o == Failed then 1 else 0);
      ProgressStep(rows, fetchOk, present, i, filesBefore, d0, s0, f0, files, downloaded, skipped, failed);
      i := i + 1;
    }
    ProgressDone(rows, fetchOk, present, files, downloaded, skipped, failed);
  }
}
