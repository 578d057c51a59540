/** The rest of `main.cpp`: discovering resumes (`getAllResumes`), ranking them
    (the `std::sort` call in `main`), keeping the best three (`getTop3Resumes`),
    and `main` itself. Files and folders are a `Disk` value; writing the CSV
    report and printing are left out. */
module Ranking {
  import opened Maybe
  import opened WeightList
  import opened Scoring

  /** The comparator passed to `std::sort`: `a` goes before `b` when its total
      score is higher. */
  predicate HigherScore(a: Resume, b: Resume) {
    a.totalScore > b.totalScore
  }

  /** `std::sort` needs a strict weak ordering; the comparator is one. */
  lemma HigherScoreIsStrictWeakOrder(a: Resume, b: Resume, c: Resume)
    ensures !HigherScore(a, a)
    ensures HigherScore(a, b) && HigherScore(b, c) ==> HigherScore(a, c)
    ensures !HigherScore(a, b) && !HigherScore(b, a) && !HigherScore(b, c) && !HigherScore(c, b)
      ==> !HigherScore(a, c) && !HigherScore(c, a)
  {
  }

  /** The order `std::sort` leaves behind: total scores never increase. */
  ghost predicate Ranked(rs: seq<Resume>) {
    forall i, j :: 0 <= i < j < |rs| ==> rs[i].totalScore >= rs[j].totalScore
  }

  /** Inserts `x` into a ranked sequence, ahead of the first resume that does
      not score higher than it. */
  function InsertByScore(x: Resume, rs: seq<Resume>): (r: seq<Resume>)
    requires Ranked(rs)
    ensures Ranked(r)
    ensures multiset(r) == multiset(rs) + multiset{x}
    ensures forall y :: y in r ==> y == x || y in rs
  {
    if rs == [] then
      [x]
    else if !HigherScore(rs[0], x) then
      [x] + rs
    else
      assert rs == [rs[0]] + rs[1..];
      var rest := InsertByScore(x, rs[1..]);
      HeadBoundsRest(x, rs, rest);
      [rs[0]] + rest
  }

  lemma HeadBoundsRest(x: Resume, rs: seq<Resume>, rest: seq<Resume>)
    requires Ranked(rs) && |rs| > 0 && HigherScore(rs[0], x)
    requires Ranked(rest)
    requires forall y :: y in rest ==> y == x || y in rs[1..]
    ensures Ranked([rs[0]] + rest)
  {
    var r := [rs[0]] + rest;
    forall i, j | 0 <= i < j < |r| ensures r[i].totalScore >= r[j].totalScore {
      if i == 0 {
        assert r[j] == rest[j - 1] && rest[j - 1] in rest;
      } else {
        assert r[i] == rest[i - 1] && r[j] == rest[j - 1];
      }
    }
  }

  /** `sort(resumes.begin(), resumes.end(), comparator)`, by insertion. The
      standard promises a permutation ordered by the comparator and nothing
      about the order of equal scores, and that is all this contract says. */
  function SortByScore(rs: seq<Resume>): (sorted: seq<Resume>)
    ensures Ranked(sorted)
    ensures multiset(sorted) == multiset(rs)
  {
    if rs == [] then
      []
    else
      assert rs == [rs[0]] + rs[1..];
      InsertByScore(rs[0], SortByScore(rs[1..]))
  }

  /** The total scores of a sequence of resumes, in order. */
  function Scores(rs: seq<Resume>): (ss: seq<int>)
    ensures |ss| == |rs|
    ensures forall i :: 0 <= i < |rs| ==> ss[i] == rs[i].totalScore
  {
    if rs == [] then [] else [rs[0].totalScore] + Scores(rs[1..])
  }

  /** Any two rankings of the same resumes list the same total scores in the
      same order: whatever order `std::sort` gives equal scores, the score column
      of the report is determined. */
  lemma RankingsAgreeOnScores(a: seq<Resume>, b: seq<Resume>)
    requires Ranked(a) && Ranked(b)
    requires multiset(a) == multiset(b)
    ensures Scores(a) == Scores(b)
  {
    ScoresAgree(a, b);
  }

  lemma {:induction false} ScoresAgree(a: seq<Resume>, b: seq<Resume>)
    requires Ranked(a) && Ranked(b)
    requires multiset(a) == multiset(b)
    ensures |a| == |b|
    ensures forall i :: 0 <= i < |a| ==> a[i].totalScore == b[i].totalScore
    decreases |a|
  {
    assert |a| == |multiset(a)| == |multiset(b)| == |b|;
    if a != [] {
      var k := SameTopScore(a, b);
      var b' := RemoveAt(b, k);
      var a' := a[1..];
      assert a == [a[0]] + a';
      assert multiset(a') == multiset(b');
      ScoresAgree(a', b');
      TiesAhead(b, k);
      forall i | 1 <= i < |a| ensures a[i].totalScore == b[i].totalScore {
        assert a[i] == a'[i - 1];
      }
    }
  }

  /** Two rankings of the same resumes start with the same top score, and the
      first resume of one sits at some position `k` of the other. */
  lemma SameTopScore(a: seq<Resume>, b: seq<Resume>) returns (k: nat)
    requires Ranked(a) && Ranked(b)
    requires multiset(a) == multiset(b) && |a| > 0
    ensures k < |b| && b[k] == a[0] && b[0].totalScore == a[0].totalScore
  {
    assert a[0] in multiset(b);
    k :| 0 <= k < |b| && b[k] == a[0];
    assert b[0] in multiset(a);
    var l :| 0 <= l < |a| && a[l] == b[0];
  }

  /** In a ranking whose first and `k`-th resumes score the same, all resumes up
      to `k` score the same. */
  lemma TiesAhead(b: seq<Resume>, k: nat)
    requires Ranked(b) && k < |b|
    ensures b[0].totalScore == b[k].totalScore ==>
      forall i :: 0 <= i <= k ==> b[i].totalScore == b[k].totalScore
  {
  }

  /** `rs` without its `k`-th element: still ranked, one copy of it fewer. */
  function RemoveAt(rs: seq<Resume>, k: nat): (r: seq<Resume>)
    requires Ranked(rs) && k < |rs|
    ensures |r| == |rs| - 1
    ensures forall i :: 0 <= i < |r| ==> r[i] == if i < k then rs[i] else rs[i + 1]
    ensures Ranked(r)
    ensures multiset(r) == multiset(rs) - multiset{rs[k]}
  {
    var r := rs[..k] + rs[k + 1..];
    assert forall i :: 0 <= i < |r| ==> r[i] == if i < k then rs[i] else rs[i + 1];
    assert rs == rs[..k] + [rs[k]] + rs[k + 1..];
    r
  }

  /** The first `k` resumes, or all of them when there are fewer. */
  function TakeFirst(rs: seq<Resume>, k: nat): (top: seq<Resume>)
    ensures |top| == if |rs| < k then |rs| else k
    ensures forall i :: 0 <= i < |top| ==> top[i] == rs[i]
  {
    if k == 0 || rs == [] then [] else [rs[0]] + TakeFirst(rs[1..], k - 1)
  }

  /** `getTop3Resumes`: exactly `min(3, |resumes|)` resumes, the first ones of
      its argument, in the same order, with no padding. */
  function GetTop3Resumes(resumes: seq<Resume>): (top: seq<Resume>)
    ensures |top| == if |resumes| < 3 then |resumes| else 3
    ensures top == resumes[..|top|]
  {
    TakeFirst(resumes, 3)
  }

  /** Taken from a ranking, no resume left out scores higher than one kept. */
  lemma TopOfRankingIsBest(ranking: seq<Resume>)
    requires Ranked(ranking)
    ensures var top := GetTop3Resumes(ranking);
      forall i, j :: 0 <= i < |top| <= j < |ranking| ==> top[i].totalScore >= ranking[j].totalScore
  {
  }

  /** The filter of `getAllResumes`: a file name longer than four characters
      that ends in `.txt`. */
  predicate IsResumeFile(filename: string) {
    |filename| > 4 && filename[|filename| - 4..] == ".txt"
  }

  /** The resume's name: its file name without the last four characters. */
  function ResumeName(filename: string): (stem: string)
    requires |filename| >= 4
    ensures |stem| == |filename| - 4
    ensures filename == stem + filename[|filename| - 4..]
  {
    filename[..|filename| - 4]
  }

  /** A file name is accepted exactly when it is a non-empty name followed by
      `.txt`, and that name is what the resume is called; `.txt` alone is
      rejected. */
  lemma ResumeFileNames(name: string)
    ensures IsResumeFile(name + ".txt") <==> |name| > 0
    ensures ResumeName(name + ".txt") == name
  {
    var f := name + ".txt";
    assert f[|f| - 4..] == ".txt";
    assert f[..|f| - 4] == name;
  }

  /** Every accepted file name is its resume name followed by `.txt`. */
  lemma AcceptedFileSplits(filename: string)
    requires IsResumeFile(filename)
    ensures |ResumeName(filename)| > 0
    ensures filename == ResumeName(filename) + ".txt"
  {
    assert filename == filename[..|filename| - 4] + filename[|filename| - 4..];
  }

  /** The resume `getAllResumes` makes for the accepted file `filename` of `folder`. */
  function ResumeFor(folder: string, filename: string): Resume
    requires |filename| >= 4
  {
    NewResume(ResumeName(filename), folder + "/" + filename)
  }

  /** The positions of the accepted entries from `k` on, in increasing order:
      every accepted position appears, and nothing else. */
  function AcceptedPositions(entries: seq<string>, k: nat): (pos: seq<nat>)
    requires k <= |entries|
    ensures |pos| <= |entries| - k
    ensures forall i :: 0 <= i < |pos| ==> k <= pos[i] < |entries| && IsResumeFile(entries[pos[i]])
    ensures forall i, j :: 0 <= i < j < |pos| ==> pos[i] < pos[j]
    ensures forall p :: k <= p < |entries| && IsResumeFile(entries[p]) ==> p in pos
    decreases |entries| - k
  {
    if k == |entries| then []
    else if IsResumeFile(entries[k]) then [k] + AcceptedPositions(entries, k + 1)
    else AcceptedPositions(entries, k + 1)
  }

  /** The loop over the directory entries of `getAllResumes` from entry `k` on. */
  function CollectFrom(folder: string, entries: seq<string>, k: nat): (resumes: seq<Resume>)
    requires k <= |entries|
    ensures var pos := AcceptedPositions(entries, k);
      |resumes| == |pos| && forall i :: 0 <= i < |pos| ==> resumes[i] == ResumeFor(folder, entries[pos[i]])
    decreases |entries| - k
  {
    if k == |entries| then []
    else
      var rest := CollectFrom(folder, entries, k + 1);
      if IsResumeFile(entries[k]) then [ResumeFor(folder, entries[k])] + rest else rest
  }

  /** The loop over the directory entries of `getAllResumes`, in the order
      `readdir` returns them: one fresh resume per accepted entry, in entry
      order, and nothing else. */
  function CollectResumes(folder: string, entries: seq<string>): (resumes: seq<Resume>)
    ensures var pos := AcceptedPositions(entries, 0);
      |resumes| == |pos| && forall i :: 0 <= i < |pos| ==> resumes[i] == ResumeFor(folder, entries[pos[i]])
    ensures |resumes| <= |entries|
    ensures forall r :: r in resumes <==> exists f :: f in entries && IsResumeFile(f) && r == ResumeFor(folder, f)
  {
    var resumes := CollectFrom(folder, entries, 0);
    PositionsGiveMembers(folder, entries, AcceptedPositions(entries, 0), resumes);
    resumes
  }

  /** Resumes made from exactly the accepted positions are exactly the resumes
      of the accepted entries. */
  lemma PositionsGiveMembers(folder: string, entries: seq<string>, pos: seq<nat>, resumes: seq<Resume>)
    requires forall p :: 0 <= p < |entries| && IsResumeFile(entries[p]) ==> p in pos
    requires |resumes| == |pos|
    requires forall i :: 0 <= i < |pos| ==>
      pos[i] < |entries| && IsResumeFile(entries[pos[i]]) && resumes[i] == ResumeFor(folder, entries[pos[i]])
    ensures forall r :: r in resumes <==> exists f :: f in entries && IsResumeFile(f) && r == ResumeFor(folder, f)
  {
    forall r ensures r in resumes <==> exists f :: f in entries && IsResumeFile(f) && r == ResumeFor(folder, f) {
      if r in resumes {
        var i :| 0 <= i < |resumes| && resumes[i] == r;
        assert entries[pos[i]] in entries;
      }
      if exists f :: f in entries && IsResumeFile(f) && r == ResumeFor(folder, f) {
        var f :| f in entries && IsResumeFile(f) && r == ResumeFor(folder, f);
        var p :| 0 <= p < |entries| && entries[p] == f;
        var i :| 0 <= i < |pos| && pos[i] == p;
        assert resumes[i] == r;
      }
    }
  }

  /** `getAllResumes(folder)`: `listing` is the folder's entries, or None when
      `opendir` fails, which yields no resumes. Otherwise one fresh resume per
      accepted entry, in entry order. */
  function GetAllResumes(folder: string, listing: Option<seq<string>>): (resumes: seq<Resume>)
    ensures listing.None? ==> resumes == []
    ensures listing.Some? ==> var pos := AcceptedPositions(listing.value, 0);
      |resumes| == |pos| && forall i :: 0 <= i < |pos| ==> resumes[i] == ResumeFor(folder, listing.value[pos[i]])
    ensures listing.Some? ==> forall r :: r in resumes <==>
      exists f :: f in listing.value && IsResumeFile(f) && r == ResumeFor(folder, f)
  {
    match listing
    case None => []
    case Some(entries) => CollectResumes(folder, entries)
  }

  /** The files and folders the program sees. */
  datatype Disk = Disk(files: map<string, string>, folders: map<string, seq<string>>)

  /** `readFileContent`: a file that cannot be opened reads as empty. */
  function ReadFileContent(disk: Disk, path: string): string {
    if path in disk.files then disk.files[path] else ""
  }

  /** `opendir`/`readdir`: a folder's entries, or None when it cannot be opened. */
  function ListFolder(disk: Disk, folder: string): Option<seq<string>> {
    if folder in disk.folders then Some(disk.folders[folder]) else None
  }

  const KeywordsFile: string := "keywords.txt"
  const SkillsFile: string := "skills.txt"
  const ResumesFolder: string := "resumes"

  /** What a run of `main` produces. */
  datatype Outcome =
    | NoResumesFound
    | Report(ranking: seq<Resume>, top: seq<Resume>)

  /** The exit status of `main`. */
  function ExitStatus(outcome: Outcome): int {
    if outcome.NoResumesFound? then 1 else 0
  }

  /** A resume whose total is the sum of its parts, with a non-negative
      experience score. */
  ghost predicate Consistent(r: Resume) {
    r.totalScore == r.keywordScore + r.skillScore + r.experienceScore && r.experienceScore >= 0
  }

  /** The scoring loop of `main`: each resume scored against the text of its file. */
  function ScoreAll(
    disk: Disk, resumes: seq<Resume>,
    keywords: map<string, int>, keywordOrder: seq<string>,
    skills: map<string, int>, skillOrder: seq<string>): (scored: seq<Resume>)
    requires Enumerates(keywordOrder, keywords) && Enumerates(skillOrder, skills)
    ensures |scored| == |resumes|
    ensures forall i :: 0 <= i < |resumes| ==>
      scored[i] == ScoreResume(resumes[i], ReadFileContent(disk, resumes[i].filepath), keywords, keywordOrder, skills, skillOrder)
    ensures forall i :: 0 <= i < |scored| ==> Consistent(scored[i])
  {
    if resumes == [] then []
    else
      [ScoreResume(resumes[0], ReadFileContent(disk, resumes[0].filepath), keywords, keywordOrder, skills, skillOrder)]
        + ScoreAll(disk, resumes[1..], keywords, keywordOrder, skills, skillOrder)
  }

  /** `main`: load both weight lists, discover the resumes, fail when there are
      none, otherwise score each one, rank them and keep the best three. The
      iteration orders of the two weight maps are arguments, as the standard
      leaves them open. */
  function RankResumes(disk: Disk, keywordOrder: seq<string>, skillOrder: seq<string>): (outcome: Outcome)
    requires Enumerates(keywordOrder, LoadWeightedListText(ReadFileContent(disk, KeywordsFile)))
    requires Enumerates(skillOrder, LoadWeightedListText(ReadFileContent(disk, SkillsFile)))
    ensures outcome.NoResumesFound? <==> GetAllResumes(ResumesFolder, ListFolder(disk, ResumesFolder)) == []
    ensures outcome.Report? ==> Ranked(outcome.ranking)
    ensures outcome.Report? ==> multiset(outcome.ranking) == multiset(ScoreAll(disk,
      GetAllResumes(ResumesFolder, ListFolder(disk, ResumesFolder)),
      LoadWeightedListText(ReadFileContent(disk, KeywordsFile)), keywordOrder,
      LoadWeightedListText(ReadFileContent(disk, SkillsFile)), skillOrder))
    ensures outcome.Report? ==> 0 < |outcome.top| <= 3 && |outcome.top| <= |outcome.ranking|
    ensures outcome.Report? ==> outcome.top == outcome.ranking[..|outcome.top|]
    ensures outcome.Report? ==> |outcome.top| == 3 || |outcome.top| == |outcome.ranking|
  {
    var keywords := LoadWeightedListText(ReadFileContent(disk, KeywordsFile));
    var skills := LoadWeightedListText(ReadFileContent(disk, SkillsFile));
    var resumes := GetAllResumes(ResumesFolder, ListFolder(disk, ResumesFolder));
    if resumes == [] then
      NoResumesFound
    else
      Rank(ScoreAll(disk, resumes, keywords, keywordOrder, skills, skillOrder))
  }

  /** The end of `main` once the resumes are scored: sort them and take the
      best three. */
  function Rank(scored: seq<Resume>): (outcome: Outcome)
    requires scored != []
    ensures outcome.Report?
    ensures Ranked(outcome.ranking)
    ensures multiset(outcome.ranking) == multiset(scored)
    ensures 0 < |outcome.top| <= 3 && |outcome.top| <= |outcome.ranking|
    ensures outcome.top == outcome.ranking[..|outcome.top|]
    ensures |outcome.top| == 3 || |outcome.top| == |outcome.ranking|
  {
    var ranking := SortByScore(scored);
    assert |ranking| == |multiset(ranking)| == |multiset(scored)| == |scored|;
    Report(ranking, GetTop3Resumes(ranking))
  }

  /** Every resume in a report satisfies the score invariants of `struct Resume`
      as `scoreResume` leaves it: the total is the sum of the three parts and
      the experience score is twice a non-negative number of years. */
  lemma ReportedScoresAdd(disk: Disk, keywordOrder: seq<string>, skillOrder: seq<string>)
    requires Enumerates(keywordOrder, LoadWeightedListText(ReadFileContent(disk, KeywordsFile)))
    requires Enumerates(skillOrder, LoadWeightedListText(ReadFileContent(disk, SkillsFile)))
    ensures var outcome := RankResumes(disk, keywordOrder, skillOrder);
      outcome.Report? ==> forall r :: r in outcome.ranking ==>
        && r.totalScore == r.keywordScore + r.skillScore + r.experienceScore
        && r.experienceScore >= 0
  {
    var outcome := RankResumes(disk, keywordOrder, skillOrder);
    if outcome.Report? {
      var keywords := LoadWeightedListText(ReadFileContent(disk, KeywordsFile));
      var skills := LoadWeightedListText(ReadFileContent(disk, SkillsFile));
      var resumes := GetAllResumes(ResumesFolder, ListFolder(disk, ResumesFolder));
      var scored := ScoreAll(disk, resumes, keywords, keywordOrder, skills, skillOrder);
      PermutationKeepsConsistent(scored, outcome.ranking);
    }
  }

  lemma PermutationKeepsConsistent(scored: seq<Resume>, ranking: seq<Resume>)
    requires forall i :: 0 <= i < |scored| ==> Consistent(scored[i])
    requires multiset(ranking) == multiset(scored)
    ensures forall r :: r in ranking ==> Consistent(r)
  {
    forall r | r in ranking ensures Consistent(r) {
      assert r in multiset(scored);
      var i :| 0 <= i < |scored| && scored[i] == r;
    }
  }

  /** When the resumes folder is missing or holds no accepted file (a file
      named just `.txt` included), `main` reports that no resumes were found and
      exits with status 1; otherwise it exits with status 0. */
  lemma NoResumesFails(disk: Disk, keywordOrder: seq<string>, skillOrder: seq<string>)
    requires Enumerates(keywordOrder, LoadWeightedListText(ReadFileContent(disk, KeywordsFile)))
    requires Enumerates(skillOrder, LoadWeightedListText(ReadFileContent(disk, SkillsFile)))
    ensures var status := ExitStatus(RankResumes(disk, keywordOrder, skillOrder));
      status == 1 <==>
        (ResumesFolder !in disk.folders || forall f :: f in disk.folders[ResumesFolder] ==> !IsResumeFile(f))
    ensures ExitStatus(RankResumes(disk, keywordOrder, skillOrder)) in {0, 1}
  {
    var resumes := GetAllResumes(ResumesFolder, ListFolder(disk, ResumesFolder));
    if ResumesFolder in disk.folders {
      var entries := disk.folders[ResumesFolder];
      if exists f :: f in entries && IsResumeFile(f) {
        var f :| f in entries && IsResumeFile(f);
        assert ResumeFor(ResumesFolder, f) in resumes;
      }
      if resumes != [] {
        var r := resumes[0];
        assert r in resumes;
      }
    }
  }
}
