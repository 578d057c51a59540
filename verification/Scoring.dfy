/** `scoreResume`: scores one resume against the keyword and skill weights and
    the experience it states. The file read is taken out: the resume's text is
    an argument. */
module Scoring {
  import opened Text
  import opened Experience

  /** `struct Resume`. The C++ scores are `double`s that only ever hold sums of
      `int` weights and twice an `int`, so they are integers here. */
  datatype Resume = Resume(
    name: string,
    filepath: string,
    totalScore: int,
    keywordScore: int,
    skillScore: int,
    experienceScore: int,
    matchedKeywords: seq<string>,
    matchedSkills: seq<string>)

  /** A resume as discovered, before scoring: every score 0, nothing matched. */
  function NewResume(name: string, filepath: string): Resume {
    Resume(name, filepath, 0, 0, 0, 0, [], [])
  }

  predicate NoDuplicates(s: seq<string>) {
    forall i, j :: 0 <= i < j < |s| ==> s[i] != s[j]
  }

  /** `order` is an iteration order of the `unordered_map` `weights`: each key
      once. The standard leaves that order unspecified, so it is an argument. */
  ghost predicate Enumerates(order: seq<string>, weights: map<string, int>) {
    NoDuplicates(order) && forall t :: t in order <==> t in weights
  }

  /** The sum of the weights of the terms `ts`. */
  ghost function SetSum(weights: map<string, int>, ts: set<string>): int
    requires ts <= weights.Keys
    decreases ts
  {
    if ts == {} then 0
    else
      var t :| t in ts;
      weights[t] + SetSum(weights, ts - {t})
  }

  /** Any term of a set can be taken out of its sum first. */
  lemma {:induction false} SetSumRemove(weights: map<string, int>, ts: set<string>, y: string)
    requires ts <= weights.Keys && y in ts
    ensures SetSum(weights, ts) == weights[y] + SetSum(weights, ts - {y})
    decreases ts
  {
    var t :| t in ts && SetSum(weights, ts) == weights[t] + SetSum(weights, ts - {t});
    if t != y {
      SetSumRemove(weights, ts - {t}, y);
      SetSumRemove(weights, ts - {y}, t);
      assert ts - {t} - {y} == ts - {y} - {t};
    }
  }

  /** The terms of `weights` that occur in `text`. */
  ghost function MatchedTerms(text: string, weights: map<string, int>): set<string> {
    set t | t in weights && Contains(text, t)
  }

  /** The terms of `order` that occur in `text`. */
  ghost function Occurring(text: string, order: seq<string>): set<string> {
    set t | t in order && Contains(text, t)
  }

  /** What one scoring loop adds up: a score and the terms it matched. */
  datatype Tally = Tally(score: int, matched: seq<string>)

  /** The loop `for (auto it = weights.begin(); ...)` of `scoreResume` over the
      first `|order|` keys: a term that `content.find` finds adds its weight and
      is appended to the matched list. */
  function TallyTerms(text: string, weights: map<string, int>, order: seq<string>): (tally: Tally)
    requires forall i :: 0 <= i < |order| ==> order[i] in weights
    requires NoDuplicates(order)
    ensures NoDuplicates(tally.matched)
    ensures forall t :: t in tally.matched <==> t in order && Contains(text, t)
    ensures tally.score == SetSum(weights, Occurring(text, order))
    decreases |order|
  {
    if order == [] then
      assert Occurring(text, order) == {};
      Tally(0, [])
    else
      var last := order[|order| - 1];
      var prev := TallyTerms(text, weights, order[..|order| - 1]);
      TallyStep(text, weights, order, prev.score);
      if Contains(text, last) then Tally(prev.score + weights[last], prev.matched + [last]) else prev
  }

  /** Extending the iteration by one term extends the matched set by that term
      exactly when it occurs. */
  lemma TallyStep(text: string, weights: map<string, int>, order: seq<string>, prevScore: int)
    requires |order| > 0
    requires forall i :: 0 <= i < |order| ==> order[i] in weights
    requires NoDuplicates(order)
    requires prevScore == SetSum(weights, Occurring(text, order[..|order| - 1]))
    ensures var last := order[|order| - 1];
      SetSum(weights, Occurring(text, order))
      == if Contains(text, last) then prevScore + weights[last] else prevScore
  {
    var last := order[|order| - 1];
    var before := Occurring(text, order[..|order| - 1]);
    var after := Occurring(text, order);
    assert order == order[..|order| - 1] + [last];
    assert last !in order[..|order| - 1];
    if Contains(text, last) {
      assert after - {last} == before;
      SetSumRemove(weights, after, last);
    } else {
      assert after == before;
    }
  }

  /** Tallying over any enumeration of `weights` matches exactly the terms of
      `weights` that occur in `text`, each once, and scores the sum of their
      weights; neither depends on the enumeration order. */
  lemma TallyMatchesExactly(text: string, weights: map<string, int>, order: seq<string>)
    requires Enumerates(order, weights)
    ensures NoDuplicates(TallyTerms(text, weights, order).matched)
    ensures forall t :: t in TallyTerms(text, weights, order).matched <==> t in MatchedTerms(text, weights)
    ensures TallyTerms(text, weights, order).score == SetSum(weights, MatchedTerms(text, weights))
  {
    assert (Occurring(text, order)) == MatchedTerms(text, weights);
  }

  /** `scoreResume(r, keywords, skills)` on the resume text `content`. As in the
      source, keyword and skill scores and matched lists are added onto those of
      `r`, and the experience and total scores are overwritten. */
  function ScoreResume(
    r: Resume, content: string,
    keywords: map<string, int>, keywordOrder: seq<string>,
    skills: map<string, int>, skillOrder: seq<string>): (scored: Resume)
    requires Enumerates(keywordOrder, keywords) && Enumerates(skillOrder, skills)
    ensures scored.name == r.name && scored.filepath == r.filepath
    ensures scored.keywordScore == r.keywordScore + SetSum(keywords, MatchedTerms(Lower(content), keywords))
    ensures scored.skillScore == r.skillScore + SetSum(skills, MatchedTerms(Lower(content), skills))
    ensures scored.experienceScore == 2 * ExtractExperience(Lower(content))
    ensures scored.experienceScore >= 0
    ensures scored.totalScore == scored.keywordScore + scored.skillScore + scored.experienceScore
    ensures |r.matchedKeywords| <= |scored.matchedKeywords|
    ensures scored.matchedKeywords[..|r.matchedKeywords|] == r.matchedKeywords
    ensures var added := scored.matchedKeywords[|r.matchedKeywords|..];
      NoDuplicates(added) && forall t :: t in added <==> t in MatchedTerms(Lower(content), keywords)
    ensures |r.matchedSkills| <= |scored.matchedSkills|
    ensures scored.matchedSkills[..|r.matchedSkills|] == r.matchedSkills
    ensures var added := scored.matchedSkills[|r.matchedSkills|..];
      NoDuplicates(added) && forall t :: t in added <==> t in MatchedTerms(Lower(content), skills)
  {
    var text := Lower(content);
    var kw := TallyTerms(text, keywords, keywordOrder);
    var sk := TallyTerms(text, skills, skillOrder);
    TallyMatchesExactly(text, keywords, keywordOrder);
    TallyMatchesExactly(text, skills, skillOrder);
    var keywordScore := r.keywordScore + kw.score;
    var skillScore := r.skillScore + sk.score;
    var experienceScore := ExtractExperience(text) * 2;
    var matchedKeywords := r.matchedKeywords + kw.matched;
    var matchedSkills := r.matchedSkills + sk.matched;
    assert matchedKeywords[|r.matchedKeywords|..] == kw.matched;
    assert matchedSkills[|r.matchedSkills|..] == sk.matched;
    r.(keywordScore := keywordScore, skillScore := skillScore, experienceScore := experienceScore,
       totalScore := keywordScore + skillScore + experienceScore,
       matchedKeywords := matchedKeywords, matchedSkills := matchedSkills)
  }

  /** Only the resume text is lower-cased, not the terms: a term with an ASCII
      capital in it never occurs in the lower-cased text. */
  lemma UppercaseTermNeverMatches(content: string, term: string, k: nat)
    requires k < |term| && IsUpper(term[k])
    ensures !Contains(Lower(content), term)
  {
  }

  /** So such a term is never matched and never adds its weight to a score. */
  lemma UppercaseTermScoresNothing(content: string, weights: map<string, int>, term: string, k: nat)
    requires k < |term| && IsUpper(term[k])
    ensures term !in MatchedTerms(Lower(content), weights)
  {
    UppercaseTermNeverMatches(content, term, k);
  }

  /** Matching is by substring, not by word: a term matches inside a longer
      word, as `java` does inside `javascript`. */
  lemma MatchesInsideWords(pre: string, term: string, post: string)
    ensures Contains(pre + term + post, term)
  {
    var text := pre + term + post;
    assert text[|pre|..|pre| + |term|] == term;
    assert OccursAt(text, term, |pre|);
  }

  /** A resume scored once from its fresh state, as `main` does it: the
      keyword score is the sum of the weights of exactly the keywords occurring
      in the lower-cased text, which are listed once each; likewise for skills;
      the experience score is twice the years stated; the total is the sum. */
  lemma ScoreFreshResume(
    name: string, filepath: string, content: string,
    keywords: map<string, int>, keywordOrder: seq<string>,
    skills: map<string, int>, skillOrder: seq<string>)
    requires Enumerates(keywordOrder, keywords) && Enumerates(skillOrder, skills)
    ensures var r := ScoreResume(NewResume(name, filepath), content, keywords, keywordOrder, skills, skillOrder);
      && r.name == name
      && r.keywordScore == SetSum(keywords, MatchedTerms(Lower(content), keywords))
      && r.skillScore == SetSum(skills, MatchedTerms(Lower(content), skills))
      && NoDuplicates(r.matchedKeywords)
      && (forall t :: t in r.matchedKeywords <==> t in keywords && Contains(Lower(content), t))
      && NoDuplicates(r.matchedSkills)
      && (forall t :: t in r.matchedSkills <==> t in skills && Contains(Lower(content), t))
      && r.experienceScore == 2 * ExtractExperience(Lower(content))
      && r.totalScore == r.keywordScore + r.skillScore + r.experienceScore
  {
    var r := ScoreResume(NewResume(name, filepath), content, keywords, keywordOrder, skills, skillOrder);
    assert r.matchedKeywords == r.matchedKeywords[0..];
    assert r.matchedSkills == r.matchedSkills[0..];
  }

  /** The iteration order of the weight maps, which the standard leaves open,
      changes neither the scores nor the set of matched terms. */
  lemma ScoresIgnoreIterationOrder(
    r: Resume, content: string,
    keywords: map<string, int>, keywordOrder1: seq<string>, keywordOrder2: seq<string>,
    skills: map<string, int>, skillOrder1: seq<string>, skillOrder2: seq<string>)
    requires Enumerates(keywordOrder1, keywords) && Enumerates(skillOrder1, skills)
    requires Enumerates(keywordOrder2, keywords) && Enumerates(skillOrder2, skills)
    ensures var a := ScoreResume(r, content, keywords, keywordOrder1, skills, skillOrder1);
      var b := ScoreResume(r, content, keywords, keywordOrder2, skills, skillOrder2);
      && a.totalScore == b.totalScore && a.keywordScore == b.keywordScore
      && a.skillScore == b.skillScore && a.experienceScore == b.experienceScore
      && (forall t :: t in a.matchedKeywords <==> t in b.matchedKeywords)
      && (forall t :: t in a.matchedSkills <==> t in b.matchedSkills)
  {
    var a := ScoreResume(r, content, keywords, keywordOrder1, skills, skillOrder1);
    var b := ScoreResume(r, content, keywords, keywordOrder2, skills, skillOrder2);
    assert a.matchedKeywords == r.matchedKeywords + a.matchedKeywords[|r.matchedKeywords|..];
    assert b.matchedKeywords == r.matchedKeywords + b.matchedKeywords[|r.matchedKeywords|..];
    assert a.matchedSkills == r.matchedSkills + a.matchedSkills[|r.matchedSkills|..];
    assert b.matchedSkills == r.matchedSkills + b.matchedSkills[|r.matchedSkills|..];
  }
}
