# Resume ranking, modelled in Dafny

`main.cpp` is a small resume-ranking program. It reads two weight files,
`keywords.txt` and `skills.txt`. Each holds whitespace-separated
`<term> <weight>` pairs. It then scores every `.txt` file in the folder
`resumes`:

- every keyword or skill whose term occurs in the lower-cased resume text adds
  its weight to the keyword or skill score;
- the experience score is twice the largest number of years the text states
  with a phrase such as `5 years` or `3+ year`;
- the total score is the sum of the three scores.

The program sorts the resumes by total score, highest first, and prints the best
three. With no resumes it reports the failure and exits with status 1.

This project restates that program as pure Dafny functions and proves what it
computes. The modules follow the program's structure:

| file | module | models |
|---|---|---|
| `Maybe.dfy` | `Maybe` | an `Option` type |
| `Text.dfy` | `Text` | character classes, `::tolower` on a string, `string::find`, decimal digits |
| `WeightList.dfy` | `WeightList` | `loadWeightedList`: tokenising with `>>`, reading a 32-bit `int`, the read loop, last-write-wins assignment |
| `Experience.dfy` | `Experience` | `extractExperience`: the regular expression `(\d+)\s*\+?\s*years?` as a scanner, and the loop over `match.suffix()` |
| `Scoring.dfy` | `Scoring` | `struct Resume` and `scoreResume` |
| `Ranking.dfy` | `Ranking` | the sort comparator, `getTop3Resumes`, `getAllResumes` with its `.txt` filter, and `main` |

Decisions taken where the program leaves room:

- **Map iteration order.** `std::unordered_map` does not fix the order in which
  it iterates. Each scoring loop therefore takes an explicit `order`, which is
  any sequence listing the map's keys once each (`Scoring.Enumerates`). Scores
  are proved equal to a sum over the *set* of matched terms. This means the
  order changes neither the scores nor which terms are matched.
- **Disk access.** The disk is a value (`Ranking.Disk`) that maps paths to texts
  and folder names to their entries, in `readdir` order.
  - A file that cannot be opened reads as the empty string, as
    `readFileContent` does.
  - A folder that cannot be opened yields no resumes, as `getAllResumes` does.
- **Score type.** The C++ scores are `double`s. They only ever hold sums of
  `int` weights and an `int` times two, so they are modelled as unbounded
  integers. The `int` multiplication that computes the experience score can
  overflow in the program, but not in the model (see "Left out").
- **Malformed weights.** The loop `while (file >> word >> weight)` stops at the
  first weight token that is not an integer or does not fit an `int`. A term
  without a weight stops it too. Nothing after that point is loaded. The model
  keeps this stop-at-first-error behaviour rather than skipping the bad pair.
- **Repeated scoring.** `scoreResume` adds onto the keyword and skill scores
  and matched lists of the resume it is given (`+=`, `push_back`). It
  overwrites the experience and total scores. The model does the same.
  `Scoring.ScoreFreshResume` gives the clean form for a resume scored once from
  its fresh state, which is how `main` uses it.
- **Case asymmetry.** Only the resume text is lower-cased, never the terms. A
  term with a capital letter therefore never matches. The model reproduces this
  and proves it (`Scoring.UppercaseTermScoresNothing`).

## Model

| member | source | states |
|---|---|---|
| Text.Lower | main.cpp:62 | lower-casing keeps the length and maps every character through `tolower` |
| Text.LowerIsNormal | main.cpp:62 | lower-cased text holds no ASCII capital, and lower-casing it again changes nothing |
| Text.Contains | main.cpp:66 | `content.find(term) != npos` holds exactly when `term` occurs at some position of `content` |
| Text.Decimal | main.cpp:50 | renders a number, the inverse of what `stoi` reads: non-empty decimal digits with no leading zero whose value (`Text.DecimalValue`) is the number |
| Text.DecimalValue | main.cpp:50 | the number `stoi` reads from a run of decimal digits, most significant digit first (definition only, no contract; properties in `Text.Decimal`, its inverse, and `Text.LeadingZerosIgnored`) |
| Text.LeadingZerosIgnored | main.cpp:50 | leading zeros do not change the number a run of digits reads as |
| WeightList.Tokens | main.cpp:30 | `>>` cuts text into non-empty tokens free of whitespace; `WeightList.TokensOfLayout` states which tokens a laid-out file gives |
| WeightList.TokensOfUnwords | main.cpp:30 | tokenising words joined by spaces gives the words back |
| WeightList.TokensOfLayout | main.cpp:30 | the tokens of words separated by any non-empty whitespace (spaces, tabs, line breaks), with any whitespace before and after, are the words in order; whitespace alone holds no token |
| WeightList.ParseWeight | main.cpp:28-30 | `>> weight` accepts only a signed decimal integer token whose value lies in the 32-bit `int` range; a token that starts with anything but a digit or a sign is rejected; the value an accepted token reads as is stated by `WeightList.ParseSignedDigits` |
| WeightList.ParseSignedDigits | main.cpp:28-30 | a number with an optional `+` or `-` and any leading zeros reads as its signed value when that fits an `int` and is rejected otherwise: `05` and `+5` read 5, `-0` reads 0, `2147483648` is rejected |
| WeightList.ParseShowInt | main.cpp:28-30 | every `int` written out as a token reads back as itself |
| WeightList.ReadPairs | main.cpp:30 | the pairs the loop `while (file >> word >> weight)` reads, at most one per two tokens; `WeightList.ReadPairsSpec` pins each of them |
| WeightList.ReadPairsSpec | main.cpp:30 | pair `i` read is term token `2i` with the weight of token `2i+1`; reading stops at the first weight token that is rejected |
| WeightList.Assemble | main.cpp:31 | assigning pairs in turn: the keys are the old keys plus every term read, each term takes the weight of its last pair, and other keys keep their weight |
| WeightList.LoadWeightedList | main.cpp:24-34 | the map holds exactly the terms read, each with the weight of its last occurrence, within the `int` range; fewer than two tokens give the empty map |
| WeightList.LoadWeightedListText | main.cpp:136-137 | loading a weight file's text: every key is a single whitespace-free token, and a file holding only whitespace gives the empty map |
| WeightList.StopsAtMalformedWeight | main.cpp:30 | a pair whose weight is not an acceptable integer ends loading, and nothing after it is loaded |
| WeightList.StopsAtMissingWeight | main.cpp:30 | a final term without a weight is not loaded |
| WeightList.ReadRendered | main.cpp:30 | reading the tokens of written pairs gives back the pairs |
| WeightList.LoadRendered | main.cpp:24-34 | loading the text of written pairs gives the map built by assigning the pairs in turn |
| WeightList.LoadLaidOut | main.cpp:24-34 | the same for pairs laid out with any whitespace: one per line, tabs, blank lines, leading or trailing whitespace |
| Experience.UnitEnd | main.cpp:44 | the part `\s*\+?\s*years?` of a match spans at least four characters, holds no digit, and ends in `r` or `s` |
| Experience.MatchAt | main.cpp:44 | the scanner's match of the pattern at one position: it starts only where a run of digits starts and ends after its start; `Experience.MatchAtIsPattern` and `Experience.SpanIsForced` tie it to the pattern |
| Experience.Search | main.cpp:49 | `regex_search(temp, …)` on the suffix that begins at `from`: a match it returns starts in that suffix and is the scanner's match there; `Experience.SearchIsLeftmostLongest` states which match it is |
| Experience.MatchAtIsPattern | main.cpp:44 | what the scanner matches at a position is a match of the pattern `(\d+)\s*\+?\s*years?` |
| Experience.SpanIsForced | main.cpp:44 | every way of matching the pattern at a position splits the digits at the end of their run and ends no later than the scanner's match |
| Experience.RunStartMatches | main.cpp:44-49 | a match of the pattern inside a run of digits extends back to the start of the run, where the scanner finds one |
| Experience.SearchIsLeftmostLongest | main.cpp:49 | `regex_search` finds nothing exactly when the pattern matches nowhere; otherwise it finds the leftmost match, the longest one at that start, and the number its first group captures |
| Experience.SearchFrom | main.cpp:49 | the search returns the leftmost match, and no match starts before it; with no result, no match exists |
| Experience.NoMatchInside | main.cpp:44-52 | no match starts strictly inside another one |
| Experience.RebaseMatch | main.cpp:52 | continuing on the suffix after a match finds the same matches as the whole text does from there on |
| Experience.Scan | main.cpp:46-53 | the loop's result is at least the running maximum and every value matched in the remaining text, and it is one of these |
| Experience.ExtractExperience | main.cpp:43-55 | the result bounds every number of years the pattern matches in the text, and it is 0 or one of those numbers |
| Experience.StatedYears | main.cpp:43-55 | extracting from the phrase `<n><whitespace>year` or `<n><whitespace>years` gives back `n` |
| Experience.PhrasesBoundExperience | main.cpp:43-55 | every phrase the pattern matches at the start of a digit run states no more years than the result |
| Experience.ExperienceIsStated | main.cpp:43-55 | a non-zero result is the number of years some phrase matched by the pattern states |
| Scoring.NewResume | main.cpp:16-21 | `Resume r;` as at main.cpp:98: every score starts at 0 and both matched lists start empty (definition only, no contract; used by `Scoring.ScoreFreshResume`) |
| Scoring.TallyTerms | main.cpp:65-70 | one scoring loop lists each found term once, lists exactly the iterated terms that occur, and scores the sum of their weights |
| Scoring.TallyMatchesExactly | main.cpp:65-78 | over any iteration order, the matched terms are exactly the map's terms found in the text, and the score is the sum of their weights |
| Scoring.ScoreResume | main.cpp:57-84 | keyword and skill scores grow by the weights of the terms found in the lower-cased text; the found terms are appended once each; experience is twice the years stated; total is the sum |
| Scoring.UppercaseTermScoresNothing | main.cpp:62-66 | a term with an ASCII capital is never matched |
| Scoring.MatchesInsideWords | main.cpp:66 | matching is by substring: a term matches inside a longer word |
| Scoring.ScoreFreshResume | main.cpp:57-84 | a fresh resume scores exactly the weights of the keywords and skills it contains, lists each of them once, and its total is the sum of its parts |
| Scoring.ScoresIgnoreIterationOrder | main.cpp:65-78 | two iteration orders of the same maps give the same scores and the same set of matched terms |
| Ranking.HigherScore | main.cpp:152-154 | the comparator: `a` goes before `b` exactly when its total score is higher (definition only, no contract; properties in `Ranking.HigherScoreIsStrictWeakOrder`) |
| Ranking.HigherScoreIsStrictWeakOrder | main.cpp:151-154 | the comparator is irreflexive and transitive, and incomparability is transitive, as `std::sort` requires |
| Ranking.InsertByScore | main.cpp:151-154 | inserting into a ranking keeps it ranked and adds exactly the one resume |
| Ranking.SortByScore | main.cpp:151-154 | the result is a permutation of the input with total scores non-increasing |
| Ranking.RankingsAgreeOnScores | main.cpp:151-154 | any two ranked permutations of the same resumes have the same score column, so an unstable sort changes only the order of ties |
| Ranking.GetTop3Resumes | main.cpp:109-117 | the result has `min(3, n)` resumes, and they are the first ones of the input in order |
| Ranking.TopOfRankingIsBest | main.cpp:151-157 | taken from a ranking, no resume left out scores higher than one kept |
| Ranking.IsResumeFile | main.cpp:95-96 | the filter: a file name longer than four characters that ends in `.txt` (definition only, no contract; properties in `Ranking.ResumeFileNames`) |
| Ranking.ResumeName | main.cpp:99 | the resume's name is the file name without its last four characters |
| Ranking.ResumeFileNames | main.cpp:95-99 | `name.txt` is accepted exactly when `name` is non-empty, and it is named `name` |
| Ranking.AcceptedFileSplits | main.cpp:95-99 | every accepted file name is a non-empty resume name followed by `.txt` |
| Ranking.AcceptedPositions | main.cpp:92-96 | the positions of the accepted directory entries in increasing order: every accepted position appears once, and nothing else |
| Ranking.ListFolder | main.cpp:88-92 | `opendir` and `readdir`: the folder's entries in directory order, or nothing when the folder cannot be opened (definition only, no contract; used by `Ranking.GetAllResumes`) |
| Ranking.CollectResumes | main.cpp:92-103 | one fresh resume per accepted entry, in entry order and nothing else: resume `i` is made from the `i`-th accepted entry, named without `.txt`, at path `folder/filename` |
| Ranking.GetAllResumes | main.cpp:86-107 | a folder that cannot be opened gives no resumes; otherwise resume `i` is made from the `i`-th accepted entry, with no others |
| Ranking.ReadFileContent | main.cpp:36-41 | the text of a file, or the empty string when the file cannot be opened (definition only, no contract) |
| Ranking.ScoreAll | main.cpp:146-148 | every resume is scored against the text of its own file; every total is the sum of its parts |
| Ranking.RankResumes | main.cpp:133-170 | no resumes means the failure outcome; otherwise the ranking is a permutation of the scored resumes with non-increasing totals, and the top is its first `min(3, n)` entries |
| Ranking.Rank | main.cpp:150-157 | sorting then keeping the top three gives a ranked permutation and a non-empty prefix of at most three |
| Ranking.ReportedScoresAdd | main.cpp:81-83 | every reported resume's total is the sum of its three scores, and its experience score is non-negative |
| Ranking.ExitStatus | main.cpp:140-143 | status 1 when no resume was found, and the final `return 0` otherwise (definition only, no contract; stated by `Ranking.NoResumesFails`) |
| Ranking.NoResumesFails | main.cpp:140-143 | `main` exits with status 1 exactly when the folder is missing or holds no accepted file, and with status 0 otherwise |

## Left out

- Printing to `cout`/`cerr` and writing `resume_scores.csv` (`saveResultsToCSV`, main.cpp:119-131, 159-167) are output only. They are not modelled.
- File and directory access is replaced by the `Disk` value, and file streams by the text they hold.
- The `readdir` entries `.` and `..` are not special. They are simply rejected by the `.txt` filter, as in the program.
- `std::sort` is unstable and leaves the order of equal scores open. `Ranking.SortByScore` is an insertion sort. Its contract promises only what `std::sort` promises: a permutation with non-increasing totals. `Ranking.RankingsAgreeOnScores` shows that any such result has the same score column.
- Experience.ExtractExperience: `stoi` throws when a digit run does not fit an `int`, which aborts the program. The model reads digit runs of any length as unbounded numbers instead.
- WeightList.ParseWeight: the token is taken whole. `>> int` would also read the leading digits of a token such as `5abc` and leave the rest for the next `>> word`. That mid-token split is not modelled; such a token counts as malformed and stops loading.
- `std::regex` itself is not modelled, only this one pattern. `Experience.PatternSpan` states the pattern directly. `Experience.MatchAt` and `Experience.SearchFrom` are a scanner for it, and `Experience.SearchIsLeftmostLongest` proves that the scanner gives the leftmost, greedy match `regex_search` gives. `\s` and `::tolower` are taken in the "C" locale: ASCII whitespace and the ASCII capitals.
- Scoring.ScoreResume: the scores are `double` in the program. They are unbounded integers here, because every value they hold is an integer. Floating-point rounding of very large sums is not modelled.
- Scoring.ScoreResume: `extractExperience(content) * 2` at main.cpp:81 multiplies two `int`s. For a stated number of years from 1073741824 to 2147483647, which `stoi` accepts, the product overflows. That is undefined behaviour, and in practice the score is negative. The model multiplies unbounded integers, so its experience score is twice the years and never negative (`Ranking.ReportedScoresAdd` relies on this).
