/** `loadWeightedList`: reads whitespace-separated `<term> <weight>` pairs into a
    map from term to weight. The file stream is modelled as the text it holds,
    cut into tokens the way `>>` cuts it. */
module WeightList {
  import opened Maybe
  import opened Text

  /** The range of the C++ `int` that `>> weight` reads into. */
  const IntMin: int := -0x8000_0000
  const IntMax: int := 0x7FFF_FFFF

  /** A token as `>> string` reads it: a non-empty run of non-whitespace. */
  predicate IsWord(w: string) {
    |w| > 0 && forall i :: 0 <= i < |w| ==> !IsSpace(w[i])
  }

  /** Length of the leading run of non-whitespace characters of `s`. */
  function WordLength(s: string): (n: nat)
    ensures n <= |s|
    ensures forall i :: 0 <= i < n ==> !IsSpace(s[i])
    ensures n == |s| || IsSpace(s[n])
  {
    if s == [] || IsSpace(s[0]) then 0 else 1 + WordLength(s[1..])
  }

  /** The successive tokens `>>` extracts from `s`, skipping whitespace. */
  function Tokens(s: string): (toks: seq<string>)
    ensures forall i :: 0 <= i < |toks| ==> IsWord(toks[i])
    decreases |s|
  {
    if s == [] then []
    else if IsSpace(s[0]) then Tokens(s[1..])
    else
      var n := WordLength(s);
      [s[..n]] + Tokens(s[n..])
  }

  lemma {:induction false} WordLengthOfWord(w: string, tail: string)
    requires IsWord(w)
    requires tail == [] || IsSpace(tail[0])
    ensures WordLength(w + tail) == |w|
  {
    if |w| > 1 {
      assert (w + tail)[1..] == w[1..] + tail;
      WordLengthOfWord(w[1..], tail);
    } else {
      assert (w + tail)[1..] == tail;
    }
  }

  /** A word followed by a whitespace boundary is read as one token. */
  lemma TokensOfWordThen(w: string, tail: string)
    requires IsWord(w)
    requires tail == [] || IsSpace(tail[0])
    ensures Tokens(w + tail) == [w] + Tokens(tail)
  {
    WordLengthOfWord(w, tail);
    assert (w + tail)[..|w|] == w;
    assert (w + tail)[|w|..] == tail;
  }

  /** Text made only of whitespace. */
  predicate Blank(s: string) {
    forall i :: 0 <= i < |s| ==> IsSpace(s[i])
  }

  /** `>>` skips whitespace before a token. */
  lemma {:induction false} SkipsBlank(sp: string, rest: string)
    requires Blank(sp)
    ensures Tokens(sp + rest) == Tokens(rest)
  {
    if sp != [] {
      assert (sp + rest)[0] == sp[0];
      assert (sp + rest)[1..] == sp[1..] + rest;
      SkipsBlank(sp[1..], rest);
    } else {
      assert sp + rest == rest;
    }
  }

  /** Whitespace alone holds no token. */
  lemma BlankHasNoTokens(s: string)
    ensures Blank(s) ==> Tokens(s) == []
  {
    if Blank(s) {
      SkipsBlank(s, "");
      assert s + "" == s;
    }
  }

  /** Words separated by the non-empty whitespace `seps`, one fewer than the
      words. */
  function Join(ws: seq<string>, seps: seq<string>): string
    requires |ws| > 0 && |seps| == |ws| - 1
  {
    if |ws| == 1 then ws[0] else ws[0] + seps[0] + Join(ws[1..], seps[1..])
  }

  lemma {:induction false} TokensOfJoin(ws: seq<string>, seps: seq<string>, trail: string)
    requires |ws| > 0 && |seps| == |ws| - 1
    requires forall i :: 0 <= i < |ws| ==> IsWord(ws[i])
    requires forall i :: 0 <= i < |seps| ==> |seps[i]| > 0 && Blank(seps[i])
    requires Blank(trail)
    ensures Tokens(Join(ws, seps) + trail) == ws
  {
    if |ws| == 1 {
      TokensOfWordThen(ws[0], trail);
      SkipsBlank(trail, "");
      assert trail + "" == trail;
    } else {
      var rest := Join(ws[1..], seps[1..]) + trail;
      assert Join(ws, seps) + trail == ws[0] + (seps[0] + rest);
      TokensOfWordThen(ws[0], seps[0] + rest);
      SkipsBlank(seps[0], rest);
      TokensOfJoin(ws[1..], seps[1..], trail);
      assert ws == [ws[0]] + ws[1..];
    }
  }

  /** The tokens of a file are its words, however they are laid out: any
      whitespace before the first, between two (spaces, tabs, line breaks) and
      after the last. */
  lemma TokensOfLayout(lead: string, ws: seq<string>, seps: seq<string>, trail: string)
    requires |ws| > 0 && |seps| == |ws| - 1
    requires forall i :: 0 <= i < |ws| ==> IsWord(ws[i])
    requires forall i :: 0 <= i < |seps| ==> |seps[i]| > 0 && Blank(seps[i])
    requires Blank(lead) && Blank(trail)
    ensures Tokens(lead + Join(ws, seps) + trail) == ws
    ensures Tokens(lead) == []
  {
    assert lead + Join(ws, seps) + trail == lead + (Join(ws, seps) + trail);
    SkipsBlank(lead, Join(ws, seps) + trail);
    TokensOfJoin(ws, seps, trail);
    BlankHasNoTokens(lead);
  }

  /** Words separated by single spaces: the plainest layout of `Join`. */
  function Unwords(ws: seq<string>): string {
    if ws == [] then "" else Join(ws, seq(|ws| - 1, _ => " "))
  }

  /** Tokenising text written as space-separated words gives back the words. */
  lemma TokensOfUnwords(ws: seq<string>)
    requires forall i :: 0 <= i < |ws| ==> IsWord(ws[i])
    ensures Tokens(Unwords(ws)) == ws
  {
    if ws != [] {
      TokensOfLayout("", ws, seq(|ws| - 1, _ => " "), "");
      assert "" + Unwords(ws) + "" == Unwords(ws);
    }
  }

  /** The digits of a token that `>> int` reads whole: an optional sign, then at
      least one decimal digit. */
  predicate IsIntegerToken(tok: string) {
    && |tok| > 0
    && var ds := if tok[0] == '+' || tok[0] == '-' then tok[1..] else tok;
       |ds| > 0 && AllDigits(ds)
  }

  /** The signed value of an integer token. */
  function SignedValue(tok: string): int
    requires IsIntegerToken(tok)
  {
    if tok[0] == '-' then -(DecimalValue(tok[1..]) as int)
    else if tok[0] == '+' then DecimalValue(tok[1..])
    else DecimalValue(tok)
  }

  /** `>> weight`: the token's value, or None when the token is not an integer
      or its value does not fit an `int` (both set the stream's fail bit, which
      ends the reading loop). */
  function ParseWeight(tok: string): (w: Option<int>)
    ensures w.Some? ==> IsIntegerToken(tok) && IntMin <= w.value <= IntMax
    ensures |tok| > 0 && !IsDigit(tok[0]) && tok[0] != '+' && tok[0] != '-' ==> w.None?
  {
    if !IsIntegerToken(tok) then None
    else
      var v := SignedValue(tok);
      if IntMin <= v <= IntMax then Some(v) else None
  }

  /** How `<<` renders an integer. */
  function ShowInt(v: int): string {
    if v < 0 then "-" + Decimal(-v) else Decimal(v)
  }

  /** Every `int` survives being written out and read back. */
  lemma ParseShowInt(v: int)
    requires IntMin <= v <= IntMax
    ensures IsWord(ShowInt(v))
    ensures ParseWeight(ShowInt(v)) == Some(v)
  {
    var s := ShowInt(v);
    if v < 0 {
      assert s[1..] == Decimal(-v);
    }
  }

  /** `>> weight` accepts an integer token exactly when its value fits an `int`,
      and then reads that value. */
  lemma ParseWeightMeaning(tok: string)
    ensures IsIntegerToken(tok) ==> (ParseWeight(tok).Some? <==> IntMin <= SignedValue(tok) <= IntMax)
    ensures ParseWeight(tok).Some? ==> ParseWeight(tok).value == SignedValue(tok)
  {
  }

  /** A weight written with an optional sign and any number of leading zeros
      reads as its signed value when that fits an `int`, and is rejected when it
      does not: `05` and `+5` read 5, `-0` reads 0, `2147483648` is rejected. */
  lemma ParseSignedDigits(sign: string, zeros: string, n: nat)
    requires sign == "" || sign == "+" || sign == "-"
    requires forall i :: 0 <= i < |zeros| ==> zeros[i] == '0'
    ensures var v: int := if sign == "-" then -(n as int) else n;
      ParseWeight(sign + (zeros + Decimal(n))) == if IntMin <= v <= IntMax then Some(v) else None
  {
    SignedDigitsValue(sign, zeros, n);
    ParseWeightMeaning(sign + (zeros + Decimal(n)));
  }

  lemma SignedDigitsValue(sign: string, zeros: string, n: nat)
    requires sign == "" || sign == "+" || sign == "-"
    requires forall i :: 0 <= i < |zeros| ==> zeros[i] == '0'
    ensures IsIntegerToken(sign + (zeros + Decimal(n)))
    ensures SignedValue(sign + (zeros + Decimal(n))) == if sign == "-" then -(n as int) else n
  {
    LeadingZerosIgnored(zeros, Decimal(n));
    SignedToken(sign, zeros + Decimal(n));
  }

  lemma SignedToken(sign: string, ds: string)
    requires sign == "" || sign == "+" || sign == "-"
    requires |ds| > 0 && AllDigits(ds)
    ensures IsIntegerToken(sign + ds)
    ensures SignedValue(sign + ds) == if sign == "-" then -(DecimalValue(ds) as int) else DecimalValue(ds)
  {
    var tok := sign + ds;
    if sign == "" {
      assert tok == ds;
    } else {
      assert tok[0] == sign[0];
      assert tok[1..] == ds;
    }
  }

  /** One successfully read `(term, weight)` pair. */
  datatype Entry = Entry(term: string, weight: int)

  /** Pair `e` is what the loop reads on its `i`-th turn: the term token at
      `2 * i`, and an accepted weight token after it. */
  ghost predicate PairRead(toks: seq<string>, i: int, e: Entry) {
    0 <= i && 2 * i + 1 < |toks| && e.term == toks[2 * i] && ParseWeight(toks[2 * i + 1]) == Some(e.weight)
  }

  /** The pairs the loop `while (file >> word >> weight)` reads. */
  function ReadPairs(toks: seq<string>): (ps: seq<Entry>)
    ensures 2 * |ps| <= |toks|
    decreases |toks|
  {
    if |toks| < 2 then []
    else
      match ParseWeight(toks[1])
      case None => []
      case Some(w) => [Entry(toks[0], w)] + ReadPairs(toks[2..])
  }

  /** The loop reads pairs in order and stops at the first one whose weight
      token is missing or rejected: the `i`-th pair read is the term token at
      `2 * i` with the weight of the token after it, and right after the last
      pair read there is no term with an acceptable weight. */
  lemma ReadPairsSpec(toks: seq<string>)
    ensures forall i :: 0 <= i < |ReadPairs(toks)| ==> PairRead(toks, i, ReadPairs(toks)[i])
    ensures 2 * |ReadPairs(toks)| + 1 < |toks| ==> ParseWeight(toks[2 * |ReadPairs(toks)| + 1]).None?
  {
    ReadPairsInOrder(toks);
    ReadPairsStop(toks);
  }

  lemma {:induction false} ReadPairsInOrder(toks: seq<string>)
    ensures forall i :: 0 <= i < |ReadPairs(toks)| ==> PairRead(toks, i, ReadPairs(toks)[i])
    decreases |toks|
  {
    if |toks| >= 2 && ParseWeight(toks[1]).Some? {
      var rest := ReadPairs(toks[2..]);
      var ps := ReadPairs(toks);
      ReadPairsInOrder(toks[2..]);
      assert ps == [Entry(toks[0], ParseWeight(toks[1]).value)] + rest;
      forall i | 1 <= i < |ps| ensures PairRead(toks, i, ps[i]) {
        assert PairRead(toks[2..], i - 1, rest[i - 1]);
        assert toks[2..][2 * (i - 1)] == toks[2 * i];
        assert toks[2..][2 * (i - 1) + 1] == toks[2 * i + 1];
      }
    }
  }

  lemma {:induction false} ReadPairsStop(toks: seq<string>)
    ensures 2 * |ReadPairs(toks)| + 1 < |toks| ==> ParseWeight(toks[2 * |ReadPairs(toks)| + 1]).None?
    decreases |toks|
  {
    if |toks| >= 2 && ParseWeight(toks[1]).Some? {
      var rest := ReadPairs(toks[2..]);
      ReadPairsStop(toks[2..]);
      ReadPairsStep(toks, ParseWeight(toks[1]).value);
      assert 2 * |rest| + 3 < |toks| ==> toks[2..][2 * |rest| + 1] == toks[2 * |rest| + 3];
    }
  }

  /** Some pair names `t`. */
  ghost predicate Mentions(ps: seq<Entry>, t: string) {
    exists i :: 0 <= i < |ps| && ps[i].term == t
  }

  /** Pair `i` is the last one naming its term. */
  ghost predicate LastMention(ps: seq<Entry>, i: int) {
    0 <= i < |ps| && forall j :: i < j < |ps| ==> ps[j].term != ps[i].term
  }

  /** The body of the reading loop, `weights[word] = weight`, applied to each
      pair in turn: a later pair for the same term overwrites the earlier one. */
  function Assemble(weights: map<string, int>, ps: seq<Entry>): (r: map<string, int>)
    ensures forall t :: t in r <==> t in weights || Mentions(ps, t)
    ensures forall i :: 0 <= i < |ps| ==> ps[i].term in r
    ensures forall i :: LastMention(ps, i) ==> ps[i].term in r && r[ps[i].term] == ps[i].weight
    ensures forall t :: t in weights && !Mentions(ps, t) ==> r[t] == weights[t]
    decreases |ps|
  {
    if ps == [] then weights
    else
      var first, later := ps[0], ps[1..];
      var r := Assemble(weights[first.term := first.weight], later);
      assert forall i :: 1 <= i < |ps| ==> ps[i] == later[i - 1];
      forall t ensures Mentions(ps, t) <==> t == first.term || Mentions(later, t) {
        if Mentions(later, t) {
          var j :| 0 <= j < |later| && later[j].term == t;
          assert ps[j + 1].term == t;
        }
        if t == first.term {
          assert ps[0].term == t;
        }
      }
      forall i | LastMention(ps, i) ensures r[ps[i].term] == ps[i].weight {
        if i == 0 {
          assert !Mentions(later, first.term);
        } else {
          assert LastMention(later, i - 1);
        }
      }
      r
  }

  /** `loadWeightedList` over the tokens of the file. */
  function LoadWeightedList(toks: seq<string>): (weights: map<string, int>)
    ensures forall t :: t in weights <==> Mentions(ReadPairs(toks), t)
    ensures var ps := ReadPairs(toks);
      forall i :: LastMention(ps, i) ==> ps[i].term in weights && weights[ps[i].term] == ps[i].weight
    ensures forall t :: t in weights ==> IntMin <= weights[t] <= IntMax
    ensures |toks| < 2 ==> weights == map[]
  {
    var ps := ReadPairs(toks);
    var weights := Assemble(map[], ps);
    ReadPairsSpec(toks);
    forall t | t in weights ensures IntMin <= weights[t] <= IntMax {
      var i :| 0 <= i < |ps| && ps[i].term == t;
      var k := LastOf(ps, i);
      assert PairRead(toks, k, ps[k]);
      assert weights[t] == ps[k].weight;
    }
    weights
  }

  /** The last pair naming the same term as pair `i`. */
  function LastOf(ps: seq<Entry>, i: nat): (k: nat)
    requires i < |ps|
    ensures i <= k < |ps| && ps[k].term == ps[i].term && LastMention(ps, k)
    decreases |ps| - i
  {
    if exists j :: i < j < |ps| && ps[j].term == ps[i].term then
      var j :| i < j < |ps| && ps[j].term == ps[i].term;
      LastOf(ps, j)
    else
      i
  }

  /** `loadWeightedList` on the text of a file. */
  function LoadWeightedListText(text: string): (weights: map<string, int>)
    ensures forall t :: t in weights ==> IsWord(t)
    ensures Blank(text) ==> weights == map[]
  {
    var toks := Tokens(text);
    ReadPairsSpec(toks);
    BlankHasNoTokens(text);
    LoadWeightedList(toks)
  }

  /** Tokens made only of well-formed pairs. */
  ghost predicate AllPairs(toks: seq<string>) {
    2 * |ReadPairs(toks)| == |toks|
  }

  lemma {:induction false} ReadPairsAppend(good: seq<string>, rest: seq<string>)
    requires AllPairs(good)
    ensures ReadPairs(good + rest) == ReadPairs(good) + ReadPairs(rest)
    decreases |good|
  {
    if good == [] {
      assert good + rest == rest;
    } else {
      var w := AllPairsHead(good);
      ReadPairsStepAppend(good, rest, w);
      ReadPairsAppend(good[2..], rest);
      ConsAssociates(Entry(good[0], w), ReadPairs(good[2..]), ReadPairs(rest));
    }
  }

  lemma ConsAssociates(e: Entry, a: seq<Entry>, b: seq<Entry>)
    ensures [e] + (a + b) == ([e] + a) + b
  {
  }

  lemma ReadPairsStepAppend(good: seq<string>, rest: seq<string>, w: int)
    requires |good| >= 2 && ParseWeight(good[1]) == Some(w)
    ensures ReadPairs(good + rest) == [Entry(good[0], w)] + ReadPairs(good[2..] + rest)
  {
    var all := good + rest;
    assert all[0] == good[0] && all[1] == good[1];
    assert all[2..] == good[2..] + rest;
    ReadPairsStep(all, w);
  }

  lemma AllPairsHead(good: seq<string>) returns (w: int)
    requires AllPairs(good) && good != []
    ensures |good| >= 2 && ParseWeight(good[1]) == Some(w) && AllPairs(good[2..])
    ensures ReadPairs(good) == [Entry(good[0], w)] + ReadPairs(good[2..])
  {
    w := ParseWeight(good[1]).value;
  }

  /** One turn of the reading loop. */
  lemma ReadPairsStep(toks: seq<string>, w: int)
    requires |toks| >= 2 && ParseWeight(toks[1]) == Some(w)
    ensures ReadPairs(toks) == [Entry(toks[0], w)] + ReadPairs(toks[2..])
  {
  }

  /** Reading stops at the first pair whose weight is not an integer: nothing
      after it is loaded. */
  lemma StopsAtMalformedWeight(good: seq<string>, term: string, bad: string, rest: seq<string>)
    requires AllPairs(good)
    requires ParseWeight(bad).None?
    ensures LoadWeightedList(good + [term, bad] + rest) == LoadWeightedList(good)
  {
    assert good + [term, bad] + rest == good + ([term, bad] + rest);
    ReadPairsAppend(good, [term, bad] + rest);
    assert ReadPairs(good) + [] == ReadPairs(good);
  }

  /** A term with no weight after it ends the list and is not loaded. */
  lemma StopsAtMissingWeight(good: seq<string>, term: string)
    requires AllPairs(good)
    ensures LoadWeightedList(good + [term]) == LoadWeightedList(good)
  {
    ReadPairsAppend(good, [term]);
    assert ReadPairs(good) + [] == ReadPairs(good);
  }

  /** The tokens of a file listing `ps` one pair after another. */
  function Render(ps: seq<Entry>): (toks: seq<string>)
    ensures |toks| == 2 * |ps|
  {
    if ps == [] then [] else [ps[0].term, ShowInt(ps[0].weight)] + Render(ps[1..])
  }

  /** Entries that can be written into a weight file: the term is one token and
      the weight fits an `int`. */
  ghost predicate Writable(ps: seq<Entry>) {
    forall i :: 0 <= i < |ps| ==> IsWord(ps[i].term) && IntMin <= ps[i].weight <= IntMax
  }

  /** Reading back the tokens of written entries gives the entries. */
  lemma {:induction false} ReadRendered(ps: seq<Entry>)
    requires Writable(ps)
    ensures ReadPairs(Render(ps)) == ps
  {
    if ps != [] {
      var toks := Render(ps);
      assert toks == [ps[0].term, ShowInt(ps[0].weight)] + Render(ps[1..]);
      ParseShowInt(ps[0].weight);
      assert toks[1] == ShowInt(ps[0].weight);
      assert toks[2..] == Render(ps[1..]);
      ReadRendered(ps[1..]);
      assert ReadPairs(toks) == [Entry(toks[0], ps[0].weight)] + ReadPairs(toks[2..]);
      assert ps == [ps[0]] + ps[1..];
    }
  }

  /** Writing entries out as text and loading the text back gives the map built
      by assigning each entry in turn: loading is the inverse of listing. */
  lemma LoadRendered(ps: seq<Entry>)
    requires Writable(ps)
    ensures LoadWeightedListText(Unwords(Render(ps))) == Assemble(map[], ps)
  {
    var text := Unwords(Render(ps));
    if ps == [] {
      assert text == "" && Blank(text);
    } else {
      var seps := seq(2 * |ps| - 1, _ => " ");
      assert text == Join(Render(ps), seps);
      LoadLaidOut(ps, "", seps, "");
      assert "" + text + "" == text;
    }
  }

  /** The same holds for a weight file laid out in any way: one pair per line,
      tabs, blank lines, leading or trailing whitespace. */
  lemma LoadLaidOut(ps: seq<Entry>, lead: string, seps: seq<string>, trail: string)
    requires Writable(ps) && ps != []
    requires |seps| == 2 * |ps| - 1
    requires forall i :: 0 <= i < |seps| ==> |seps[i]| > 0 && Blank(seps[i])
    requires Blank(lead) && Blank(trail)
    ensures LoadWeightedListText(lead + Join(Render(ps), seps) + trail) == Assemble(map[], ps)
  {
    RenderedWords(ps);
    TokensOfLayout(lead, Render(ps), seps, trail);
    ReadRendered(ps);
  }

  lemma {:induction false} RenderedWords(ps: seq<Entry>)
    requires Writable(ps)
    ensures forall i :: 0 <= i < |Render(ps)| ==> IsWord(Render(ps)[i])
  {
    if ps != [] {
      ParseShowInt(ps[0].weight);
      RenderedWords(ps[1..]);
      var toks := Render(ps);
      assert toks == [ps[0].term, ShowInt(ps[0].weight)] + Render(ps[1..]);
      forall i | 2 <= i < |toks| ensures IsWord(toks[i]) {
        assert toks[i] == Render(ps[1..])[i - 2];
      }
    }
  }
}
