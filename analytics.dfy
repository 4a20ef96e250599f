/** The corpus report of `get_notes_analytics`: word totals, the mean number of words per
    note, the five most frequent words and the three shortest and longest notes. The word
    tokenizer is a parameter: every property here holds for any tokenizer. */
module Analytics {
  import opened Sorting

  /** One `(word, count)` pair of `Counter.most_common`. */
  datatype WordCount = WordCount(word: string, count: nat)

  /** `AnalyticsResponse`, with the five fields `get_notes_analytics` sets. The schema itself
      is not declared in `app/schemas/note.py`. */
  datatype AnalyticsResponse = AnalyticsResponse(
    totalWords: nat,
    averageNoteLength: real,
    mostCommonWords: seq<WordCount>,
    shortestNotes: seq<string>,
    longestNotes: seq<string>)

  /** `AnalyticsResponse()` for an empty corpus, taken to be zero and empty lists. */
  const DefaultReport: AnalyticsResponse := AnalyticsResponse(0, 0.0, [], [], [])

  const TopWords: nat := 5
  const ExtremeNotes: nat := 3

  function Min(a: int, b: int): int { if a <= b then a else b }

  predicate IsLetter(c: char) {
    'a' <= c <= 'z' || 'A' <= c <= 'Z'
  }

  /** `str.isalpha`: non-empty and made of letters only. */
  predicate IsAlpha(w: string) {
    |w| > 0 && forall i :: 0 <= i < |w| ==> IsLetter(w[i])
  }

  // ------------------------------------------------------------ words

  /** `[word for word in words if word.isalpha()]`. */
  function Alphabetic(ws: seq<string>): (r: seq<string>)
    ensures |r| <= |ws|
  {
    if ws == [] then []
    else Alphabetic(ws[..|ws| - 1]) + (if IsAlpha(ws[|ws| - 1]) then [ws[|ws| - 1]] else [])
  }

  /** The filter keeps every alphabetic token as often as it occurs, and nothing else. */
  lemma {:induction false} AlphabeticCounts(ws: seq<string>)
    ensures forall w :: multiset(Alphabetic(ws))[w] == if IsAlpha(w) then multiset(ws)[w] else 0
  {
    if ws != [] {
      var init := ws[..|ws| - 1];
      AlphabeticCounts(init);
      assert ws == init + [ws[|ws| - 1]];
    }
  }

  lemma {:induction false} AlphabeticConcat(a: seq<string>, b: seq<string>)
    ensures Alphabetic(a + b) == Alphabetic(a) + Alphabetic(b)
  {
    if b == [] {
      assert a + b == a;
    } else {
      assert (a + b)[..|a + b| - 1] == a + b[..|b| - 1];
      AlphabeticConcat(a, b[..|b| - 1]);
    }
  }

  /** The alphabetic tokens of one text. */
  function Words(tokenize: string -> seq<string>, text: string): (r: seq<string>)
    ensures forall i :: 0 <= i < |r| ==> IsAlpha(r[i])
  {
    var r := Alphabetic(tokenize(text));
    AlphabeticCounts(tokenize(text));
    assert forall i :: 0 <= i < |r| ==> IsAlpha(r[i]) by {
      forall i | 0 <= i < |r| ensures IsAlpha(r[i]) {
        assert r[i] in multiset(r);
      }
    }
    r
  }

  /** The number of characters in all of `texts`. */
  function Chars(texts: seq<string>): nat {
    if texts == [] then 0 else Chars(texts[..|texts| - 1]) + |texts[|texts| - 1]|
  }

  /** Where `texts[k]` starts in `" ".join(texts)`: after every earlier text and its separator. */
  function Offset(texts: seq<string>, k: nat): nat
    requires k <= |texts|
  {
    Chars(texts[..k]) + k
  }

  /** `" ".join(texts)`. */
  function Join(texts: seq<string>): (r: string)
    ensures texts == [] ==> r == ""
    ensures texts != [] ==> |r| == Chars(texts) + |texts| - 1
  {
    if texts == [] then ""
    else if |texts| == 1 then
      assert texts[..0] == [];
      texts[0]
    else Join(texts[..|texts| - 1]) + " " + texts[|texts| - 1]
  }

  lemma OffsetNext(texts: seq<string>, k: nat)
    requires k < |texts|
    ensures Offset(texts, k + 1) == Offset(texts, k) + |texts[k]| + 1
  {
    assert texts[..k + 1][..k] == texts[..k];
  }

  /** Each text sits in the joined text at its offset. */
  lemma {:induction false} JoinPlacesText(texts: seq<string>, k: nat)
    requires k < |texts|
    ensures Offset(texts, k) + |texts[k]| <= |Join(texts)|
    ensures Join(texts)[Offset(texts, k)..Offset(texts, k) + |texts[k]|] == texts[k]
  {
    if |texts| == 1 {
      assert texts[..0] == [];
    } else {
      var init := texts[..|texts| - 1];
      var j := Join(init);
      assert Join(texts) == j + " " + texts[|texts| - 1];
      if k < |init| {
        assert texts[..k] == init[..k] && texts[k] == init[k];
        JoinPlacesText(init, k);
      } else {
        assert texts[..k] == init;
      }
    }
  }

  /** A single space follows every text but the last. */
  lemma {:induction false} JoinPlacesSpace(texts: seq<string>, k: nat)
    requires k + 1 < |texts|
    ensures Offset(texts, k) + |texts[k]| < |Join(texts)|
    ensures Join(texts)[Offset(texts, k) + |texts[k]|] == ' '
  {
    var init := texts[..|texts| - 1];
    var j := Join(init);
    assert Join(texts) == j + " " + texts[|texts| - 1];
    assert texts[..k] == init[..k] && texts[k] == init[k];
    OffsetNext(init, k);
    if k + 1 < |init| {
      JoinPlacesSpace(init, k);
    } else {
      assert init[..k + 1] == init;
    }
  }

  /** The per-note word counts, `len([w for w in word_tokenize(text) if w.isalpha()])`. */
  function NoteLengths(tokenize: string -> seq<string>, texts: seq<string>): (r: seq<nat>)
    ensures |r| == |texts|
  {
    seq(|texts|, i requires 0 <= i < |texts| => |Words(tokenize, texts[i])|)
  }

  function Sum(xs: seq<nat>): nat {
    if xs == [] then 0 else Sum(xs[..|xs| - 1]) + xs[|xs| - 1]
  }

  /** `np.mean`, exactly: the sum divided by the number of notes. */
  function Mean(xs: seq<nat>): (r: real)
    requires xs != []
    ensures 0.0 <= r && r * (|xs| as real) == Sum(xs) as real
  {
    Sum(xs) as real / |xs| as real
  }

  /** When the tokenizer splits at the joining space, the words of the joined corpus are the
      words of the notes one after the other, so the total is the sum of the note lengths. */
  lemma {:induction false} JoinedWords(tokenize: string -> seq<string>, texts: seq<string>)
    requires texts != []
    requires forall a: string, b: string :: tokenize(a + " " + b) == tokenize(a) + tokenize(b)
    ensures |Words(tokenize, Join(texts))| == Sum(NoteLengths(tokenize, texts))
  {
    if |texts| == 1 {
      assert NoteLengths(tokenize, texts)[..0] == [];
    } else if |texts| > 1 {
      var init := texts[..|texts| - 1];
      var last := texts[|texts| - 1];
      var lengths := NoteLengths(tokenize, texts);
      JoinedWords(tokenize, init);
      assert Join(texts) == Join(init) + " " + last;
      assert tokenize(Join(init) + " " + last) == tokenize(Join(init)) + tokenize(last);
      AlphabeticConcat(tokenize(Join(init)), tokenize(last));
      assert Words(tokenize, Join(texts)) == Words(tokenize, Join(init)) + Words(tokenize, last);
      assert lengths[..|texts| - 1] == NoteLengths(tokenize, init);
      assert Sum(lengths) == Sum(lengths[..|texts| - 1]) + lengths[|texts| - 1];
      assert lengths[|texts| - 1] == |Words(tokenize, last)|;
    }
  }

  // ------------------------------------------------------------ Counter.most_common

  /** The distinct words in the order they are first met, the key order of a `Counter`. */
  function Distinct(ws: seq<string>): (r: seq<string>)
    ensures |r| <= |ws|
  {
    if ws == [] then []
    else
      var d := Distinct(ws[..|ws| - 1]);
      if ws[|ws| - 1] in d then d else d + [ws[|ws| - 1]]
  }

  ghost predicate NoRepeats<T>(s: seq<T>) {
    forall i, j :: 0 <= i < j < |s| ==> s[i] != s[j]
  }

  lemma {:induction false} DistinctMembers(ws: seq<string>)
    ensures forall w :: w in Distinct(ws) <==> w in ws
    ensures NoRepeats(Distinct(ws))
  {
    if ws != [] {
      var init := ws[..|ws| - 1];
      DistinctMembers(init);
      assert ws == init + [ws[|ws| - 1]];
    }
  }

  /** The position at which `w` first occurs in `ws`. */
  function First(ws: seq<string>, w: string): (r: nat)
    requires w in ws
    ensures r < |ws| && ws[r] == w
    ensures forall i :: 0 <= i < r ==> ws[i] != w
  {
    if ws[0] == w then 0 else 1 + First(ws[1..], w)
  }

  /** Extending the input does not move the first occurrence of a word already met. */
  lemma FirstOfPrefix(ws: seq<string>, k: nat, w: string)
    requires k <= |ws| && w in ws[..k]
    ensures First(ws, w) == First(ws[..k], w)
  {
    var a := First(ws, w);
    var b := First(ws[..k], w);
    assert ws[b] == w;
    assert a <= b;
    assert ws[..k][a] == w;
  }

  /** A word met only at the end is first met there. */
  lemma LastFirst(ws: seq<string>)
    requires ws != [] && ws[|ws| - 1] !in ws[..|ws| - 1]
    ensures First(ws, ws[|ws| - 1]) == |ws| - 1
  {
    forall i | 0 <= i < |ws| - 1 ensures ws[i] != ws[|ws| - 1] {
      assert ws[i] == ws[..|ws| - 1][i];
    }
  }

  /** `Distinct` lists the words in the order of their first occurrences. */
  lemma {:induction false} DistinctOrder(ws: seq<string>, p: int, q: int)
    requires 0 <= p < q < |Distinct(ws)|
    ensures Distinct(ws)[p] in ws && Distinct(ws)[q] in ws
    ensures First(ws, Distinct(ws)[p]) < First(ws, Distinct(ws)[q])
  {
    var init := ws[..|ws| - 1];
    var last := ws[|ws| - 1];
    var d := Distinct(init);
    var dw := Distinct(ws);
    assert dw == if last in d then d else d + [last];
    assert p < |d| && dw[p] == d[p];
    DistinctMembers(init);
    FirstOfPrefix(ws, |ws| - 1, d[p]);
    if q < |d| {
      assert dw[q] == d[q];
      DistinctOrder(init, p, q);
      FirstOfPrefix(ws, |ws| - 1, d[q]);
    } else {
      assert dw[q] == last && last !in init;
      LastFirst(ws);
    }
  }

  /** Each word of `d` with its multiplicity in `m`. */
  function Counts(m: multiset<string>, d: seq<string>): (r: seq<WordCount>)
    ensures |r| == |d|
    ensures forall i :: 0 <= i < |r| ==> r[i] == WordCount(d[i], m[d[i]])
  {
    if d == [] then [] else Counts(m, d[..|d| - 1]) + [WordCount(d[|d| - 1], m[d[|d| - 1]])]
  }

  /** The `(word, count)` pairs of `Counter(ws)`: every word of the input once, in the order
      of the counter's keys, with the number of times it occurs. */
  function Tally(ws: seq<string>): (r: seq<WordCount>)
    ensures |r| == |Distinct(ws)|
    ensures forall i :: 0 <= i < |r| ==> r[i].word == Distinct(ws)[i]
    ensures forall i :: 0 <= i < |r| ==>
              r[i].word in ws && r[i].count == multiset(ws)[r[i].word] && r[i].count >= 1
    ensures forall w :: w in ws ==> exists i :: 0 <= i < |r| && r[i].word == w
    ensures forall i, j :: 0 <= i < j < |r| ==> r[i].word != r[j].word
  {
    var r := Counts(multiset(ws), Distinct(ws));
    CountsOfDistinct(ws, r);
    r
  }

  lemma CountsOfDistinct(ws: seq<string>, r: seq<WordCount>)
    requires r == Counts(multiset(ws), Distinct(ws))
    ensures forall i :: 0 <= i < |r| ==> r[i].word in ws && r[i].count == multiset(ws)[r[i].word] && r[i].count >= 1
    ensures forall w :: w in ws ==> exists i :: 0 <= i < |r| && r[i].word == w
    ensures forall i, j :: 0 <= i < j < |r| ==> r[i].word != r[j].word
  {
    var d := Distinct(ws);
    DistinctMembers(ws);
    forall i | 0 <= i < |r|
      ensures r[i].word in ws && r[i].count == multiset(ws)[r[i].word] && r[i].count >= 1
    {
      assert r[i].word == d[i] && d[i] in d;
    }
    forall w | w in ws ensures exists i :: 0 <= i < |r| && r[i].word == w {
      assert w in d;
      var i :| 0 <= i < |d| && d[i] == w;
      assert r[i].word == w;
    }
    forall i, j | 0 <= i < j < |r| ensures r[i].word != r[j].word {
      assert r[i].word == d[i] && r[j].word == d[j];
    }
  }

  /** The sum of the counts. */
  function Total(r: seq<WordCount>): nat {
    if r == [] then 0 else Total(r[..|r| - 1]) + r[|r| - 1].count
  }

  lemma CountsSnoc(m: multiset<string>, d: seq<string>, x: string)
    ensures Total(Counts(m, d + [x])) == Total(Counts(m, d)) + m[x]
  {
    assert (d + [x])[..|d|] == d;
    assert Counts(m, d + [x])[..|d|] == Counts(m, d);
  }

  lemma {:induction false} CountsAdd(m: multiset<string>, x: string, d: seq<string>)
    ensures Total(Counts(m + multiset{x}, d)) == Total(Counts(m, d)) + multiset(d)[x]
  {
    if d != [] {
      var init := d[..|d| - 1];
      CountsAdd(m, x, init);
      assert d == init + [d[|d| - 1]];
      CountsSnoc(m + multiset{x}, init, d[|d| - 1]);
      CountsSnoc(m, init, d[|d| - 1]);
    }
  }

  lemma MultisetSnoc<T>(s: seq<T>)
    requires s != []
    ensures multiset(s) == multiset(s[..|s| - 1]) + multiset{s[|s| - 1]}
  {
    assert s == s[..|s| - 1] + [s[|s| - 1]];
  }

  /** Counting one more word raises the total by one. */
  lemma CountsStep(ws: seq<string>)
    requires ws != []
    ensures Total(Counts(multiset(ws), Distinct(ws)))
            == Total(Counts(multiset(ws[..|ws| - 1]), Distinct(ws[..|ws| - 1]))) + 1
  {
    var init := ws[..|ws| - 1];
    var last := ws[|ws| - 1];
    var d := Distinct(init);
    var m := multiset(init);
    var m' := m + multiset{last};
    MultisetSnoc(ws);
    assert Distinct(ws) == if last in d then d else d + [last];
    CountsAdd(m, last, d);
    DistinctMembers(init);
    if last in d {
      NoRepeatsMultiset(d);
      assert last in multiset(d);
      calc {
        Total(Counts(m', d));
        Total(Counts(m, d)) + multiset(d)[last];
        Total(Counts(m, d)) + 1;
      }
    } else {
      assert last !in init;
      assert m[last] == 0;
      assert multiset(d)[last] == 0;
      CountsSnoc(m', d, last);
      calc {
        Total(Counts(m', d + [last]));
        Total(Counts(m', d)) + m'[last];
        Total(Counts(m, d)) + 1;
      }
    }
  }

  /** The counts of a `Counter` add up to the number of words counted. */
  lemma {:induction false} TallyTotal(ws: seq<string>)
    ensures Total(Tally(ws)) == |ws|
  {
    if ws != [] {
      TallyTotal(ws[..|ws| - 1]);
      CountsStep(ws);
    }
  }

  /** The sort key of `most_common`: higher counts first. */
  function Rank(e: WordCount): int { -(e.count as int) }

  /** `Counter(ws).most_common(n)`: the pairs stably sorted by decreasing count, first `n`. */
  function MostCommon(ws: seq<string>, n: nat): (r: seq<WordCount>)
    ensures |r| == Min(n, |Distinct(ws)|)
  {
    var sorted := SortBy(Tally(ws), Rank);
    sorted[..Min(n, |sorted|)]
  }

  /** A sequence with no repeats has every element at most once in its multiset. */
  lemma {:induction false} NoRepeatsMultiset<T>(s: seq<T>)
    requires NoRepeats(s)
    ensures forall x :: multiset(s)[x] <= 1
  {
    if s != [] {
      var init := s[..|s| - 1];
      NoRepeatsMultiset(init);
      assert s == init + [s[|s| - 1]];
      forall k | 0 <= k < |init| ensures init[k] != s[|s| - 1] {
        assert init[k] == s[k];
      }
    }
  }

  /** A permutation of a sequence without repeats has none either. */
  lemma PermutationNoRepeats<T>(s: seq<T>, t: seq<T>)
    requires NoRepeats(s) && multiset(t) == multiset(s)
    ensures NoRepeats(t)
  {
    NoRepeatsMultiset(s);
    forall i, j | 0 <= i < j < |t| ensures t[i] != t[j] {
      assert t == t[..j] + [t[j]] + t[j + 1..];
      assert t[i] in t[..j];
      assert multiset(t)[t[j]] == multiset(t[..j])[t[j]] + 1 + multiset(t[j + 1..])[t[j]];
    }
  }

  /** Every entry of the tally sorted by rank is a word of the input with its true count,
      and no word appears twice. */
  lemma SortedTally(ws: seq<string>)
    ensures var sorted := SortBy(Tally(ws), Rank);
            && (forall e :: e in sorted <==> e.word in ws && e.count == multiset(ws)[e.word])
            && NoRepeats(sorted)
  {
    var d := Distinct(ws);
    var tally := Tally(ws);
    var sorted := SortBy(tally, Rank);
    DistinctMembers(ws);
    forall e ensures e in sorted <==> e in tally {
      assert e in sorted <==> e in multiset(sorted);
      assert e in tally <==> e in multiset(tally);
    }
    forall e ensures e in tally <==> e.word in ws && e.count == multiset(ws)[e.word] {
      if e.word in ws && e.count == multiset(ws)[e.word] {
        var k :| 0 <= k < |d| && d[k] == e.word;
        assert tally[k] == e;
      }
    }
    assert NoRepeats(tally) by {
      forall i, j | 0 <= i < j < |tally| ensures tally[i] != tally[j] {
        assert tally[i].word == d[i] && tally[j].word == d[j];
      }
    }
    PermutationNoRepeats(tally, sorted);
  }

  /** Each pair of `most_common(n)` is a word of the input with its true count, and no word
      is listed twice. */
  lemma MostCommonCounts(ws: seq<string>, n: nat)
    ensures var r := MostCommon(ws, n);
            && (forall i :: 0 <= i < |r| ==> r[i].word in ws && r[i].count == multiset(ws)[r[i].word])
            && (forall i, j :: 0 <= i < j < |r| ==> r[i].word != r[j].word)
  {
    var sorted := SortBy(Tally(ws), Rank);
    var r := MostCommon(ws, n);
    SortedTally(ws);
    forall i | 0 <= i < |r| ensures r[i].word in ws && r[i].count == multiset(ws)[r[i].word] {
      assert r[i] == sorted[i] && sorted[i] in sorted;
    }
    forall i, j | 0 <= i < j < |r| ensures r[i].word != r[j].word {
      assert r[i] == sorted[i] && sorted[i] in sorted;
      assert r[j] == sorted[j] && sorted[j] in sorted;
    }
  }

  /** The pairs of `most_common(n)` come in order of non-increasing count. */
  lemma MostCommonOrdered(ws: seq<string>, n: nat)
    ensures var r := MostCommon(ws, n);
            forall i, j :: 0 <= i < j < |r| ==> r[i].count >= r[j].count
  {
    var sorted := SortBy(Tally(ws), Rank);
    var r := MostCommon(ws, n);
    forall i, j | 0 <= i < j < |r| ensures r[i].count >= r[j].count {
      assert r[i] == sorted[i] && r[j] == sorted[j];
      assert Rank(sorted[i]) <= Rank(sorted[j]);
    }
  }

  /** A word left out of `most_common(n)` is left out only because `n` pairs are already
      listed, and it occurs no more often than any of them. With at most `n` distinct words,
      every word is listed. */
  lemma MostCommonTop(ws: seq<string>, n: nat, w: string)
    requires w in ws
    requires forall i :: 0 <= i < |MostCommon(ws, n)| ==> MostCommon(ws, n)[i].word != w
    ensures var r := MostCommon(ws, n);
            |r| == n && forall i :: 0 <= i < |r| ==> multiset(ws)[w] <= r[i].count
  {
    var sorted := SortBy(Tally(ws), Rank);
    var r := MostCommon(ws, n);
    MostCommonIsPrefix(ws, n);
    var p := RankedIndex(ws, w);
    assert |r| <= p;
    forall i | 0 <= i < |r| ensures multiset(ws)[w] <= r[i].count {
      assert Rank(sorted[i]) <= Rank(sorted[p]);
    }
  }

  /** Every word of the input has its pair somewhere in the ranked tally. */
  lemma RankedIndex(ws: seq<string>, w: string) returns (p: nat)
    requires w in ws
    ensures p < |SortBy(Tally(ws), Rank)| && SortBy(Tally(ws), Rank)[p] == WordCount(w, multiset(ws)[w])
  {
    var sorted := SortBy(Tally(ws), Rank);
    SortedTally(ws);
    assert WordCount(w, multiset(ws)[w]) in sorted;
    p :| 0 <= p < |sorted| && sorted[p] == WordCount(w, multiset(ws)[w]);
  }

  /** `most_common(n)` is the front of the ranked tally. */
  lemma MostCommonIsPrefix(ws: seq<string>, n: nat)
    ensures var r := MostCommon(ws, n);
            var sorted := SortBy(Tally(ws), Rank);
            |r| <= |sorted| && forall i :: 0 <= i < |r| ==> r[i] == sorted[i]
  {
  }

  /** Ties keep the order in which the words were first met. */
  lemma MostCommonTies(ws: seq<string>, n: nat, i: int, j: int)
    requires 0 <= i < j < |MostCommon(ws, n)|
    requires MostCommon(ws, n)[i].count == MostCommon(ws, n)[j].count
    ensures MostCommon(ws, n)[i].word in ws && MostCommon(ws, n)[j].word in ws
    ensures First(ws, MostCommon(ws, n)[i].word) < First(ws, MostCommon(ws, n)[j].word)
  {
    var tally := Tally(ws);
    var sorted := SortBy(tally, Rank);
    var r := MostCommon(ws, n);
    MostCommonIsPrefix(ws, n);
    SortByKeepsTies(tally, Rank, i, j);
    var p, q :| 0 <= p < q < |tally| && tally[p] == r[i] && tally[q] == r[j];
    DistinctOrder(ws, p, q);
  }

  // ------------------------------------------------------------ shortest and longest notes

  function Length(text: string): int { |text| }

  /** `sorted(notes, key=lambda note: len(note.content))`, on the contents. */
  function ByLength(texts: seq<string>): (r: seq<string>)
    ensures |r| == |texts| && multiset(r) == multiset(texts)
    ensures forall i, j :: 0 <= i < j < |r| ==> |r[i]| <= |r[j]|
  {
    SortBy(texts, Length)
  }

  /** `sorted_notes[:3]`. */
  function Shortest(texts: seq<string>): (r: seq<string>)
    ensures |r| == Min(ExtremeNotes, |texts|)
  {
    ByLength(texts)[..Min(ExtremeNotes, |texts|)]
  }

  /** `sorted_notes[-3:]`: the whole list when there are fewer than three notes. */
  function Longest(texts: seq<string>): (r: seq<string>)
    ensures |r| == Min(ExtremeNotes, |texts|)
  {
    ByLength(texts)[|texts| - Min(ExtremeNotes, |texts|)..]
  }

  /** The shortest notes are notes of the corpus, and every other note is at least as long
      as each of them. */
  lemma ShortestSpec(texts: seq<string>)
    ensures var r := Shortest(texts);
            && multiset(r) <= multiset(texts)
            && forall a, c :: a in r && c in multiset(texts) - multiset(r) ==> |a| <= |c|
  {
    var sorted := ByLength(texts);
    var k := Min(ExtremeNotes, |texts|);
    SortedSplit(sorted, Length, k);
    assert sorted == sorted[..k] + sorted[k..];
  }

  /** The longest notes are notes of the corpus, and every other note is at most as long
      as each of them. */
  lemma LongestSpec(texts: seq<string>)
    ensures var r := Longest(texts);
            && multiset(r) <= multiset(texts)
            && forall b, c :: b in r && c in multiset(texts) - multiset(r) ==> |c| <= |b|
  {
    var sorted := ByLength(texts);
    var k := |texts| - Min(ExtremeNotes, |texts|);
    SortedSplit(sorted, Length, k);
    assert sorted == sorted[..k] + sorted[k..];
  }

  /** With at most one note, or with five or more, the two slices do not cross, and no
      shortest note is longer than any longest note. */
  lemma ShortestNotLongerThanLongest(texts: seq<string>)
    requires |texts| <= 1 || |texts| >= 5
    ensures forall i, j :: 0 <= i < |Shortest(texts)| && 0 <= j < |Longest(texts)| ==>
              |Shortest(texts)[i]| <= |Longest(texts)[j]|
  {
    var sorted := ByLength(texts);
    var m := Min(ExtremeNotes, |texts|);
    forall i, j | 0 <= i < m && 0 <= j < m ensures |Shortest(texts)[i]| <= |Longest(texts)[j]| {
      assert Shortest(texts)[i] == sorted[i];
      assert Longest(texts)[j] == sorted[|texts| - m + j];
      if i != |texts| - m + j {
        assert Length(sorted[i]) <= Length(sorted[|texts| - m + j]);
      }
    }
  }

  /** With two notes of different lengths both slices hold both notes, so the longer note
      is among the shortest and the shorter among the longest. */
  lemma OverlappingExtremes()
    ensures Shortest(["a", "bb"]) == ["a", "bb"] && Longest(["a", "bb"]) == ["a", "bb"]
  {
    var texts := ["a", "bb"];
    assert texts[..1] == ["a"] && texts[..0] == [];
    assert SortBy(["a"], Length) == ["a"];
    assert Insert(["a"], "bb", Length) == ["a"] + Insert([], "bb", Length);
  }

  // ------------------------------------------------------------ the report

  /** `get_notes_analytics` over the note contents, in the order the query returns them. */
  function Report(texts: seq<string>, tokenize: string -> seq<string>): (r: AnalyticsResponse)
    ensures texts == [] <==> r == DefaultReport
    ensures texts != [] ==>
              && |r.mostCommonWords| <= TopWords
              && |r.shortestNotes| == Min(ExtremeNotes, |texts|)
              && |r.longestNotes| == Min(ExtremeNotes, |texts|)
              && r.averageNoteLength == Mean(NoteLengths(tokenize, texts))
  {
    if texts == [] then DefaultReport
    else
      var words := Words(tokenize, Join(texts));
      var lengths := NoteLengths(tokenize, texts);
      AnalyticsResponse(|words|, Mean(lengths), MostCommon(words, TopWords), Shortest(texts), Longest(texts))
  }

  /** The mean note length is the total word count divided by the number of notes whenever
      the tokenizer splits at the space that joins two notes. */
  lemma TotalOverCountIsMean(texts: seq<string>, tokenize: string -> seq<string>)
    requires texts != []
    requires forall a: string, b: string :: tokenize(a + " " + b) == tokenize(a) + tokenize(b)
    ensures var r := Report(texts, tokenize);
            r.averageNoteLength == r.totalWords as real / |texts| as real
  {
    JoinedWords(tokenize, texts);
  }
}
