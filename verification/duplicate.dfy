/** `find_duplicated_phrases` (duplicate.py): split a text into words,
    count every window of `k` consecutive words, joined by single spaces,
    for every `k` from `min_phrase_length` to `max_phrase_length`, and
    return the phrases counted more than once, in the order the dictionary
    first saw them. */
module Duplicate {
  import opened Strings

  /** The phrase made of the `k` words starting at word `i`. */
  function Window(words: seq<string>, i: nat, k: nat): string
    requires i + k <= |words|
  {
    Join(" ", words[i..i + k])
  }

  /** `len(range(n - k + 1))`: the number of start positions of a window of
      `k` words among `n`. */
  function StartCount(n: nat, k: nat): nat {
    if k <= n then n - k + 1 else 0
  }

  /** The windows of length `k`, by start position. */
  function WindowsOfLength(words: seq<string>, k: nat): (ws: seq<string>)
    ensures |ws| == StartCount(|words|, k)
  {
    seq(StartCount(|words|, k), i requires 0 <= i < StartCount(|words|, k) => Window(words, i, k))
  }

  /** All windows with lengths `lo..hi`, in the order the two loops visit
      them: by length, then by start position. */
  function AllWindows(words: seq<string>, lo: nat, hi: int): seq<string>
    decreases if hi < lo then 0 else hi - lo + 1
  {
    if hi < lo then [] else AllWindows(words, lo, hi - 1) + WindowsOfLength(words, hi)
  }

  /** The distinct elements of `s`, each at its first occurrence: the key
      order of a Python dictionary filled from `s`. */
  function Dedup(s: seq<string>): (d: seq<string>)
    ensures forall x :: x in d <==> x in s
    ensures NoDuplicates(d)
  {
    if s == [] then []
    else
      var d := Dedup(s[..|s| - 1]);
      if s[|s| - 1] in s[..|s| - 1] then d else d + [s[|s| - 1]]
  }

  /** The elements of `order` that occur more than once in `all`, in the
      order of `order`. */
  function Repeated(order: seq<string>, all: seq<string>): (r: seq<string>)
    ensures forall x :: x in r ==> x in order && multiset(all)[x] > 1
  {
    if order == [] then []
    else
      var x := order[|order| - 1];
      Repeated(order[..|order| - 1], all) + (if multiset(all)[x] > 1 then [x] else [])
  }

  /** What the function returns, stated on the word list. */
  function DuplicatedPhrases(words: seq<string>, lo: nat, hi: int): seq<string> {
    var all := AllWindows(words, lo, hi);
    Repeated(Dedup(all), all)
  }

  /** The counter a `defaultdict(int)` holds after `counts[p] += 1` for
      each `p` of `s` in turn. */
  function Tally(s: seq<string>): map<string, nat> {
    if s == [] then map[]
    else
      var t := Tally(s[..|s| - 1]);
      var x := s[|s| - 1];
      t[x := if x in t then t[x] + 1 else 1]
  }

  /** The counter's keys are the phrases met so far, and each holds the
      number of times it was met. */
  lemma {:induction false} TallyCount(s: seq<string>, p: string)
    ensures p in Tally(s) <==> p in s
    ensures p in Tally(s) ==> Tally(s)[p] == multiset(s)[p]
    decreases |s|
  {
    if s != [] {
      var init := s[..|s| - 1];
      TallyCount(init, p);
      assert s == init + [s[|s| - 1]];
    }
  }

  /** The dictionary `phrases`, given as its key order and its counts,
      is the one filled from the windows counted so far. */
  ghost predicate Counts(phrases: map<string, nat>, order: seq<string>, seen: seq<string>) {
    order == Dedup(seen) && phrases == Tally(seen)
  }

  /** The function itself: the counting loops, then the read-out of the
      phrases counted more than once. Lengths below zero are not modelled
      (Python's slices would count them from the end). */
  method FindDuplicatedPhrases(text: string, minLength: nat, maxLength: int) returns (result: seq<string>)
    ensures result == DuplicatedPhrases(SplitWords(text), minLength, maxLength)
    ensures forall p :: p in result <==> PairCount(SplitWords(text), minLength, maxLength, p) >= 2
  {
    var words := SplitWords(text);
    var phrases, order := CountPhrases(words, minLength, maxLength);
    ghost var seen := AllWindows(words, minLength, maxLength);
    result := [];
    var j := 0;
    while j < |order|
      invariant 0 <= j <= |order|
      invariant result == Repeated(order[..j], seen)
    {
      assert order[..j + 1][..j] == order[..j];
      assert order[j] in seen;
      TallyCount(seen, order[j]);
      if phrases[order[j]] > 1 {
        result := result + [order[j]];
      }
      j := j + 1;
    }
    assert order[..j] == order;
    DuplicatedPhrasesExact(words, minLength, maxLength);
  }

  /** The two nested loops that fill the `defaultdict(int)` counter: after
      them the counter holds, for each window, how often it occurred, and
      its keys are in first-occurrence order. */
  method CountPhrases(words: seq<string>, minLength: nat, maxLength: int)
    returns (phrases: map<string, nat>, order: seq<string>)
    ensures Counts(phrases, order, AllWindows(words, minLength, maxLength))
  {
    phrases, order := map[], [];
    ghost var seen: seq<string> := [];
    var k := minLength;
    while k <= maxLength
      invariant minLength <= k && (k <= maxLength + 1 || k == minLength)
      invariant seen == AllWindows(words, minLength, k - 1)
      invariant Counts(phrases, order, seen)
    {
      phrases, order := CountWindowsOfLength(words, k, phrases, order, seen);
      assert AllWindows(words, minLength, k) == seen + WindowsOfLength(words, k);
      seen := seen + WindowsOfLength(words, k);
      k := k + 1;
    }
    assert k - 1 < minLength ==> maxLength < minLength;
    assert seen == AllWindows(words, minLength, maxLength);
  }

  /** The inner loop, for one window length `k`: every start position in
      turn adds one to its window's count. */
  method CountWindowsOfLength(words: seq<string>, k: nat, phrases0: map<string, nat>, order0: seq<string>,
                              ghost seen0: seq<string>)
    returns (phrases: map<string, nat>, order: seq<string>)
    requires Counts(phrases0, order0, seen0)
    ensures Counts(phrases, order, seen0 + WindowsOfLength(words, k))
  {
    phrases, order := phrases0, order0;
    ghost var seen := seen0;
    var i := 0;
    while i < StartCount(|words|, k)
      invariant 0 <= i <= StartCount(|words|, k)
      invariant seen == seen0 + WindowsOfLength(words, k)[..i]
      invariant Counts(phrases, order, seen)
    {
      WindowsOfLengthNext(words, k, i);
      var phrase := Join(" ", words[i..i + k]);
      CountsStep(phrases, order, seen, phrase);
      if phrase in phrases {
        phrases := phrases[phrase := phrases[phrase] + 1];
      } else {
        phrases := phrases[phrase := 1];
        order := order + [phrase];
      }
      seen := seen + [phrase];
      i := i + 1;
    }
    assert WindowsOfLength(words, k)[..i] == WindowsOfLength(words, k);
  }

  /** One window counted: `phrases[phrase] += 1` on a `defaultdict(int)`,
      which adds a new key at the end of the key order. */
  lemma CountsStep(phrases: map<string, nat>, order: seq<string>, seen: seq<string>, phrase: string)
    requires Counts(phrases, order, seen)
    ensures phrase in phrases ==> Counts(phrases[phrase := phrases[phrase] + 1], order, seen + [phrase])
    ensures phrase !in phrases ==> Counts(phrases[phrase := 1], order + [phrase], seen + [phrase])
  {
    DedupSnoc(seen, phrase);
    TallyCount(seen, phrase);
    var s := seen + [phrase];
    assert s[..|s| - 1] == seen;
  }

  /** Adding an element at the end adds it to the key order only when new. */
  lemma DedupSnoc(s: seq<string>, x: string)
    ensures Dedup(s + [x]) == if x in s then Dedup(s) else Dedup(s) + [x]
  {
    var t := s + [x];
    assert t[..|t| - 1] == s;
  }

  lemma WindowsOfLengthNext(words: seq<string>, k: nat, i: nat)
    requires i < StartCount(|words|, k)
    ensures i + k <= |words|
    ensures WindowsOfLength(words, k)[..i + 1] == WindowsOfLength(words, k)[..i] + [Join(" ", words[i..i + k])]
  {
    var ws := WindowsOfLength(words, k);
    assert ws[i] == Window(words, i, k);
  }

  /** The number of start positions `i < n` whose window of length `k` is `p`. */
  function StartsMatching(words: seq<string>, k: nat, n: nat, p: string): nat
    requires n <= StartCount(|words|, k)
  {
    if n == 0 then 0
    else StartsMatching(words, k, n - 1, p) + (if Window(words, n - 1, k) == p then 1 else 0)
  }

  /** The number of pairs (length `k`, start `i`) with `lo <= k <= hi` whose
      window is `p`. */
  function PairCount(words: seq<string>, lo: nat, hi: int, p: string): nat
    decreases if hi < lo then 0 else hi - lo + 1
  {
    if hi < lo then 0
    else PairCount(words, lo, hi - 1, p) + StartsMatching(words, hi, StartCount(|words|, hi), p)
  }

  lemma {:induction false} WindowsOfLengthCount(words: seq<string>, k: nat, n: nat, p: string)
    requires n <= StartCount(|words|, k)
    ensures multiset(WindowsOfLength(words, k)[..n])[p] == StartsMatching(words, k, n, p)
    decreases n
  {
    if n > 0 {
      WindowsOfLengthCount(words, k, n - 1, p);
      var ws := WindowsOfLength(words, k);
      assert ws[..n] == ws[..n - 1] + [Window(words, n - 1, k)];
    }
  }

  /** The counter's final value for `p` is the number of (length, start)
      pairs whose window is `p`. */
  lemma {:induction false} AllWindowsCount(words: seq<string>, lo: nat, hi: int, p: string)
    ensures multiset(AllWindows(words, lo, hi))[p] == PairCount(words, lo, hi, p)
    decreases if hi < lo then 0 else hi - lo + 1
  {
    if hi >= lo {
      AllWindowsCount(words, lo, hi - 1, p);
      AllWindowsCountStep(words, lo, hi, p);
    } else {
      assert AllWindows(words, lo, hi) == [];
    }
  }

  /** One more window length adds its matching start positions. */
  lemma AllWindowsCountStep(words: seq<string>, lo: nat, hi: int, p: string)
    requires lo <= hi
    ensures multiset(AllWindows(words, lo, hi))[p]
      == multiset(AllWindows(words, lo, hi - 1))[p] + StartsMatching(words, hi, StartCount(|words|, hi), p)
  {
    var prev := AllWindows(words, lo, hi - 1);
    var ws := WindowsOfLength(words, hi);
    WindowsOfLengthCount(words, hi, |ws|, p);
    assert ws[..|ws|] == ws;
    assert AllWindows(words, lo, hi) == prev + ws;
    assert multiset(prev + ws)[p] == multiset(prev)[p] + multiset(ws)[p];
  }

  lemma {:induction false} RepeatedMembership(order: seq<string>, all: seq<string>, x: string)
    ensures x in Repeated(order, all) <==> x in order && multiset(all)[x] > 1
    decreases |order|
  {
    if order != [] {
      var init := order[..|order| - 1];
      RepeatedMembership(init, all, x);
      assert order == init + [order[|order| - 1]];
    }
  }

  /** Soundness and completeness: a phrase is returned exactly when at
      least two (length, start) pairs in range give it. */
  lemma DuplicatedPhrasesExact(words: seq<string>, lo: nat, hi: int)
    ensures forall p :: p in DuplicatedPhrases(words, lo, hi) <==> PairCount(words, lo, hi, p) >= 2
  {
    var all := AllWindows(words, lo, hi);
    forall p ensures p in DuplicatedPhrases(words, lo, hi) <==> PairCount(words, lo, hi, p) >= 2 {
      RepeatedMembership(Dedup(all), all, p);
      AllWindowsCount(words, lo, hi, p);
    }
  }

  /** Every window in the enumeration is the space-join of `k` consecutive
      words for a length `k` in range, and every such join is in it. */
  lemma {:induction false} AllWindowsAreWindows(words: seq<string>, lo: nat, hi: int, p: string)
    ensures p in AllWindows(words, lo, hi) <==>
      exists k: nat, i: nat :: lo <= k <= hi && i + k <= |words| && Window(words, i, k) == p
    decreases if hi < lo then 0 else hi - lo + 1
  {
    if hi >= lo {
      AllWindowsAreWindows(words, lo, hi - 1, p);
      var ws := WindowsOfLength(words, hi);
      assert AllWindows(words, lo, hi) == AllWindows(words, lo, hi - 1) + ws;
      if p in ws {
        var i :| 0 <= i < |ws| && ws[i] == p;
        assert Window(words, i, hi) == p;
      }
      if exists k: nat, i: nat :: lo <= k <= hi && i + k <= |words| && Window(words, i, k) == p {
        var k: nat, i: nat :| lo <= k <= hi && i + k <= |words| && Window(words, i, k) == p;
        if k == hi {
          assert ws[i] == p;
        }
      }
    }
  }

  /** Soundness in terms of the text: every returned phrase is the
      space-join of `k` consecutive words of it, `lo <= k <= hi`. */
  lemma DuplicatedPhrasesAreWindows(words: seq<string>, lo: nat, hi: int, p: string)
    requires p in DuplicatedPhrases(words, lo, hi)
    ensures exists k: nat, i: nat :: lo <= k <= hi && i + k <= |words| && Window(words, i, k) == p
  {
    var all := AllWindows(words, lo, hi);
    RepeatedMembership(Dedup(all), all, p);
    AllWindowsAreWindows(words, lo, hi, p);
  }

  lemma {:induction false} RepeatedNoDuplicates(order: seq<string>, all: seq<string>)
    requires NoDuplicates(order)
    ensures NoDuplicates(Repeated(order, all))
    decreases |order|
  {
    if order != [] {
      var init := order[..|order| - 1];
      var x := order[|order| - 1];
      RepeatedNoDuplicates(init, all);
      assert x !in init;
    }
  }

  /** No phrase is returned twice. */
  lemma DuplicatedPhrasesDistinct(words: seq<string>, lo: nat, hi: int)
    ensures NoDuplicates(DuplicatedPhrases(words, lo, hi))
  {
    var all := AllWindows(words, lo, hi);
    RepeatedNoDuplicates(Dedup(all), all);
  }

  lemma {:induction false} AllWindowsEmpty(words: seq<string>, lo: nat, hi: int)
    requires hi < lo || |words| < lo
    ensures AllWindows(words, lo, hi) == []
    decreases if hi < lo then 0 else hi - lo + 1
  {
    if hi >= lo {
      AllWindowsEmpty(words, lo, hi - 1);
    }
  }

  /** An empty length range, or a text shorter than the shortest phrase,
      gives no phrase. */
  lemma DuplicatedPhrasesEmpty(words: seq<string>, lo: nat, hi: int)
    requires hi < lo || |words| < lo
    ensures DuplicatedPhrases(words, lo, hi) == []
  {
    AllWindowsEmpty(words, lo, hi);
  }

  /** The position of the first occurrence of `x` in `s`. */
  function FirstIndex(s: seq<string>, x: string): (n: nat)
    requires x in s
    ensures n < |s| && s[n] == x && x !in s[..n]
  {
    if s[0] == x then 0 else 1 + FirstIndex(s[1..], x)
  }

  /** The elements of `d` occur in `s`, and in the order of their first
      occurrences there. */
  ghost predicate FirstOccurrenceOrder(d: seq<string>, s: seq<string>) {
    && (forall x :: x in d ==> x in s)
    && forall a, b :: 0 <= a < b < |d| ==> FirstIndex(s, d[a]) < FirstIndex(s, d[b])
  }

  lemma FirstIndexExtend(s: seq<string>, y: string, x: string)
    requires x in s
    ensures FirstIndex(s + [y], x) == FirstIndex(s, x)
  {
    var n := FirstIndex(s, x);
    assert (s + [y])[n] == x;
    assert (s + [y])[..n] == s[..n];
  }

  lemma {:induction false} DedupOrder(s: seq<string>)
    ensures FirstOccurrenceOrder(Dedup(s), s)
    decreases |s|
  {
    if s != [] {
      var init := s[..|s| - 1];
      var x := s[|s| - 1];
      DedupOrder(init);
      assert s == init + [x];
      var d := Dedup(s);
      forall y | y in init ensures FirstIndex(s, y) == FirstIndex(init, y) {
        FirstIndexExtend(init, x, y);
      }
      if x !in init {
        assert FirstIndex(s, x) == |init| by {
          assert s[|init|] == x && s[..|init|] == init;
        }
      }
    }
  }

  lemma {:induction false} RepeatedOrder(order: seq<string>, all: seq<string>)
    requires FirstOccurrenceOrder(order, all)
    ensures FirstOccurrenceOrder(Repeated(order, all), all)
    decreases |order|
  {
    if order != [] {
      var init := order[..|order| - 1];
      var x := order[|order| - 1];
      RepeatedOrder(init, all);
      var r := Repeated(order, all);
      var ri := Repeated(init, all);
      if multiset(all)[x] > 1 {
        forall a, b | 0 <= a < b < |r| ensures FirstIndex(all, r[a]) < FirstIndex(all, r[b]) {
          if b == |ri| {
            assert r[a] == ri[a] && ri[a] in init;
            var a' :| 0 <= a' < |init| && init[a'] == ri[a];
            assert order[a'] == r[a] && order[|order| - 1] == r[b];
          } else {
            assert r[a] == ri[a] && r[b] == ri[b];
          }
        }
      }
    }
  }

  /** The phrases come out in the order the counter first met them: by
      window length, then by start position. */
  lemma DuplicatedPhrasesOrder(words: seq<string>, lo: nat, hi: int)
    ensures FirstOccurrenceOrder(DuplicatedPhrases(words, lo, hi), AllWindows(words, lo, hi))
  {
    var all := AllWindows(words, lo, hi);
    DedupOrder(all);
    RepeatedOrder(Dedup(all), all);
  }
}
