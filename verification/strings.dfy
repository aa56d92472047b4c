/** Python's built-in string operations that the importer and the phrase
    counter rely on: the whitespace test shared by `str.strip()` and
    `str.split()`, those two operations, and `str.join`. */
module Strings {

  /** `str.isspace` for one character: the ASCII controls TAB..CR, the
      separators 0x1C..0x1F, the space, and the Unicode space characters. */
  predicate IsSpace(c: char) {
    || c == ' '
    || ('\t' <= c <= '\r')
    || ('\U{1C}' <= c <= '\U{1F}')
    || c == '\U{85}' || c == '\U{A0}' || c == '\U{1680}'
    || ('\U{2000}' <= c <= '\U{200A}')
    || c == '\U{2028}' || c == '\U{2029}' || c == '\U{202F}' || c == '\U{205F}' || c == '\U{3000}'
  }

  /** No string occurs twice in the list. */
  predicate NoDuplicates(s: seq<string>) {
    forall a, b :: 0 <= a < b < |s| ==> s[a] != s[b]
  }

  ghost predicate NoSpace(s: string) {
    forall i :: 0 <= i < |s| ==> !IsSpace(s[i])
  }

  /** Where `str.lstrip()` starts keeping: the first index at or after `i`
      that holds a non-whitespace character, or `|s|` when there is none. */
  function SkipSpace(s: string, i: nat): (j: nat)
    requires i <= |s|
    ensures i <= j <= |s|
    ensures forall k :: i <= k < j ==> IsSpace(s[k])
    ensures j < |s| ==> !IsSpace(s[j])
    decreases |s| - i
  {
    if i < |s| && IsSpace(s[i]) then SkipSpace(s, i + 1) else i
  }

  /** Where `str.rstrip()` stops keeping within `s[lo..hi]`: the end of
      that slice once its trailing whitespace is dropped. */
  function SkipSpaceBack(s: string, lo: nat, hi: nat): (j: nat)
    requires lo <= hi <= |s|
    ensures lo <= j <= hi
    ensures forall k :: j <= k < hi ==> IsSpace(s[k])
    ensures lo < j ==> !IsSpace(s[j - 1])
    decreases hi
  {
    if lo < hi && IsSpace(s[hi - 1]) then SkipSpaceBack(s, lo, hi - 1) else hi
  }

  /** `str.strip()`: it drops only whitespace, and only from the two ends;
      what it keeps neither starts nor ends with whitespace. */
  function Strip(s: string): (r: string)
    ensures exists i, j ::
      && 0 <= i <= j <= |s| && r == s[i..j]
      && (forall k :: 0 <= k < i || j <= k < |s| ==> IsSpace(s[k]))
      && (i < j ==> !IsSpace(s[i]) && !IsSpace(s[j - 1]))
  {
    var i := SkipSpace(s, 0);
    var j := SkipSpaceBack(s, i, |s|);
    s[i..j]
  }

  /** A string without whitespace is its own strip. */
  lemma StripNoSpace(s: string)
    requires NoSpace(s)
    ensures Strip(s) == s
  {
  }

  /** The length of the leading run of non-whitespace characters. */
  function WordLength(s: string): (n: nat)
    ensures 0 < |s| && !IsSpace(s[0]) ==> 0 < n
    ensures n <= |s| && NoSpace(s[..n])
    ensures n < |s| ==> IsSpace(s[n])
  {
    if |s| == 0 || IsSpace(s[0]) then 0 else 1 + WordLength(s[1..])
  }

  /** `str.split()` with no separator: the maximal runs of non-whitespace
      characters, in order; runs of whitespace, leading and trailing
      whitespace separate words and never produce an empty word. */
  function SplitWords(s: string): (ws: seq<string>)
    ensures forall w :: w in ws ==> w != [] && NoSpace(w)
    ensures ws == [] <==> forall i :: 0 <= i < |s| ==> IsSpace(s[i])
    decreases |s|
  {
    if s == [] then []
    else if IsSpace(s[0]) then SplitWords(s[1..])
    else
      var n := WordLength(s);
      [s[..n]] + SplitWords(s[n..])
  }

  /** The length of the leading word is fixed by where the first whitespace
      character (or the end) is. */
  lemma {:induction false} WordLengthUnique(s: string, n: nat)
    requires n <= |s| && NoSpace(s[..n]) && (n == |s| || IsSpace(s[n]))
    ensures WordLength(s) == n
    decreases |s|
  {
    if n > 0 {
      assert s[..n][0] == s[0];
      assert s[1..][..n - 1] == s[..n][1..];
      WordLengthUnique(s[1..], n - 1);
    }
  }

  /** A single run of non-whitespace is one word, itself. */
  lemma SplitWordsOfWord(w: string)
    requires w != [] && NoSpace(w)
    ensures SplitWords(w) == [w]
  {
    assert w[..|w|] == w;
    WordLengthUnique(w, |w|);
    assert w[|w|..] == [];
  }

  /** A leading run of `m` non-whitespace characters ended by whitespace
      or by the end of the text is the first word. */
  lemma SplitWordsLeading(x: string, m: nat)
    requires 0 < m <= |x| && NoSpace(x[..m]) && (m == |x| || IsSpace(x[m]))
    ensures SplitWords(x) == [x[..m]] + SplitWords(x[m..])
  {
    assert x[..m][0] == x[0];
    WordLengthUnique(x, m);
  }

  lemma AppendAfterWord(a: string, c: char, b: string, m: nat)
    requires m <= |a| && NoSpace(a[..m]) && IsSpace(c) && (m == |a| || IsSpace(a[m]))
    ensures var x := a + [c] + b;
      m < |x| && x[..m] == a[..m] && IsSpace(x[m]) && x[m..] == a[m..] + [c] + b
  {
    var x := a + [c] + b;
    assert x[..m] == a[..m];
    assert x[m] == if m < |a| then a[m] else c;
    assert x[m..] == a[m..] + [c] + b;
  }

  /** A whitespace character is a word boundary: the words on either side
      of it are split independently. */
  lemma {:induction false} SplitWordsAtSpace(a: string, c: char, b: string)
    requires IsSpace(c)
    ensures SplitWords(a + [c] + b) == SplitWords(a) + SplitWords(b)
    decreases |a|
  {
    var x := a + [c] + b;
    if a == [] {
      assert x[0] == c && x[1..] == b;
    } else if IsSpace(a[0]) {
      assert x[0] == a[0] && x[1..] == a[1..] + [c] + b;
      SplitWordsAtSpace(a[1..], c, b);
    } else {
      var m := WordLength(a);
      SplitWordsAtSpace(a[m..], c, b);
      SplitWordsAfterWord(a, c, b);
    }
  }

  /** The step of `SplitWordsAtSpace` when `a` starts with a word. */
  lemma SplitWordsAfterWord(a: string, c: char, b: string)
    requires IsSpace(c) && a != [] && !IsSpace(a[0])
    requires var m := WordLength(a);
      SplitWords(a[m..] + [c] + b) == SplitWords(a[m..]) + SplitWords(b)
    ensures SplitWords(a + [c] + b) == SplitWords(a) + SplitWords(b)
  {
    var m := WordLength(a);
    SplitWordsLeading(a, m);
    SplitWordsLeadingAppend(a, c, b, m);
  }

  lemma SplitWordsLeadingAppend(a: string, c: char, b: string, m: nat)
    requires IsSpace(c) && 0 < m <= |a| && NoSpace(a[..m]) && (m == |a| || IsSpace(a[m]))
    ensures SplitWords(a + [c] + b) == [a[..m]] + SplitWords(a[m..] + [c] + b)
  {
    AppendAfterWord(a, c, b, m);
    SplitWordsLeading(a + [c] + b, m);
  }

  function Concat(ws: seq<string>): string {
    if ws == [] then [] else ws[0] + Concat(ws[1..])
  }

  /** The characters of `s` that are not whitespace, in order. */
  function NonSpace(s: string): string {
    if s == [] then [] else (if IsSpace(s[0]) then [] else [s[0]]) + NonSpace(s[1..])
  }

  lemma {:induction false} NonSpaceAppend(a: string, b: string)
    ensures NonSpace(a + b) == NonSpace(a) + NonSpace(b)
    decreases |a|
  {
    if a != [] {
      assert (a + b)[1..] == a[1..] + b;
      NonSpaceAppend(a[1..], b);
    } else {
      assert a + b == b;
    }
  }

  lemma {:induction false} NonSpaceOfWord(w: string)
    requires NoSpace(w)
    ensures NonSpace(w) == w
    decreases |w|
  {
    if w != [] {
      NonSpaceOfWord(w[1..]);
    }
  }

  /** Splitting loses nothing but whitespace: the words, put back together,
      are exactly the non-whitespace characters of the text. */
  lemma {:induction false} SplitWordsKeepsText(s: string)
    ensures Concat(SplitWords(s)) == NonSpace(s)
    decreases |s|
  {
    if s == [] {
    } else if IsSpace(s[0]) {
      SplitWordsKeepsText(s[1..]);
    } else {
      var n := WordLength(s);
      assert s == s[..n] + s[n..];
      SplitWordsKeepsText(s[n..]);
      NonSpaceAppend(s[..n], s[n..]);
      NonSpaceOfWord(s[..n]);
      var ws := SplitWords(s);
      assert ws == [s[..n]] + SplitWords(s[n..]);
      assert ws[1..] == SplitWords(s[n..]);
    }
  }

  /** `sep.join(ws)`. */
  function Join(sep: string, ws: seq<string>): string {
    if ws == [] then []
    else if |ws| == 1 then ws[0]
    else ws[0] + sep + Join(sep, ws[1..])
  }

  /** Joining one more element at the end adds the separator and that element. */
  lemma {:induction false} JoinSnoc(sep: string, ws: seq<string>, w: string)
    requires ws != []
    ensures Join(sep, ws + [w]) == Join(sep, ws) + sep + w
    decreases |ws|
  {
    if |ws| == 1 {
      assert ws + [w] == [ws[0], w];
    } else {
      assert (ws + [w])[1..] == ws[1..] + [w];
      JoinSnoc(sep, ws[1..], w);
    }
  }

  /** The number of occurrences of `c` in `s`. */
  function Occurrences(s: string, c: char): nat {
    if s == [] then 0 else (if s[0] == c then 1 else 0) + Occurrences(s[1..], c)
  }

  lemma {:induction false} OccurrencesAppend(a: string, b: string, c: char)
    ensures Occurrences(a + b, c) == Occurrences(a, c) + Occurrences(b, c)
    decreases |a|
  {
    if a == [] {
      assert a + b == b;
    } else {
      assert (a + b)[1..] == a[1..] + b;
      OccurrencesAppend(a[1..], b, c);
    }
  }

  lemma {:induction false} OccurrencesAbsent(s: string, c: char)
    requires c !in s
    ensures Occurrences(s, c) == 0
    decreases |s|
  {
    if s != [] {
      OccurrencesAbsent(s[1..], c);
    }
  }
}
