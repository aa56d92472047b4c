/** Column-header cleaning of the spreadsheet importer
    (`DataImporter.clean_column_headers`): strip surrounding whitespace,
    turn each space into an underscore, drop every character outside
    `[A-Za-z0-9_]`, then lower-case. */
module Headers {
  import opened Strings

  /** The characters the removal step keeps: ASCII letters, digits and `_`. */
  predicate IsWordChar(c: char) {
    ('A' <= c <= 'Z') || ('a' <= c <= 'z') || ('0' <= c <= '9') || c == '_'
  }

  /** The characters a cleaned header is made of. */
  predicate IsCleanChar(c: char) {
    ('a' <= c <= 'z') || ('0' <= c <= '9') || c == '_'
  }

  ghost predicate IsClean(s: string) {
    forall i :: 0 <= i < |s| ==> IsCleanChar(s[i])
  }

  /** Every space becomes an underscore; every other character stays. */
  function ReplaceSpaces(s: string): (r: string)
    ensures |r| == |s| && ' ' !in r
    ensures forall i :: 0 <= i < |s| ==> (s[i] == ' ' ==> r[i] == '_') && (s[i] != ' ' ==> r[i] == s[i])
  {
    seq(|s|, i requires 0 <= i < |s| => if s[i] == ' ' then '_' else s[i])
  }

  /** Removal of the characters outside `[A-Za-z0-9_]`, order kept. */
  function KeepWordChars(s: string): (r: string)
    ensures |r| <= |s|
    ensures forall i :: 0 <= i < |r| ==> IsWordChar(r[i])
  {
    if s == [] then []
    else (if IsWordChar(s[0]) then [s[0]] else []) + KeepWordChars(s[1..])
  }

  /** Lower-casing. Only ASCII letters are left when it runs, so the ASCII
      case mapping gives the same result as Python's `str.lower`. */
  function LowerChar(c: char): char {
    if 'A' <= c <= 'Z' then (c as int - 'A' as int + 'a' as int) as char else c
  }

  /** No upper-case ASCII letter is left; each one becomes its lower-case
      letter, and every other character stays. */
  function Lower(s: string): (r: string)
    ensures |r| == |s|
    ensures forall i :: 0 <= i < |r| ==> !('A' <= r[i] <= 'Z')
    ensures forall i :: 0 <= i < |s| ==>
      && ('A' <= s[i] <= 'Z' ==> r[i] as int == s[i] as int + 32)
      && (!('A' <= s[i] <= 'Z') ==> r[i] == s[i])
  {
    seq(|s|, i requires 0 <= i < |s| => LowerChar(s[i]))
  }

  /** One header through the four steps, in the source's order. */
  function CleanHeader(h: string): (r: string)
    ensures IsClean(r)
    ensures |r| <= |h|
  {
    Lower(KeepWordChars(ReplaceSpaces(Strip(h))))
  }

  /** The whole header row, position by position. */
  function CleanHeaders(hs: seq<string>): (r: seq<string>)
    ensures |r| == |hs|
    ensures forall i :: 0 <= i < |hs| ==> r[i] == CleanHeader(hs[i])
  {
    seq(|hs|, i requires 0 <= i < |hs| => CleanHeader(hs[i]))
  }

  /** The removal works character by character: on one character it keeps
      exactly `[A-Za-z0-9_]`, and on a concatenation it is the
      concatenation of the two results, so every kept character keeps its
      order. */
  lemma KeepWordCharsOne(c: char)
    ensures KeepWordChars([c]) == if IsWordChar(c) then [c] else []
  {
    assert [c][1..] == [];
  }

  lemma {:induction false} KeepWordCharsAppend(a: string, b: string)
    ensures KeepWordChars(a + b) == KeepWordChars(a) + KeepWordChars(b)
    decreases |a|
  {
    if a == [] {
      assert a + b == b;
    } else {
      assert (a + b)[0] == a[0];
      assert (a + b)[1..] == a[1..] + b;
      KeepWordCharsAppend(a[1..], b);
    }
  }

  /** The key-column headers: `Smith A` becomes `smith_a`, the name the
      duplicate check looks up, and so does `smith_a` itself. */
  lemma CleanHeaderSmithA()
    ensures CleanHeader("Smith A") == "smith_a"
    ensures CleanHeader("smith_a") == "smith_a"
  {
    SmithAStrip();
    SmithAReplace();
    SmithAKeep();
    SmithALower();
    CleanHeaderFixesClean("smith_a");
  }

  lemma SmithAStrip()
    ensures Strip("Smith A") == "Smith A"
  {
    var h := "Smith A";
    assert SkipSpace(h, 0) == 0;
    assert SkipSpaceBack(h, 0, |h|) == |h|;
    assert h[0..|h|] == h;
  }

  lemma SmithAReplace()
    ensures ReplaceSpaces("Smith A") == "Smith_A"
  {
    var r := ReplaceSpaces("Smith A");
    assert r[5] == '_';
  }

  lemma SmithAKeep()
    ensures KeepWordChars("Smith_A") == "Smith_A"
  {
    var w := "Smith_A";
    assert forall i :: 0 <= i < |w| ==> IsWordChar(w[i]);
    KeepWordCharsOfWord(w);
  }

  lemma SmithALower()
    ensures Lower("Smith_A") == "smith_a"
  {
    var r := Lower("Smith_A");
    assert r[0] == 's' && r[1] == 'm' && r[2] == 'i' && r[3] == 't';
    assert r[4] == 'h' && r[5] == '_' && r[6] == 'a';
  }

  lemma {:induction false} KeepWordCharsOfWord(s: string)
    requires forall i :: 0 <= i < |s| ==> IsWordChar(s[i])
    ensures KeepWordChars(s) == s
    decreases |s|
  {
    if s != [] {
      KeepWordCharsOfWord(s[1..]);
    }
  }

  lemma KeepWordCharsOfClean(s: string)
    requires IsClean(s)
    ensures KeepWordChars(s) == s
  {
    assert forall i :: 0 <= i < |s| ==> IsCleanChar(s[i]) ==> IsWordChar(s[i]);
    KeepWordCharsOfWord(s);
  }

  lemma CleanCharIsNotSpace(c: char)
    requires IsCleanChar(c)
    ensures !IsSpace(c)
  {
  }

  lemma CleanHasNoSpace(s: string)
    requires IsClean(s)
    ensures NoSpace(s)
  {
    forall i | 0 <= i < |s| ensures !IsSpace(s[i]) {
      CleanCharIsNotSpace(s[i]);
    }
  }

  /** A cleaned header holds no whitespace at all, so none at either end. */
  lemma CleanHeaderHasNoSpace(h: string)
    ensures NoSpace(CleanHeader(h))
    ensures Strip(CleanHeader(h)) == CleanHeader(h)
  {
    CleanHasNoSpace(CleanHeader(h));
    StripNoSpace(CleanHeader(h));
  }

  /** A header that is already clean passes through every step unchanged. */
  lemma CleanHeaderFixesClean(h: string)
    requires IsClean(h)
    ensures CleanHeader(h) == h
  {
    CleanHasNoSpace(h);
    StripNoSpace(h);
    ReplaceSpacesOfClean(h);
    KeepWordCharsOfClean(h);
    LowerOfClean(h);
  }

  lemma ReplaceSpacesOfClean(h: string)
    requires IsClean(h)
    ensures ReplaceSpaces(h) == h
  {
    forall i | 0 <= i < |h| ensures ReplaceSpaces(h)[i] == h[i] {
      assert IsCleanChar(h[i]);
    }
  }

  lemma LowerOfClean(h: string)
    requires IsClean(h)
    ensures Lower(h) == h
  {
    forall i | 0 <= i < |h| ensures Lower(h)[i] == h[i] {
      assert IsCleanChar(h[i]);
    }
  }

  /** Cleaning is idempotent. */
  lemma CleanHeaderIdempotent(h: string)
    ensures CleanHeader(CleanHeader(h)) == CleanHeader(h)
  {
    CleanHeaderFixesClean(CleanHeader(h));
  }

  /** Cleaning the header row twice is cleaning it once. */
  lemma CleanHeadersIdempotent(hs: seq<string>)
    ensures CleanHeaders(CleanHeaders(hs)) == CleanHeaders(hs)
  {
    var once := CleanHeaders(hs);
    forall i | 0 <= i < |hs| ensures CleanHeader(once[i]) == once[i] {
      CleanHeaderIdempotent(hs[i]);
    }
  }
}
