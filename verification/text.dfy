/**
 String helpers behind the scanner's line handling: Python's `str.strip()`,
 `str.lower()` and `str.split(sep)[0]`, restricted to ASCII.
 */
module Text {

  /** The ASCII characters `str.strip()` removes: tab, newline, vertical tab,
      form feed, carriage return, the four information separators and space. */
  predicate IsSpace(c: char) {
    c == ' ' || (9 <= c as int <= 13) || (28 <= c as int <= 31)
  }

  predicate AllSpace(s: string) {
    forall i :: 0 <= i < |s| ==> IsSpace(s[i])
  }

  /** Every character of `s` in positions `lo` to `hi - 1` is whitespace. */
  predicate SpaceBetween(s: string, lo: int, hi: int) {
    forall k :: lo <= k < hi && 0 <= k < |s| ==> IsSpace(s[k])
  }

  /** Where the text of `s` begins, searching from `lo`: the end of the whitespace run at `lo`. */
  function ContentStart(s: string, lo: nat): (i: nat)
    requires lo <= |s|
    ensures lo <= i <= |s|
    ensures SpaceBetween(s, lo, i)
    ensures i < |s| ==> !IsSpace(s[i])
    decreases |s| - lo
  {
    if lo < |s| && IsSpace(s[lo]) then ContentStart(s, lo + 1) else lo
  }

  /** Where the text of `s[lo..hi]` ends: `hi` less its trailing whitespace. */
  function ContentEnd(s: string, lo: nat, hi: nat): (j: nat)
    requires lo <= hi <= |s|
    ensures lo <= j <= hi
    ensures SpaceBetween(s, j, hi)
    ensures lo < j ==> !IsSpace(s[j - 1])
    decreases hi
  {
    if lo < hi && IsSpace(s[hi - 1]) then ContentEnd(s, lo, hi - 1) else hi
  }

  /** `s.strip()`: whitespace removed at both ends. */
  function Strip(s: string): (r: string)
    ensures |r| <= |s|
    ensures r != [] ==> !IsSpace(r[0]) && !IsSpace(r[|r| - 1])
    ensures r == [] <==> AllSpace(s)
  {
    var i := ContentStart(s, 0);
    var j := ContentEnd(s, i, |s|);
    assert i == j ==> AllSpace(s);
    s[i..j]
  }

  /** Stripping removes whitespace from the two ends of `s` and nothing else. */
  lemma StripKeepsInfix(s: string)
    ensures exists i, j :: 0 <= i <= j <= |s| && Strip(s) == s[i..j] && SpaceBetween(s, 0, i) && SpaceBetween(s, j, |s|)
  {
    var i := ContentStart(s, 0);
    var j := ContentEnd(s, i, |s|);
    assert Strip(s) == s[i..j];
  }

  lemma StripIdempotent(s: string)
    ensures Strip(Strip(s)) == Strip(s)
  {
    StripUnpadded(Strip(s));
  }

  /** A string with no whitespace at either end is its own stripped form. */
  lemma StripUnpadded(s: string)
    requires s == [] || (!IsSpace(s[0]) && !IsSpace(s[|s| - 1]))
    ensures Strip(s) == s
  {
    if s != [] {
      assert ContentStart(s, 0) == 0;
      assert ContentEnd(s, 0, |s|) == |s|;
    }
  }

  predicate IsUpper(c: char) {
    'A' <= c <= 'Z'
  }

  /** `c.lower()` for ASCII: upper-case letters move to lower case, all else stays. */
  function LowerChar(c: char): (d: char)
    ensures !IsUpper(d)
    ensures !IsUpper(c) ==> d == c
    ensures IsUpper(c) ==> 'a' <= d <= 'z' && d as int - c as int == 'a' as int - 'A' as int
  {
    if IsUpper(c) then (c as int - 'A' as int + 'a' as int) as char else c
  }

  predicate IsLowerCase(s: string) {
    forall i :: 0 <= i < |s| ==> !IsUpper(s[i])
  }

  /** `s.lower()`: the case-folding every comparison in the scanner goes through. */
  function Lower(s: string): (r: string)
    ensures |r| == |s|
    ensures forall i :: 0 <= i < |s| ==> r[i] == LowerChar(s[i])
    ensures IsLowerCase(r)
  {
    if s == [] then [] else [LowerChar(s[0])] + Lower(s[1..])
  }

  /** Case-folding is idempotent, and the strings it leaves alone are exactly
      the ones already in lower case. */
  lemma LowerIdempotent(s: string)
    ensures Lower(Lower(s)) == Lower(s)
    ensures Lower(s) == s <==> IsLowerCase(s)
  {
  }

  /** `sep` occurs in `s` starting at position `i`. */
  predicate OccursAt(s: string, sep: string, i: int) {
    0 <= i && i + |sep| <= |s| && s[i..i + |sep|] == sep
  }

  predicate Contains(s: string, sep: string) {
    exists i :: 0 <= i <= |s| && OccursAt(s, sep, i)
  }

  /** `s.split(sep)[0]`: the prefix of `s` before the first occurrence of `sep`,
      or all of `s` when `sep` does not occur. Python refuses an empty separator. */
  function SplitHead(s: string, sep: string): (r: string)
    requires sep != []
    ensures r <= s
    ensures forall i :: 0 <= i < |r| ==> !OccursAt(s, sep, i)
    ensures r == s || OccursAt(s, sep, |r|)
    ensures !Contains(r, sep)
    ensures r == s <==> !Contains(s, sep)
    decreases |s|
  {
    if |s| < |sep| then
      assert forall i :: !OccursAt(s, sep, i);
      s
    else if s[..|sep|] == sep then
      assert OccursAt(s, sep, 0);
      []
    else
      var rest := SplitHead(s[1..], sep);
      OccursShift(s, sep);
      OccursInPrefix([s[0]] + rest, s, sep);
      [s[0]] + rest
  }

  /** An occurrence past the first character of `s` is one in its tail, shifted by one. */
  lemma OccursShift(s: string, sep: string)
    requires s != []
    ensures forall i :: 1 <= i ==> (OccursAt(s, sep, i) <==> OccursAt(s[1..], sep, i - 1))
  {
    forall i | 1 <= i
      ensures OccursAt(s, sep, i) <==> OccursAt(s[1..], sep, i - 1)
    {
      if i + |sep| <= |s| {
        var t := s[1..];
        forall j {:trigger t[i - 1..i - 1 + |sep|][j]} | 0 <= j < |sep|
          ensures s[i..i + |sep|][j] == t[i - 1..i - 1 + |sep|][j]
        {
          assert t[i - 1 + j] == s[i + j];
        }
        assert s[i..i + |sep|] == t[i - 1..i - 1 + |sep|];
      }
    }
  }

  /** An occurrence in a prefix of `s` is one in `s`. */
  lemma OccursInPrefix(r: string, s: string, sep: string)
    requires r <= s
    ensures forall i :: OccursAt(r, sep, i) ==> OccursAt(s, sep, i)
  {
    forall i | OccursAt(r, sep, i)
      ensures OccursAt(s, sep, i)
    {
      assert r[i..i + |sep|] == s[i..i + |sep|];
    }
  }
}
