/** Characters and strings as Python's `re` and `str` treat them in ufc.py,
    restricted to ASCII case folding and ASCII digits. */
module Text {

  datatype Option<T> = None | Some(value: T)

  predicate IsDigit(c: char) { '0' <= c <= '9' }
  predicate IsUpper(c: char) { 'A' <= c <= 'Z' }
  predicate IsLower(c: char) { 'a' <= c <= 'z' }
  predicate IsLetter(c: char) { IsUpper(c) || IsLower(c) }

  /** `\w` on the characters the model folds: letters, digits and `_`. */
  predicate IsWordChar(c: char) { IsLetter(c) || IsDigit(c) || c == '_' }

  /** `\s` of Python's `re` on a str pattern (the characters `str.isspace` accepts). */
  predicate IsSpace(c: char) {
    var n := c as int;
    n == 0x20 || 0x09 <= n <= 0x0D || 0x1C <= n <= 0x1F || n == 0x85 || n == 0xA0
    || n == 0x1680 || 0x2000 <= n <= 0x200A || n == 0x2028 || n == 0x2029
    || n == 0x202F || n == 0x205F || n == 0x3000
  }

  function Lower(c: char): (r: char)
    ensures IsUpper(c) ==> IsLower(r)
    ensures !IsUpper(c) ==> r == c
  {
    if IsUpper(c) then (c as int + 32) as char else c
  }

  function Upper(c: char): (r: char)
    ensures IsLower(c) ==> IsUpper(r)
    ensures !IsLower(c) ==> r == c
  {
    if IsLower(c) then (c as int - 32) as char else c
  }

  /** `s` holds `w` at offset `i`, ignoring ASCII case (an IGNORECASE literal). */
  predicate HasAt(s: string, i: nat, w: string) {
    i + |w| <= |s| && FoldFrom(s, i, w, 0)
  }

  /** s[i + k..i + |w|] equals w[k..] up to ASCII case, compared one character at a time. */
  predicate FoldFrom(s: string, i: nat, w: string, k: nat)
    requires i + |w| <= |s|
    decreases |w| - k
  {
    k >= |w| || (Lower(s[i + k]) == Lower(w[k]) && FoldFrom(s, i, w, k + 1))
  }

  lemma {:induction false} FoldFromChars(s: string, i: nat, w: string, k: nat)
    requires i + |w| <= |s|
    ensures FoldFrom(s, i, w, k) <==> forall m :: k <= m < |w| ==> Lower(s[i + m]) == Lower(w[m])
    decreases |w| - k
  {
    if k < |w| { FoldFromChars(s, i, w, k + 1); }
  }

  /** HasAt compares every character of the pattern. */
  lemma HasAtChars(s: string, i: nat, w: string)
    ensures HasAt(s, i, w) <==> i + |w| <= |s| && forall m :: 0 <= m < |w| ==> Lower(s[i + m]) == Lower(w[m])
  {
    if i + |w| <= |s| { FoldFromChars(s, i, w, 0); }
  }

  predicate IsPrefix(p: string, s: string) { |p| <= |s| && s[..|p|] == p }

  /** `w` is a substring of `s` (Python's `w in s`). */
  ghost predicate Occurs(w: string, s: string) {
    exists i :: OccursAt(w, s, i)
  }

  predicate OccursAt(w: string, s: string, i: int) {
    0 <= i <= |s| - |w| && s[i..i + |w|] == w
  }

  /** `s.replace(pat, rep)`: leftmost, non-overlapping, every occurrence. */
  function Replace(s: string, pat: string, rep: string): string
    requires pat != []
    decreases |s|
  {
    if |s| < |pat| then s
    else if s[..|pat|] == pat then rep + Replace(s[|pat|..], pat, rep)
    else [s[0]] + Replace(s[1..], pat, rep)
  }

  /** Every occurrence of the pattern is rewritten, so at least one copy of
      the replacement survives when the pattern occurred. */
  lemma {:induction false} ReplaceKeepsReplacement(s: string, pat: string, rep: string)
    requires pat != []
    requires Occurs(pat, s)
    ensures Occurs(rep, Replace(s, pat, rep))
    decreases |s|
  {
    var i :| OccursAt(pat, s, i);
    if s[..|pat|] == pat {
      var r := Replace(s, pat, rep);
      assert OccursAt(rep, r, 0);
    } else {
      assert i > 0;
      assert s[1..][i - 1..i - 1 + |pat|] == s[i..i + |pat|];
      assert OccursAt(pat, s[1..], i - 1);
      ReplaceKeepsReplacement(s[1..], pat, rep);
      var t := Replace(s[1..], pat, rep);
      var j :| OccursAt(rep, t, j);
      assert ([s[0]] + t)[j + 1..j + 1 + |rep|] == t[j..j + |rep|];
      assert OccursAt(rep, [s[0]] + t, j + 1);
    }
  }

  /** r[k] is s[k], or the one character the replacement changes in an
      occurrence of `pat` starting at k - d. */
  predicate KeptOrSwapped(s: string, r: string, pat: string, rep: string, d: nat, k: nat)
    requires k < |s| && k < |r| && d < |pat| && d < |rep|
  {
    r[k] == s[k] || (OccursAt(pat, s, k - d) && s[k] == pat[d] && r[k] == rep[d])
  }

  /** A replacement that differs from its pattern only at offset `d` keeps
      the length and changes only the characters at offset `d` of the
      occurrences. */
  lemma {:induction false} ReplaceOneChar(s: string, pat: string, rep: string, d: nat)
    requires |rep| == |pat| && d < |pat|
    requires forall m :: 0 <= m < |pat| && m != d ==> pat[m] == rep[m]
    ensures |Replace(s, pat, rep)| == |s|
    ensures forall k :: 0 <= k < |s| ==> KeptOrSwapped(s, Replace(s, pat, rep), pat, rep, d, k)
    decreases |s|
  {
    var r := Replace(s, pat, rep);
    if |s| < |pat| {
      assert r == s;
    } else {
      var hit := s[..|pat|] == pat;
      var n := if hit then |pat| else 1;
      var tail := s[n..];
      ReplaceOneChar(tail, pat, rep, d);
      var rt := Replace(tail, pat, rep);
      if hit {
        assert r == rep + rt;
        KeptHead(s, r, pat, rep, d);
      } else {
        assert r == [s[0]] + rt;
      }
      KeptShift(s, r, pat, rep, d, n);
    }
  }

  /** An occurrence at the head of `s`, replaced at the head of `r`. */
  lemma KeptHead(s: string, r: string, pat: string, rep: string, d: nat)
    requires |rep| == |pat| && d < |pat| && |pat| <= |s| && |pat| <= |r|
    requires forall m :: 0 <= m < |pat| && m != d ==> pat[m] == rep[m]
    requires s[..|pat|] == pat && r[..|pat|] == rep
    ensures forall k :: 0 <= k < |pat| ==> KeptOrSwapped(s, r, pat, rep, d, k)
  {
    assert OccursAt(pat, s, 0);
    forall k | 0 <= k < |pat|
      ensures KeptOrSwapped(s, r, pat, rep, d, k)
    {
      assert s[k] == pat[k] && r[k] == rep[k];
    }
  }

  /** What holds of the tails after `n` characters holds of the whole. */
  lemma KeptShift(s: string, r: string, pat: string, rep: string, d: nat, n: nat)
    requires n <= |s| && |r| == |s| && d < |pat| && d < |rep|
    requires forall j :: 0 <= j < |s| - n ==> KeptOrSwapped(s[n..], r[n..], pat, rep, d, j)
    ensures forall k :: n <= k < |s| ==> KeptOrSwapped(s, r, pat, rep, d, k)
  {
    forall k | n <= k < |s|
      ensures KeptOrSwapped(s, r, pat, rep, d, k)
    {
      var j := k - n;
      assert KeptOrSwapped(s[n..], r[n..], pat, rep, d, j);
      if r[k] != s[k] {
        assert s[n..][j - d..j - d + |pat|] == s[k - d..k - d + |pat|];
      }
    }
  }

  /** " ".join(xs): separators only between elements. */
  function JoinSpaces(xs: seq<string>): string {
    if xs == [] then ""
    else if |xs| == 1 then xs[0]
    else xs[0] + " " + JoinSpaces(xs[1..])
  }

  /** filter(None, xs): the non-empty strings, in order. */
  function NonEmpty(xs: seq<string>): (r: seq<string>)
    ensures forall k :: 0 <= k < |r| ==> r[k] != ""
    ensures |r| <= |xs|
    ensures forall x :: x in r <==> x in xs && x != ""
  {
    if xs == [] then []
    else
      assert xs == [xs[0]] + xs[1..];
      (if xs[0] == "" then [] else [xs[0]]) + NonEmpty(xs[1..])
  }

  /** The filter keeps the order: filtering a concatenation concatenates
      the filtered parts. */
  lemma {:induction false} NonEmptyConcat(a: seq<string>, b: seq<string>)
    ensures NonEmpty(a + b) == NonEmpty(a) + NonEmpty(b)
  {
    if a != [] {
      assert (a + b)[0] == a[0];
      assert (a + b)[1..] == a[1..] + b;
      NonEmptyConcat(a[1..], b);
    } else {
      assert a + b == b;
    }
  }

  /** " ".join(filter(None, xs)) */
  function JoinNonEmpty(xs: seq<string>): string { JoinSpaces(NonEmpty(xs)) }

  lemma NonEmptyCons(x: string, xs: seq<string>)
    ensures NonEmpty([x] + xs) == (if x == "" then [] else [x]) + NonEmpty(xs)
  {
    assert ([x] + xs)[1..] == xs;
  }

  lemma JoinOne(a: string)
    ensures JoinSpaces([a]) == a
  {
  }

  lemma JoinTwo(a: string, b: string)
    ensures JoinSpaces([a, b]) == a + " " + b
  {
    assert [a, b][1..] == [b];
  }

  lemma JoinThree(a: string, b: string, c: string)
    ensures JoinSpaces([a, b, c]) == a + " " + b + " " + c
  {
    assert [a, b, c][1..] == [b, c];
    JoinTwo(b, c);
  }

  lemma JoinFour(a: string, b: string, c: string, d: string)
    ensures JoinSpaces([a, b, c, d]) == a + " " + b + " " + c + " " + d
  {
    assert [a, b, c, d][1..] == [b, c, d];
    JoinThree(b, c, d);
  }

  predicate AllDigits(s: string) { forall k :: 0 <= k < |s| ==> IsDigit(s[k]) }

  /** s[i..i + n] is made of ASCII digits, checked one character at a time. */
  predicate DigitsAt(s: string, i: nat, n: nat)
    requires i + n <= |s|
    decreases n
  {
    n == 0 || (IsDigit(s[i]) && DigitsAt(s, i + 1, n - 1))
  }

  lemma {:induction false} DigitsAtAll(s: string, i: nat, n: nat)
    requires i + n <= |s|
    ensures DigitsAt(s, i, n) <==> AllDigits(s[i..i + n])
    decreases n
  {
    if n > 0 {
      DigitsAtAll(s, i + 1, n - 1);
      assert s[i..i + n] == [s[i]] + s[i + 1..i + n];
    }
  }

  /** `int(s)` of a string of ASCII digits. */
  function DecimalValue(s: string): (n: nat)
    requires AllDigits(s)
    ensures n < Pow10(|s|)
    decreases |s|
  {
    if s == [] then 0
    else DecimalValue(s[..|s| - 1]) * 10 + (s[|s| - 1] as int - '0' as int)
  }

  function Pow10(k: nat): (p: nat)
    ensures p >= 1
  {
    if k == 0 then 1 else 10 * Pow10(k - 1)
  }
}
