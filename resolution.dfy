/** get_resolution (ufc.py:119-144): rewrite the 4K aliases, then find the
    first `\d{3,4}[pi]` token. */
module Resolution {
  import opened Text

  /** What get_resolution returns: None, the matched token (include_scan_mode)
      or the integer value of its digits. */
  datatype ResolutionValue = NoResolution | ScanText(text: string) | Height(value: nat)

  predicate IsScanMode(c: char) { c == 'p' || c == 'P' || c == 'i' || c == 'I' }

  /** A token `\d{3,4}[pi]` (IGNORECASE), as the search returns it verbatim. */
  predicate IsResolutionToken(t: string) {
    (|t| == 4 || |t| == 5) && AllDigits(t[..|t| - 1]) && IsScanMode(t[|t| - 1])
  }

  /** `re.sub(r'4k|uhd', '2160p', s[i..], count)`: case-sensitive, leftmost,
      non-overlapping, at most `count` rewrites. At ufc.py:135 the flag
      re.IGNORECASE (value 2) lands in the `count` position. */
  function SubAliases(s: string, i: nat, count: nat): string
    requires i <= |s|
    decreases |s| - i
  {
    if count == 0 || i == |s| then s[i..]
    else if i + 2 <= |s| && s[i] == '4' && s[i + 1] == 'k' then
      "2160p" + SubAliases(s, i + 2, count - 1)
    else if i + 3 <= |s| && s[i] == 'u' && s[i + 1] == 'h' && s[i + 2] == 'd' then
      "2160p" + SubAliases(s, i + 3, count - 1)
    else [s[i]] + SubAliases(s, i + 1, count)
  }

  /** The end of a `\d{3,4}[pi]` match starting at `i`: the greedy `{3,4}`
      tries four digits before three. */
  function TokenAt(s: string, i: nat): (r: Option<nat>)
    ensures r.Some? ==> i < r.value <= |s| && IsResolutionToken(s[i..r.value])
  {
    if i + 5 <= |s| && DigitsAt(s, i, 4) && IsScanMode(s[i + 4]) then
      DigitsAtAll(s, i, 4);
      assert s[i..i + 5][..4] == s[i..i + 4];
      Some(i + 5)
    else if i + 4 <= |s| && DigitsAt(s, i, 3) && IsScanMode(s[i + 3]) then
      DigitsAtAll(s, i, 3);
      assert s[i..i + 4][..3] == s[i..i + 3];
      Some(i + 4)
    else None
  }

  /** TokenAt misses no token: it fails only where no token starts, and
      prefers the four-digit token to the three-digit one, as the greedy
      `\d{3,4}` does. */
  lemma TokenAtIsComplete(s: string, i: nat)
    ensures TokenAt(s, i).None? <==> forall e :: i < e <= |s| ==> !IsResolutionToken(s[i..e])
    ensures TokenAt(s, i).Some? ==> forall e :: TokenAt(s, i).value < e <= |s| ==> !IsResolutionToken(s[i..e])
  {
    TokenLengths(s, i);
  }

  /** A token at `i` is four or five characters long, and each length is
      checked by its digit run and its scan mode. */
  lemma TokenLengths(s: string, i: nat)
    ensures forall e :: i <= e <= |s| && IsResolutionToken(s[i..e]) ==> e == i + 4 || e == i + 5
    ensures i + 5 <= |s| ==> (IsResolutionToken(s[i..i + 5]) <==> DigitsAt(s, i, 4) && IsScanMode(s[i + 4]))
    ensures i + 4 <= |s| ==> (IsResolutionToken(s[i..i + 4]) <==> DigitsAt(s, i, 3) && IsScanMode(s[i + 3]))
  {
    if i + 5 <= |s| {
      DigitsAtAll(s, i, 4);
      assert s[i..i + 5][..4] == s[i..i + 4];
    }
    if i + 4 <= |s| {
      DigitsAtAll(s, i, 3);
      assert s[i..i + 4][..3] == s[i..i + 3];
    }
  }

  /** `re.search`: the leftmost start at or after `from` where a token matches. */
  function FirstToken(s: string, from: nat): (r: Option<nat>)
    ensures r.Some? ==> from <= r.value && TokenAt(s, r.value).Some?
    ensures r.Some? ==> forall q :: from <= q < r.value ==> TokenAt(s, q).None?
    ensures r.None? ==> forall q :: from <= q ==> TokenAt(s, q).None?
    decreases |s| - from
  {
    if from >= |s| then None
    else if TokenAt(s, from).Some? then Some(from)
    else FirstToken(s, from + 1)
  }

  /** The token search of ufc.py:136-144 on an already rewritten string. */
  function SearchToken(s: string, includeScanMode: bool): ResolutionValue {
    match FirstToken(s, 0)
    case None => NoResolution
    case Some(st) =>
      var en := TokenAt(s, st).value;
      if includeScanMode then ScanText(s[st..en]) else Height(DecimalValue(s[st..en - 1]))
  }

  /** get_resolution(file_name, include_scan_mode), as written. */
  function GetResolution(s: string, includeScanMode: bool): ResolutionValue {
    SearchToken(SubAliases(s, 0, 2), includeScanMode)
  }

  /** A token starts at `st` and at no earlier position. */
  ghost predicate IsFirstTokenAt(t: string, st: nat) {
    TokenAt(t, st).Some? && forall q :: 0 <= q < st ==> TokenAt(t, q).None?
  }

  /** The result is either nothing, when the rewritten name holds no token,
      or the leftmost token of the rewritten name: its text verbatim in scan
      mode, the integer of its 3 or 4 digits otherwise. */
  lemma {:induction false} ResolutionIsFirstToken(s: string, includeScanMode: bool)
    ensures GetResolution(s, includeScanMode).NoResolution?
            ==> forall q :: TokenAt(SubAliases(s, 0, 2), q).None?
    ensures (forall q :: TokenAt(SubAliases(s, 0, 2), q).None?)
            ==> GetResolution(s, includeScanMode).NoResolution?
    ensures GetResolution(s, includeScanMode).ScanText? ==>
              includeScanMode && IsResolutionToken(GetResolution(s, includeScanMode).text)
              && exists st: nat :: IsFirstTokenAt(SubAliases(s, 0, 2), st)
                   && GetResolution(s, includeScanMode).text
                      == SubAliases(s, 0, 2)[st..TokenAt(SubAliases(s, 0, 2), st).value]
    ensures GetResolution(s, includeScanMode).Height? ==>
              !includeScanMode && GetResolution(s, includeScanMode).value < 10000
              && exists st: nat :: IsFirstTokenAt(SubAliases(s, 0, 2), st)
                   && GetResolution(s, includeScanMode).value
                      == DecimalValue(SubAliases(s, 0, 2)[st..TokenAt(SubAliases(s, 0, 2), st).value - 1])
  {
    var t := SubAliases(s, 0, 2);
    match FirstToken(t, 0)
    case None =>
    case Some(st) =>
      assert IsFirstTokenAt(t, st);
      var en := TokenAt(t, st).value;
      assert TokenAt(t, st).Some?;
      assert GetResolution(s, includeScanMode)
          == if includeScanMode then ScanText(t[st..en]) else Height(DecimalValue(t[st..en - 1]));
      assert !GetResolution(s, includeScanMode).NoResolution?;
      assert !forall q :: TokenAt(t, q).None?;
      if !includeScanMode {
        var d := t[st..en - 1];
        assert Pow10(|d|) <= 10000 by {
          assert |d| == 3 || |d| == 4;
          if |d| == 3 { assert Pow10(3) == 1000; } else { assert Pow10(4) == 10000; }
        }
      }
  }

  /** The intended rewrite of s[i..]: IGNORECASE, every occurrence. */
  function SubAliasesAnyCase(s: string, i: nat): string
    requires i <= |s|
    decreases |s| - i
  {
    if i == |s| then []
    else if HasAt(s, i, "4k") then "2160p" + SubAliasesAnyCase(s, i + 2)
    else if HasAt(s, i, "uhd") then "2160p" + SubAliasesAnyCase(s, i + 3)
    else [s[i]] + SubAliasesAnyCase(s, i + 1)
  }

  /** get_resolution with the flag passed as flags, the evident intention. */
  function GetResolutionIntended(s: string, includeScanMode: bool): ResolutionValue {
    SearchToken(SubAliasesAnyCase(s, 0), includeScanMode)
  }

  lemma HeadOfRewrite(s: string, i: nat)
    requires i < |s|
    ensures SubAliasesAnyCase(s, i) != []
    ensures SubAliasesAnyCase(s, i)[0] == '2'
            || (!HasAt(s, i, "4k") && !HasAt(s, i, "uhd") && SubAliasesAnyCase(s, i)[0] == s[i])
  {
  }

  /** After the intended rewrite no alias is left in any letter case. */
  lemma {:induction false} IntendedLeavesNoAlias(s: string, i: nat, j: nat)
    requires i <= |s|
    ensures !HasAt(SubAliasesAnyCase(s, i), j, "4k") && !HasAt(SubAliasesAnyCase(s, i), j, "uhd")
    decreases |s| - i
  {
    var r := SubAliasesAnyCase(s, i);
    if i == |s| {
    } else if HasAt(s, i, "4k") || HasAt(s, i, "uhd") {
      var next := if HasAt(s, i, "4k") then i + 2 else i + 3;
      assert r == "2160p" + SubAliasesAnyCase(s, next);
      if j >= 5 {
        IntendedLeavesNoAlias(s, next, j - 5);
        AliasShift(SubAliasesAnyCase(s, next), "2160p", j - 5);
      } else {
        assert Lower(r[j]) != '4' && Lower(r[j]) != 'u';
      }
    } else {
      var R := SubAliasesAnyCase(s, i + 1);
      assert r == [s[i]] + R;
      if j >= 1 {
        IntendedLeavesNoAlias(s, i + 1, j - 1);
        AliasShift(R, [s[i]], j - 1);
      } else if HasAt(r, 0, "4k") {
        HeadOfRewrite(s, i + 1);
        assert false;
      } else if HasAt(r, 0, "uhd") {
        HeadOfRewrite(s, i + 1);
        assert R == [s[i + 1]] + SubAliasesAnyCase(s, i + 2);
        HeadOfRewrite(s, i + 2);
        assert false;
      }
    }
  }

  /** Prefixing a string moves every match by the prefix length. */
  lemma AliasShift(r: string, p: string, i: nat)
    requires !HasAt(r, i, "4k") && !HasAt(r, i, "uhd")
    ensures !HasAt(p + r, i + |p|, "4k") && !HasAt(p + r, i + |p|, "uhd")
  {
    if i + 3 <= |r| {
      assert (p + r)[i + |p|..i + |p| + 3] == r[i..i + 3];
    }
    if i + 2 <= |r| {
      assert (p + r)[i + |p|..i + |p| + 2] == r[i..i + 2];
    }
  }

  /** ufc.py:135 as written misses an upper-case "4K" ... */
  lemma UpperCaseAliasIsMissed()
    ensures GetResolution("ufc 300 4K", true) == NoResolution
  {
    UpperCaseAliasIsKept();
    NoTokenWithoutRewrite();
  }

  /** ... and, with the flag read as a count, rewrites at most two aliases. */
  lemma AtMostTwoAliasesRewritten()
    ensures SubAliases("4k4k4k", 0, 2) == "2160p2160p4k"
  {
  }

  lemma UpperCaseAliasIsKept()
    ensures SubAliases("ufc 300 4K", 0, 2) == "ufc 300 4K"
  {
    NothingToRewrite("ufc 300 4K", 0, 2);
  }

  /** A name holding neither 'k' nor 'h' is left as it is by the rewrite as written. */
  lemma {:induction false} NothingToRewrite(s: string, i: nat, count: nat)
    requires i <= |s|
    requires forall j :: i <= j < |s| ==> s[j] != 'k' && s[j] != 'h'
    ensures SubAliases(s, i, count) == s[i..]
    decreases |s| - i
  {
    if count > 0 && i < |s| {
      NothingToRewrite(s, i + 1, count);
      assert s[i..] == [s[i]] + s[i + 1..];
    }
  }

  lemma NoTokenWithoutRewrite()
    ensures FirstToken("ufc 300 4K", 0) == None
  {
  }

  /** ... that the intended rewrite turns into "2160p". */
  lemma UpperCaseAliasIsFoundWhenIntended()
    ensures GetResolutionIntended("ufc 300 4K", true) == ScanText("2160p")
  {
    UpperCaseAliasIsRewrittenWhenIntended("ufc 300 4K");
    RewrittenTokenIsFound();
  }

  lemma UpperCaseAliasIsRewrittenWhenIntended(s: string)
    requires s == "ufc 300 4K"
    ensures SubAliasesAnyCase(s, 0) == "ufc 300 2160p"
  {
    assert forall p :: 0 < p <= 8 ==> Plain(s[p]);
    AnyCaseCopies(s, 0, 8);
    HasAtChars(s, 8, "4k");
    assert SubAliasesAnyCase(s, 8) == "2160p";
    assert s[0..8] == "ufc 300 ";
  }

  /** A character that cannot follow the first character of an alias. */
  predicate Plain(c: char) {
    Lower(c) != 'k' && Lower(c) != 'h'
  }

  /** The intended rewrite copies a stretch in which no alias can start. */
  lemma {:induction false} AnyCaseCopies(s: string, i: nat, j: nat)
    requires i <= j <= |s|
    requires forall p :: i < p <= j && p < |s| ==> Plain(s[p])
    ensures SubAliasesAnyCase(s, i) == s[i..j] + SubAliasesAnyCase(s, j)
    decreases j - i
  {
    if i < j {
      NoAliasAt(s, i);
      AnyCaseCopies(s, i + 1, j);
      ConsSlice(s, i, j, SubAliasesAnyCase(s, j));
    }
  }

  lemma ConsSlice(s: string, i: nat, j: nat, rest: string)
    requires i < j <= |s|
    ensures [s[i]] + (s[i + 1..j] + rest) == s[i..j] + rest
  {
    assert s[i..j] == [s[i]] + s[i + 1..j];
  }

  /** No alias starts at `i` when the next character is plain. */
  lemma NoAliasAt(s: string, i: nat)
    requires i < |s|
    requires i + 1 < |s| ==> Plain(s[i + 1])
    ensures SubAliasesAnyCase(s, i) == [s[i]] + SubAliasesAnyCase(s, i + 1)
  {
    HasAtChars(s, i, "4k");
    HasAtChars(s, i, "uhd");
  }

  lemma RewrittenTokenIsFound()
    ensures SearchToken("ufc 300 2160p", true) == ScanText("2160p")
  {
    assert FirstToken("ufc 300 2160p", 0) == Some(8);
    assert "ufc 300 2160p"[8..13] == "2160p";
  }
}
