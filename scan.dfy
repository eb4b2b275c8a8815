/** The fighter-names / edition scan of extract_info (ufc.py:272-293): a
    `re.finditer` over the normalised name with the pattern
    `(?P<names>((?:(?<= )|(?<=^))(?!ppv|main|event|prelim|preliminary)[a-z-]+ )+vs( (?!ppv|main|prelim|early|web)[a-z-]+(?= |$))+(?: (?![0-9]{2,})[0-9])?)|(?P<edition>early prelims|prelims|preliminary)`
    with re.IGNORECASE, where the last match of each group wins. */
module Scan {
  import opened Text

  /** `[a-z-]` under re.IGNORECASE, on ASCII. */
  predicate IsNameChar(c: char) { IsLetter(c) || c == '-' }

  /** The length of the maximal run of name characters at `i`. */
  function NameRun(s: string, i: nat): (n: nat)
    requires i <= |s|
    ensures i + n <= |s|
    ensures forall k :: i <= k < i + n ==> IsNameChar(s[k])
    ensures i + n < |s| ==> !IsNameChar(s[i + n])
    decreases |s| - i
  {
    if i == |s| || !IsNameChar(s[i]) then 0 else 1 + NameRun(s, i + 1)
  }

  /** `(?!ppv|main|event|prelim|preliminary)` fails at `i`. */
  predicate ExcludedBefore(s: string, i: nat) {
    HasAt(s, i, "ppv") || HasAt(s, i, "main") || HasAt(s, i, "event")
    || HasAt(s, i, "prelim") || HasAt(s, i, "preliminary")
  }

  /** `(?!ppv|main|prelim|early|web)` fails at `i`. */
  predicate ExcludedAfter(s: string, i: nat) {
    HasAt(s, i, "ppv") || HasAt(s, i, "main") || HasAt(s, i, "prelim")
    || HasAt(s, i, "early") || HasAt(s, i, "web")
  }

  /** One repetition of `(?:(?<= )|(?<=^))(?!…)[a-z-]+ ` at `i`, giving the
      position after its space. `[a-z-]+` must take the whole run, since a
      space has to follow it. */
  function NameWordAt(s: string, i: nat): (r: Option<nat>)
    requires i <= |s|
    ensures r.Some? ==> i < r.value <= |s| && s[r.value - 1] == ' '
  {
    if (i == 0 || s[i - 1] == ' ') && !ExcludedBefore(s, i) then
      var n := NameRun(s, i);
      if n > 0 && i + n < |s| && s[i + n] == ' ' then Some(i + n + 1) else None
    else None
  }

  /** One repetition of ` (?!…)[a-z-]+(?= |$)` at `p`, giving the position
      after its last character. */
  function OpponentWordAt(s: string, p: nat): (r: Option<nat>)
    requires p <= |s|
    ensures r.Some? ==> p + 1 < r.value <= |s| && s[p] == ' '
  {
    if p < |s| && s[p] == ' ' && !ExcludedAfter(s, p + 1) then
      var n := NameRun(s, p + 1);
      if n > 0 && (p + 1 + n == |s| || s[p + 1 + n] == ' ') then Some(p + 1 + n) else None
    else None
  }

  /** The greedy `( …)*` of opponent words from `p`: where the last one ends. */
  function OpponentWords(s: string, p: nat): (e: nat)
    requires p <= |s|
    ensures p <= e <= |s|
    decreases |s| - p
  {
    match OpponentWordAt(s, p)
    case None => p
    case Some(q) => OpponentWords(s, q)
  }

  /** The optional `(?: (?![0-9]{2,})[0-9])` at `p`: a space and one digit
      that does not begin a run of two or more digits. */
  function TrailingDigit(s: string, p: nat): (e: nat)
    requires p <= |s|
    ensures e == p || (e == p + 2 && e <= |s|)
  {
    if p + 1 < |s| && s[p] == ' ' && IsDigit(s[p + 1]) && !(p + 2 < |s| && IsDigit(s[p + 2]))
    then p + 2 else p
  }

  /** Where `vs` starts inside a names match, and where the match ends. */
  datatype NamesSpan = NamesSpan(vs: nat, end: nat)

  /** `vs( …)+(?: …)?` at `p`. Nothing follows in the pattern, so the first
      success is the greedy one: every opponent word, then the digit if any. */
  function VersusAt(s: string, p: nat): (r: Option<NamesSpan>)
    requires p <= |s|
    ensures r.Some? ==> r.value.vs == p && HasAt(s, p, "vs") && p + 2 < |s| && s[p + 2] == ' '
                        && p + 3 < r.value.end <= |s|
  {
    if HasAt(s, p, "vs") && OpponentWordAt(s, p + 2).Some? then
      Some(NamesSpan(p, TrailingDigit(s, OpponentWords(s, p + 2))))
    else None
  }

  /** After one or more name words, at `p`: the greedy `(…)+` first tries one
      more word and gives it back when the rest of the pattern then fails. */
  function MoreNames(s: string, p: nat): (r: Option<NamesSpan>)
    requires 0 < p <= |s| && s[p - 1] == ' '
    ensures r.Some? ==> p <= r.value.vs && r.value.vs + 2 < |s| && s[r.value.vs - 1] == ' '
                        && HasAt(s, r.value.vs, "vs") && s[r.value.vs + 2] == ' '
                        && r.value.vs + 3 < r.value.end <= |s|
    decreases |s| - p
  {
    match NameWordAt(s, p)
    case Some(q) => if MoreNames(s, q).Some? then MoreNames(s, q) else VersusAt(s, p)
    case None => VersusAt(s, p)
  }

  /** The names alternative tried at `i`. */
  function NamesAt(s: string, i: nat): (r: Option<NamesSpan>)
    requires i <= |s|
    ensures r.Some? ==> i < r.value.vs && r.value.vs + 2 < |s| && s[r.value.vs - 1] == ' '
                        && HasAt(s, r.value.vs, "vs") && s[r.value.vs + 2] == ' '
                        && r.value.vs + 3 < r.value.end <= |s|
  {
    match NameWordAt(s, i)
    case None => None
    case Some(q) => MoreNames(s, q)
  }

  /** The edition alternative `early prelims|prelims|preliminary` tried at
      `i`, in that order, giving the end of the match. */
  function EditionAt(s: string, i: nat): (r: Option<nat>)
    ensures r.Some? ==> i < r.value <= |s|
  {
    if HasAt(s, i, "early prelims") then Some(i + 13)
    else if HasAt(s, i, "prelims") then Some(i + 7)
    else if HasAt(s, i, "preliminary") then Some(i + 11)
    else None
  }

  /** A match of the scan pattern and which group it fills. */
  datatype Hit = NamesHit(start: nat, vs: nat, end: nat) | EditionHit(start: nat, end: nat)

  /** The whole pattern at `i`: the names alternative first. */
  function HitAt(s: string, i: nat): (r: Option<Hit>)
    requires i <= |s|
    ensures r.Some? ==> r.value.start == i && i < r.value.end <= |s|
  {
    match NamesAt(s, i)
    case Some(n) => Some(NamesHit(i, n.vs, n.end))
    case None =>
      match EditionAt(s, i)
      case Some(e) => Some(EditionHit(i, e))
      case None => None
  }

  /** `re.finditer` from `p`: at each position the pattern is tried; after a
      match the search resumes where it ended. */
  function MatchesFrom(s: string, p: nat): (ms: seq<Hit>)
    requires p <= |s|
    ensures forall k :: 0 <= k < |ms| ==> p <= ms[k].start < ms[k].end <= |s|
    decreases |s| - p
  {
    match HitAt(s, p)
    case Some(h) => [h] + MatchesFrom(s, h.end)
    case None => if p == |s| then [] else MatchesFrom(s, p + 1)
  }

  function Matches(s: string): (ms: seq<Hit>)
    ensures forall k :: 0 <= k < |ms| ==> ms[k].start < ms[k].end <= |s|
  {
    MatchesFrom(s, 0)
  }

  /** No match of the pattern starts in [a, b). */
  ghost predicate NoHitIn(s: string, a: nat, b: nat) {
    forall q :: a <= q < b && q <= |s| ==> HitAt(s, q).None?
  }

  /** Each element of the scan is the match found at its start. */
  lemma {:induction false} MatchesAreHits(s: string, p: nat)
    requires p <= |s|
    ensures forall k :: 0 <= k < |MatchesFrom(s, p)| ==>
              HitAt(s, MatchesFrom(s, p)[k].start) == Some(MatchesFrom(s, p)[k])
    decreases |s| - p
  {
    match HitAt(s, p)
    case Some(h) =>
      MatchesAreHits(s, h.end);
      assert MatchesFrom(s, p) == [h] + MatchesFrom(s, h.end);
    case None =>
      if p < |s| { MatchesAreHits(s, p + 1); }
  }

  /** Consecutive matches do not overlap, and no match starts between them. */
  ghost predicate Separated(s: string, ms: seq<Hit>) {
    forall k :: 0 <= k < |ms| - 1 ==> ms[k].end <= ms[k + 1].start && NoHitIn(s, ms[k].end, ms[k + 1].start)
  }

  /** Matches come left to right and do not overlap, and no match starts
      between one match's end and the next one's start. */
  lemma {:induction false} MatchesDoNotOverlap(s: string, p: nat)
    requires p <= |s|
    ensures Separated(s, MatchesFrom(s, p))
    decreases |s| - p
  {
    var ms := MatchesFrom(s, p);
    match HitAt(s, p)
    case Some(h) =>
      var rest := MatchesFrom(s, h.end);
      assert ms == [h] + rest;
      MatchesDoNotOverlap(s, h.end);
      MatchesSkipOnlyMisses(s, h.end);
      SeparatedCons(s, h, rest);
    case None =>
      if p < |s| {
        assert ms == MatchesFrom(s, p + 1);
        MatchesDoNotOverlap(s, p + 1);
      }
  }

  lemma SeparatedCons(s: string, h: Hit, rest: seq<Hit>)
    requires Separated(s, rest)
    requires rest != [] ==> h.end <= rest[0].start && NoHitIn(s, h.end, rest[0].start)
    ensures Separated(s, [h] + rest)
  {
    var ms := [h] + rest;
    forall k | 0 <= k < |ms| - 1
      ensures ms[k].end <= ms[k + 1].start && NoHitIn(s, ms[k].end, ms[k + 1].start)
    {
      if k > 0 {
        assert ms[k] == rest[k - 1] && ms[k + 1] == rest[k];
      }
    }
  }

  /** No match starts before the first element, and none after the last. */
  lemma {:induction false} MatchesSkipOnlyMisses(s: string, p: nat)
    requires p <= |s|
    ensures MatchesFrom(s, p) == [] ==> NoHitIn(s, p, |s| + 1)
    ensures MatchesFrom(s, p) != [] ==> NoHitIn(s, p, MatchesFrom(s, p)[0].start)
    decreases |s| - p
  {
    match HitAt(s, p)
    case Some(h) =>
    case None =>
      if p < |s| { MatchesSkipOnlyMisses(s, p + 1); }
  }

  /** No match starts after the last element. */
  lemma {:induction false} MatchesReachTheEnd(s: string, p: nat)
    requires p <= |s|
    requires MatchesFrom(s, p) != []
    ensures NoHitIn(s, MatchesFrom(s, p)[|MatchesFrom(s, p)| - 1].end, |s| + 1)
    decreases |s| - p
  {
    match HitAt(s, p)
    case Some(h) =>
      var rest := MatchesFrom(s, h.end);
      if rest == [] {
        MatchesSkipOnlyMisses(s, h.end);
      } else {
        MatchesReachTheEnd(s, h.end);
        assert MatchesFrom(s, p)[|MatchesFrom(s, p)| - 1] == rest[|rest| - 1];
      }
    case None =>
      MatchesReachTheEnd(s, p + 1);
  }

  /** Python's `str.title` on ASCII: a letter is upper-cased when the
      character before it is not a letter, and lower-cased otherwise. */
  function TitleCase(g: string): (r: string)
    ensures |r| == |g|
  {
    seq(|g|, k requires 0 <= k < |g| => if k > 0 && IsLetter(g[k - 1]) then Lower(g[k]) else Upper(g[k]))
  }

  /** The fighter names built at ufc.py:285-287 from the names group. Splitting
      on whitespace and joining with one space changes nothing here, since a
      names match never holds a leading, trailing or doubled space. */
  function FighterNames(g: string): (r: string)
    ensures |r| == |g|
  {
    ReplaceSameLength(TitleCase(g), " Vs ", " vs ");
    Replace(TitleCase(g), " Vs ", " vs ")
  }

  lemma {:induction false} ReplaceSameLength(s: string, pat: string, rep: string)
    requires pat != [] && |rep| == |pat|
    ensures |Replace(s, pat, rep)| == |s|
    decreases |s|
  {
    if |s| < |pat| {
    } else if s[..|pat|] == pat {
      ReplaceSameLength(s[|pat|..], pat, rep);
    } else {
      ReplaceSameLength(s[1..], pat, rep);
    }
  }

  /** Title-casing gives every word an upper-case first letter and lower-case
      letters after it; other characters are kept. */
  lemma TitleCaseIsTitled(g: string)
    ensures forall k :: 0 <= k < |g| && IsLetter(g[k]) ==>
              (if k > 0 && IsLetter(g[k - 1]) then IsLower(TitleCase(g)[k]) else IsUpper(TitleCase(g)[k]))
    ensures forall k :: 0 <= k < |g| && !IsLetter(g[k]) ==> TitleCase(g)[k] == g[k]
  {
    var t := TitleCase(g);
    forall k | 0 <= k < |g|
      ensures IsLetter(g[k]) ==> (if k > 0 && IsLetter(g[k - 1]) then IsLower(t[k]) else IsUpper(t[k]))
      ensures !IsLetter(g[k]) ==> t[k] == g[k]
    {
      CaseOf(g[k]);
    }
  }

  lemma CaseOf(c: char)
    ensures IsLetter(c) ==> IsLower(Lower(c)) && IsUpper(Upper(c))
    ensures !IsLetter(c) ==> Lower(c) == c && Upper(c) == c
  {
  }

  /** Fighter names as ufc.py:285-287 leave them: each word starts with an
      upper-case letter and goes on in lower case, except the `v` of a
      " vs " infix. */
  predicate IsTitled(r: string) {
    forall k :: 0 <= k < |r| && IsLetter(r[k]) ==>
      if k > 0 && IsLetter(r[k - 1]) then IsLower(r[k]) else IsUpper(r[k]) || OccursAt(" vs ", r, k - 1)
  }

  /** FighterNames keeps every character of the names group up to case,
      keeps title-casing except that the `V` of each " Vs " becomes `v`, and
      so gives title-cased names. */
  lemma FighterNamesTitled(g: string)
    ensures forall k :: 0 <= k < |g| ==> Lower(FighterNames(g)[k]) == Lower(g[k])
    ensures forall k :: 0 <= k < |g| ==> Swapped(TitleCase(g), FighterNames(g), k)
    ensures IsTitled(FighterNames(g))
  {
    VersusDiffersOnce(" Vs ", " vs ");
    ReplaceOneChar(TitleCase(g), " Vs ", " vs ", 1);
    NamesTitled(g, TitleCase(g), FighterNames(g), " Vs ", " vs ");
  }

  lemma VersusDiffersOnce(pat: string, rep: string)
    requires pat == " Vs " && rep == " vs "
    ensures |rep| == |pat| && forall m :: 0 <= m < |pat| && m != 1 ==> pat[m] == rep[m]
  {
  }

  /** r[k] is t[k], or the `v` that replaced the `V` of a " Vs " in t. */
  predicate Swapped(t: string, r: string, k: nat)
    requires k < |t| && k < |r|
  {
    r[k] == t[k] || (t[k] == 'V' && r[k] == 'v' && 0 < k && k + 2 < |t| && t[k - 1] == ' ' && t[k + 1] == 's' && t[k + 2] == ' ')
  }

  lemma SwappedAt(t: string, r: string, pat: string, rep: string, k: nat)
    requires pat == " Vs " && rep == " vs " && k < |t| && k < |r|
    requires KeptOrSwapped(t, r, pat, rep, 1, k)
    ensures Swapped(t, r, k)
  {
    if r[k] != t[k] {
      assert t[k - 1..k + 3] == pat;
      assert t[k - 1] == pat[0] && t[k] == pat[1] && t[k + 1] == pat[2] && t[k + 2] == pat[3];
    }
  }

  /** One character of the names: its case is as title-casing leaves it. */
  lemma SwappedChar(g: char, t: char, r: char)
    requires t == Lower(g) || t == Upper(g)
    requires r == t || (t == 'V' && r == 'v')
    ensures Lower(r) == Lower(g) && IsLetter(r) == IsLetter(g)
    ensures IsLower(t) ==> r == t
  {
  }

  lemma NamesTitled(g: string, t: string, r: string, pat: string, rep: string)
    requires pat == " Vs " && rep == " vs "
    requires t == TitleCase(g) && |r| == |g|
    requires forall k :: 0 <= k < |g| ==> KeptOrSwapped(t, r, pat, rep, 1, k)
    ensures forall k :: 0 <= k < |g| ==> Lower(r[k]) == Lower(g[k]) && Swapped(t, r, k)
    ensures IsTitled(r)
  {
    forall k | 0 <= k < |g|
      ensures Swapped(t, r, k) && Lower(r[k]) == Lower(g[k]) && IsLetter(r[k]) == IsLetter(g[k])
      ensures IsLower(t[k]) ==> r[k] == t[k]
    {
      SwappedAt(t, r, pat, rep, k);
      SwappedChar(g[k], t[k], r[k]);
    }
    TitleCaseIsTitled(g);
    forall k | 0 <= k < |r| && IsLetter(r[k])
      ensures if k > 0 && IsLetter(r[k - 1]) then IsLower(r[k]) else IsUpper(r[k]) || OccursAt(" vs ", r, k - 1)
    {
      if r[k] != t[k] {
        VersusInResult(t, r, k);
      }
    }
  }

  lemma VersusInResult(t: string, r: string, k: nat)
    requires 0 < k && k + 2 < |t| == |r|
    requires t[k - 1] == ' ' && t[k + 1] == 's' && t[k + 2] == ' ' && r[k] == 'v'
    requires Swapped(t, r, k - 1) && Swapped(t, r, k + 1) && Swapped(t, r, k + 2)
    ensures OccursAt(" vs ", r, k - 1)
  {
    assert r[k - 1..k + 3] == [r[k - 1], r[k], r[k + 1], r[k + 2]];
  }

  /** Title-casing turns a `vs` between two spaces into `Vs`. */
  lemma TitleAtVersus(g: string, v: nat)
    requires 0 < v && v + 2 < |g| && g[v - 1] == ' ' && g[v + 2] == ' '
    requires Lower(g[v]) == 'v' && Lower(g[v + 1]) == 's'
    ensures OccursAt(" Vs ", TitleCase(g), v - 1)
  {
    var t := TitleCase(g);
    assert t[v - 1] == ' ' && t[v] == 'V' && t[v + 1] == 's' && t[v + 2] == ' ';
    assert t[v - 1..v + 3] == " Vs ";
  }

  /** Non-empty fighter names always hold the infix " vs ". */
  lemma {:induction false} NamesHoldVersus(s: string, i: nat)
    requires i <= |s|
    requires NamesAt(s, i).Some?
    ensures Occurs(" vs ", FighterNames(s[i..NamesAt(s, i).value.end]))
  {
    SpanHoldsVersus(s, i, NamesAt(s, i).value);
  }

  lemma SpanHoldsVersus(s: string, i: nat, n: NamesSpan)
    requires i < n.vs && n.vs + 2 < |s| && s[n.vs - 1] == ' ' && HasAt(s, n.vs, "vs") && s[n.vs + 2] == ' '
    requires n.vs + 3 < n.end <= |s|
    ensures Occurs(" vs ", FighterNames(s[i..n.end]))
  {
    HasAtChars(s, n.vs, "vs");
    VersusSurvives(s[i..n.end], n.vs - i);
  }

  /** A `vs` word between two spaces comes out of FighterNames as " vs ". */
  lemma VersusSurvives(g: string, v: nat)
    requires 0 < v && v + 2 < |g| && g[v - 1] == ' ' && g[v + 2] == ' '
    requires Lower(g[v]) == 'v' && Lower(g[v + 1]) == 's'
    ensures Occurs(" vs ", FighterNames(g))
  {
    TitleAtVersus(g, v);
    ReplaceKeepsReplacement(TitleCase(g), " Vs ", " vs ");
  }

  /** `w.capitalize()` on each space-separated word, on ASCII. */
  function CapitalizeWords(t: string): (r: string)
    ensures |r| == |t|
  {
    seq(|t|, k requires 0 <= k < |t| => if k == 0 || t[k - 1] == ' ' then Upper(t[k]) else Lower(t[k]))
  }

  /** The edition built at ufc.py:290-293, EDITION_MAP applied. */
  function EditionLabel(t: string): string {
    var c := CapitalizeWords(t);
    if c == "Preliminary" then "Prelims" else c
  }

  /** Characters equal up to case have the same upper-case form. */
  lemma SameFold(a: char, b: char)
    requires Lower(a) == Lower(b)
    ensures Upper(a) == Upper(b)
  {
  }

  /** An edition match is labelled by its alternative whatever its letter case. */
  lemma {:induction false} CapitalizeMatch(s: string, i: nat, w: string)
    requires HasAt(s, i, w)
    ensures CapitalizeWords(s[i..i + |w|]) == CapitalizeWords(w)
  {
    HasAtChars(s, i, w);
    var t := s[i..i + |w|];
    forall k | 0 <= k < |w|
      ensures CapitalizeWords(t)[k] == CapitalizeWords(w)[k]
    {
      SameFold(t[k], w[k]);
      if k > 0 {
        assert Lower(t[k - 1]) == Lower(w[k - 1]);
        assert (t[k - 1] == ' ') == (w[k - 1] == ' ');
      }
    }
  }

  /** Every edition match is labelled "Early Prelims" or "Prelims". */
  lemma {:induction false} EditionLabels(s: string, i: nat)
    requires EditionAt(s, i).Some?
    ensures EditionLabel(s[i..EditionAt(s, i).value]) in {"Early Prelims", "Prelims"}
    ensures HasAt(s, i, "early prelims") ==> EditionLabel(s[i..EditionAt(s, i).value]) == "Early Prelims"
    ensures !HasAt(s, i, "early prelims") ==> EditionLabel(s[i..EditionAt(s, i).value]) == "Prelims"
  {
    if HasAt(s, i, "early prelims") {
      Capitalized("early prelims", "Early Prelims");
      AlternativeLabel(s, i, "early prelims", "Early Prelims");
    } else if HasAt(s, i, "prelims") {
      Capitalized("prelims", "Prelims");
      AlternativeLabel(s, i, "prelims", "Prelims");
    } else {
      Capitalized("preliminary", "Preliminary");
      AlternativeLabel(s, i, "preliminary", "Prelims");
    }
  }

  /** The label of an edition match of alternative `w`. */
  lemma AlternativeLabel(s: string, i: nat, w: string, l: string)
    requires HasAt(s, i, w)
    requires l == (if CapitalizeWords(w) == "Preliminary" then "Prelims" else CapitalizeWords(w))
    ensures EditionLabel(s[i..i + |w|]) == l
  {
    CapitalizeMatch(s, i, w);
  }

  /** The capitalized form of each edition alternative. */
  lemma Capitalized(w: string, c: string)
    requires (w, c) in {("early prelims", "Early Prelims"), ("prelims", "Prelims"), ("preliminary", "Preliminary")}
    ensures CapitalizeWords(w) == c
  {
  }

  /** The fighter names of the last names match in `ms`, or '' when there is none. */
  function LastNames(s: string, ms: seq<Hit>): string
    requires forall k :: 0 <= k < |ms| ==> ms[k].start <= ms[k].end <= |s|
  {
    if ms == [] then ""
    else if ms[|ms| - 1].NamesHit? then FighterNames(s[ms[|ms| - 1].start..ms[|ms| - 1].end])
    else LastNames(s, ms[..|ms| - 1])
  }

  /** The edition of the last edition match in `ms`, or '' when there is none. */
  function LastEdition(s: string, ms: seq<Hit>): string
    requires forall k :: 0 <= k < |ms| ==> ms[k].start <= ms[k].end <= |s|
  {
    if ms == [] then ""
    else if ms[|ms| - 1].EditionHit? then EditionLabel(s[ms[|ms| - 1].start..ms[|ms| - 1].end])
    else LastEdition(s, ms[..|ms| - 1])
  }

  /** The finditer loop of ufc.py:282-293: each names match overwrites
      fighter_names and each edition match overwrites edition. */
  method ScanFields(s: string) returns (names: string, edition: string)
    ensures names == LastNames(s, Matches(s))
    ensures edition == LastEdition(s, Matches(s))
  {
    var ms := Matches(s);
    names, edition := "", "";
    for k := 0 to |ms|
      invariant names == LastNames(s, ms[..k])
      invariant edition == LastEdition(s, ms[..k])
    {
      assert ms[..k + 1][..k] == ms[..k];
      var h := ms[k];
      if h.NamesHit? {
        names := FighterNames(s[h.start..h.end]);
      }
      if h.EditionHit? {
        edition := EditionLabel(s[h.start..h.end]);
      }
    }
    assert ms[..|ms|] == ms;
  }

  /** `ms[k]` is a names match, no names match comes after it, and `r` is
      the fighter names built from it. */
  ghost predicate IsLastNamesHit(s: string, ms: seq<Hit>, k: int, r: string) {
    0 <= k < |ms| && ms[k].NamesHit? && ms[k].start <= ms[k].end <= |s|
    && r == FighterNames(s[ms[k].start..ms[k].end])
    && forall j :: k < j < |ms| ==> !ms[j].NamesHit?
  }

  /** Last match wins: the names are '' exactly when no names match was
      found, and otherwise come from a names match with none after it. */
  lemma {:induction false} LastNamesWins(s: string, ms: seq<Hit>)
    requires forall k :: 0 <= k < |ms| ==> ms[k].start < ms[k].end <= |s|
    ensures LastNames(s, ms) == "" <==> forall k :: 0 <= k < |ms| ==> !ms[k].NamesHit?
    ensures LastNames(s, ms) != "" ==> exists k :: IsLastNamesHit(s, ms, k, LastNames(s, ms))
  {
    if ms != [] {
      var last := |ms| - 1;
      var init := ms[..last];
      LastNamesWins(s, init);
      if ms[last].NamesHit? {
        assert IsLastNamesHit(s, ms, last, LastNames(s, ms));
      } else if LastNames(s, init) != "" {
        var k :| IsLastNamesHit(s, init, k, LastNames(s, init));
        assert ms[k] == init[k];
        assert IsLastNamesHit(s, ms, k, LastNames(s, ms));
      } else {
        assert forall k :: 0 <= k < |init| ==> ms[k] == init[k];
      }
    }
  }

  /** `r` is the label of the edition match `ms[k]`, and no edition match follows it. */
  ghost predicate IsLastEditionHit(s: string, ms: seq<Hit>, k: int, r: string) {
    0 <= k < |ms| && ms[k].EditionHit? && ms[k].start <= ms[k].end <= |s|
    && r == EditionLabel(s[ms[k].start..ms[k].end])
    && forall j :: k < j < |ms| ==> !ms[j].EditionHit?
  }

  /** A label built from a non-empty match is not empty. */
  lemma LabelNonEmpty(t: string)
    requires t != ""
    ensures EditionLabel(t) != ""
  {
    assert |CapitalizeWords(t)| > 0;
  }

  /** Last match wins for the edition: it is '' exactly when no edition
      match was found, and otherwise the label of an edition match with
      none after it. */
  lemma {:induction false} LastEditionIsLast(s: string, ms: seq<Hit>)
    requires forall k :: 0 <= k < |ms| ==> ms[k].start < ms[k].end <= |s|
    ensures LastEdition(s, ms) == "" <==> forall k :: 0 <= k < |ms| ==> !ms[k].EditionHit?
    ensures LastEdition(s, ms) != "" ==> exists k :: IsLastEditionHit(s, ms, k, LastEdition(s, ms))
  {
    if ms != [] {
      var last := |ms| - 1;
      var init := ms[..last];
      LastEditionIsLast(s, init);
      var h := ms[last];
      if h.EditionHit? {
        LabelNonEmpty(s[h.start..h.end]);
        assert IsLastEditionHit(s, ms, last, LastEdition(s, ms));
      } else if LastEdition(s, init) != "" {
        var k :| IsLastEditionHit(s, init, k, LastEdition(s, init));
        assert ms[k] == init[k];
        assert IsLastEditionHit(s, ms, k, LastEdition(s, ms));
      } else {
        assert forall k :: 0 <= k < |init| ==> ms[k] == init[k];
      }
    }
  }

  /** The edition the scan keeps is '' or one of the two labels, '' exactly
      when no edition match was found. */
  lemma LastEditionWins(s: string, ms: seq<Hit>)
    requires forall k :: 0 <= k < |ms| ==> ms[k].start < ms[k].end <= |s|
    requires forall k :: 0 <= k < |ms| && ms[k].EditionHit? ==> EditionAt(s, ms[k].start) == Some(ms[k].end)
    ensures LastEdition(s, ms) in {"", "Early Prelims", "Prelims"}
    ensures LastEdition(s, ms) == "" <==> forall k :: 0 <= k < |ms| ==> !ms[k].EditionHit?
    ensures LastEdition(s, ms) != "" ==> exists k :: IsLastEditionHit(s, ms, k, LastEdition(s, ms))
  {
    LastEditionIsLast(s, ms);
    if LastEdition(s, ms) != "" {
      var k :| IsLastEditionHit(s, ms, k, LastEdition(s, ms));
      EditionLabels(s, ms[k].start);
    }
  }
}
