/** The event-number search of extract_info (ufc.py:250-264): the pattern
    `ufc (\d{1,4})|ufc fight night (\d{1,4})|ufc on (\w+ \d{1,4})` with
    re.IGNORECASE, searched leftmost, and its rendering. */
module Events {
  import opened Text

  /** Which alternative matched, with the text of its group. */
  datatype EventMatch = Ppv(digits: string) | FightNight(digits: string) | UfcOn(text: string)

  /** The length of the run of ASCII digits at `i`, at most `cap` long: a greedy `\d{0,cap}`. */
  function DigitRun(s: string, i: nat, cap: nat): (n: nat)
    requires i <= |s|
    ensures n <= cap && i + n <= |s|
    ensures forall k :: i <= k < i + n ==> IsDigit(s[k])
    ensures n < cap && i + n < |s| ==> !IsDigit(s[i + n])
    decreases cap
  {
    if cap == 0 || i == |s| || !IsDigit(s[i]) then 0 else 1 + DigitRun(s, i + 1, cap - 1)
  }

  /** The length of the maximal run of `\w` characters at `i`: a greedy `\w*`. */
  function WordRun(s: string, i: nat): (n: nat)
    requires i <= |s|
    ensures i + n <= |s|
    ensures forall k :: i <= k < i + n ==> IsWordChar(s[k])
    ensures i + n < |s| ==> !IsWordChar(s[i + n])
    decreases |s| - i
  {
    if i == |s| || !IsWordChar(s[i]) then 0 else 1 + WordRun(s, i + 1)
  }

  /** First alternative at `i`: `ufc (\d{1,4})`. `\d{1,4}` takes as many
      digits as it can. */
  function PpvAt(s: string, i: nat): Option<EventMatch>
    requires i <= |s|
  {
    if !HasAt(s, i, "ufc ") then None
    else
      var n := DigitRun(s, i + 4, 4);
      if n == 0 then None else Some(Ppv(s[i + 4..i + 4 + n]))
  }

  /** Second alternative at `i`: `ufc fight night (\d{1,4})`. */
  function FightNightAt(s: string, i: nat): Option<EventMatch>
    requires i <= |s|
  {
    if !HasAt(s, i, "ufc fight night ") then None
    else
      var n := DigitRun(s, i + 16, 4);
      if n == 0 then None else Some(FightNight(s[i + 16..i + 16 + n]))
  }

  /** Third alternative at `i`: `ufc on (\w+ \d{1,4})`. `\w+` must be the
      whole run of word characters, since a space has to follow it. */
  function UfcOnAt(s: string, i: nat): Option<EventMatch>
    requires i <= |s|
  {
    if !HasAt(s, i, "ufc on ") then None
    else
      var w := WordRun(s, i + 7);
      if w == 0 || i + 7 + w == |s| || s[i + 7 + w] != ' ' then None
      else
        var n := DigitRun(s, i + 8 + w, 4);
        if n == 0 then None else Some(UfcOn(s[i + 7..i + 8 + w + n]))
  }

  /** The event pattern tried at position `i`: the alternatives in order. */
  function EventAt(s: string, i: nat): Option<EventMatch>
    requires i <= |s|
  {
    if PpvAt(s, i).Some? then PpvAt(s, i)
    else if FightNightAt(s, i).Some? then FightNightAt(s, i)
    else UfcOnAt(s, i)
  }

  /** `re.search`: the leftmost position at or after `from` where the pattern matches. */
  function FirstEvent(s: string, from: nat): (r: Option<nat>)
    requires from <= |s|
    ensures r.Some? ==> from <= r.value <= |s| && EventAt(s, r.value).Some?
    ensures r.Some? ==> forall q :: from <= q < r.value ==> EventAt(s, q).None?
    ensures r.None? ==> forall q :: from <= q <= |s| ==> EventAt(s, q).None?
    decreases |s| - from
  {
    if EventAt(s, from).Some? then Some(from)
    else if from == |s| then None
    else FirstEvent(s, from + 1)
  }

  /** The match object of ufc.py:251. */
  function SearchEvent(s: string): Option<EventMatch> {
    match FirstEvent(s, 0)
    case None => None
    case Some(p) => EventAt(s, p)
  }

  function UpperString(t: string): (r: string)
    ensures |r| == |t|
    ensures forall k :: 0 <= k < |t| ==> r[k] == Upper(t[k])
  {
    seq(|t|, k requires 0 <= k < |t| => Upper(t[k]))
  }

  /** The event_number string built at ufc.py:262-267. */
  function Render(m: EventMatch): string {
    match m
    case Ppv(d) => "UFC " + d
    case FightNight(d) => "UFC Fight Night " + d
    case UfcOn(t) => "UFC on " + UpperString(t)
  }

  /** event_number after the search: '' when nothing matched. */
  function EventNumber(s: string): string {
    match SearchEvent(s)
    case None => ""
    case Some(m) => Render(m)
  }

  /** 1 to 4 ASCII digits. */
  predicate IsShortNumber(d: string) { 1 <= |d| <= 4 && AllDigits(d) }

  /** `w + " " + d`: a non-empty run of word characters without lower-case
      letters, one space, then 1 to 4 digits. */
  predicate IsUpperWordThenNumber(t: string, w: nat) {
    0 < w < |t| && t[w] == ' ' && IsShortNumber(t[w + 1..])
    && forall k :: 0 <= k < w ==> IsWordChar(t[k]) && !IsLower(t[k])
  }

  /** The three shapes an event number can take. */
  ghost predicate IsEventNumber(r: string) {
    (IsPrefix("UFC ", r) && IsShortNumber(r[4..]))
    || (IsPrefix("UFC Fight Night ", r) && IsShortNumber(r[16..]))
    || (IsPrefix("UFC on ", r) && exists w: nat :: IsUpperWordThenNumber(r[7..], w))
  }

  /** A match of one of the alternatives at `p`, with no match further left. */
  ghost predicate IsFirstEventAt(s: string, p: nat) {
    p <= |s| && EventAt(s, p).Some? && forall q :: 0 <= q < p ==> EventAt(s, q).None?
  }

  lemma {:induction false} EventTextShape(s: string, i: nat)
    requires i <= |s|
    requires EventAt(s, i).Some?
    ensures IsEventNumber(Render(EventAt(s, i).value))
  {
    if PpvAt(s, i).Some? {
      var d := PpvAt(s, i).value.digits;
      assert ("UFC " + d)[4..] == d;
    } else if FightNightAt(s, i).Some? {
      var d := FightNightAt(s, i).value.digits;
      assert ("UFC Fight Night " + d)[16..] == d;
    } else {
      UfcOnShape(s, i);
    }
  }

  lemma {:induction false} UfcOnShape(s: string, i: nat)
    requires i <= |s|
    requires UfcOnAt(s, i).Some?
    ensures IsUpperWordThenNumber(UpperString(UfcOnAt(s, i).value.text), WordRun(s, i + 7))
  {
    var w := WordRun(s, i + 7);
    var n := DigitRun(s, i + 8 + w, 4);
    var t := UfcOnAt(s, i).value.text;
    assert t == s[i + 7..i + 8 + w + n];
    var u := UpperString(t);
    assert u[w + 1..] == t[w + 1..];
  }

  /** The event number is '' exactly when no alternative matches anywhere;
      otherwise it renders the leftmost match and has one of the three shapes. */
  lemma {:induction false} EventNumberIsLeftmost(s: string)
    ensures EventNumber(s) == "" ==> forall q :: 0 <= q <= |s| ==> EventAt(s, q).None?
    ensures (forall q :: 0 <= q <= |s| ==> EventAt(s, q).None?) ==> EventNumber(s) == ""
    ensures EventNumber(s) != "" ==>
              IsEventNumber(EventNumber(s))
              && exists p: nat :: IsFirstEventAt(s, p) && EventNumber(s) == Render(EventAt(s, p).value)
  {
    match FirstEvent(s, 0)
    case None =>
    case Some(p) =>
      assert IsFirstEventAt(s, p);
      EventTextShape(s, p);
  }

  /** Alternatives are tried in order at one position: a name like
      "ufc fight night 5" never yields a pay-per-view number, because the
      first alternative needs a digit right after "ufc ". */
  lemma FightNightExample(s: string)
    requires s == "ufc fight night 5"
    ensures EventNumber(s) == "UFC Fight Night 5"
  {
    assert DigitRun(s, 4, 4) == 0;
    HasAtChars(s, 0, "ufc fight night ");
    assert DigitRun(s, 16, 4) == 1;
    assert s[16..17] == "5";
    assert EventAt(s, 0) == Some(FightNight("5"));
    assert FirstEvent(s, 0) == Some(0);
  }
}
