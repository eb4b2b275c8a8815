/** extract_info (ufc.py:225-303) and find_names (ufc.py:203-222): a release
    name becomes an event record, or the program exits. */
module Extract {
  import opened Text
  import opened Resolution
  import opened Events
  import opened Scan

  /** What an operation that may call exit_log (ufc.py:77-91) gives back:
      its value, the message and exit code it exits with, or an exception
      that nothing catches. */
  datatype Outcome<T> = Done(value: T) | Exit(message: string, code: int) | Crash(error: string)

  /** The record extract_info returns, one field per FORMAT_ORDER key. */
  datatype Info = Info(eventNumber: string, fighterNames: string, edition: string, resolution: string)

  /** An entry of DESTINATION_FOLDER as its glob lists it. */
  datatype DirEntry = DirEntry(name: string, isDir: bool)

  /** The class `[\.\s_]` of ufc.py:243. */
  predicate IsSeparator(c: char) { c == '.' || c == '_' || IsSpace(c) }

  /** ufc.py:243: every separator becomes one space; nothing is collapsed. */
  function Normalize(name: string): (r: string)
    ensures |r| == |name|
    ensures forall k :: 0 <= k < |r| && IsSeparator(name[k]) ==> r[k] == ' '
    ensures forall k :: 0 <= k < |r| && !IsSeparator(name[k]) ==> r[k] == name[k]
    ensures forall k :: 0 <= k < |r| ==> r[k] == ' ' || !IsSeparator(r[k])
  {
    seq(|name|, k requires 0 <= k < |name| => if IsSeparator(name[k]) then ' ' else name[k])
  }

  /** `str(get_resolution(file_name, True) or '')` of ufc.py:302. */
  function ResolutionField(n: string): string {
    match GetResolution(n, true)
    case ScanText(t) => t
    case _ => ""
  }

  /** `f"edition-{edition or 'Main Event'}"` of ufc.py:301. */
  function EditionField(edition: string): string {
    "edition-" + (if edition == "" then "Main Event" else edition)
  }

  /** The record extract_info builds before the find_names fall-back: the
      whole result of a non-strict call. */
  function LooseRecord(name: string): Info {
    var n := Normalize(name);
    Info(EventNumber(n), LastNames(n, Matches(n)), EditionField(LastEdition(n, Matches(n))), ResolutionField(n))
  }

  /** extract_info(name, strict), with STRICT_MATCHING as `strictMatching`
      and the glob listing of DESTINATION_FOLDER as `dest`. */
  function Extraction(name: string, strict: bool, strictMatching: bool, dest: seq<DirEntry>): Outcome<Info>
    decreases if strict then 2 else 0, 0
  {
    var n := Normalize(name);
    if SearchEvent(n).None? && strict then
      if strictMatching then Exit("Unable to extract UFC event number from " + n, 1) else Exit("", 0)
    else
      var info := LooseRecord(name);
      if info.fighterNames == "" && strict then
        Done(info.(fighterNames := FolderNames(info.eventNumber, strictMatching, dest, 0)))
      else Done(info)
  }

  /** Whether the glob `{eventNumber}*` lists `e` and it is a directory. */
  predicate IsEventFolder(eventNumber: string, e: DirEntry) {
    IsPrefix(eventNumber, e.name) && e.isDir
  }

  /** The fighter names of a directory, parsed without strictness. */
  function FolderFighterNames(e: DirEntry, strictMatching: bool, dest: seq<DirEntry>): string
    decreases 1, 0
  {
    var info := Extraction(e.name, false, strictMatching, dest);
    if info.Done? then info.value.fighterNames else ""
  }

  /** find_names(event_number) over the entries dest[i..]: the first event
      folder whose name yields fighter names. */
  function FolderNames(eventNumber: string, strictMatching: bool, dest: seq<DirEntry>, i: nat): string
    requires i <= |dest|
    decreases 1, |dest| - i
  {
    if i == |dest| then ""
    else if IsEventFolder(eventNumber, dest[i]) && FolderFighterNames(dest[i], strictMatching, dest) != "" then
      FolderFighterNames(dest[i], strictMatching, dest)
    else FolderNames(eventNumber, strictMatching, dest, i + 1)
  }

  /** The find_names loop with its early return (ufc.py:216-222). */
  method FindNames(eventNumber: string, strictMatching: bool, dest: seq<DirEntry>) returns (names: string)
    ensures names == FolderNames(eventNumber, strictMatching, dest, 0)
    decreases 1
  {
    var i := 0;
    while i < |dest|
      invariant 0 <= i <= |dest|
      invariant FolderNames(eventNumber, strictMatching, dest, i) == FolderNames(eventNumber, strictMatching, dest, 0)
    {
      var e := dest[i];
      if IsPrefix(eventNumber, e.name) && e.isDir {
        var info := ExtractInfo(e.name, false, strictMatching, dest);
        if info.Done? && info.value.fighterNames != "" {
          return info.value.fighterNames;
        }
      }
      i := i + 1;
    }
    return "";
  }

  /** extract_info as the program runs it: the event search, the finditer
      loop, then the fall-back to find_names. */
  method ExtractInfo(name: string, strict: bool, strictMatching: bool, dest: seq<DirEntry>) returns (r: Outcome<Info>)
    ensures r == Extraction(name, strict, strictMatching, dest)
    decreases if strict then 2 else 0
  {
    var n := Normalize(name);
    var m := SearchEvent(n);
    if m.None? && strict {
      if strictMatching {
        return Exit("Unable to extract UFC event number from " + n, 1);
      }
      return Exit("", 0);
    }
    var eventNumber := "";
    if m.Some? {
      eventNumber := Render(m.value);
    }
    var fighterNames, edition := ScanFields(n);
    if fighterNames == "" && strict {
      fighterNames := FindNames(eventNumber, strictMatching, dest);
    }
    return Done(Info(eventNumber, fighterNames, EditionField(edition), ResolutionField(n)));
  }

  /** With strict=True and no event number the program exits: code 1 and a
      message when STRICT_MATCHING is set, silently with code 0 otherwise.
      Without strictness a record always comes back. */
  lemma {:induction false} ExitsOnlyWithoutEvent(name: string, strict: bool, strictMatching: bool, dest: seq<DirEntry>)
    ensures !Extraction(name, strict, strictMatching, dest).Crash?
    ensures Extraction(name, strict, strictMatching, dest).Exit?
            <==> strict && EventNumber(Normalize(name)) == ""
    ensures Extraction(name, strict, strictMatching, dest).Exit? && strictMatching ==>
              Extraction(name, strict, strictMatching, dest)
                == Exit("Unable to extract UFC event number from " + Normalize(name), 1)
    ensures Extraction(name, strict, strictMatching, dest).Exit? && !strictMatching ==>
              Extraction(name, strict, strictMatching, dest) == Exit("", 0)
  {
    var n := Normalize(name);
    match SearchEvent(n)
    case None =>
    case Some(m) =>
      assert |Render(m)| > 0;
  }

  /** Every edition match of a scan is an edition match at its start. */
  lemma EditionHitsAreEditions(n: string)
    ensures forall k :: 0 <= k < |Matches(n)| && Matches(n)[k].EditionHit? ==>
              EditionAt(n, Matches(n)[k].start) == Some(Matches(n)[k].end)
  {
    MatchesAreHits(n, 0);
  }

  /** The edition field is always one of the three edition labels, and
      "Main Event" exactly when the scan found no edition. */
  lemma {:induction false} EditionFieldIsLabel(n: string)
    ensures EditionField(LastEdition(n, Matches(n)))
            in {"edition-Early Prelims", "edition-Prelims", "edition-Main Event"}
    ensures EditionField(LastEdition(n, Matches(n))) == "edition-Main Event"
            <==> forall k :: 0 <= k < |Matches(n)| ==> !Matches(n)[k].EditionHit?
  {
    EditionHitsAreEditions(n);
    LastEditionWins(n, Matches(n));
    LabelField(LastEdition(n, Matches(n)));
  }

  /** The field built from a scanned edition. */
  lemma LabelField(e: string)
    requires e in {"", "Early Prelims", "Prelims"}
    ensures EditionField(e) in {"edition-Early Prelims", "edition-Prelims", "edition-Main Event"}
    ensures EditionField(e) == "edition-Main Event" <==> e == ""
  {
    if e == "" {
      assert EditionField(e) == "edition-Main Event";
    } else if e == "Early Prelims" {
      assert EditionField(e) == "edition-Early Prelims";
    } else {
      assert EditionField(e) == "edition-Prelims";
    }
  }

  /** The resolution field is '' or the first `\d{3,4}[pi]` token verbatim. */
  lemma {:induction false} ResolutionFieldIsToken(n: string)
    ensures ResolutionField(n) == "" || IsResolutionToken(ResolutionField(n))
    ensures ResolutionField(n) == "" <==> forall q :: TokenAt(SubAliases(n, 0, 2), q).None?
  {
    ResolutionIsFirstToken(n, true);
  }

  /** Scanned fighter names are '' or hold " vs ", and are title-cased. */
  lemma {:induction false} ScannedNamesHoldVersus(n: string)
    ensures LastNames(n, Matches(n)) == "" || Occurs(" vs ", LastNames(n, Matches(n)))
    ensures IsTitled(LastNames(n, Matches(n)))
  {
    var ms := Matches(n);
    LastNamesWins(n, ms);
    if LastNames(n, ms) != "" {
      var k :| IsLastNamesHit(n, ms, k, LastNames(n, ms));
      MatchesAreHits(n, 0);
      assert HitAt(n, ms[k].start) == Some(ms[k]);
      assert NamesAt(n, ms[k].start).Some?;
      NamesHoldVersus(n, ms[k].start);
      FighterNamesTitled(n[ms[k].start..ms[k].end]);
    }
  }

  /** A non-strict parse is the scan alone: no exit, no folder lookup. */
  lemma LooseParse(name: string, strictMatching: bool, dest: seq<DirEntry>)
    ensures Extraction(name, false, strictMatching, dest) == Done(LooseRecord(name))
  {
  }

  /** dest[j] is an event folder with fighter names `r`, and no event
      folder listed between i and j has any. */
  ghost predicate IsFirstNamedFolder(eventNumber: string, strictMatching: bool, dest: seq<DirEntry>, i: nat, j: int, r: string) {
    i <= j < |dest| && IsEventFolder(eventNumber, dest[j])
    && r == FolderFighterNames(dest[j], strictMatching, dest)
    && forall q :: i <= q < j && IsEventFolder(eventNumber, dest[q]) ==>
         FolderFighterNames(dest[q], strictMatching, dest) == ""
  }

  /** No event folder listed from `i` on has fighter names. */
  ghost predicate NoNamedFolderFrom(eventNumber: string, strictMatching: bool, dest: seq<DirEntry>, i: nat) {
    forall j :: i <= j < |dest| && IsEventFolder(eventNumber, dest[j]) ==>
      FolderFighterNames(dest[j], strictMatching, dest) == ""
  }

  /** find_names gives '' exactly when no listed event folder has names. */
  lemma {:induction false} FolderNamesEmpty(eventNumber: string, strictMatching: bool, dest: seq<DirEntry>, i: nat)
    requires i <= |dest|
    ensures FolderNames(eventNumber, strictMatching, dest, i) == ""
            <==> NoNamedFolderFrom(eventNumber, strictMatching, dest, i)
    decreases |dest| - i
  {
    if i < |dest| {
      FolderNamesEmpty(eventNumber, strictMatching, dest, i + 1);
      if !NoNamedFolderFrom(eventNumber, strictMatching, dest, i) {
        var j :| i <= j < |dest| && IsEventFolder(eventNumber, dest[j])
                 && FolderFighterNames(dest[j], strictMatching, dest) != "";
        if j > i {
          assert !NoNamedFolderFrom(eventNumber, strictMatching, dest, i + 1);
        }
      }
    }
  }

  /** find_names returns the names of the first listed event folder that
      has any. */
  lemma {:induction false} FolderNamesIsFirst(eventNumber: string, strictMatching: bool, dest: seq<DirEntry>, i: nat)
    requires i <= |dest|
    ensures FolderNames(eventNumber, strictMatching, dest, i) != "" ==>
              exists j :: IsFirstNamedFolder(eventNumber, strictMatching, dest, i, j,
                                             FolderNames(eventNumber, strictMatching, dest, i))
    decreases |dest| - i
  {
    if i < |dest| {
      var r := FolderNames(eventNumber, strictMatching, dest, i);
      FolderNamesIsFirst(eventNumber, strictMatching, dest, i + 1);
      if IsEventFolder(eventNumber, dest[i]) && FolderFighterNames(dest[i], strictMatching, dest) != "" {
        assert IsFirstNamedFolder(eventNumber, strictMatching, dest, i, i, r);
      } else if r != "" {
        var j :| IsFirstNamedFolder(eventNumber, strictMatching, dest, i + 1, j, r);
        assert IsFirstNamedFolder(eventNumber, strictMatching, dest, i, j, r);
      }
    }
  }

  /** Fighter names found in a folder name hold " vs " and are title-cased too. */
  lemma {:induction false} FolderNamesHoldVersus(eventNumber: string, strictMatching: bool, dest: seq<DirEntry>, i: nat)
    requires i <= |dest|
    ensures FolderNames(eventNumber, strictMatching, dest, i) == ""
            || Occurs(" vs ", FolderNames(eventNumber, strictMatching, dest, i))
    ensures IsTitled(FolderNames(eventNumber, strictMatching, dest, i))
    decreases |dest| - i
  {
    if i < |dest| {
      LooseParse(dest[i].name, strictMatching, dest);
      ScannedNamesHoldVersus(Normalize(dest[i].name));
      FolderNamesHoldVersus(eventNumber, strictMatching, dest, i + 1);
    }
  }

  /** The shape of every record extract_info returns. */
  lemma {:induction false} RecordShape(name: string, strict: bool, strictMatching: bool, dest: seq<DirEntry>)
    requires Extraction(name, strict, strictMatching, dest).Done?
    ensures var info := Extraction(name, strict, strictMatching, dest).value;
            (info.eventNumber == "" <==> !strict && EventNumber(Normalize(name)) == "")
            && (info.eventNumber == "" || IsEventNumber(info.eventNumber))
            && (info.fighterNames == "" || Occurs(" vs ", info.fighterNames))
            && IsTitled(info.fighterNames)
            && (info.resolution == "" || IsResolutionToken(info.resolution))
            && info.edition in {"edition-Early Prelims", "edition-Prelims", "edition-Main Event"}
  {
    var n := Normalize(name);
    ExitsOnlyWithoutEvent(name, strict, strictMatching, dest);
    EventNumberIsLeftmost(n);
    ScannedNamesHoldVersus(n);
    FolderNamesHoldVersus(EventNumber(n), strictMatching, dest, 0);
    ResolutionFieldIsToken(n);
    EditionFieldIsLabel(n);
  }
}
