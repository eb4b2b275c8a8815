/** rename_and_move and move_file (ufc.py:353-449): where the renamed file
    goes, and what happens when the folder already holds a file. The
    filesystem is a set of answers (does the target exist, does its folder
    exist, what the folder holds, which effect raises an OSError) and the
    effects are returned as a list instead of being performed. */
module Placement {
  import opened Text
  import opened Events
  import opened Extract
  import opened Format
  import opened Resolution
  import opened Editions

  /** The filesystem changes move_file makes, in order. */
  datatype Effect = MakeDirs(dir: string) | CopyFile(from: string, to: string) | Unlink(path: string)

  /** The `(message, exit_code)` pair together with the effects made on the way. */
  datatype Report = Report(message: string, code: int, effects: seq<Effect>)

  /** The effect at index `at` raises an OSError whose text is `error`. */
  datatype Fault = Fault(at: nat, error: string)

  /** What the filesystem answers about the target of the move. */
  datatype Disk = Disk(targetExists: bool, parentExists: bool, parentEntries: seq<FolderEntry>, fault: Option<Fault>)

  /** `str(new_path)`. */
  function PathOf(t: Target): string { JoinPath(t.parent, t.name) }

  /** `Path(p).name`: what follows the last '/'. */
  function BaseName(p: string): (r: string)
    ensures IsSuffix(r, p) && forall k :: 0 <= k < |r| ==> r[k] != '/'
    ensures |r| == |p| || p[|p| - |r| - 1] == '/'
  {
    if p == [] || p[|p| - 1] == '/' then []
    else
      var r := BaseName(p[..|p| - 1]);
      assert p == p[..|p| - 1] + [p[|p| - 1]];
      r + [p[|p| - 1]]
  }

  predicate IsSuffix(r: string, p: string) { |r| <= |p| && p[|p| - |r|..] == r }

  /** ufc.py:370-376 when nothing fails: create the folder if it is missing,
      copy the file (`not new_path.iterdir()` is never true, since iterdir
      returns a generator), then delete the source. */
  function MovePlan(src: string, t: Target, parentExists: bool): seq<Effect> {
    (if parentExists then [] else [MakeDirs(t.parent)]) + [CopyFile(src, PathOf(t)), Unlink(src)]
  }

  /** move_file (ufc.py:353-380). A dry run makes no change and reports the
      same message and exit code as a real move. */
  function MoveFile(src: string, t: Target, dryRun: bool, parentExists: bool): (r: Report)
    ensures r.code == 0 && r.message == "Moved " + src + " to " + PathOf(t)
    ensures dryRun <==> r.effects == []
    ensures !dryRun ==> r.effects[|r.effects| - 1] == Unlink(src)
                        && CopyFile(src, PathOf(t)) in r.effects
                        && (MakeDirs(t.parent) in r.effects <==> !parentExists)
  {
    var message := "Moved " + src + " to " + PathOf(t);
    if dryRun then Report(message, 0, []) else Report(message, 0, MovePlan(src, t, parentExists))
  }

  /** The `try` of ufc.py:407-449 around a move: an OSError raised by the
      effect at `fault.at` stops the move there and is reported with code 1. */
  function Attempt(r: Report, fault: Option<Fault>): (a: Report)
    ensures a.effects <= r.effects
    ensures a.effects == r.effects ==> a == r
    ensures a != r ==> fault.Some? && a.code == 1 && a.message == "Could not move file: " + fault.value.error
                       && |a.effects| == fault.value.at
  {
    if fault.Some? && fault.value.at < |r.effects| then
      Report("Could not move file: " + fault.value.error, 1, r.effects[..fault.value.at])
    else r
  }

  /** ufc.py:402-416 as written, for the target `t` and the record `info`
      construct_path produced. The lookup of ufc.py:412-413 goes through the
      dictionary of get_editions by the event number, which is never a key
      of it, so once the target is free the file always moves. */
  function Placed(t: Target, info: Info, src: string, disk: Disk, dryRun: bool, bulk: bool): (r: Report)
    requires info.eventNumber == "" || IsEventNumber(info.eventNumber)
    ensures disk.targetExists ==> r == Report("File " + t.name + " already exists in " + t.parent, 1, [])
    ensures !disk.targetExists ==> r == Attempt(MoveFile(src, t, dryRun, disk.parentExists), disk.fault)
  {
    if disk.targetExists then Report("File " + t.name + " already exists in " + t.parent, 1, [])
    else if !disk.parentExists || bulk then Attempt(MoveFile(src, t, dryRun, disk.parentExists), disk.fault)
    else if info.eventNumber !in EditionsOf(disk.parentEntries, info.eventNumber) then
      Attempt(MoveFile(src, t, dryRun, disk.parentExists), disk.fault)
    else
      EventNumberIsNeverAKey(disk.parentEntries, info.eventNumber, info.eventNumber);
      assert false;
      Report("", 0, [])
  }

  /** The outcomes of the resolution rule of ufc.py:421-446. */
  datatype Verdict = SameResolution | HigherExists | ReplaceExisting

  /** `int(res[:-1] or missing)`; None stands for the ValueError int() raises
      on anything but ASCII digits. */
  function Rank(res: string, missing: nat): (r: Option<nat>)
    ensures res == "" ==> r == Some(missing)
  {
    if |res| <= 1 then Some(missing)
    else if AllDigits(res[..|res| - 1]) then Some(DecimalValue(res[..|res| - 1]))
    else None
  }

  /** ufc.py:425-446 on the two ranks. */
  function ResolutionRule(newRank: nat, oldRank: nat, replaceSameRes: bool): (v: Verdict)
    ensures v == HigherExists <==> newRank < oldRank
    ensures v == SameResolution <==> newRank == oldRank && !replaceSameRes
  {
    if newRank == oldRank && !replaceSameRes then SameResolution
    else if newRank < oldRank then HigherExists
    else ReplaceExisting
  }

  /** ufc.py:422-446 on the two resolution strings; None when int() raises. */
  function Compare(newRes: string, oldRes: string, replaceSameRes: bool): Option<Verdict> {
    var newRank := Rank(newRes, 99999);
    var oldRank := Rank(oldRes, 0);
    if newRank.None? || oldRank.None? then None
    else Some(ResolutionRule(newRank.value, oldRank.value, replaceSameRes))
  }

  /** A parsed resolution always has a rank: the default when it is missing,
      otherwise a number below 10000. */
  lemma {:induction false} RankOfParsedResolution(res: string, missing: nat)
    requires res == "" || IsResolutionToken(res)
    ensures Rank(res, missing).Some?
    ensures res != "" ==> Rank(res, missing).value < 10000
  {
    if res != "" {
      assert Pow10(4) == 10000;
      assert Pow10(3) == 1000;
    }
  }

  /** The defaults of ufc.py:422-423 on parsed resolutions: a new file
      without one replaces any existing file, and an existing file without
      one never outranks the new file. */
  lemma {:induction false} MissingResolutions(newRes: string, oldRes: string, replaceSameRes: bool)
    requires newRes == "" || IsResolutionToken(newRes)
    requires oldRes == "" || IsResolutionToken(oldRes)
    ensures Compare(newRes, oldRes, replaceSameRes).Some?
    ensures newRes == "" ==> Compare(newRes, oldRes, replaceSameRes) == Some(ReplaceExisting)
    ensures oldRes == "" ==> Compare(newRes, oldRes, replaceSameRes) != Some(HigherExists)
  {
    RankOfParsedResolution(newRes, 99999);
    RankOfParsedResolution(oldRes, 0);
  }

  /** ufc.py:402-449 as evidently intended: the existing file is the one
      stored under this record's edition in `editions`, the dictionary
      get_editions built for the target's folder. */
  function PlacedIntended(t: Target, info: Info, src: string, disk: Disk, dryRun: bool, bulk: bool,
                          replaceSameRes: bool, editions: map<string, EditionEntry>): (r: Outcome<Report>)
    ensures disk.targetExists ==> r == Done(Report("File " + t.name + " already exists in " + t.parent, 1, []))
    ensures r.Done? && r.value.effects != [] ==> !disk.targetExists
    ensures !disk.targetExists && (!disk.parentExists || bulk) ==>
              r == Done(Attempt(MoveFile(src, t, dryRun, disk.parentExists), disk.fault))
  {
    if disk.targetExists then Done(Report("File " + t.name + " already exists in " + t.parent, 1, []))
    else if !disk.parentExists || bulk || info.edition !in editions then
      Done(Attempt(MoveFile(src, t, dryRun, disk.parentExists), disk.fault))
    else
      var existing := editions[info.edition];
      var name := BaseName(existing.path);
      match Compare(info.resolution, existing.resolution, replaceSameRes)
      case None => Crash("ValueError: invalid literal for int() with base 10")
      case Some(verdict) =>
        match verdict
        case SameResolution =>
          Done(Report("File " + name + " already exists in " + t.parent + " with the same resolution.", 0, []))
        case HigherExists =>
          Done(Report("File " + name + " already exists in " + t.parent + " with a higher resolution.", 1, []))
        case ReplaceExisting =>
          var moved := Attempt(MoveFile(src, t, dryRun, disk.parentExists), disk.fault);
          var removal := if existing.path != PathOf(t) then [Unlink(existing.path)] else [];
          Done(Report(moved.message, moved.code, removal + moved.effects))
  }

  /** rename_and_move(file_path) for the file `src` with this stem and
      suffix: construct_path, then the placement as written. */
  function RenameAndMove(layout: Layout, src: string, stem: string, suffix: string, strictMatching: bool,
                         dest: seq<DirEntry>, disk: Disk, dryRun: bool, bulk: bool): (r: Outcome<Report>)
    ensures !Construction(layout, stem, suffix, strictMatching, dest).Done? ==> r.Exit? || r.Crash?
    ensures r.Done? && disk.targetExists ==> r.value.code == 1 && r.value.effects == []
    ensures r.Done? && !disk.targetExists ==>
              r.value == Attempt(MoveFile(src, Construction(layout, stem, suffix, strictMatching, dest).value.0,
                                          dryRun, disk.parentExists), disk.fault)
  {
    match Construction(layout, stem, suffix, strictMatching, dest)
    case Exit(m, c) => Exit(m, c)
    case Crash(e) => Crash(e)
    case Done(placed) =>
      RecordShape(stem, true, strictMatching, dest);
      Done(Placed(placed.0, placed.1, src, disk, dryRun, bulk))
  }

  /** rename_and_move as evidently intended. */
  function RenameAndMoveIntended(layout: Layout, src: string, stem: string, suffix: string, strictMatching: bool,
                                 dest: seq<DirEntry>, disk: Disk, dryRun: bool, bulk: bool,
                                 replaceSameRes: bool): (r: Outcome<Report>)
    ensures r.Crash? ==> Construction(layout, stem, suffix, strictMatching, dest).Crash?
  {
    match Construction(layout, stem, suffix, strictMatching, dest)
    case Exit(m, c) => Exit(m, c)
    case Crash(e) => Crash(e)
    case Done(placed) =>
      RecordShape(stem, true, strictMatching, dest);
      ParsedRecordsNeverCrash(placed.0, placed.1, src, disk, dryRun, bulk, replaceSameRes);
      PlacedIntended(placed.0, placed.1, src, disk, dryRun, bulk, replaceSameRes,
                     EditionsOf(disk.parentEntries, placed.1.eventNumber))
  }

  /** With a parsed record and the dictionary of its folder, int() never
      raises: the intended placement always reports. */
  lemma {:induction false} ParsedRecordsNeverCrash(t: Target, info: Info, src: string, disk: Disk, dryRun: bool,
                                                   bulk: bool, replaceSameRes: bool)
    requires info.resolution == "" || IsResolutionToken(info.resolution)
    ensures PlacedIntended(t, info, src, disk, dryRun, bulk, replaceSameRes,
                           EditionsOf(disk.parentEntries, info.eventNumber)).Done?
  {
    var editions := EditionsOf(disk.parentEntries, info.eventNumber);
    if info.edition in editions {
      StoredResolutionsAreTokens(disk.parentEntries, info.eventNumber);
      MissingResolutions(info.resolution, editions[info.edition].resolution, replaceSameRes);
    }
  }

  /** When the folder already holds this edition, something is moved or
      deleted only if the rule says the new file replaces the old one. */
  lemma {:induction false} OnlyABetterFileReplaces(t: Target, info: Info, src: string, disk: Disk, dryRun: bool,
                                                   replaceSameRes: bool, editions: map<string, EditionEntry>)
    requires !disk.targetExists && disk.parentExists && info.edition in editions
    requires PlacedIntended(t, info, src, disk, dryRun, false, replaceSameRes, editions).Done?
    ensures Compare(info.resolution, editions[info.edition].resolution, replaceSameRes).Some?
    ensures PlacedIntended(t, info, src, disk, dryRun, false, replaceSameRes, editions).value.effects != [] ==>
              Compare(info.resolution, editions[info.edition].resolution, replaceSameRes) == Some(ReplaceExisting)
    ensures Compare(info.resolution, editions[info.edition].resolution, replaceSameRes) == Some(HigherExists) ==>
              PlacedIntended(t, info, src, disk, dryRun, false, replaceSameRes, editions).value.code == 1
    ensures Compare(info.resolution, editions[info.edition].resolution, replaceSameRes) != Some(ReplaceExisting) ==>
              PlacedIntended(t, info, src, disk, dryRun, false, replaceSameRes, editions).value.effects == []
    ensures Compare(info.resolution, editions[info.edition].resolution, replaceSameRes) == Some(SameResolution) ==>
              PlacedIntended(t, info, src, disk, dryRun, false, replaceSameRes, editions).value.code == 0
    ensures Compare(info.resolution, editions[info.edition].resolution, replaceSameRes) == Some(ReplaceExisting) ==>
              var r := PlacedIntended(t, info, src, disk, dryRun, false, replaceSameRes, editions).value;
              var moved := Attempt(MoveFile(src, t, dryRun, true), disk.fault);
              var previous := editions[info.edition].path;
              r.message == moved.message && r.code == moved.code
              && r.effects == (if previous != PathOf(t) then [Unlink(previous)] else []) + moved.effects
  {
  }

  /** ufc.py:412-413 as written: when the folder already holds a file of
      the same edition with a higher resolution, the new file is still moved
      in, where the lookup by edition refuses with exit code 1 and moves
      nothing. */
  lemma {:induction false} LookupByEventNumberMisses(t: Target, info: Info, src: string, disk: Disk, dryRun: bool,
                                                     replaceSameRes: bool)
    requires info.eventNumber == "" || IsEventNumber(info.eventNumber)
    requires !disk.targetExists && disk.parentExists
    requires info.edition in EditionsOf(disk.parentEntries, info.eventNumber)
    requires Compare(info.resolution, EditionsOf(disk.parentEntries, info.eventNumber)[info.edition].resolution,
                     replaceSameRes) == Some(HigherExists)
    ensures Placed(t, info, src, disk, dryRun, false) == Attempt(MoveFile(src, t, dryRun, true), disk.fault)
    ensures PlacedIntended(t, info, src, disk, dryRun, false, replaceSameRes,
                           EditionsOf(disk.parentEntries, info.eventNumber)).value.code == 1
    ensures PlacedIntended(t, info, src, disk, dryRun, false, replaceSameRes,
                           EditionsOf(disk.parentEntries, info.eventNumber)).value.effects == []
  {
  }
}
