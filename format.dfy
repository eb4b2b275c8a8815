/** construct_path (ufc.py:306-350): the record is laid out into the
    index-addressed `parts` and `folder_parts` lists, which are joined into
    the folder and file name under DESTINATION_FOLDER. */
module Format {
  import opened Text
  import opened Extract

  /** The Bracket enum of ufc.py:32-35. */
  datatype Bracket = Square | Curly | Round

  /** DESTINATION_FOLDER, FORMAT_ORDER, FORMAT_TOKENS and FORMAT_FOLDER. */
  datatype Layout = Layout(destination: string, order: map<string, int>,
                           tokens: map<string, Bracket>, folder: set<string>)

  /** The values ufc.py:38 and ufc.py:59-74 give them. Path renders
      '/mnt/media/Sport/' without its trailing slash. */
  const DefaultLayout := Layout(
    "/mnt/media/Sport",
    map["event_number" := 0, "fighter_names" := 1, "edition" := 2, "resolution" := 3],
    map["edition" := Curly, "resolution" := Square],
    {"event_number", "fighter_names"})

  /** `info.items()`, in the insertion order of ufc.py:298-303. */
  function Items(info: Info): seq<(string, string)> {
    [("event_number", info.eventNumber), ("fighter_names", info.fighterNames),
     ("edition", info.edition), ("resolution", info.resolution)]
  }

  /** The bracketing of ufc.py:333-336: ROUND and no token leave the value as it is. */
  function Decorate(layout: Layout, key: string, value: string): string {
    if key in layout.tokens && layout.tokens[key] == Curly then "{" + value + "}"
    else if key in layout.tokens && layout.tokens[key] == Square then "[" + value + "]"
    else value
  }

  /** Which element `xs[index] = v` assigns in a Python list of length `n`:
      negative indices count from the end, others raise IndexError. */
  function Slot(index: int, n: nat): (r: Option<nat>)
    ensures r.Some? ==> r.value < n
  {
    if 0 <= index < n then Some(index)
    else if index < 0 && 0 <= index + n then Some(index + n)
    else None
  }

  /** The two lists of ufc.py:319-320. */
  datatype Parts = Parts(parts: seq<string>, folderParts: seq<string>)

  predicate WellSized(layout: Layout, p: Parts) {
    |p.parts| == |layout.order| && |p.folderParts| == |layout.order|
  }

  /** One iteration of the loop of ufc.py:323-342. */
  function Step(layout: Layout, p: Parts, key: string, value: string): (r: Outcome<Parts>)
    requires WellSized(layout, p)
    ensures r.Done? ==> WellSized(layout, r.value)
  {
    if value == "" then Done(p)
    else if key !in layout.order then Exit("FORMAT_ORDER does not contain " + key, 1)
    else match Slot(layout.order[key], |p.parts|)
      case None => Crash("IndexError: list assignment index out of range")
      case Some(i) =>
        var v := Decorate(layout, key, value);
        Done(Parts(p.parts[i := v], if key in layout.folder then p.folderParts[i := v] else p.folderParts))
  }

  /** The lists after the loop has run over items[..k]; an exit or an
      exception ends the loop. */
  function Filled(layout: Layout, items: seq<(string, string)>, k: nat): (r: Outcome<Parts>)
    requires k <= |items|
    ensures r.Done? ==> WellSized(layout, r.value)
  {
    if k == 0 then Done(Parts(seq(|layout.order|, _ => ""), seq(|layout.order|, _ => "")))
    else
      match Filled(layout, items, k - 1)
      case Done(p) => Step(layout, p, items[k - 1].0, items[k - 1].1)
      case Exit(m, c) => Exit(m, c)
      case Crash(e) => Crash(e)
  }

  lemma {:induction false} FailureIsFinal(layout: Layout, items: seq<(string, string)>, k: nat, j: nat)
    requires k <= j <= |items|
    requires !Filled(layout, items, k).Done?
    ensures Filled(layout, items, j) == Filled(layout, items, k)
    decreases j - k
  {
    if k < j {
      FailureIsFinal(layout, items, k, j - 1);
    }
  }

  /** The loop of ufc.py:319-342 over arrays standing for the two lists. */
  method FillParts(layout: Layout, info: Info) returns (r: Outcome<Parts>)
    ensures r == Filled(layout, Items(info), 4)
  {
    var items := Items(info);
    var n := |layout.order|;
    var parts := new string[n](_ => "");
    var folderParts := new string[n](_ => "");
    assert parts[..] == seq(n, _ => "") && folderParts[..] == seq(n, _ => "");
    for k := 0 to 4
      invariant Filled(layout, items, k) == Done(Parts(parts[..], folderParts[..]))
    {
      var key := items[k].0;
      var value := items[k].1;
      if value == "" {
        continue;
      }
      if key !in layout.order {
        r := Exit("FORMAT_ORDER does not contain " + key, 1);
        FailureIsFinal(layout, items, k + 1, 4);
        return;
      }
      var index := layout.order[key];
      if !(0 <= index < n || (index < 0 && 0 <= index + n)) {
        r := Crash("IndexError: list assignment index out of range");
        FailureIsFinal(layout, items, k + 1, 4);
        return;
      }
      var i := if index < 0 then index + n else index;
      var v := Decorate(layout, key, value);
      parts[i] := v;
      if key in layout.folder {
        folderParts[i] := v;
      }
    }
    return Done(Parts(parts[..], folderParts[..]));
  }

  /** The destination of the file: `new_path.parent` and `new_path.name`. */
  datatype Target = Target(parent: string, name: string)

  /** `Path(a) / b`, where an empty `b` adds nothing. */
  function JoinPath(a: string, b: string): string {
    if b == "" then a else a + "/" + b
  }

  /** ufc.py:345-350: the folder from `folder_parts`, the file from `parts`
      and the suffix of the source file. */
  function TargetOf(layout: Layout, p: Parts, suffix: string): Target {
    Target(JoinPath(layout.destination, JoinNonEmpty(p.folderParts)), JoinNonEmpty(p.parts) + suffix)
  }

  /** construct_path(file_path) for a file with this stem and suffix. */
  function Construction(layout: Layout, stem: string, suffix: string, strictMatching: bool,
                        dest: seq<DirEntry>): (r: Outcome<(Target, Info)>)
    ensures r.Done? ==> Extraction(stem, true, strictMatching, dest) == Done(r.value.1)
  {
    match Extraction(stem, true, strictMatching, dest)
    case Exit(m, c) => Exit(m, c)
    case Crash(e) => Crash(e)
    case Done(info) =>
      match Filled(layout, Items(info), 4)
      case Exit(m, c) => Exit(m, c)
      case Crash(e) => Crash(e)
      case Done(p) => Done((TargetOf(layout, p, suffix), info))
  }

  method ConstructPath(layout: Layout, stem: string, suffix: string, strictMatching: bool,
                       dest: seq<DirEntry>) returns (r: Outcome<(Target, Info)>)
    ensures r == Construction(layout, stem, suffix, strictMatching, dest)
  {
    var extracted := ExtractInfo(stem, true, strictMatching, dest);
    match extracted
    case Exit(m, c) => return Exit(m, c);
    case Crash(e) => return Crash(e);
    case Done(info) =>
      var filled := FillParts(layout, info);
      match filled
      case Exit(m, c) => return Exit(m, c);
      case Crash(e) => return Crash(e);
      case Done(p) => return Done((TargetOf(layout, p, suffix), info));
  }

  /** No later non-empty item of items[..k] goes to slot `i`. */
  ghost predicate NotOverwritten(layout: Layout, items: seq<(string, string)>, k: nat, j: nat, i: nat) {
    forall q :: j < q < k && q < |items| && items[q].1 != "" && items[q].0 in layout.order ==>
      Slot(layout.order[items[q].0], |layout.order|) != Some(i)
  }

  /** Each non-empty field lands, bracketed, at its FORMAT_ORDER index (in
      both lists when it is a FORMAT_FOLDER key) unless a later field is
      placed at the same index. */
  lemma {:induction false} FieldLandsAtItsIndex(layout: Layout, items: seq<(string, string)>, k: nat, j: nat)
    requires j < k <= |items|
    requires Filled(layout, items, k).Done?
    requires items[j].1 != ""
    ensures items[j].0 in layout.order && Slot(layout.order[items[j].0], |layout.order|).Some?
    ensures var i := Slot(layout.order[items[j].0], |layout.order|).value;
            NotOverwritten(layout, items, k, j, i) ==>
              Filled(layout, items, k).value.parts[i] == Decorate(layout, items[j].0, items[j].1)
              && (items[j].0 in layout.folder ==>
                    Filled(layout, items, k).value.folderParts[i] == Decorate(layout, items[j].0, items[j].1))
    decreases k
  {
    if j < k - 1 {
      assert Filled(layout, items, k - 1).Done?;
      FieldLandsAtItsIndex(layout, items, k - 1, j);
    }
  }

  /** Every non-empty entry of the folder list holds a FORMAT_FOLDER field,
      bracketed, placed at its index. */
  lemma {:induction false} FolderHoldsOnlyFolderKeys(layout: Layout, items: seq<(string, string)>, k: nat, i: nat)
    requires k <= |items|
    requires Filled(layout, items, k).Done?
    requires i < |layout.order|
    requires Filled(layout, items, k).value.folderParts[i] != ""
    ensures exists j :: 0 <= j < k && items[j].0 in layout.folder && items[j].0 in layout.order
              && Slot(layout.order[items[j].0], |layout.order|) == Some(i)
              && Filled(layout, items, k).value.folderParts[i] == Decorate(layout, items[j].0, items[j].1)
    decreases k
  {
    if k == 0 {
      assert false;
    }
    var p := Filled(layout, items, k - 1).value;
    var key := items[k - 1].0;
    var value := items[k - 1].1;
    if value != "" && key in layout.folder && Slot(layout.order[key], |layout.order|) == Some(i) {
    } else {
      assert Filled(layout, items, k).value.folderParts[i] == p.folderParts[i];
      FolderHoldsOnlyFolderKeys(layout, items, k - 1, i);
    }
  }

  /** With the configuration of ufc.py the lists are
      [event, names, {edition}, [resolution]] and [event, names, '', ''],
      empty fields left empty. */
  lemma DefaultLayoutParts(info: Info)
    ensures Filled(DefaultLayout, Items(info), 4) == Done(Parts(
              [info.eventNumber, info.fighterNames,
               if info.edition == "" then "" else "{" + info.edition + "}",
               if info.resolution == "" then "" else "[" + info.resolution + "]"],
              [info.eventNumber, info.fighterNames, "", ""]))
  {
    var items := Items(info);
    var layout := DefaultLayout;
    var order := layout.order;
    assert order.Keys == {"event_number", "fighter_names", "edition", "resolution"};
    assert |order.Keys| == 4;
    assert seq(|order|, _ => "") == ["", "", "", ""];
    var e, f := info.eventNumber, info.fighterNames;
    var d := if info.edition == "" then "" else "{" + info.edition + "}";
    var r := if info.resolution == "" then "" else "[" + info.resolution + "]";
    assert Filled(layout, items, 0) == Done(Parts(["", "", "", ""], ["", "", "", ""]));
    assert Slot(order["event_number"], 4) == Some(0) && "event_number" in layout.folder;
    assert ["", "", "", ""][0 := e] == [e, "", "", ""];
    assert Filled(layout, items, 1) == Done(Parts([e, "", "", ""], [e, "", "", ""]));
    assert Slot(order["fighter_names"], 4) == Some(1) && "fighter_names" in layout.folder;
    assert [e, "", "", ""][1 := f] == [e, f, "", ""];
    assert Filled(layout, items, 2) == Done(Parts([e, f, "", ""], [e, f, "", ""]));
    assert Slot(order["edition"], 4) == Some(2) && "edition" !in layout.folder;
    assert [e, f, "", ""][2 := d] == [e, f, d, ""];
    assert Filled(layout, items, 3) == Done(Parts([e, f, d, ""], [e, f, "", ""]));
    assert Slot(order["resolution"], 4) == Some(3) && "resolution" !in layout.folder;
    assert [e, f, d, ""][3 := r] == [e, f, d, r];
  }

  /** With the configuration of ufc.py and a record that has an event number
      (as every strict parse does), the file goes to
      /mnt/media/Sport/<event> <names>/<event> <names> {<edition>} [<resolution>]<suffix>,
      absent names and resolution left out with their space. */
  lemma DefaultTarget(info: Info, suffix: string)
    requires info.eventNumber != "" && info.edition != ""
    ensures Filled(DefaultLayout, Items(info), 4).Done?
    ensures var t := TargetOf(DefaultLayout, Filled(DefaultLayout, Items(info), 4).value, suffix);
            var folder := if info.fighterNames == "" then info.eventNumber
                          else info.eventNumber + " " + info.fighterNames;
            t.parent == "/mnt/media/Sport/" + folder
            && t.name == folder + " {" + info.edition + "}"
                         + (if info.resolution == "" then "" else " [" + info.resolution + "]") + suffix
  {
    DefaultLayoutParts(info);
    DefaultPartsTarget(info, Filled(DefaultLayout, Items(info), 4).value, suffix);
  }

  lemma DefaultPartsTarget(info: Info, p: Parts, suffix: string)
    requires info.eventNumber != "" && info.edition != ""
    requires p == Parts([info.eventNumber, info.fighterNames, "{" + info.edition + "}",
                         if info.resolution == "" then "" else "[" + info.resolution + "]"],
                        [info.eventNumber, info.fighterNames, "", ""])
    ensures var t := TargetOf(DefaultLayout, p, suffix);
            var folder := if info.fighterNames == "" then info.eventNumber
                          else info.eventNumber + " " + info.fighterNames;
            t.parent == "/mnt/media/Sport/" + folder
            && t.name == folder + " {" + info.edition + "}"
                         + (if info.resolution == "" then "" else " [" + info.resolution + "]") + suffix
  {
    JoinFolder(info.eventNumber, info.fighterNames);
    JoinFile(info.eventNumber, info.fighterNames, "{" + info.edition + "}",
             if info.resolution == "" then "" else "[" + info.resolution + "]");
  }

  /** The folder list [event, names, '', ''] joined. */
  lemma JoinFolder(e: string, f: string)
    requires e != ""
    ensures JoinNonEmpty([e, f, "", ""]) == if f == "" then e else e + " " + f
  {
    NonEmptyCons("", []);
    NonEmptyCons("", [""]);
    NonEmptyCons(f, ["", ""]);
    NonEmptyCons(e, [f, "", ""]);
    if f == "" {
      assert NonEmpty([e, f, "", ""]) == [e];
      JoinOne(e);
    } else {
      assert NonEmpty([e, f, "", ""]) == [e, f];
      JoinTwo(e, f);
    }
  }

  /** The file list [event, names, edition, resolution] joined. */
  lemma JoinFile(e: string, f: string, d: string, r: string)
    requires e != "" && d != ""
    ensures JoinNonEmpty([e, f, d, r]) == (if f == "" then e else e + " " + f) + " " + d + (if r == "" then "" else " " + r)
  {
    NonEmptyCons(r, []);
    NonEmptyCons(d, [r]);
    NonEmptyCons(f, [d, r]);
    NonEmptyCons(e, [f, d, r]);
    if f == "" && r == "" {
      assert NonEmpty([e, f, d, r]) == [e, d];
      JoinTwo(e, d);
    } else if f == "" {
      assert NonEmpty([e, f, d, r]) == [e, d, r];
      JoinThree(e, d, r);
    } else if r == "" {
      assert NonEmpty([e, f, d, r]) == [e, f, d];
      JoinThree(e, f, d);
    } else {
      assert NonEmpty([e, f, d, r]) == [e, f, d, r];
      JoinFour(e, f, d, r);
    }
  }
}
