/** get_editions (ufc.py:147-174): the files of a folder indexed by the
    edition their names parse to. */
module Editions {
  import opened Text
  import opened Events
  import opened Resolution
  import opened Extract

  /** An entry of the folder as iterdir yields it. */
  datatype FolderEntry = FolderEntry(path: string, stem: string, isFile: bool)

  /** The dictionary stored for a file at ufc.py:169-173. */
  datatype EditionEntry = EditionEntry(path: string, eventNumber: string, fighterNames: string, resolution: string)

  /** `extract_info(file.stem, strict=False)` for every entry, which always returns a record. */
  function Parses(entries: seq<FolderEntry>): (infos: seq<Info>)
    ensures |infos| == |entries|
  {
    if entries == [] then []
    else Parses(entries[..|entries| - 1]) + [Extraction(entries[|entries| - 1].stem, false, false, []).value]
  }

  /** What the loop stores for a file whose stem parses to `info`, if anything. */
  function Indexed(e: FolderEntry, info: Info, eventNumber: string): Option<(string, EditionEntry)> {
    if e.isFile && info.edition != "" && info.eventNumber == eventNumber then
      Some((info.edition, EditionEntry(e.path, info.eventNumber, info.fighterNames, info.resolution)))
    else None
  }

  /** The dictionary after the loop has run over entries[..k], parsed as
      `infos`; a later file of the same edition overwrites an earlier one. */
  function EditionsIn(entries: seq<FolderEntry>, infos: seq<Info>, eventNumber: string, k: nat): map<string, EditionEntry>
    requires k <= |entries| == |infos|
  {
    if k == 0 then map[]
    else
      var m := EditionsIn(entries, infos, eventNumber, k - 1);
      match Indexed(entries[k - 1], infos[k - 1], eventNumber)
      case None => m
      case Some(kv) => m[kv.0 := kv.1]
  }

  /** get_editions(path, event_number) for a folder holding `entries`. */
  function EditionsOf(entries: seq<FolderEntry>, eventNumber: string): map<string, EditionEntry> {
    EditionsIn(entries, Parses(entries), eventNumber, |entries|)
  }

  /** The loop of ufc.py:162-174. extract_info(file.stem, strict=False)
      reads neither STRICT_MATCHING nor the destination listing. */
  method GetEditions(entries: seq<FolderEntry>, eventNumber: string) returns (editions: map<string, EditionEntry>)
    ensures editions == EditionsOf(entries, eventNumber)
  {
    ghost var parsed: seq<Info> := [];
    editions := map[];
    for k := 0 to |entries|
      invariant parsed == Parses(entries[..k])
      invariant editions == EditionsIn(entries[..k], parsed, eventNumber, k)
    {
      var file := entries[k];
      var info := ParseStem(file.stem);
      editions := Store(editions, file, info, eventNumber);
      PrefixStep(entries, parsed, info, eventNumber, k);
      ParsesSnoc(entries, k, info);
      parsed := parsed + [info];
    }
    assert entries[..|entries|] == entries;
  }

  /** The body of the loop for one entry parsed as `info` (ufc.py:163-173). */
  method Store(editions: map<string, EditionEntry>, file: FolderEntry, info: Info, eventNumber: string)
    returns (updated: map<string, EditionEntry>)
    ensures updated == match Indexed(file, info, eventNumber)
                       case None => editions
                       case Some(kv) => editions[kv.0 := kv.1]
  {
    updated := editions;
    if file.isFile {
      if info.edition != "" && info.eventNumber == eventNumber {
        updated := editions[info.edition := EditionEntry(file.path, info.eventNumber,
                                                         info.fighterNames, info.resolution)];
      }
    }
  }

  /** One more parsed entry extends the parses of the entries before it. */
  lemma ParsesSnoc(entries: seq<FolderEntry>, k: nat, info: Info)
    requires k < |entries|
    requires Extraction(entries[k].stem, false, false, []) == Done(info)
    ensures Parses(entries[..k + 1]) == Parses(entries[..k]) + [info]
  {
    assert entries[..k + 1][..k] == entries[..k];
  }

  /** One more entry extends the dictionary built over the entries before it. */
  lemma PrefixStep(entries: seq<FolderEntry>, parsed: seq<Info>, info: Info, eventNumber: string, k: nat)
    requires k < |entries| && |parsed| == k
    ensures EditionsIn(entries[..k + 1], parsed + [info], eventNumber, k + 1)
            == match Indexed(entries[k], info, eventNumber)
               case None => EditionsIn(entries[..k], parsed, eventNumber, k)
               case Some(kv) => EditionsIn(entries[..k], parsed, eventNumber, k)[kv.0 := kv.1]
  {
    PrefixAgrees(entries[..k + 1], parsed + [info], entries[..k], parsed, eventNumber, k);
  }

  /** The dictionary over the first k entries depends on nothing after them. */
  lemma {:induction false} PrefixAgrees(e1: seq<FolderEntry>, i1: seq<Info>, e2: seq<FolderEntry>, i2: seq<Info>,
                                        eventNumber: string, k: nat)
    requires k <= |e1| == |i1| && k <= |e2| == |i2|
    requires e1[..k] == e2[..k] && i1[..k] == i2[..k]
    ensures EditionsIn(e1, i1, eventNumber, k) == EditionsIn(e2, i2, eventNumber, k)
  {
    if k > 0 {
      assert e1[k - 1] == e2[k - 1] && i1[k - 1] == i2[k - 1];
      assert e1[..k - 1] == e2[..k - 1] && i1[..k - 1] == i2[..k - 1];
      PrefixAgrees(e1, i1, e2, i2, eventNumber, k - 1);
    }
  }

  /** `extract_info(file.stem, strict=False)`, which always returns a record. */
  method ParseStem(stem: string) returns (info: Info)
    ensures Extraction(stem, false, false, []) == Done(info)
  {
    var r := ExtractInfo(stem, false, false, []);
    LooseParse(stem, false, []);
    info := r.value;
  }

  /** The edition is one of the three labels and the resolution is '' or a
      resolution token. */
  ghost predicate WellShaped(info: Info) {
    info.edition in {"edition-Early Prelims", "edition-Prelims", "edition-Main Event"}
    && (info.resolution == "" || IsResolutionToken(info.resolution))
  }

  lemma StemShape(stem: string)
    ensures Extraction(stem, false, false, []).Done? && WellShaped(Extraction(stem, false, false, []).value)
  {
    LooseParse(stem, false, []);
    RecordShape(stem, false, false, []);
  }

  /** Every parsed edition field is one of the three labels, and every
      parsed resolution is '' or a resolution token. */
  lemma {:induction false} ParsedFieldShapes(entries: seq<FolderEntry>)
    ensures forall j :: 0 <= j < |entries| ==> WellShaped(Parses(entries)[j])
  {
    if entries != [] {
      var init := entries[..|entries| - 1];
      var stem := entries[|entries| - 1].stem;
      ParsedFieldShapes(init);
      StemShape(stem);
      assert Parses(entries) == Parses(init) + [Extraction(stem, false, false, []).value];
    }
  }

  /** Every stored file parses to this event number, and its key is its
      edition field. */
  lemma {:induction false} KeysAreEditions(entries: seq<FolderEntry>, infos: seq<Info>, eventNumber: string, k: nat)
    requires k <= |entries| == |infos|
    ensures forall key :: key in EditionsIn(entries, infos, eventNumber, k) ==>
              (exists j :: 0 <= j < k && infos[j].edition == key)
              && EditionsIn(entries, infos, eventNumber, k)[key].eventNumber == eventNumber
  {
    if k > 0 {
      KeysAreEditions(entries, infos, eventNumber, k - 1);
    }
  }

  /** The key of every stored file is one of the three edition labels. */
  lemma {:induction false} KeysAreEditionLabels(entries: seq<FolderEntry>, eventNumber: string)
    ensures forall key :: key in EditionsOf(entries, eventNumber) ==>
              key in {"edition-Early Prelims", "edition-Prelims", "edition-Main Event"}
              && EditionsOf(entries, eventNumber)[key].eventNumber == eventNumber
  {
    KeysAreEditions(entries, Parses(entries), eventNumber, |entries|);
    ParsedFieldShapes(entries);
  }

  /** The entry stored under `key` comes from entries[j], and no later file
      is stored under the same key. */
  ghost predicate IsLastOfEdition(entries: seq<FolderEntry>, infos: seq<Info>, eventNumber: string, k: nat,
                                  key: string, j: int)
    requires k <= |entries| == |infos|
  {
    0 <= j < k && Indexed(entries[j], infos[j], eventNumber).Some?
    && Indexed(entries[j], infos[j], eventNumber).value.0 == key
    && forall q :: j < q < k && Indexed(entries[q], infos[q], eventNumber).Some? ==>
         Indexed(entries[q], infos[q], eventNumber).value.0 != key
  }

  /** Later files overwrite earlier ones: each key holds the entry of the
      last file of that edition, and every such file has its key present. */
  lemma {:induction false} LaterFilesOverwrite(entries: seq<FolderEntry>, infos: seq<Info>, eventNumber: string, k: nat)
    requires k <= |entries| == |infos|
    ensures forall key :: key in EditionsIn(entries, infos, eventNumber, k) ==>
              exists j :: IsLastOfEdition(entries, infos, eventNumber, k, key, j)
                && EditionsIn(entries, infos, eventNumber, k)[key] == Indexed(entries[j], infos[j], eventNumber).value.1
    ensures forall j :: 0 <= j < k && Indexed(entries[j], infos[j], eventNumber).Some? ==>
              Indexed(entries[j], infos[j], eventNumber).value.0 in EditionsIn(entries, infos, eventNumber, k)
  {
    if k > 0 {
      LaterFilesOverwrite(entries, infos, eventNumber, k - 1);
      var m := EditionsIn(entries, infos, eventNumber, k);
      var last := Indexed(entries[k - 1], infos[k - 1], eventNumber);
      forall key | key in m
        ensures exists j :: IsLastOfEdition(entries, infos, eventNumber, k, key, j)
                  && m[key] == Indexed(entries[j], infos[j], eventNumber).value.1
      {
        if last.Some? && last.value.0 == key {
          assert IsLastOfEdition(entries, infos, eventNumber, k, key, k - 1);
        } else {
          assert key in EditionsIn(entries, infos, eventNumber, k - 1);
          var j :| IsLastOfEdition(entries, infos, eventNumber, k - 1, key, j)
                   && EditionsIn(entries, infos, eventNumber, k - 1)[key] == Indexed(entries[j], infos[j], eventNumber).value.1;
          assert IsLastOfEdition(entries, infos, eventNumber, k, key, j);
        }
      }
    }
  }

  /** Every stored resolution is '' or a resolution token. */
  lemma {:induction false} StoredResolutionsAreTokens(entries: seq<FolderEntry>, eventNumber: string)
    ensures forall key :: key in EditionsOf(entries, eventNumber) ==>
              EditionsOf(entries, eventNumber)[key].resolution == ""
              || IsResolutionToken(EditionsOf(entries, eventNumber)[key].resolution)
  {
    var infos := Parses(entries);
    LaterFilesOverwrite(entries, infos, eventNumber, |entries|);
    ParsedFieldShapes(entries);
    forall key | key in EditionsOf(entries, eventNumber)
      ensures EditionsOf(entries, eventNumber)[key].resolution == ""
              || IsResolutionToken(EditionsOf(entries, eventNumber)[key].resolution)
    {
      var j :| IsLastOfEdition(entries, infos, eventNumber, |entries|, key, j)
               && EditionsOf(entries, eventNumber)[key] == Indexed(entries[j], infos[j], eventNumber).value.1;
      assert EditionsOf(entries, eventNumber)[key].resolution == infos[j].resolution;
    }
  }

  /** ufc.py:412-413 looks this map up by an event number. No event number
      and not '' is ever a key, since every key starts with "edition-". */
  lemma {:induction false} EventNumberIsNeverAKey(entries: seq<FolderEntry>, eventNumber: string, probe: string)
    requires probe == "" || IsEventNumber(probe)
    ensures probe !in EditionsOf(entries, eventNumber)
  {
    KeysAreEditionLabels(entries, eventNumber);
    EventNumberIsNoLabel(probe);
  }

  lemma EventNumberIsNoLabel(probe: string)
    requires probe == "" || IsEventNumber(probe)
    ensures probe !in {"edition-Early Prelims", "edition-Prelims", "edition-Main Event"}
  {
    if probe != "" {
      EventNumberStartsWithU(probe);
      assert "edition-Early Prelims"[0] == 'e' && "edition-Prelims"[0] == 'e' && "edition-Main Event"[0] == 'e';
    }
  }

  lemma EventNumberStartsWithU(probe: string)
    requires IsEventNumber(probe)
    ensures |probe| > 0 && probe[0] == 'U'
  {
    if IsPrefix("UFC ", probe) {
      assert probe[..4][0] == 'U';
    } else if IsPrefix("UFC Fight Night ", probe) {
      assert probe[..16][0] == 'U';
    } else {
      assert probe[..7][0] == 'U';
    }
  }
}
