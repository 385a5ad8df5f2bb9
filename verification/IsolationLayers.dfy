/** What a table holds after the isolation files of a run, and what its answers mean for the layers
    of the view: `common/details/FilesystemIsolationTableDetail.hpp` together with the policy of
    `common/FilesystemIsolationPolicy.hpp`. */
module IsolationLayers {
  import opened Outcomes
  import opened WideText
  import opened ViewPath
  import opened IsolationDocument
  import opened DocumentItems
  import opened FilesystemDocument
  import opened IsolationTable
  import opened IsolationLookup

  // ----- one path of a document

  lemma {:induction false} SegmentsBelow(folder: string, names: seq<string>)
    requires AreNames(names)
    ensures Segments(folder + Joined(names)) == Segments(folder) + names
  {
    hide Segments;
    if names == [] {
      assert folder + Joined(names) == folder;
    } else {
      var n := |names| - 1;
      SegmentsBelow(folder, names[..n]);
      SegmentsAppend(folder + Joined(names[..n]), '\\', names[n]);
      SegmentsOfName(names[n]);
      assert folder + Joined(names) == folder + Joined(names[..n]) + "\\" + names[n];
      assert names == names[..n] + [names[n]];
    }
  }

  /** The folder of a layer and some names below it. A folder that leads out of the view has no
      path below it either. */
  lemma ComponentsBelow(folder: string, names: seq<string>)
    requires AreNames(names)
    ensures Components(folder).Ok? ==> Components(folder + Joined(names)) == Ok(Components(folder).value + names)
    ensures Components(folder).Failed? ==> Components(folder + Joined(names)).Failed?
  {
    hide Segments;
    SegmentsBelow(folder, names);
    KeptAppend(Segments(folder), names);
    KeptNames(names);
    assert ".." in Segments(folder) + names <==> ".." in Segments(folder) || ".." in names;
    assert forall i :: 0 <= i < |names| ==> IsName(names[i]) && names[i] != "..";
  }

  predicate Matches(f: CaseFold, layer: Layer, key: string) {
    Folded(f, layer.layerKey) == Folded(f, key)
  }

  /** The first layer of a key maps it, in any case. */
  lemma {:induction false} FirstLayerMaps(f: CaseFold, layers: seq<Layer>, key: string, i: nat)
    requires i < |layers| && Matches(f, layers[i], key)
    requires forall j :: 0 <= j < i ==> !Matches(f, layers[j], key)
    ensures MappedLayer(f, layers, key) == Some(layers[i])
  {
    if i > 0 {
      FirstLayerMaps(f, layers[1..], key, i - 1);
    }
  }

  lemma {:induction false} UnmappedExactly(f: CaseFold, layers: seq<Layer>, key: string)
    ensures MappedLayer(f, layers, key) == None <==> forall i :: 0 <= i < |layers| ==> !Matches(f, layers[i], key)
  {
    if layers != [] {
      UnmappedExactly(f, layers[1..], key);
      assert forall i :: 0 < i < |layers| ==> layers[i] == layers[1..][i - 1];
    }
  }

  /** The components of the view path of an entry: the folder of the layer its first component
      names, and what follows that component. A layer whose folder leads out of the view puts its
      entries on the root of the view. */
  lemma ViewPathComponents(f: CaseFold, virtualPath: string, layers: seq<Layer>, layer: Layer)
    requires Components(virtualPath).Ok? && Components(virtualPath).value != []
    requires MappedLayer(f, layers, Components(virtualPath).value[0]) == Some(layer)
    ensures ViewPathOf(f, virtualPath, layers).Ok?
    ensures var viewPath := ViewPathOf(f, virtualPath, layers).value;
            var folder := Components(layer.mappedNtPath);
            && (folder.Ok? ==> Components(viewPath) == Ok(folder.value + Components(virtualPath).value[1..]))
            && (folder.Failed? ==> viewPath == "")
  {
    hide Segments, MappedLayer;
    var names := Components(virtualPath).value[1..];
    ComponentsAreNames(virtualPath);
    ComponentsBelow(layer.mappedNtPath, names);
    if Components(layer.mappedNtPath).Ok? {
      var all := Components(layer.mappedNtPath).value + names;
      ComponentsAreNames(layer.mappedNtPath + Joined(names));
      ComponentsOfJoined(all);
    }
  }

  /** A virtual path has no view path for one of two reasons, each with its code. */
  lemma ViewPathFails(f: CaseFold, virtualPath: string, layers: seq<Layer>)
    ensures ViewPathOf(f, virtualPath, layers) == Failed(InvalidArgument) <==> ".." in Segments(virtualPath)
    ensures ViewPathOf(f, virtualPath, layers) == Failed(LayerKeyUnmapped) <==>
            && Components(virtualPath).Ok? && Components(virtualPath).value != []
            && forall i :: 0 <= i < |layers| ==>
                 Folded(f, layers[i].layerKey) != Folded(f, Components(virtualPath).value[0])
  {
    hide Segments, Kept, MappedLayer, Folded;
    if Components(virtualPath).Ok? && Components(virtualPath).value != [] {
      UnmappedExactly(f, layers, Components(virtualPath).value[0]);
    }
  }

  // ----- one document

  /** The key an entry of a document is stored under, none when no layer maps it. */
  function KeyOf(s: Setting, item: Entry): Option<string> {
    match s.toWide(item.path)
    case Failed(_) => None
    case Ok(virtualPath) =>
      match ViewPathOf(s.fold, virtualPath, s.layers)
      case Failed(_) => None
      case Ok(viewPath) => Some(Folded(s.fold, viewPath))
  }

  predicate Convertible(s: Setting, items: seq<Entry>) {
    forall i :: 0 <= i < |items| ==> s.toWide(items[i].path).Ok?
  }

  /** Entry `i` is the last of a document that names the key. */
  predicate IsLast(s: Setting, items: seq<Entry>, key: string, i: nat)
    requires i < |items|
  {
    && KeyOf(s, items[i]) == Some(key)
    && forall j :: i < j < |items| ==> KeyOf(s, items[j]) != Some(key)
  }

  lemma AddEntrySets(s: Setting, c: Collected, item: Entry)
    ensures AddEntry(s, c, item).Ok? <==> s.toWide(item.path).Ok?
    ensures AddEntry(s, c, item).Ok? ==>
              var entries := AddEntry(s, c, item).value.entries;
              match KeyOf(s, item)
              case None => entries == c.entries
              case Some(key) => key in entries
                                && entries == c.entries[key := entries[key]]
                                && Answer(entries[key]) == LookupResult(item.isolation, item.kind)
                                && Folded(s.fold, entries[key].viewPath) == key
                                && Normalized(entries[key].viewPath) == entries[key].viewPath
  {
    if s.toWide(item.path).Ok? {
      ViewPathIsNormal(s, s.toWide(item.path).value);
    }
  }

  lemma ViewPathIsNormal(s: Setting, virtualPath: string)
    ensures var viewPath := ViewPathOf(s.fold, virtualPath, s.layers);
            viewPath.Ok? ==> Normalized(viewPath.value) == viewPath.value
  {
    var viewPath := ViewPathOf(s.fold, virtualPath, s.layers);
    if viewPath.Ok? {
      var components := Components(virtualPath).value;
      if components == [] {
        ComponentsOfJoined([]);
      } else {
        var layer := MappedLayer(s.fold, s.layers, components[0]).value;
        NormalizedTwice(layer.mappedNtPath + Joined(components[1..]));
      }
    }
  }

  /** A document is refused exactly when the text of one of its entries has no wide form. */
  lemma {:induction false} CollectSucceeds(s: Setting, items: seq<Entry>)
    ensures Collect(s, items).Ok? <==> Convertible(s, items)
    decreases |items|
  {
    if items != [] {
      var init, last := items[..|items| - 1], items[|items| - 1];
      CollectSucceeds(s, init);
      assert Convertible(s, items) <==> Convertible(s, init) && s.toWide(last.path).Ok?;
      if Collect(s, init).Ok? {
        AddEntrySets(s, Collect(s, init).value, last);
      }
    }
  }

  /** A file is refused, and lists nothing, exactly when it is no document or the text of an entry has no
      wide form; the code is the one of the reader, or of the first text that does not convert. */
  lemma RefusedListsNothing(s: Setting, text: Option<Json>)
    ensures Read(s, text).Failed? <==> Parsed(text).Failed? || !Convertible(s, Parsed(text).value.entries)
    ensures Read(s, text).Failed? ==> Listed(s, text) == map[]
    ensures Parsed(text).Failed? ==> Read(s, text).Failed? && Read(s, text).code == Parsed(text).code
  {
    if Parsed(text).Ok? {
      CollectSucceeds(s, Parsed(text).value.entries);
    }
  }

  /** The last entry of a document that names a key is the one the document sets. */
  lemma {:induction false} LastEntryWins(s: Setting, items: seq<Entry>, key: string, i: nat)
    requires Collect(s, items).Ok?
    requires i < |items| && IsLast(s, items, key, i)
    ensures var entries := Collect(s, items).value.entries;
            key in entries && Answer(entries[key]) == LookupResult(items[i].isolation, items[i].kind)
    decreases |items|
  {
    hide KeyOf, AddEntry;
    var init, last := items[..|items| - 1], items[|items| - 1];
    AddEntrySets(s, Collect(s, init).value, last);
    if i < |init| {
      assert IsLast(s, init, key, i);
      LastEntryWins(s, init, key, i);
    }
  }

  /** A document sets no key but the ones its entries name. */
  lemma {:induction false} OnlyNamedKeys(s: Setting, items: seq<Entry>, key: string)
    requires Collect(s, items).Ok? && key in Collect(s, items).value.entries
    ensures exists i :: 0 <= i < |items| && IsLast(s, items, key, i)
    decreases |items|
  {
    hide KeyOf, AddEntry;
    if items != [] {
      var init, last := items[..|items| - 1], items[|items| - 1];
      AddEntrySets(s, Collect(s, init).value, last);
      if KeyOf(s, last) == Some(key) {
        assert IsLast(s, items, key, |items| - 1);
      } else {
        OnlyNamedKeys(s, init, key);
        var i :| 0 <= i < |init| && IsLast(s, init, key, i);
        assert IsLast(s, items, key, i);
      }
    }
  }

  /** A virtual path that has no place in the view: it leads out of the view, or no layer of the run
      has its first component for a key. A path without a component is the root. */
  ghost predicate HasNoPlace(s: Setting, virtualPath: string) {
    || ".." in Segments(virtualPath)
    || (Kept(Segments(virtualPath)) != []
        && forall i :: 0 <= i < |s.layers| ==> !Matches(s.fold, s.layers[i], Kept(Segments(virtualPath))[0]))
  }

  /** The entries a document lists for no key. */
  lemma UnmappedEntryExactly(s: Setting, item: Entry)
    requires s.toWide(item.path).Ok?
    ensures KeyOf(s, item).None? <==> HasNoPlace(s, s.toWide(item.path).value)
  {
    hide Segments, Kept, MappedLayer, Matches;
    var parts := Segments(s.toWide(item.path).value);
    if ".." !in parts && Kept(parts) != [] {
      UnmappedExactly(s.fold, s.layers, Kept(parts)[0]);
    }
  }

  /** The virtual paths of the entries without a place, in the order of the document. */
  ghost function Unmapped(s: Setting, items: seq<Entry>): seq<string> {
    if items == [] then []
    else
      (match s.toWide(items[0].path)
       case Ok(virtualPath) => if HasNoPlace(s, virtualPath) then [virtualPath] else []
       case Failed(_) => [])
      + Unmapped(s, items[1..])
  }

  lemma {:induction false} UnmappedAppend(s: Setting, a: seq<Entry>, b: seq<Entry>)
    ensures Unmapped(s, a + b) == Unmapped(s, a) + Unmapped(s, b)
  {
    if a == [] {
      assert a + b == b;
    } else {
      assert (a + b)[1..] == a[1..] + b;
      UnmappedAppend(s, a[1..], b);
    }
  }

  lemma OneUnmapped(s: Setting, item: Entry)
    requires s.toWide(item.path).Ok?
    ensures Unmapped(s, [item]) == if KeyOf(s, item).None? then [s.toWide(item.path).value] else []
  {
    hide HasNoPlace, KeyOf;
    UnmappedEntryExactly(s, item);
    assert [item][1..] == [];
  }

  lemma {:induction false} UnmappedReported(s: Setting, items: seq<Entry>)
    requires Collect(s, items).Ok?
    ensures Collect(s, items).value.unmapped == Unmapped(s, items)
    decreases |items|
  {
    if items != [] {
      var init, last := items[..|items| - 1], items[|items| - 1];
      UnmappedReported(s, init);
      UnmappedAppend(s, init, [last]);
      assert items == init + [last];
      OneUnmapped(s, last);
    }
  }

  /** A run with one layer. */
  function OneLayerRun(f: CaseFold): Setting {
    Setting(f, (text: string) => Ok(text), [Layer("#A#", "\\??\\C:")])
  }

  const ESCAPING := "#A#" + ['\\'] + (".." + ['\\'] + "b")

  /** A path that leads out of the view is reported although its layer is mapped. */
  lemma EscapingIsReported(f: CaseFold)
    ensures MappedLayer(f, OneLayerRun(f).layers, "#A#").Some?
    ensures var collected := Collect(OneLayerRun(f), [Entry(ESCAPING, File, Full)]);
            collected.Ok? && collected.value.unmapped == [ESCAPING] && collected.value.entries == map[]
  {
    var s, items := OneLayerRun(f), [Entry(ESCAPING, File, Full)];
    SegmentsAppend("#A#", '\\', ".." + ['\\'] + "b");
    SegmentsAppend("..", '\\', "b");
    SegmentsOfName("..");
    hide Segments, Kept;
    assert Segments(ESCAPING) == Segments("#A#") + ([".."] + Segments("b"));
    assert Segments(ESCAPING)[|Segments("#A#")|] == "..";
    assert items[..|items| - 1] == [];
    assert Collect(s, []) == Ok(Collected(map[], []));
  }

  /** An entry without a path is never skipped: it is the root of the view. */
  lemma RootIsMapped(s: Setting, item: Entry)
    requires s.toWide(item.path) == Ok("")
    ensures KeyOf(s, item) == Some("")
  {
    assert Segments("") == [""] && Kept([""]) == [];
    assert Folded(s.fold, "") == "";
  }

  // ----- a run

  /** One isolation file a table is told to parse, and the setting it is parsed in. */
  datatype Reading = Reading(setting: Setting, text: Option<Json>)

  function ListedBy(reading: Reading): Entries {
    Listed(reading.setting, reading.text)
  }

  /** A table after any sequence of files, the lowest layer first. */
  function AfterReadings(entries: Entries, readings: seq<Reading>): Entries
    decreases |readings|
  {
    if readings == [] then entries
    else AfterReadings(entries + ListedBy(readings[0]), readings[1..])
  }

  lemma {:induction false} AfterReadingsAppend(entries: Entries, readings: seq<Reading>, reading: Reading)
    ensures AfterReadings(entries, readings + [reading]) == AfterReadings(entries, readings) + ListedBy(reading)
    decreases |readings|
  {
    hide ListedBy;
    if readings == [] {
      assert (readings + [reading])[1..] == [];
    } else {
      assert (readings + [reading])[1..] == readings[1..] + [reading];
      AfterReadingsAppend(entries + ListedBy(readings[0]), readings[1..], reading);
    }
  }

  /** The last layer that names a path sets its mode, whatever the layers below it say. */
  lemma {:induction false} LastLayerWins(readings: seq<Reading>, key: string, i: nat)
    requires i < |readings| && key in ListedBy(readings[i])
    requires forall j :: i < j < |readings| ==> key !in ListedBy(readings[j])
    ensures var entries := AfterReadings(map[], readings);
            key in entries && entries[key] == ListedBy(readings[i])[key]
    decreases |readings|
  {
    hide ListedBy;
    var init, last := readings[..|readings| - 1], readings[|readings| - 1];
    assert readings == init + [last];
    AfterReadingsAppend(map[], init, last);
    if i < |init| {
      LastLayerWins(init, key, i);
    }
  }

  /** A table holds the keys its documents list and no other. */
  lemma {:induction false} OnlyListedKeys(readings: seq<Reading>, key: string)
    ensures key in AfterReadings(map[], readings) <==> exists i :: 0 <= i < |readings| && key in ListedBy(readings[i])
    decreases |readings|
  {
    hide ListedBy;
    if readings != [] {
      var init, last := readings[..|readings| - 1], readings[|readings| - 1];
      assert readings == init + [last];
      AfterReadingsAppend(map[], init, last);
      OnlyListedKeys(init, key);
      if i :| 0 <= i < |readings| && key in ListedBy(readings[i]) {
        assert i < |init| ==> init[i] == readings[i];
      }
      if i :| 0 <= i < |init| && key in ListedBy(init[i]) {
        assert readings[i] == init[i];
      }
    }
  }

  // ----- the documents a lookup does not see

  lemma {:induction false} WalkUnseen(f: CaseFold, entries: Entries, more: Entries, probes: seq<string>)
    requires forall i :: 0 <= i < |probes| ==> Folded(f, probes[i]) !in more
    ensures FirstHit(f, entries + more, probes) == FirstHit(f, entries, probes)
  {
    if probes != [] {
      WalkUnseen(f, entries, more, probes[1..]);
    }
  }

  /** A document that lists nothing above a path leaves the answer for the path as it was. */
  lemma UncoveredIsUnchanged(s: Setting, entries: Entries, text: Option<Json>, path: string)
    requires forall key :: key in Listed(s, text) ==> !Covers(s.fold, key, ViewComponents(path))
    ensures Found(s.fold, entries + Listed(s, text), path) == Found(s.fold, entries, path)
  {
    hide Listed;
    var components := ViewComponents(path);
    var probes := Probes(components);
    var more := Listed(s, text);
    WalkIsFirstHit(s.fold, entries, components);
    WalkIsFirstHit(s.fold, entries + more, components);
    forall i | 0 <= i < |probes|
      ensures Folded(s.fold, probes[i]) !in more
    {
      CoversIsProbe(s.fold, Folded(s.fold, probes[i]), components);
    }
    WalkUnseen(s.fold, entries, more, probes);
  }

  // ----- the policy

  predicate HidesHost(mode: FilesystemIsolation, sourceKind: EntryKind) {
    mode == Whiteout || (mode == Full && sourceKind == Directory)
  }

  predicate HidesLower(mode: FilesystemIsolation) {
    mode == Whiteout
  }

  predicate HidesEntry(mode: FilesystemIsolation) {
    mode == Whiteout
  }

  predicate WritesToHost(mode: FilesystemIsolation, sandboxHolds: bool) {
    mode == Merge && !sandboxHolds
  }

  /** The policy, as the modes and kinds it hides and writes: the host is hidden by a whiteout and by a
      folder that is full, the lower layers and the entry by a whiteout alone, and the host is written
      by a merge which the sandbox holds nothing of. */
  lemma PolicyExactly(mode: FilesystemIsolation, kind: EntryKind, sandboxHolds: bool)
    ensures HidesHost(mode, kind) <==> (mode, kind) in {(Whiteout, File), (Whiteout, Directory), (Full, Directory)}
    ensures HidesLower(mode) <==> mode in {Whiteout}
    ensures HidesEntry(mode) <==> mode in {Whiteout}
    ensures WritesToHost(mode, sandboxHolds) <==> (mode, sandboxHolds) in {(Merge, false)}
  {
  }

  /** Every entry of a table carries a mode its kind may hold, under the key of its own path. */
  predicate Sound(f: CaseFold, entries: Entries) {
    forall key :: key in entries ==>
      && IsAllowed(entries[key].isolation, entries[key].kind)
      && Folded(f, entries[key].viewPath) == key
      && Normalized(entries[key].viewPath) == entries[key].viewPath
  }

  lemma {:induction false} CollectIsSound(s: Setting, items: seq<Entry>)
    requires Collect(s, items).Ok? && AllValid(ValidEntry, items)
    ensures Sound(s.fold, Collect(s, items).value.entries)
    decreases |items|
  {
    hide KeyOf, AddEntry;
    if items != [] {
      var init, last := items[..|items| - 1], items[|items| - 1];
      CollectIsSound(s, init);
      AddEntrySets(s, Collect(s, init).value, last);
      assert ValidEntry(last);
    }
  }

  lemma ListedIsSound(s: Setting, text: Option<Json>)
    ensures Sound(s.fold, Listed(s, text))
  {
    if Read(s, text).Ok? {
      ParsedRoundTrip(text);
      CollectIsSound(s, Parsed(text).value.entries);
    }
  }

  /** The files are read into one table, whose case mapping is fixed. */
  ghost predicate InOneTable(f: CaseFold, readings: seq<Reading>) {
    forall i :: 0 <= i < |readings| ==> readings[i].setting.fold == f
  }

  lemma SoundTogether(f: CaseFold, entries: Entries, more: Entries)
    requires Sound(f, entries) && Sound(f, more)
    ensures Sound(f, entries + more)
  {
  }

  lemma {:induction false} TablesAreSound(f: CaseFold, entries: Entries, readings: seq<Reading>)
    requires InOneTable(f, readings) && Sound(f, entries)
    ensures Sound(f, AfterReadings(entries, readings))
    decreases |readings|
  {
    hide Listed, Sound;
    if readings != [] {
      ListedIsSound(readings[0].setting, readings[0].text);
      SoundTogether(f, entries, ListedBy(readings[0]));
      TablesAreSound(f, entries + ListedBy(readings[0]), readings[1..]);
    }
  }

  lemma {:induction false} FoundIsListed(f: CaseFold, entries: Entries, probe: string)
    requires Walk(f, entries, probe).Ok?
    ensures exists key :: key in entries && Walk(f, entries, probe) == Ok(Answer(entries[key]))
    decreases |probe|
  {
    hide NextProbe;
    if Folded(f, probe) !in entries {
      FoundIsListed(f, entries, NextProbe(probe));
    }
  }

  /** What the tables guarantee of an answer: a mode that keeps the host writable or readable below
      comes from a folder; from a file come only modes under which no modification reaches the host,
      and which hide the host exactly when they hide the layers of the archive too. */
  predicate FollowsPolicy(a: LookupResult, sandboxHolds: bool) {
    && (a.mode == Merge || a.mode == WriteCopy ==> a.sourceKind == Directory)
    && (a.sourceKind == File ==>
          !WritesToHost(a.mode, sandboxHolds) && (HidesHost(a.mode, a.sourceKind) <==> HidesLower(a.mode)))
  }

  lemma SoundAnswers(f: CaseFold, entries: Entries, probe: string, sandboxHolds: bool)
    requires Sound(f, entries) && Walk(f, entries, probe).Ok?
    ensures FollowsPolicy(Walk(f, entries, probe).value, sandboxHolds)
  {
    hide Walk;
    FoundIsListed(f, entries, probe);
  }

  lemma AnswersFollowPolicy(f: CaseFold, readings: seq<Reading>, path: string, sandboxHolds: bool)
    requires InOneTable(f, readings) && Found(f, AfterReadings(map[], readings), path).Ok?
    ensures FollowsPolicy(Found(f, AfterReadings(map[], readings), path).value, sandboxHolds)
  {
    hide AfterReadings, Walk, FollowsPolicy, InOneTable, Sound, Normalized;
    EmptyIsSound(f);
    TablesAreSound(f, map[], readings);
    SoundAnswers(f, AfterReadings(map[], readings), Normalized(path), sandboxHolds);
  }

  /** The policy alone, for every mode and kind, listed or not: a modification reaches the host only
      where the host, the layers of the archive and the entry are part of the view. */
  lemma HostWritesAreVisible(mode: FilesystemIsolation, kind: EntryKind, sandboxHolds: bool)
    requires WritesToHost(mode, sandboxHolds)
    ensures !HidesHost(mode, kind) && !HidesLower(mode) && !HidesEntry(mode)
  {
  }

  lemma EmptyIsSound(f: CaseFold)
    ensures Sound(f, map[])
  {
  }

  /** No entry of a table is shadowed at its own path: the lookup of it answers with it. */
  lemma EntryDecidesItsPath(f: CaseFold, readings: seq<Reading>, key: string)
    requires InOneTable(f, readings) && key in AfterReadings(map[], readings)
    ensures var entries := AfterReadings(map[], readings);
            Found(f, entries, entries[key].viewPath) == Ok(Answer(entries[key]))
  {
    hide AfterReadings;
    TablesAreSound(f, map[], readings);
  }

  /** A path the view hides stays hidden below: the host is out of the view of everything a folder
      with the mode covers, unless a longer entry covers it too. */
  lemma HiddenFolderHidesBelow(f: CaseFold, entries: Entries, components: seq<string>, m: nat, path: string)
    requires components == ViewComponents(path) && m <= |components|
    requires var key := Folded(f, Joined(components[..m]));
             && key in entries && HidesHost(entries[key].isolation, entries[key].kind)
             && forall k :: k in entries && |k| > |key| ==> !Covers(f, k, components)
    ensures Found(f, entries, path).Ok?
    ensures HidesHost(Found(f, entries, path).value.mode, Found(f, entries, path).value.sourceKind)
  {
    var key := Folded(f, Joined(components[..m]));
    assert Covers(f, key, components) by {
      if m > 0 {
        assert NamesFolder(f, key, components, m);
      }
    }
    LookupDecides(f, entries, path, key);
  }

  // ----- from the documents to the answer

  /** The longest key any file lists for a path, in the last file that lists it, in the last entry of
      the file that names it: this entry is the answer. */
  lemma LastEntryOfLongestKeyDecides(f: CaseFold, readings: seq<Reading>, path: string, key: string, i: nat, e: nat)
    requires i < |readings| && Read(readings[i].setting, readings[i].text).Ok?
    requires var items := Parsed(readings[i].text).value.entries;
             e < |items| && IsLast(readings[i].setting, items, key, e)
    requires forall j :: i < j < |readings| ==> key !in ListedBy(readings[j])
    requires Covers(f, key, ViewComponents(path))
    requires forall j, k :: 0 <= j < |readings| && k in ListedBy(readings[j]) && Covers(f, k, ViewComponents(path)) ==>
               |k| <= |key|
    ensures var item := Parsed(readings[i].text).value.entries[e];
            Found(f, AfterReadings(map[], readings), path) == Ok(LookupResult(item.isolation, item.kind))
  {
    var items, entries := Parsed(readings[i].text).value.entries, AfterReadings(map[], readings);
    LastEntryWins(readings[i].setting, items, key, e);
    assert key in ListedBy(readings[i]);
    hide Covers, Found, IsLast, Collect, Parsed;
    LastLayerWins(readings, key, i);
    forall k | k in entries && Covers(f, k, ViewComponents(path))
      ensures |k| <= |key|
    {
      OnlyListedKeys(readings, k);
      var j :| 0 <= j < |readings| && k in ListedBy(readings[j]);
    }
    LookupDecides(f, entries, path, key);
  }

  /** A path that leads out of the view is looked up as the root of it. */
  lemma OutsideIsTheRoot(f: CaseFold, entries: Entries, path: string)
    requires ".." in Segments(path)
    ensures Found(f, entries, path) ==
            if "" in entries then Ok(Answer(entries[""])) else Failed(IsolationEntryNotListed)
  {
    assert Folded(f, "") == "";
  }
}
