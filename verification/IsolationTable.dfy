/** The isolation table of `common/FilesystemIsolationTable.hpp` and
    `common/details/FilesystemIsolationTableDetail.hpp`: filled from the isolation files of the
    layers of a run, and asked for the mode of a path of the view. */
module IsolationTable {
  import opened Outcomes
  import opened WideText
  import opened ViewPath
  import opened IsolationDocument
  import opened FilesystemDocument

  datatype Layer = Layer(layerKey: string, mappedNtPath: string)

  datatype IsolationEntry = IsolationEntry(viewPath: string, kind: EntryKind, isolation: FilesystemIsolation)

  datatype LookupResult = LookupResult(mode: FilesystemIsolation, sourceKind: EntryKind)

  /** The map of the table. Its comparison tells two paths apart exactly when they differ without
      case, so an entry is stored under its folded path. */
  type Entries = map<string, IsolationEntry>

  // ----- virtual paths

  function MappedLayer(f: CaseFold, layers: seq<Layer>, key: string): Option<Layer> {
    if layers == [] then None
    else if Folded(f, layers[0].layerKey) == Folded(f, key) then Some(layers[0])
    else MappedLayer(f, layers[1..], key)
  }

  function ViewPathOf(f: CaseFold, virtualPath: string, layers: seq<Layer>): Expected<string> {
    match Components(virtualPath)
    case Failed(code) => Failed(code)
    case Ok(components) =>
      if components == [] then Ok("")
      else
        match MappedLayer(f, layers, components[0])
        case None => Failed(LayerKeyUnmapped)
        case Some(layer) => Ok(Normalized(layer.mappedNtPath + Joined(components[1..])))
  }

  method IsolationVirtualPathToView(f: CaseFold, virtualPath: string, layers: seq<Layer>) returns (r: Expected<string>)
    ensures r == ViewPathOf(f, virtualPath, layers)
  {
    hide Components, Joined, Normalized, Folded, MappedLayer;
    var split := SplitIsolationPath(virtualPath);
    if split.Failed? {
      return Failed(split.code);
    }
    var components := split.value;
    if components == [] {
      return Ok("");
    }

    var key := components[0];
    assert layers[0..] == layers;
    for i := 0 to |layers|
      invariant MappedLayer(f, layers, key) == MappedLayer(f, layers[i..], key)
    {
      MappedLayerStep(f, layers, key, i);
      var equal := PathsEqual(f, layers[i].layerKey, key);
      if equal {
        var viewPath := layers[i].mappedNtPath;
        JoinedNone(viewPath, components);
        for index := 1 to |components|
          invariant viewPath == layers[i].mappedNtPath + Joined(components[1..index])
        {
          JoinedNext(layers[i].mappedNtPath, components, index);
          viewPath := viewPath + "\\";
          viewPath := viewPath + components[index];
        }
        assert components[1..|components|] == components[1..];
        var normalized := NormalizeViewPath(viewPath);
        return Ok(normalized);
      }
    }
    NoLayerIsLeft(f, layers, key);
    return Failed(LayerKeyUnmapped);
  }

  lemma MappedLayerStep(f: CaseFold, layers: seq<Layer>, key: string, i: nat)
    requires i < |layers|
    ensures MappedLayer(f, layers[i..], key) ==
            if Folded(f, layers[i].layerKey) == Folded(f, key) then Some(layers[i])
            else MappedLayer(f, layers[i + 1..], key)
  {
    hide Folded;
    assert layers[i..][1..] == layers[i + 1..];
  }

  lemma NoLayerIsLeft(f: CaseFold, layers: seq<Layer>, key: string)
    ensures MappedLayer(f, layers[|layers|..], key) == None
  {
  }

  lemma JoinedNone(front: string, components: seq<string>)
    requires components != []
    ensures front + Joined(components[1..1]) == front
  {
  }

  lemma JoinedNext(front: string, components: seq<string>, index: nat)
    requires 1 <= index < |components|
    ensures front + Joined(components[1..index + 1]) == front + Joined(components[1..index]) + "\\" + components[index]
  {
    var longer := components[1..index + 1];
    assert longer[..|longer| - 1] == components[1..index] && longer[|longer| - 1] == components[index];
  }

  // ----- one document

  /** The entries of a document and the virtual paths of the entries no layer maps. */
  datatype Collected = Collected(entries: Entries, unmapped: seq<string>)

  /** What the table is told about its surroundings: the case mapping, the conversion of the text
      of a document, and the layers of the run. */
  datatype Setting = Setting(fold: CaseFold, toWide: string -> Expected<string>, layers: seq<Layer>)

  function AddEntry(s: Setting, c: Collected, item: Entry): Expected<Collected> {
    match s.toWide(item.path)
    case Failed(code) => Failed(code)
    case Ok(virtualPath) =>
      match ViewPathOf(s.fold, virtualPath, s.layers)
      case Failed(_) => Ok(c.(unmapped := c.unmapped + [virtualPath]))
      case Ok(viewPath) =>
        var entry := IsolationEntry(viewPath, item.kind, item.isolation);
        Ok(c.(entries := c.entries[Folded(s.fold, viewPath) := entry]))
  }

  function Collect(s: Setting, items: seq<Entry>): Expected<Collected>
    decreases |items|
  {
    if items == [] then Ok(Collected(map[], []))
    else
      match Collect(s, items[..|items| - 1])
      case Failed(code) => Failed(code)
      case Ok(c) => AddEntry(s, c, items[|items| - 1])
  }

  /** What one isolation file adds to a table: nothing when it is refused. */
  function Read(s: Setting, text: Option<Json>): Expected<Collected> {
    match Parsed(text)
    case Failed(code) => Failed(code)
    case Ok(document) => Collect(s, document.entries)
  }

  function Listed(s: Setting, text: Option<Json>): Entries {
    match Read(s, text)
    case Failed(_) => map[]
    case Ok(c) => c.entries
  }

  // ----- the walk

  /** The next path the lookup probes: the entry of a stream, then the folder above. */
  function NextProbe(probe: string): (next: string)
    requires probe != ""
    ensures |next| < |probe|
  {
    var entry := EntryPathOfStream(probe);
    if entry != probe then entry
    else
      var behind := BehindLast(probe, '\\');
      if behind == 0 then "" else probe[..behind - 1]
  }

  function Answer(entry: IsolationEntry): LookupResult {
    LookupResult(entry.isolation, entry.kind)
  }

  function Walk(f: CaseFold, entries: Entries, probe: string): Expected<LookupResult>
    decreases |probe|
  {
    if Folded(f, probe) in entries then Ok(Answer(entries[Folded(f, probe)]))
    else if probe == "" then Failed(IsolationEntryNotListed)
    else Walk(f, entries, NextProbe(probe))
  }

  function Found(f: CaseFold, entries: Entries, viewPath: string): Expected<LookupResult> {
    Walk(f, entries, Normalized(viewPath))
  }

  class Table {
    const fold: CaseFold
    const toWide: string -> Expected<string>
    var entries: Entries

    constructor (fold: CaseFold, toWide: string -> Expected<string>)
      ensures this.fold == fold && this.toWide == toWide
      ensures entries == map[]
    {
      this.fold := fold;
      this.toWide := toWide;
      entries := map[];
    }

    /** Read one isolation file on top of what the table holds; the answer is the virtual paths of
        the entries that have no place in the view. */
    method Parse(text: Option<Json>, layers: seq<Layer>) returns (r: Expected<seq<string>>)
      modifies this
      ensures var s := Setting(fold, toWide, layers);
              && entries == old(entries) + Listed(s, text)
              && r == match Read(s, text)
                      case Failed(code) => Failed(code)
                      case Ok(c) => Ok(c.unmapped)
      ensures r.Failed? ==> entries == old(entries)
    {
      hide ViewPathOf, Parsed, Folded, Collect, AddEntry;
      var document := ParseDocument(text);
      if document.Failed? {
        assert entries + map[] == entries;
        return Failed(document.code);
      }

      ghost var s := Setting(fold, toWide, layers);
      ghost var items := document.value.entries;
      var collected: Entries := map[];
      var unmapped: seq<string> := [];
      CollectNothing(s);
      assert items[..0] == [];
      for i := 0 to |document.value.entries|
        invariant entries == old(entries)
        invariant Collect(s, items[..i]) == Ok(Collected(collected, unmapped))
      {
        var item := document.value.entries[i];
        CollectStep(s, items, i);
        var converted := toWide(item.path);
        if converted.Failed? {
          CollectStopsAt(s, items, i + 1);
          assert entries + map[] == entries;
          return Failed(converted.code);
        }
        var viewPath := IsolationVirtualPathToView(fold, converted.value, layers);
        if viewPath.Failed? {
          unmapped := unmapped + [converted.value];
        } else {
          var entry := IsolationEntry(viewPath.value, item.kind, item.isolation);
          collected := collected[Folded(fold, entry.viewPath) := entry];
        }
      }
      assert items[..|items|] == items;

      Apply(collected);
      return Ok(unmapped);
    }

    /** The entries of an accepted document replace the ones of the same path. */
    method Apply(collected: Entries)
      modifies this
      ensures entries == old(entries) + collected
    {
      var keys := collected.Keys;
      while keys != {}
        invariant keys <= collected.Keys
        invariant entries == old(entries) + (map k | k in collected.Keys - keys :: collected[k])
        decreases |keys|
      {
        var key :| key in keys;
        entries := entries[key := collected[key]];
        keys := keys - {key};
      }
      assert (map k | k in collected.Keys - {} :: collected[k]) == collected;
    }

    method Lookup(viewPath: string) returns (r: Expected<LookupResult>)
      ensures r == Found(fold, entries, viewPath)
    {
      var probe := NormalizeViewPath(viewPath);
      while true
        invariant Walk(fold, entries, probe) == Found(fold, entries, viewPath)
        decreases |probe|
      {
        if Folded(fold, probe) in entries {
          var entry := entries[Folded(fold, probe)];
          return Ok(LookupResult(entry.isolation, entry.kind));
        }

        if probe == "" {
          break;
        }

        var entry := EntryPathOfStream(probe);
        if entry != probe {
          probe := entry;
          continue;
        }

        var behind := BehindLast(probe, '\\');
        if behind == 0 {
          probe := "";
          continue;
        }
        probe := probe[..behind - 1];
      }
      return Failed(IsolationEntryNotListed);
    }
  }

  lemma CollectNothing(s: Setting)
    ensures Collect(s, []) == Ok(Collected(map[], []))
  {
  }

  lemma CollectStep(s: Setting, items: seq<Entry>, i: nat)
    requires i < |items| && Collect(s, items[..i]).Ok?
    ensures Collect(s, items[..i + 1]) == AddEntry(s, Collect(s, items[..i]).value, items[i])
    ensures var c, wide := Collect(s, items[..i]).value, s.toWide(items[i].path);
            && (wide.Failed? ==> Collect(s, items[..i + 1]) == Failed(wide.code))
            && (wide.Ok? && ViewPathOf(s.fold, wide.value, s.layers).Failed? ==>
                  Collect(s, items[..i + 1]) == Ok(Collected(c.entries, c.unmapped + [wide.value])))
            && (wide.Ok? && ViewPathOf(s.fold, wide.value, s.layers).Ok? ==>
                  var path := ViewPathOf(s.fold, wide.value, s.layers).value;
                  var entry := IsolationEntry(path, items[i].kind, items[i].isolation);
                  Collect(s, items[..i + 1]) == Ok(Collected(c.entries[Folded(s.fold, path) := entry], c.unmapped)))
  {
    hide ViewPathOf, Folded;
    assert items[..i + 1][..i] == items[..i];
  }

  lemma {:induction false} CollectStopsAt(s: Setting, items: seq<Entry>, i: nat)
    requires i <= |items| && Collect(s, items[..i]).Failed?
    ensures Collect(s, items) == Collect(s, items[..i])
    decreases |items|
  {
    if i == |items| {
      assert items[..i] == items;
    } else {
      var init := items[..|items| - 1];
      assert init[..i] == items[..i];
      CollectStopsAt(s, init, i);
    }
  }
}
