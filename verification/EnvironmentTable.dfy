/** The environment of the sandboxed process, `sandbox/environment/Table.cpp`, and the composition
    of the isolation files into it, `sandbox/environment/Isolation.cpp`. */
module EnvironmentTable {
  import opened Outcomes
  import opened EnvironmentDocument
  import opened EnvironmentChain
  import opened Sequences

  /** One variable of an isolation file. */
  datatype Configured = Configured(name: string, layer: Layer)

  datatype Variable = Variable(name: string, value: string)

  /** The upper case text two names are compared as. */
  type NameKey = string -> string

  /** The position of a variable, the length of the table when it holds none of the name. */
  function IndexOf(key: NameKey, entries: seq<Variable>, name: string): (n: nat)
    ensures n <= |entries|
    ensures n < |entries| ==> key(entries[n].name) == key(name)
    ensures forall i :: 0 <= i < n ==> key(entries[i].name) != key(name)
  {
    if entries == [] || key(entries[0].name) == key(name) then 0 else 1 + IndexOf(key, entries[1..], name)
  }

  /** What the table holds for a name. An empty name holds nothing. */
  function HeldFor(key: NameKey, entries: seq<Variable>, name: string): Held {
    var index := IndexOf(key, entries, name);
    if name == "" || index == |entries| then None else Some(entries[index].value)
  }

  /** The layers that configure a name, in the order of the file, their values expanded. */
  function LayersFor(key: NameKey, expand: string -> string, variables: seq<Configured>, name: string): seq<Layer> {
    if variables == [] then []
    else
      LayersOf(key, expand, variables[0], name) + LayersFor(key, expand, variables[1..], name)
  }

  predicate Configures(key: NameKey, variable: Configured, name: string) {
    variable.name != "" && key(variable.name) == key(name)
  }

  /** The layer a row is, its value with the references to known folders replaced. */
  function Expanded(expand: string -> string, variable: Configured): Layer {
    variable.layer.(value := expand(variable.layer.value))
  }

  function LayersOf(key: NameKey, expand: string -> string, variable: Configured, name: string): seq<Layer> {
    if Configures(key, variable, name) then [Expanded(expand, variable)] else []
  }

  predicate SameNames(a: seq<Variable>, b: seq<Variable>) {
    |a| == |b| && forall i :: 0 <= i < |a| ==> a[i].name == b[i].name
  }

  /** The variables keep their order, and new ones stand behind them. */
  predicate KeepsOrder(before: seq<Variable>, after: seq<Variable>) {
    |before| <= |after| && SameNames(before, after[..|before|])
  }

  lemma {:induction false} IndexIs(key: NameKey, entries: seq<Variable>, name: string, n: nat)
    requires n <= |entries| && (n < |entries| ==> key(entries[n].name) == key(name))
    requires forall i :: 0 <= i < n ==> key(entries[i].name) != key(name)
    ensures IndexOf(key, entries, name) == n
  {
    hide IndexOf;
    var m := IndexOf(key, entries, name);
    var found, given := m < |entries| && key(entries[m].name) == key(name), n < |entries|;
    assert found == (m < |entries|);
  }

  lemma SameIndex(key: NameKey, entries: seq<Variable>, a: string, b: string)
    requires key(a) == key(b)
    ensures IndexOf(key, entries, a) == IndexOf(key, entries, b)
  {
    hide IndexOf;
    IndexIs(key, entries, a, IndexOf(key, entries, b));
  }

  // ----- storing a variable

  function Stored(key: NameKey, entries: seq<Variable>, name: string, value: string): seq<Variable> {
    var index := IndexOf(key, entries, name);
    if name == "" then entries
    else if index != |entries| then entries[index := entries[index].(value := value)]
    else entries + [Variable(name, value)]
  }

  lemma StoredKeepsOrder(key: NameKey, entries: seq<Variable>, name: string, value: string)
    ensures KeepsOrder(entries, Stored(key, entries, name, value))
  {
    hide IndexOf;
  }

  lemma StoredIndex(key: NameKey, entries: seq<Variable>, name: string, value: string, n: string)
    requires name != "" && n != ""
    ensures var index := IndexOf(key, entries, n);
            IndexOf(key, Stored(key, entries, name, value), n) ==
            if index < |entries| || key(n) == key(name) then index
            else |Stored(key, entries, name, value)|
  {
    hide IndexOf;
    var index, after := IndexOf(key, entries, n), Stored(key, entries, name, value);
    if key(n) == key(name) {
      SameIndex(key, entries, n, name);
    }
    assert forall i :: 0 <= i < |entries| ==> after[i].name == entries[i].name;
    IndexIs(key, after, n, if index < |entries| || key(n) == key(name) then index else |after|);
  }

  /** A stored variable is read by every spelling of its name, and no other name is concerned. */
  lemma StoredHolds(key: NameKey, entries: seq<Variable>, name: string, value: string, n: string)
    ensures HeldFor(key, Stored(key, entries, name, value), n) ==
            if name != "" && n != "" && key(n) == key(name) then Some(value) else HeldFor(key, entries, n)
  {
    hide IndexOf;
    if name != "" && n != "" {
      StoredIndex(key, entries, name, value, n);
      if key(n) == key(name) {
        SameIndex(key, entries, n, name);
      }
    }
  }

  // ----- one row of a file

  /** What one row makes of what the table holds for a name. */
  function AfterRow(key: NameKey, expand: string -> string, variable: Configured, held: Held, name: string): Held {
    if Configures(key, variable, name) then AfterLayer(held, Expanded(expand, variable)) else held
  }

  lemma LayersStep(key: NameKey, expand: string -> string, variables: seq<Configured>, i: nat, name: string, held: Held)
    requires i < |variables|
    ensures AfterLayers(held, LayersFor(key, expand, variables[i..], name))
         == AfterLayers(AfterRow(key, expand, variables[i], held, name), LayersFor(key, expand, variables[i + 1..], name))
  {
    hide AfterLayer;
    var rest := LayersFor(key, expand, variables[i + 1..], name);
    assert variables[i..][1..] == variables[i + 1..];
    if Configures(key, variables[i], name) {
      var layer := Expanded(expand, variables[i]);
      assert LayersFor(key, expand, variables[i..], name) == [layer] + rest;
      assert ([layer] + rest)[1..] == rest;
    } else {
      assert LayersFor(key, expand, variables[i..], name) == [] + rest == rest;
    }
  }

  /** The names the table holds after one row, when the composed value is stored, or nothing is done
      because there is none. */
  lemma RowHolds(key: NameKey, expand: string -> string, before: seq<Variable>, variable: Configured, n: string)
    requires n != ""
    ensures var after := AfterLayer(HeldFor(key, before, variable.name), Expanded(expand, variable));
            && (after.None? ==> HeldFor(key, before, variable.name).None?)
            && HeldFor(key, if after.None? then before else Stored(key, before, variable.name, after.value), n)
               == AfterRow(key, expand, variable, HeldFor(key, before, n), n)
  {
    hide IndexOf, Stored;
    var after := AfterLayer(HeldFor(key, before, variable.name), Expanded(expand, variable));
    if Configures(key, variable, n) {
      SameIndex(key, before, n, variable.name);
    }
    if after.Some? {
      StoredHolds(key, before, variable.name, after.value, n);
    }
  }

  lemma KeepsOrderAgain(a: seq<Variable>, b: seq<Variable>, c: seq<Variable>)
    requires KeepsOrder(a, b) && KeepsOrder(b, c)
    ensures KeepsOrder(a, c)
  {
  }

  // ----- the rows of one name

  /** Each row of a name, in their order, is a layer: the value of the row expanded, and the modes and
      the merge text of the row. A name of a row matches in any case, and an empty one never does. */
  lemma {:induction false} LayersAreRows(key: NameKey, expand: string -> string, variables: seq<Configured>, name: string)
    ensures var rows := Filter(variables, (v: Configured) => v.name != "" && key(v.name) == key(name));
            var layers := LayersFor(key, expand, variables, name);
            && |layers| == |rows|
            && forall i :: 0 <= i < |rows| ==>
                 layers[i] == Layer(expand(rows[i].layer.value), rows[i].layer.isolation,
                                    rows[i].layer.merge, rows[i].layer.mergeString)
  {
    if variables != [] {
      LayersAreRows(key, expand, variables[1..], name);
    }
  }

  /** The last row of a name in a file, and one that drops what is below it. */
  predicate ResetsLast(key: NameKey, variables: seq<Configured>, i: nat, name: string)
    requires i < |variables|
  {
    && variables[i].name != "" && key(variables[i].name) == key(name)
    && (variables[i].layer.isolation == Full || variables[i].layer.merge == Replace)
    && forall j :: i < j < |variables| ==> variables[j].name == "" || key(variables[j].name) != key(name)
  }

  lemma {:induction false} NoLayers(key: NameKey, expand: string -> string, variables: seq<Configured>, name: string)
    requires forall j :: 0 <= j < |variables| ==> variables[j].name == "" || key(variables[j].name) != key(name)
    ensures LayersFor(key, expand, variables, name) == []
  {
    if variables != [] {
      NoLayers(key, expand, variables[1..], name);
    }
  }

  /** Such a row decides the name alone, with its value expanded. */
  lemma LastResetDecides(key: NameKey, expand: string -> string, variables: seq<Configured>, i: nat, name: string, held: Held)
    requires i < |variables| && ResetsLast(key, variables, i, name)
    ensures AfterLayers(held, LayersFor(key, expand, variables, name)) == Some(expand(variables[i].layer.value))
  {
    var before, row, after := variables[..i], variables[i], variables[i + 1..];
    NoLayers(key, expand, after, name);
    assert variables == before + ([row] + after);
    LayersForAppend(key, expand, before, [row] + after, name);
    LayersForRows(key, expand, [row] + after, name);
    assert ([row] + after)[1..] == after;
    var layer := Layer(expand(row.layer.value), row.layer.isolation, row.layer.merge, row.layer.mergeString);
    assert LayersFor(key, expand, [row] + after, name) == [layer];
    hide LayersFor;
    AfterLayersAppend(held, LayersFor(key, expand, before, name), [layer]);
    OneLayer(AfterLayers(held, LayersFor(key, expand, before, name)), layer);
  }

  // ----- the files of a run

  /** The rows of the files, the lowest layer first. */
  function Rows(files: seq<seq<Configured>>): seq<Configured> {
    if files == [] then [] else files[0] + Rows(files[1..])
  }

  lemma LayersForRows(key: NameKey, expand: string -> string, variables: seq<Configured>, name: string)
    ensures LayersFor(key, expand, variables, name) ==
            if variables == [] then []
            else LayersOf(key, expand, variables[0], name) + LayersFor(key, expand, variables[1..], name)
  {
  }

  lemma Associates(a: seq<Layer>, b: seq<Layer>, c: seq<Layer>)
    ensures a + b + c == a + (b + c)
  {
  }

  lemma {:induction false} LayersForAppend(key: NameKey, expand: string -> string,
                                           a: seq<Configured>, b: seq<Configured>, name: string)
    ensures LayersFor(key, expand, a + b, name) == LayersFor(key, expand, a, name) + LayersFor(key, expand, b, name)
  {
    hide Configures, Expanded, LayersFor;
    LayersForRows(key, expand, a, name);
    LayersForRows(key, expand, a + b, name);
    if a == [] {
      assert a + b == b;
    } else {
      assert (a + b)[1..] == a[1..] + b;
      LayersForAppend(key, expand, a[1..], b, name);
      assert (a + b)[0] == a[0];
      Associates(LayersOf(key, expand, a[0], name), LayersFor(key, expand, a[1..], name), LayersFor(key, expand, b, name));
    }
  }

  /** The rows of one file are its own, and the rows of more files stand behind those of the first. */
  lemma {:induction false} RowsAppend(files: seq<seq<Configured>>, file: seq<Configured>)
    ensures Rows([file]) == file
    ensures Rows(files + [file]) == Rows(files) + file
  {
    assert [file][1..] == [] && file + [] == file;
    if files == [] {
      assert [] + [file] == [file] && [] + file == file;
    } else {
      assert (files + [file])[1..] == files[1..] + [file];
      RowsAppend(files[1..], file);
      assert files[0] + (Rows(files[1..]) + file) == files[0] + Rows(files[1..]) + file;
    }
  }

  predicate LastFileResets(key: NameKey, files: seq<seq<Configured>>, i: nat, name: string) {
    && name != "" && files != []
    && var last := files[|files| - 1];
       i < |last| && ResetsLast(key, last, i, name)
  }

  /** A row of the last file decides its name alone when it is the last one there and drops what is
      below it. */
  lemma LastFileDecides(key: NameKey, expand: string -> string, files: seq<seq<Configured>>, i: nat, name: string, held: Held)
    requires LastFileResets(key, files, i, name)
    ensures AfterLayers(held, LayersFor(key, expand, Rows(files), name))
         == Some(expand(files[|files| - 1][i].layer.value))
  {
    var init, last := files[..|files| - 1], files[|files| - 1];
    assert files == init + [last];
    RowsAppend(init, last);
    hide Rows, ResetsLast;
    LayersForAppend(key, expand, Rows(init), last, name);
    AfterLayersAppend(held, LayersFor(key, expand, Rows(init), name), LayersFor(key, expand, last, name));
    LastResetDecides(key, expand, last, i, name, AfterLayers(held, LayersFor(key, expand, Rows(init), name)));
  }

  lemma FilesStep(key: NameKey, expand: string -> string, files: seq<seq<Configured>>, i: nat, name: string, held: Held)
    requires i < |files|
    ensures AfterLayers(held, LayersFor(key, expand, Rows(files[i..]), name))
         == AfterLayers(AfterLayers(held, LayersFor(key, expand, files[i], name)),
                        LayersFor(key, expand, Rows(files[i + 1..]), name))
  {
    assert files[i..][1..] == files[i + 1..];
    LayersForAppend(key, expand, files[i], Rows(files[i + 1..]), name);
    AfterLayersAppend(held, LayersFor(key, expand, files[i], name), LayersFor(key, expand, Rows(files[i + 1..]), name));
  }

  lemma NoFiles(key: NameKey, expand: string -> string, files: seq<seq<Configured>>, name: string)
    ensures LayersFor(key, expand, Rows(files[|files|..]), name) == []
  {
  }

  class Table {
    const key: NameKey
    var entries: seq<Variable>

    constructor (key: NameKey)
      ensures this.key == key && entries == []
    {
      this.key := key;
      entries := [];
    }

    method Find(name: string) returns (index: nat)
      ensures index == IndexOf(key, entries, name)
    {
      index := 0;
      while index < |entries|
        invariant index <= |entries|
        invariant forall i :: 0 <= i < index ==> key(entries[i].name) != key(name)
      {
        if key(entries[index].name) == key(name) {
          break;
        }
        index := index + 1;
      }
      IndexIs(key, entries, name, index);
    }

    method Get(name: string) returns (held: Held)
      ensures held == HeldFor(key, entries, name)
    {
      if name == "" {
        return None;
      }
      var index := Find(name);
      if index == |entries| {
        return None;
      }
      return Some(entries[index].value);
    }

    method Set(name: string, value: string)
      modifies this
      ensures entries == Stored(key, old(entries), name, value) && KeepsOrder(old(entries), entries)
      ensures forall n :: HeldFor(key, entries, n) ==
                          if name != "" && n != "" && key(n) == key(name) then Some(value)
                          else HeldFor(key, old(entries), n)
    {
      StoredKeepsOrder(key, entries, name, value);
      forall n
        ensures HeldFor(key, Stored(key, entries, name, value), n) ==
                if name != "" && n != "" && key(n) == key(name) then Some(value) else HeldFor(key, entries, n)
      {
        StoredHolds(key, entries, name, value, n);
      }
      hide HeldFor, KeepsOrder;
      if name == "" {
        return;
      }
      var index := Find(name);
      if index != |entries| {
        entries := entries[index := entries[index].(value := value)];
        return;
      }
      entries := entries + [Variable(name, value)];
    }

    /** A name that is not listed leaves the table as it is; of a listed one the first variable
        goes, and the others keep their order. */
    method Delete(name: string) returns (deleted: bool)
      modifies this
      ensures deleted <==> HeldFor(key, old(entries), name).Some?
      ensures var index := IndexOf(key, old(entries), name);
              entries == if deleted then old(entries[..index] + entries[index + 1..]) else old(entries)
    {
      if name == "" {
        return false;
      }
      var index := Find(name);
      if index == |entries| {
        return false;
      }
      entries := entries[..index] + entries[index + 1..];
      return true;
    }

    /** Every name is composed from what the table holds for it and from its own rows alone. */
    method ApplyLayer(expand: string -> string, variables: seq<Configured>)
      modifies this
      ensures KeepsOrder(old(entries), entries)
      ensures forall n :: n != "" ==>
                HeldFor(key, entries, n)
                == AfterLayers(HeldFor(key, old(entries), n), LayersFor(key, expand, variables, n))
      ensures forall n, i :: n != "" && 0 <= i < |variables| && ResetsLast(key, variables, i, n) ==>
                HeldFor(key, entries, n) == Some(expand(variables[i].layer.value))
    {
      hide Stored, HeldFor, KeepsOrder, LayersFor, AfterRow, Compose;
      ghost var before := entries;
      OrderIsKept(before);
      for i := 0 to |variables|
        invariant KeepsOrder(before, entries)
        invariant forall n :: n != "" ==>
                    AfterLayers(HeldFor(key, entries, n), LayersFor(key, expand, variables[i..], n))
                    == AfterLayers(HeldFor(key, before, n), LayersFor(key, expand, variables, n))
      {
        ghost var was := entries;
        var variable := variables[i];
        var layer := variable.layer;
        var below := Get(variable.name);
        var value := expand(layer.value);
        var composed := Compose(below.Some?, if below.Some? then below.value else "",
                                value, layer.isolation, layer.merge, layer.mergeString);
        ghost var after := AfterLayer(below, Expanded(expand, variable));
        assert after == if composed.visible then Some(composed.value) else None;
        forall n | n != ""
          ensures after.None? ==> below.None?
          ensures HeldFor(key, if after.None? then was else Stored(key, was, variable.name, after.value), n)
                  == AfterRow(key, expand, variable, HeldFor(key, was, n), n)
          ensures AfterLayers(HeldFor(key, was, n), LayersFor(key, expand, variables[i..], n))
               == AfterLayers(AfterRow(key, expand, variable, HeldFor(key, was, n), n),
                              LayersFor(key, expand, variables[i + 1..], n))
        {
          RowHolds(key, expand, was, variable, n);
          LayersStep(key, expand, variables, i, n, HeldFor(key, was, n));
        }
        if !composed.visible {
          RowHolds(key, expand, was, variable, "x");
          var deleted := Delete(variable.name);
          continue;
        }
        Set(variable.name, composed.value);
        StoredKeepsOrder(key, was, variable.name, composed.value);
        KeepsOrderAgain(before, was, entries);
      }
      forall n | n != ""
        ensures LayersFor(key, expand, variables[|variables|..], n) == []
      {
        NoRows(key, expand, variables, n);
      }
      hide ResetsLast;
      forall n, i | n != "" && 0 <= i < |variables| && ResetsLast(key, variables, i, n)
        ensures HeldFor(key, entries, n) == Some(expand(variables[i].layer.value))
      {
        LastResetDecides(key, expand, variables, i, n, HeldFor(key, before, n));
      }
    }

    /** The loop over the isolation files of the layers of a run. */
    method ApplyFiles(expand: string -> string, files: seq<seq<Configured>>)
      modifies this
      ensures KeepsOrder(old(entries), entries)
      ensures forall n :: n != "" ==>
                HeldFor(key, entries, n)
                == AfterLayers(HeldFor(key, old(entries), n), LayersFor(key, expand, Rows(files), n))
      ensures forall n, i: nat :: LastFileResets(key, files, i, n) ==>
                HeldFor(key, entries, n) == Some(expand(files[|files| - 1][i].layer.value))
    {
      hide HeldFor, KeepsOrder, LayersFor, Rows;
      ghost var before := entries;
      OrderIsKept(before);
      assert files[0..] == files;
      for i := 0 to |files|
        invariant KeepsOrder(before, entries)
        invariant forall n :: n != "" ==>
                    AfterLayers(HeldFor(key, entries, n), LayersFor(key, expand, Rows(files[i..]), n))
                    == AfterLayers(HeldFor(key, before, n), LayersFor(key, expand, Rows(files), n))
      {
        ghost var was := entries;
        forall n
          ensures AfterLayers(HeldFor(key, was, n), LayersFor(key, expand, Rows(files[i..]), n))
               == AfterLayers(AfterLayers(HeldFor(key, was, n), LayersFor(key, expand, files[i], n)),
                              LayersFor(key, expand, Rows(files[i + 1..]), n))
        {
          FilesStep(key, expand, files, i, n, HeldFor(key, was, n));
        }
        ApplyLayer(expand, files[i]);
        KeepsOrderAgain(before, was, entries);
      }
      forall n
        ensures LayersFor(key, expand, Rows(files[|files|..]), n) == []
      {
        NoFiles(key, expand, files, n);
      }
      hide ResetsLast;
      forall n, i: nat | LastFileResets(key, files, i, n)
        ensures HeldFor(key, entries, n) == Some(expand(files[|files| - 1][i].layer.value))
      {
        LastFileDecides(key, expand, files, i, n, HeldFor(key, before, n));
      }
    }
  }

  lemma NoRows(key: NameKey, expand: string -> string, variables: seq<Configured>, n: string)
    ensures LayersFor(key, expand, variables[|variables|..], n) == []
  {
  }

  lemma OrderIsKept(entries: seq<Variable>)
    ensures KeepsOrder(entries, entries)
  {
  }
}
