/** The value a sandbox reports for an environment variable: `ComposeEnvironmentValue` of
    `common/details/EnvironmentIsolationDetail.hpp`, applied layer by layer. */
module EnvironmentChain {
  import opened Outcomes
  import opened EnvironmentDocument
  import opened TextSplit

  datatype ComposedValue = ComposedValue(visible: bool, value: string)

  /** One layer of a run, as it configures the variable. */
  datatype Layer = Layer(value: string, isolation: EnvironmentIsolation, merge: MergeMode, mergeString: string)

  predicate HostValueIsVisible(isolation: EnvironmentIsolation) {
    isolation == WriteCopy
  }

  function Compose(hostPresent: bool, hostValue: string, value: string,
                   isolation: EnvironmentIsolation, merge: MergeMode, mergeString: string): ComposedValue
  {
    if !HostValueIsVisible(isolation) then ComposedValue(true, value)
    else
      match merge
      case Replace => ComposedValue(true, value)
      case Host => if !hostPresent then ComposedValue(false, "") else ComposedValue(true, hostValue)
      case Prepend =>
        if !hostPresent || hostValue == "" then ComposedValue(true, value)
        else ComposedValue(true, value + mergeString + hostValue)
      case Append =>
        if !hostPresent || hostValue == "" then ComposedValue(true, value)
        else ComposedValue(true, hostValue + mergeString + value)
  }

  /** What the table of the sandbox holds for the variable: a value, or nothing. */
  type Held = Option<string>

  function AfterLayer(below: Held, layer: Layer): Held {
    var composed := match below
                    case None => Compose(false, "", layer.value, layer.isolation, layer.merge, layer.mergeString)
                    case Some(v) => Compose(true, v, layer.value, layer.isolation, layer.merge, layer.mergeString);
    if composed.visible then Some(composed.value) else None
  }

  /** The layers of a run, from the host outwards. */
  function AfterLayers(host: Held, layers: seq<Layer>): Held
    decreases |layers|
  {
    if layers == [] then host else AfterLayers(AfterLayer(host, layers[0]), layers[1..])
  }

  lemma {:induction false} AfterLayersAppend(host: Held, a: seq<Layer>, b: seq<Layer>)
    ensures AfterLayers(host, a + b) == AfterLayers(AfterLayers(host, a), b)
    decreases |a|
  {
    if a == [] {
      assert a + b == b;
    } else {
      assert (a + b)[1..] == a[1..] + b;
      AfterLayersAppend(AfterLayer(host, a[0]), a[1..], b);
    }
  }

  // ----- what decides the value

  /** A layer that drops everything below it. */
  predicate Resets(layer: Layer) {
    layer.isolation == Full || layer.merge == Replace
  }

  predicate PassesOn(layer: Layer) {
    layer.isolation == WriteCopy && layer.merge == Host
  }

  /** Nothing below a layer that resets has a say: neither the host nor any layer. */
  lemma OnlyLayersFromLastResetMatter(host: Held, below: seq<Layer>, other: Held, others: seq<Layer>,
                                      reset: Layer, above: seq<Layer>)
    requires Resets(reset)
    ensures AfterLayers(host, below + [reset] + above) == AfterLayers(other, others + [reset] + above)
         == AfterLayers(Some(reset.value), above)
  {
    AfterLayersAppend(host, below + [reset], above);
    AfterLayersAppend(host, below, [reset]);
    AfterLayersAppend(other, others + [reset], above);
    AfterLayersAppend(other, others, [reset]);
    OneLayer(AfterLayers(host, below), reset);
    OneLayer(AfterLayers(other, others), reset);
  }

  lemma OneLayer(held: Held, layer: Layer)
    ensures AfterLayers(held, [layer]) == AfterLayer(held, layer)
  {
    assert [layer][1..] == [];
  }

  /** The variable is missing exactly when the host lacks it and every layer passes on the host. */
  lemma {:induction false} InvisibleExactly(host: Held, layers: seq<Layer>)
    ensures AfterLayers(host, layers) == None
            <==> host == None && forall i :: 0 <= i < |layers| ==> PassesOn(layers[i])
    decreases |layers|
  {
    if layers != [] {
      InvisibleExactly(AfterLayer(host, layers[0]), layers[1..]);
      assert forall i :: 0 < i < |layers| ==> layers[i] == layers[1..][i - 1];
    }
  }

  // ----- the values that make it up

  /** The value the last layer that resets starts from, the one of the host without such a layer. */
  function Base(host: Held, layers: seq<Layer>): Held
    decreases |layers|
  {
    if layers == [] then host
    else if Resets(layers[|layers| - 1]) then Some(layers[|layers| - 1].value)
    else Base(host, layers[..|layers| - 1])
  }

  /** The layers above the last one that resets. */
  function Above(layers: seq<Layer>): seq<Layer>
    decreases |layers|
  {
    if layers == [] || Resets(layers[|layers| - 1]) then []
    else Above(layers[..|layers| - 1]) + [layers[|layers| - 1]]
  }

  /** The prepended values, the outermost first. */
  function Prepended(layers: seq<Layer>): seq<string> {
    if layers == [] then []
    else Prepended(layers[1..]) + (if layers[0].merge == Prepend then [layers[0].value] else [])
  }

  /** The appended values, the outermost last. */
  function Appended(layers: seq<Layer>): seq<string> {
    if layers == [] then []
    else (if layers[0].merge == Append then [layers[0].value] else []) + Appended(layers[1..])
  }

  /** A value that is missing or empty contributes nothing. */
  function Contributed(held: Held): seq<string> {
    if held.None? || held.value == "" then [] else [held.value]
  }

  predicate Joins(layer: Layer) {
    layer.merge == Prepend || layer.merge == Append
  }

  /** The layers from the first one on that brings a value to join. */
  function Sounding(layers: seq<Layer>): seq<Layer> {
    if layers == [] || (Joins(layers[0]) && layers[0].value != "") then layers else Sounding(layers[1..])
  }

  /** The layers that join with what is below them: above an empty base, those in front of the first
      value have nothing to join with. */
  function Joining(host: Held, layers: seq<Layer>): seq<Layer> {
    if Contributed(Base(host, layers)) == [] then Sounding(Above(layers)) else Above(layers)
  }

  /** The values a variable is made of, in their order. */
  function Parts(host: Held, layers: seq<Layer>): seq<string> {
    Prepended(Joining(host, layers)) + Contributed(Base(host, layers)) + Appended(Joining(host, layers))
  }

  predicate MergeWith(layers: seq<Layer>, mergeString: string) {
    forall i :: 0 <= i < |layers| && Joins(layers[i]) ==> layers[i].mergeString == mergeString
  }

  lemma {:induction false} PrependedAppend(layers: seq<Layer>, last: Layer)
    ensures Prepended(layers + [last]) == (if last.merge == Prepend then [last.value] else []) + Prepended(layers)
  {
    if layers == [] {
      assert [last][1..] == [];
    } else {
      assert (layers + [last])[1..] == layers[1..] + [last];
      PrependedAppend(layers[1..], last);
    }
  }

  lemma {:induction false} AppendedAppend(layers: seq<Layer>, last: Layer)
    ensures Appended(layers + [last]) == Appended(layers) + (if last.merge == Append then [last.value] else [])
  {
    if layers == [] {
      assert [last][1..] == [];
    } else {
      assert (layers + [last])[1..] == layers[1..] + [last];
      AppendedAppend(layers[1..], last);
    }
  }

  lemma {:induction false} SoundingAppend(layers: seq<Layer>, last: Layer)
    ensures Sounding(layers + [last]) ==
            if Sounding(layers) != [] then Sounding(layers) + [last]
            else if Joins(last) && last.value != "" then [last] else []
  {
    if layers == [] {
      assert [] + [last] == [last] && [last][1..] == [];
    } else {
      assert (layers + [last])[1..] == layers[1..] + [last];
      SoundingAppend(layers[1..], last);
    }
  }

  /** What one more layer does to the parts. */
  function PartsAfter(parts: seq<string>, layer: Layer): seq<string> {
    if Resets(layer) then Contributed(Some(layer.value))
    else if !Joins(layer) then parts
    else if parts == [] then Contributed(Some(layer.value))
    else if layer.merge == Prepend then [layer.value] + parts
    else parts + [layer.value]
  }

  lemma AboveStep(host: Held, layers: seq<Layer>)
    requires layers != []
    ensures var init, last := layers[..|layers| - 1], layers[|layers| - 1];
            if Resets(last) then Above(layers) == [] && Base(host, layers) == Some(last.value)
            else Above(layers) == Above(init) + [last] && Base(host, layers) == Base(host, init)
  {
  }

  /** A layer that does not reset joins what is there, or is the first to bring a value. */
  lemma JoiningStep(host: Held, layers: seq<Layer>)
    requires layers != [] && !Resets(layers[|layers| - 1])
    ensures var init, last := layers[..|layers| - 1], layers[|layers| - 1];
            var joining := Joining(host, init);
            && Base(host, layers) == Base(host, init)
            && Joining(host, layers) ==
               if joining != [] || Contributed(Base(host, init)) != [] then joining + [last]
               else if Joins(last) && last.value != "" then [last] else []
  {
    hide Above, Base, Sounding, Contributed;
    AboveStep(host, layers);
    SoundingAppend(Above(layers[..|layers| - 1]), layers[|layers| - 1]);
  }

  lemma {:induction false} SoundingBegins(layers: seq<Layer>)
    ensures var sounding := Sounding(layers);
            sounding != [] ==> Joins(sounding[0]) && sounding[0].value != ""
  {
    if layers != [] {
      SoundingBegins(layers[1..]);
    }
  }

  lemma NothingJoined()
    ensures Prepended([]) == [] && Appended([]) == []
  {
  }

  lemma {:induction false} FirstValueStays(layers: seq<Layer>)
    requires layers != [] && Joins(layers[0])
    ensures Prepended(layers) + Appended(layers) != []
  {
  }

  lemma NoParts(host: Held, layers: seq<Layer>)
    ensures Parts(host, layers) == [] <==> Contributed(Base(host, layers)) == [] && Joining(host, layers) == []
  {
    hide Above, Base, Contributed, Prepended, Appended, Sounding;
    NothingJoined();
    if Contributed(Base(host, layers)) == [] && Joining(host, layers) != [] {
      SoundingBegins(Above(layers));
      FirstValueStays(Joining(host, layers));
    }
  }

  lemma Regroup(p: seq<string>, c: seq<string>, a: seq<string>, v: string)
    ensures [v] + p + c + a == [v] + (p + c + a)
    ensures p + c + (a + [v]) == p + c + a + [v]
    ensures [] + p == p && a + [] == a
  {
  }

  lemma OneJoined(layer: Layer)
    requires Joins(layer)
    ensures Prepended([layer]) + [] + Appended([layer]) == [layer.value]
  {
    assert [layer][1..] == [];
  }

  lemma PartsStep(host: Held, layers: seq<Layer>)
    requires layers != []
    ensures Parts(host, layers) == PartsAfter(Parts(host, layers[..|layers| - 1]), layers[|layers| - 1])
  {
    var init, last := layers[..|layers| - 1], layers[|layers| - 1];
    AboveStep(host, layers);
    NothingJoined();
    NoParts(host, init);
    if Resets(last) {
      assert Joining(host, layers) == [];
    } else {
      PartsStepUp(host, layers);
    }
  }

  lemma PartsStepUp(host: Held, layers: seq<Layer>)
    requires layers != [] && !Resets(layers[|layers| - 1])
    ensures Parts(host, layers) == PartsAfter(Parts(host, layers[..|layers| - 1]), layers[|layers| - 1])
  {
    var init, last := layers[..|layers| - 1], layers[|layers| - 1];
    var joining, base := Joining(host, init), Contributed(Base(host, init));
    NothingJoined();
    NoParts(host, init);
    JoiningStep(host, layers);
    hide Above, Base, Prepended, Appended, Joining;
    if joining != [] || base != [] {
      PrependedAppend(joining, last);
      AppendedAppend(joining, last);
      Regroup(Prepended(joining), base, Appended(joining), last.value);
    } else if Joins(last) && last.value != "" {
      OneJoined(last);
    }
  }

  // ----- the value is its parts, joined

  lemma {:induction false} JoinedAppend(parts: seq<string>, last: string, delimiter: string)
    requires parts != []
    ensures Joined(parts + [last], delimiter) == Joined(parts, delimiter) + delimiter + last
  {
    if |parts| == 1 {
      assert (parts + [last])[1..] == [last];
    } else {
      assert (parts + [last])[1..] == parts[1..] + [last];
      JoinedAppend(parts[1..], last, delimiter);
    }
  }

  /** A held value is some parts, joined. A value that is missing or empty has none. */
  predicate IsJoined(held: Held, parts: seq<string>, mergeString: string) {
    && (held.Some? ==> held.value == Joined(parts, mergeString))
    && (parts == [] <==> held.None? || held.value == "")
  }

  lemma ContributedIsJoined(held: Held, mergeString: string)
    ensures IsJoined(held, Contributed(held), mergeString)
  {
  }

  /** One more layer on a value that is the joined parts. */
  lemma ComposeJoins(held: Held, parts: seq<string>, layer: Layer, mergeString: string)
    requires IsJoined(held, parts, mergeString)
    requires !Resets(layer) && (Joins(layer) && parts != [] ==> layer.mergeString == mergeString)
    ensures IsJoined(AfterLayer(held, layer), PartsAfter(parts, layer), mergeString)
  {
    hide Joined;
    if Joins(layer) && parts == [] {
      ContributedIsJoined(Some(layer.value), mergeString);
    } else if layer.merge == Prepend {
      JoinedFirst(layer.value, parts, mergeString);
    } else if layer.merge == Append {
      JoinedAppend(parts, layer.value, mergeString);
    }
  }

  lemma MergeWithInit(host: Held, layers: seq<Layer>, mergeString: string)
    requires layers != [] && !Resets(layers[|layers| - 1])
    requires MergeWith(Joining(host, layers), mergeString)
    ensures var init, last := layers[..|layers| - 1], layers[|layers| - 1];
            && MergeWith(Joining(host, init), mergeString)
            && (Joins(last) && Parts(host, init) != [] ==> last.mergeString == mergeString)
  {
    var init, last := layers[..|layers| - 1], layers[|layers| - 1];
    var joining := Joining(host, init);
    JoiningStep(host, layers);
    NoParts(host, init);
    hide Joining, Parts, Base, Contributed;
    assert forall i :: 0 <= i < |joining| ==> (joining + [last])[i] == joining[i];
    assert (joining + [last])[|joining|] == last;
  }

  /** Where the layers that join join with one text, the value of the variable is the prepended
      values, the base and the appended values, joined with that text. */
  lemma {:induction false} ValueIsJoinedParts(host: Held, layers: seq<Layer>, mergeString: string)
    requires MergeWith(Joining(host, layers), mergeString)
    ensures IsJoined(AfterLayers(host, layers), Parts(host, layers), mergeString)
    decreases |layers|
  {
    if layers == [] {
      ContributedIsJoined(host, mergeString);
      assert Parts(host, layers) == Contributed(host);
    } else {
      var init, last := layers[..|layers| - 1], layers[|layers| - 1];
      assert layers == init + [last];
      AfterLayersAppend(host, init, [last]);
      OneLayer(AfterLayers(host, init), last);
      PartsStep(host, layers);
      hide Parts, Joining, IsJoined, Contributed;
      if Resets(last) {
        ContributedIsJoined(Some(last.value), mergeString);
        assert AfterLayers(host, layers) == Some(last.value);
      } else {
        MergeWithInit(host, layers, mergeString);
        ValueIsJoinedParts(host, init, mergeString);
        ComposeJoins(AfterLayers(host, init), Parts(host, init), last, mergeString);
      }
    }
  }

  // ----- empty elements

  /** A layer that joins an empty value to what is below it. */
  predicate JoinsNothing(layer: Layer) {
    Joins(layer) && layer.value == ""
  }

  lemma {:induction false} EmptyJoined(layers: seq<Layer>)
    ensures "" in Prepended(layers) || "" in Appended(layers)
       <==> exists i :: 0 <= i < |layers| && JoinsNothing(layers[i])
  {
    if layers != [] {
      EmptyJoined(layers[1..]);
      assert forall i :: 0 < i < |layers| ==> layers[i] == layers[1..][i - 1];
    }
  }

  /** The variable gets an empty element exactly when some layer joins an empty value to a value. */
  lemma EmptyElementExactly(host: Held, layers: seq<Layer>)
    ensures "" in Parts(host, layers) <==>
            exists i :: 0 <= i < |Joining(host, layers)| && JoinsNothing(Joining(host, layers)[i])
  {
    EmptyJoined(Joining(host, layers));
  }

  /** An empty value below a layer adds no separator, but the empty value of a layer does. */
  lemma StraySeparator()
    ensures AfterLayers(Some("x"), [Layer("", WriteCopy, Prepend, ";")]) == Some(";x")
    ensures AfterLayers(Some(""), [Layer("x", WriteCopy, Prepend, ";")]) == Some("x")
  {
    OneLayer(Some("x"), Layer("", WriteCopy, Prepend, ";"));
    OneLayer(Some(""), Layer("x", WriteCopy, Prepend, ";"));
    assert "" + ";" + "x" == ";x";
  }

  // ----- reading the value

  /** A reader that splits the variable on the text finds the values it was made of, in order,
      exactly when the values can be told apart with it. */
  lemma SplittingRecoversParts(host: Held, layers: seq<Layer>, mergeString: string)
    requires MergeWith(Joining(host, layers), mergeString) && mergeString != "" && Parts(host, layers) != []
    ensures AfterLayers(host, layers).Some?
    ensures Split(AfterLayers(host, layers).value, mergeString) == Parts(host, layers)
            <==> Separable(Parts(host, layers), mergeString)
  {
    hide Parts, Joining;
    ValueIsJoinedParts(host, layers, mergeString);
    SplitJoinedExactly(Parts(host, layers), mergeString);
  }

  /** The search path: a reader that splits the variable on the separator finds the elements of the
      values it was made of, one value after the other. A value without the separator is its own
      element. */
  lemma SearchPathIsReadBack(host: Held, layers: seq<Layer>, separator: char)
    requires MergeWith(Joining(host, layers), [separator]) && Parts(host, layers) != []
    ensures AfterLayers(host, layers).Some?
    ensures Split(AfterLayers(host, layers).value, [separator]) == SplitEach(Parts(host, layers), separator)
    ensures (forall part :: part in Parts(host, layers) ==> separator !in part) ==>
              Split(AfterLayers(host, layers).value, [separator]) == Parts(host, layers)
  {
    hide Parts, Joining;
    ValueIsJoinedParts(host, layers, [separator]);
    SplitJoinsElements(Parts(host, layers), separator);
    SplitEachWhole(Parts(host, layers), separator);
  }
}
