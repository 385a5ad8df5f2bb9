/** The lookup of the isolation table answers for the longest entry that covers the path, in every
    spelling of the path. */
module IsolationLookup {
  import opened Outcomes
  import opened WideText
  import opened ViewPath
  import opened IsolationTable

  // ----- what an entry covers

  /** The components a path of the view names: none for a path that leads out of the view. */
  function ViewComponents(path: string): (components: seq<string>)
    ensures AreNames(components)
    ensures Normalized(path) == Joined(components)
  {
    match Components(path)
    case Failed(_) => []
    case Ok(components) => ComponentsAreNames(path); components
  }

  /** The file a component names a stream of: what stands before its first colon, unless the colon
      is the one of a drive. */
  function StreamHolder(name: string): Option<string> {
    var colon := FirstFrom(name, ':', 0);
    if colon == |name| || (colon == 1 && |name| == 2 && IsDriveLetter(name[0])) then None else Some(name[..colon])
  }

  /** The paths an entry for the first `m` components may be listed under: the components, and with
      the last of them naming a stream, the file that holds the stream. */
  predicate NamesFolder(f: CaseFold, key: string, components: seq<string>, m: nat)
    requires 0 < m <= |components|
  {
    || key == Folded(f, Joined(components[..m]))
    || (StreamHolder(components[m - 1]).Some?
        && key == Folded(f, Joined(components[..m - 1] + [StreamHolder(components[m - 1]).value])))
  }

  /** An entry covers the path it names, what is below it and the streams of its file; the entry of
      the root covers everything. */
  ghost predicate Covers(f: CaseFold, key: string, components: seq<string>) {
    || key == ""
    || exists m :: 0 < m <= |components| && NamesFolder(f, key, components, m)
  }

  /** The key of the entry that decides a path: it covers the path, and no longer one does. */
  ghost predicate Decides(f: CaseFold, entries: Entries, components: seq<string>, key: string) {
    && key in entries && Covers(f, key, components)
    && forall k :: k in entries && Covers(f, k, components) ==> |k| <= |key|
  }

  // ----- the probes of the walk

  /** The file that holds the stream a component names. */
  function HolderProbe(front: string, name: string): seq<string> {
    match StreamHolder(name)
    case Some(holder) => [front + "\\" + holder]
    case None => []
  }

  /** The paths the walk probes, from the whole path to the root. */
  function Probes(components: seq<string>): seq<string> {
    if components == [] then [""]
    else
      var n := |components| - 1;
      [Joined(components)]
      + HolderProbe(Joined(components[..n]), components[n])
      + Probes(components[..n])
  }

  predicate Descending(probes: seq<string>) {
    forall i, j :: 0 <= i < j < |probes| ==> |probes[i]| > |probes[j]|
  }

  function FirstHit(f: CaseFold, entries: Entries, probes: seq<string>): Expected<LookupResult> {
    if probes == [] then Failed(IsolationEntryNotListed)
    else if Folded(f, probes[0]) in entries then Ok(Answer(entries[Folded(f, probes[0])]))
    else FirstHit(f, entries, probes[1..])
  }

  lemma {:induction false} FirstFromShifts(front: string, s: string, c: char, from: nat)
    requires from <= |s|
    ensures FirstFrom(front + s, c, |front| + from) == |front| + FirstFrom(s, c, from)
    decreases |s| - from
  {
    if from < |s| && s[from] != c {
      FirstFromShifts(front, s, c, from + 1);
    }
  }

  predicate NoBackslash(s: string) {
    forall i :: 0 <= i < |s| ==> s[i] != '\\'
  }

  lemma LastBackslash(front: string, name: string)
    requires NoBackslash(name)
    ensures BehindLast(front + "\\" + name, '\\') == |front| + 1
  {
    LastIs(front + "\\" + name, '\\', |front| + 1);
  }

  /** The separator of a stream is found in the last component alone. */
  lemma StreamOfLast(front: string, name: string)
    requires NoBackslash(name)
    ensures EntryPathOfStream(front + "\\" + name) ==
            match StreamHolder(name)
            case Some(holder) => front + "\\" + holder
            case None => front + "\\" + name
  {
    var folder := front + "\\";
    var path := folder + name;
    var colon := FirstFrom(name, ':', 0);
    LastBackslash(front, name);
    FirstFromShifts(folder, name, ':', 0);
    assert path[..|folder| + colon] == folder + name[..colon];
  }

  lemma HolderHasNoStream(name: string)
    requires StreamHolder(name).Some?
    ensures StreamHolder(StreamHolder(name).value) == None
  {
    var holder := StreamHolder(name).value;
    assert FirstFrom(holder, ':', 0) == |holder|;
  }

  /** From a component the walk goes to the file that holds its stream, and from there, or at once,
      to the folder above. */
  lemma NextOfLast(front: string, name: string)
    requires NoBackslash(name)
    ensures NextProbe(front + "\\" + name) ==
            match StreamHolder(name)
            case Some(holder) => front + "\\" + holder
            case None => front
  {
    var path := front + "\\" + name;
    StreamOfLast(front, name);
    LastBackslash(front, name);
    assert path[..|front|] == front;
    if StreamHolder(name).Some? {
      assert |front + "\\" + StreamHolder(name).value| < |path|;
    }
  }

  lemma FirstHitBehind(f: CaseFold, entries: Entries, probe: string, rest: seq<string>)
    ensures FirstHit(f, entries, [probe] + rest) ==
            if Folded(f, probe) in entries then Ok(Answer(entries[Folded(f, probe)])) else FirstHit(f, entries, rest)
  {
    assert ([probe] + rest)[1..] == rest;
  }

  /** One step of the walk, from a component to the folder above it. */
  lemma WalkComponent(f: CaseFold, entries: Entries, front: string, name: string, rest: seq<string>)
    requires NoBackslash(name)
    requires Walk(f, entries, front) == FirstHit(f, entries, rest)
    ensures Walk(f, entries, front + "\\" + name) ==
            FirstHit(f, entries, [front + "\\" + name] + HolderProbe(front, name) + rest)
  {
    hide NextProbe, StreamHolder, Folded, FirstHit;
    var path := front + "\\" + name;
    NextOfLast(front, name);
    match StreamHolder(name)
    case None =>
      assert [path] + HolderProbe(front, name) + rest == [path] + rest;
      FirstHitBehind(f, entries, path, rest);
    case Some(holder) =>
      var entry := front + "\\" + holder;
      HolderIsName(name);
      HolderHasNoStream(name);
      NextOfLast(front, holder);
      assert [path] + HolderProbe(front, name) + rest == [path] + ([entry] + rest);
      FirstHitBehind(f, entries, path, [entry] + rest);
      FirstHitBehind(f, entries, entry, rest);
  }

  lemma HolderIsName(name: string)
    requires NoBackslash(name) && StreamHolder(name).Some?
    ensures NoBackslash(StreamHolder(name).value)
  {
  }

  lemma {:induction false} WalkIsFirstHit(f: CaseFold, entries: Entries, components: seq<string>)
    requires AreNames(components)
    ensures Walk(f, entries, Joined(components)) == FirstHit(f, entries, Probes(components))
  {
    hide Walk, FirstHit, HolderProbe;
    if components == [] {
      WalkRoot(f, entries);
    } else {
      var n := |components| - 1;
      WalkIsFirstHit(f, entries, components[..n]);
      assert IsName(components[n]);
      WalkComponent(f, entries, Joined(components[..n]), components[n], Probes(components[..n]));
    }
  }

  lemma WalkRoot(f: CaseFold, entries: Entries)
    ensures Walk(f, entries, "") == FirstHit(f, entries, [""])
  {
  }

  // ----- the first hit is the longest

  lemma HolderProbeIsBetween(front: string, name: string)
    ensures forall i :: 0 <= i < |HolderProbe(front, name)| ==>
              |front| < |HolderProbe(front, name)[i]| < |front + "\\" + name|
    ensures |HolderProbe(front, name)| <= 1
  {
  }

  /** Behind the probes of a folder, the ones for a component of it are longer. */
  lemma DescendingInFront(probes: seq<string>, path: string, holders: seq<string>)
    requires probes != [] && Descending(probes) && |holders| <= 1
    requires |path| > |probes[0]|
    requires forall i :: 0 <= i < |holders| ==> |probes[0]| < |holders[i]| < |path|
    ensures Descending([path] + holders + probes)
  {
    var all, n := [path] + holders + probes, 1 + |holders|;
    assert all[0] == path && (holders != [] ==> all[1] == holders[0]);
    assert forall i :: n <= i < |all| ==> all[i] == probes[i - n];
    assert forall i :: n <= i < |all| ==> |all[i]| <= |probes[0]|;
  }

  lemma {:induction false} ProbesDescend(components: seq<string>)
    ensures Probes(components) != [] && Probes(components)[0] == Joined(components)
    ensures Descending(Probes(components))
  {
    hide HolderProbe, Descending;
    if components == [] {
      OneDescends("");
    } else {
      var n := |components| - 1;
      var front := Joined(components[..n]);
      ProbesDescend(components[..n]);
      HolderProbeIsBetween(front, components[n]);
      DescendingInFront(Probes(components[..n]), Joined(components), HolderProbe(front, components[n]));
    }
  }

  lemma OneDescends(probe: string)
    ensures Descending([probe])
  {
  }

  lemma {:induction false} FirstHitDecides(f: CaseFold, entries: Entries, probes: seq<string>, i: nat)
    requires i < |probes| && Folded(f, probes[i]) in entries
    requires forall j :: 0 <= j < i ==> Folded(f, probes[j]) !in entries
    ensures FirstHit(f, entries, probes) == Ok(Answer(entries[Folded(f, probes[i])]))
  {
    if i > 0 {
      FirstHitDecides(f, entries, probes[1..], i - 1);
    }
  }

  lemma {:induction false} FirstHitFails(f: CaseFold, entries: Entries, probes: seq<string>)
    ensures FirstHit(f, entries, probes).Failed? <==>
            forall i :: 0 <= i < |probes| ==> Folded(f, probes[i]) !in entries
    ensures FirstHit(f, entries, probes).Failed? ==> FirstHit(f, entries, probes).code == IsolationEntryNotListed
  {
    if probes != [] {
      FirstHitFails(f, entries, probes[1..]);
      assert forall i :: 0 < i < |probes| ==> probes[i] == probes[1..][i - 1];
    }
  }

  // ----- the probes are what may cover the path

  lemma JoinedHolder(components: seq<string>, m: nat)
    requires 0 < m <= |components| && StreamHolder(components[m - 1]).Some?
    ensures Joined(components[..m - 1] + [StreamHolder(components[m - 1]).value])
         == Joined(components[..m - 1]) + "\\" + StreamHolder(components[m - 1]).value
  {
    var all := components[..m - 1] + [StreamHolder(components[m - 1]).value];
    assert all[..|all| - 1] == components[..m - 1];
  }

  /** The probes for the last component. */
  lemma NamesLast(f: CaseFold, key: string, components: seq<string>)
    requires components != []
    ensures var n := |components| - 1;
            NamesFolder(f, key, components, |components|) <==>
            || key == Folded(f, Joined(components))
            || (HolderProbe(Joined(components[..n]), components[n]) != []
                && key == Folded(f, HolderProbe(Joined(components[..n]), components[n])[0]))
  {
    var n := |components| - 1;
    assert components[..|components|] == components;
    if StreamHolder(components[n]).Some? {
      JoinedHolder(components, |components|);
    }
  }

  lemma NamesAbove(f: CaseFold, key: string, components: seq<string>, m: nat)
    requires 0 < m < |components|
    ensures NamesFolder(f, key, components, m) == NamesFolder(f, key, components[..|components| - 1], m)
  {
    var above := components[..|components| - 1];
    assert above[..m] == components[..m] && above[..m - 1] == components[..m - 1];
  }

  ghost predicate IsProbe(f: CaseFold, key: string, probes: seq<string>) {
    exists i :: 0 <= i < |probes| && key == Folded(f, probes[i])
  }

  lemma IsProbeOfSum(f: CaseFold, key: string, a: seq<string>, b: seq<string>)
    ensures IsProbe(f, key, a + b) <==> IsProbe(f, key, a) || IsProbe(f, key, b)
  {
    assert forall i :: 0 <= i < |a| ==> (a + b)[i] == a[i];
    assert forall i :: 0 <= i < |b| ==> (a + b)[|a| + i] == b[i];
  }

  lemma IsProbeOfOne(f: CaseFold, key: string, probes: seq<string>)
    requires |probes| <= 1
    ensures IsProbe(f, key, probes) <==> probes != [] && key == Folded(f, probes[0])
  {
  }

  lemma CoversAbove(f: CaseFold, key: string, components: seq<string>)
    requires components != []
    ensures Covers(f, key, components) <==>
            NamesFolder(f, key, components, |components|) || Covers(f, key, components[..|components| - 1])
  {
    hide NamesFolder;
    var above := components[..|components| - 1];
    if m :| 0 < m <= |components| && NamesFolder(f, key, components, m) {
      if m < |components| {
        NamesAbove(f, key, components, m);
      }
    }
    if m :| 0 < m <= |above| && NamesFolder(f, key, above, m) {
      NamesAbove(f, key, components, m);
    }
  }

  lemma {:induction false} CoversIsProbe(f: CaseFold, key: string, components: seq<string>)
    ensures Covers(f, key, components) <==> IsProbe(f, key, Probes(components))
  {
    if components == [] {
      assert Probes(components) == [""] && Folded(f, Probes(components)[0]) == "";
    } else {
      hide NamesFolder, HolderProbe;
      var n := |components| - 1;
      var path, holders := [Joined(components)], HolderProbe(Joined(components[..n]), components[n]);
      CoversIsProbe(f, key, components[..n]);
      CoversAbove(f, key, components);
      NamesLast(f, key, components);
      HolderProbeIsBetween(Joined(components[..n]), components[n]);
      IsProbeOfSum(f, key, path + holders, Probes(components[..n]));
      IsProbeOfSum(f, key, path, holders);
      IsProbeOfOne(f, key, path);
      IsProbeOfOne(f, key, holders);
    }
  }

  // ----- the main results

  /** The lookup answers with the entry of the longest key that covers the path. */
  lemma LookupDecides(f: CaseFold, entries: Entries, path: string, key: string)
    requires Decides(f, entries, ViewComponents(path), key)
    ensures Found(f, entries, path) == Ok(Answer(entries[key]))
  {
    var components := ViewComponents(path);
    var probes := Probes(components);
    WalkIsFirstHit(f, entries, components);
    ProbesDescend(components);
    CoversIsProbe(f, key, components);
    var i :| 0 <= i < |probes| && key == Folded(f, probes[i]);
    forall j | 0 <= j < i
      ensures Folded(f, probes[j]) !in entries
    {
      var k := Folded(f, probes[j]);
      CoversIsProbe(f, k, components);
      assert |k| > |key|;
    }
    FirstHitDecides(f, entries, probes, i);
  }

  /** The lookup finds nothing exactly when no entry covers the path. */
  lemma LookupFailsExactly(f: CaseFold, entries: Entries, path: string)
    ensures Found(f, entries, path).Failed? <==>
            forall key :: key in entries ==> !Covers(f, key, ViewComponents(path))
    ensures Found(f, entries, path).Failed? ==> Found(f, entries, path).code == IsolationEntryNotListed
  {
    var components := ViewComponents(path);
    var probes := Probes(components);
    WalkIsFirstHit(f, entries, components);
    FirstHitFails(f, entries, probes);
    forall key | key in entries
      ensures Covers(f, key, components) <==> IsProbe(f, key, probes)
    {
      CoversIsProbe(f, key, components);
    }
  }

  /** When an entry covers the path, one of them decides it. */
  lemma SomeKeyDecides(f: CaseFold, entries: Entries, components: seq<string>, key: string) returns (best: string)
    requires key in entries && Covers(f, key, components)
    ensures Decides(f, entries, components, best)
  {
    best := key;
    var rest := entries.Keys;
    while rest != {}
      invariant rest <= entries.Keys
      invariant best in entries && Covers(f, best, components)
      invariant forall k :: k in entries && k !in rest && Covers(f, k, components) ==> |k| <= |best|
      decreases |rest|
    {
      var k :| k in rest;
      if Covers(f, k, components) && |k| > |best| {
        best := k;
      }
      rest := rest - {k};
    }
  }

  /** Only one key decides a path. */
  lemma DecidesUnique(f: CaseFold, entries: Entries, components: seq<string>, a: string, b: string)
    requires Decides(f, entries, components, a) && Decides(f, entries, components, b)
    ensures a == b
  {
    var probes := Probes(components);
    ProbesDescend(components);
    CoversIsProbe(f, a, components);
    CoversIsProbe(f, b, components);
    var i :| 0 <= i < |probes| && a == Folded(f, probes[i]);
    var j :| 0 <= j < |probes| && b == Folded(f, probes[j]);
    assert |a| == |b| == |probes[i]| == |probes[j]|;
  }

  // ----- spellings

  lemma FoldKeepsLetters(f: CaseFold, c: char)
    ensures IsDriveLetter(f(c)) <==> IsDriveLetter(c)
  {
    if !IsAscii(c) {
      assert !IsAscii(f(c));
    }
  }

  lemma FoldKeepsFinds(f: CaseFold, s: string, c: char, from: nat)
    requires from <= |s| && (c == '\\' || c == ':')
    ensures BehindLast(Folded(f, s), c) == BehindLast(s, c)
    ensures FirstFrom(Folded(f, s), c, from) == FirstFrom(s, c, from)
  {
    var t := Folded(f, s);
    forall i | 0 <= i < |s|
      ensures t[i] == c <==> s[i] == c
    {
      FoldKeepsAscii(f, s[i], c);
    }
    LastIs(t, c, BehindLast(s, c));
    FirstIs(t, c, from, FirstFrom(s, c, from));
  }

  lemma FirstIs(s: string, c: char, from: nat, n: nat)
    requires from <= n <= |s| && (n < |s| ==> s[n] == c)
    requires forall i :: from <= i < n ==> s[i] != c
    ensures FirstFrom(s, c, from) == n
  {
    var m := FirstFrom(s, c, from);
    var found, given := if m < |s| then s[m] else c, if n < |s| then s[n] else c;
    assert found == c && given == c;
  }

  lemma StreamFolded(f: CaseFold, probe: string)
    ensures EntryPathOfStream(Folded(f, probe)) == Folded(f, EntryPathOfStream(probe))
  {
    var nameBegin := BehindLast(probe, '\\');
    FoldKeepsFinds(f, probe, '\\', 0);
    FoldKeepsFinds(f, probe, ':', nameBegin);
    if nameBegin < |probe| {
      FoldKeepsLetters(f, probe[nameBegin]);
    }
    FoldedSlice(f, probe, 0, FirstFrom(probe, ':', nameBegin));
  }

  lemma NextProbeFolded(f: CaseFold, probe: string)
    requires probe != ""
    ensures NextProbe(Folded(f, probe)) == Folded(f, NextProbe(probe))
  {
    hide EntryPathOfStream;
    StreamFolded(f, probe);
    FoldKeepsFinds(f, probe, '\\', 0);
    var behind := BehindLast(probe, '\\');
    if behind > 0 {
      FoldedSlice(f, probe, 0, behind - 1);
    }
    assert |EntryPathOfStream(probe)| == |EntryPathOfStream(Folded(f, probe))|;
    assert EntryPathOfStream(probe) == probe[..|EntryPathOfStream(probe)|];
  }

  lemma {:induction false} WalkFolded(f: CaseFold, entries: Entries, probe: string)
    ensures Walk(f, entries, Folded(f, probe)) == Walk(f, entries, probe)
    decreases |probe|
  {
    hide NextProbe, Folded;
    FoldedTwice(f, probe);
    if probe != "" {
      NextProbeFolded(f, probe);
      WalkFolded(f, entries, NextProbe(probe));
    }
  }

  /** Two spellings of one path: the same components, without case, or both no path of the view. */
  predicate SameSpelling(f: CaseFold, a: string, b: string) {
    match (Components(a), Components(b))
    case (Ok(x), Ok(y)) => FoldedAll(f, x) == FoldedAll(f, y)
    case (Failed(_), Failed(_)) => true
    case _ => false
  }

  /** The lookup gives one answer for all spellings of a path. */
  lemma LookupIgnoresSpelling(f: CaseFold, entries: Entries, a: string, b: string)
    requires SameSpelling(f, a, b)
    ensures Found(f, entries, a) == Found(f, entries, b)
  {
    if Components(a).Ok? {
      JoinedFolded(f, Components(a).value);
      JoinedFolded(f, Components(b).value);
      WalkFolded(f, entries, Normalized(a));
      WalkFolded(f, entries, Normalized(b));
    }
  }

  /** Case alone is a matter of spelling. */
  lemma CaseIsSpelling(f: CaseFold, a: string, b: string)
    requires Folded(f, a) == Folded(f, b)
    ensures SameSpelling(f, a, b)
  {
    ComponentsFolded(f, a);
    ComponentsFolded(f, b);
  }
}
