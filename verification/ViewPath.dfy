/** The paths of the view: the splitting and normalizing of
    `common/details/FilesystemIsolationTableDetail.hpp`, and the stream names of
    `common/details/PathTextDetail.hpp`. */
module ViewPath {
  import opened Outcomes
  import opened WideText
  import opened Sequences

  // ----- components

  /** The pieces between the separators, empty ones included. */
  function Segments(path: string): (parts: seq<string>)
    ensures |parts| >= 1
  {
    if path == "" then [""]
    else if IsSeparator(path[0]) then [""] + Segments(path[1..])
    else
      var rest := Segments(path[1..]);
      [[path[0]] + rest[0]] + rest[1..]
  }

  predicate Dropped(part: string) {
    part == "" || part == "."
  }

  function Kept(parts: seq<string>): seq<string> {
    if parts == [] then []
    else (if Dropped(parts[0]) then [] else [parts[0]]) + Kept(parts[1..])
  }

  /** The components of a path, or nothing for a path that leads out of the view. */
  function Components(path: string): Expected<seq<string>> {
    if ".." in Segments(path) then Failed(InvalidArgument) else Ok(Kept(Segments(path)))
  }

  /** The loop of the splitter: `current` is the piece the next separator ends. */
  method SplitIsolationPath(path: string) returns (r: Expected<seq<string>>)
    ensures r == Components(path)
  {
    hide Segments, Prepended;
    var components: seq<string> := [];
    var current := "";
    ghost var flushed: seq<string> := [];
    assert path[0..] == path;
    PrependedNothing(Segments(path));
    for index := 0 to |path|
      invariant Segments(path) == flushed + Prepended(current, Segments(path[index..]))
      invariant components == Kept(flushed) && ".." !in flushed
    {
      ghost var rest := Segments(path[index + 1..]);
      assert path[index..][1..] == path[index + 1..];
      SegmentsStep(path[index..], current);
      var character := path[index];
      if IsSeparator(character) {
        assert Segments(path) == flushed + [current] + Prepended("", rest);
        if current == ".." {
          assert Segments(path)[|flushed|] == "..";
          return Failed(InvalidArgument);
        }
        FlushKept(flushed, current);
        flushed := flushed + [current];
        if !Dropped(current) {
          components := components + [current];
        }
        current := "";
      } else {
        current := current + [character];
      }
    }
    SegmentsEnd(current);
    assert path[|path|..] == "";
    assert Segments(path) == flushed + [current];
    assert forall part :: part in Segments(path) <==> part in flushed || part == current;
    if current == ".." {
      assert Segments(path)[|flushed|] == "..";
      return Failed(InvalidArgument);
    }
    FlushKept(flushed, current);
    if !Dropped(current) {
      components := components + [current];
    }
    return Ok(components);
  }

  lemma FlushKept(flushed: seq<string>, current: string)
    ensures Kept(flushed + [current]) == if Dropped(current) then Kept(flushed) else Kept(flushed) + [current]
  {
    KeptAppend(flushed, [current]);
    assert Kept([current]) == if Dropped(current) then [] else [current];
  }

  lemma SegmentsEnd(front: string)
    ensures Prepended(front, Segments("")) == [front]
  {
    assert front + "" == front;
  }

  /** The segments of a text when `front` is the piece in front of it. */
  function Prepended(front: string, parts: seq<string>): seq<string>
    requires |parts| >= 1
  {
    [front + parts[0]] + parts[1..]
  }

  lemma PrependedNothing(parts: seq<string>)
    requires |parts| >= 1
    ensures Prepended("", parts) == parts
  {
    assert "" + parts[0] == parts[0];
    assert [parts[0]] + parts[1..] == parts;
  }

  lemma SegmentsStep(path: string, front: string)
    requires path != ""
    ensures Prepended(front, Segments(path)) ==
            if IsSeparator(path[0]) then [front] + Prepended("", Segments(path[1..]))
            else Prepended(front + [path[0]], Segments(path[1..]))
  {
    var rest := Segments(path[1..]);
    assert "" + rest[0] == rest[0] && front + "" == front;
    assert front + ([path[0]] + rest[0]) == front + [path[0]] + rest[0];
  }

  lemma {:induction false} KeptAppend(a: seq<string>, b: seq<string>)
    ensures Kept(a + b) == Kept(a) + Kept(b)
  {
    if a == [] {
      assert a + b == b;
    } else {
      assert (a + b)[1..] == a[1..] + b;
      KeptAppend(a[1..], b);
    }
  }

  // ----- the normal form

  function Joined(components: seq<string>): string {
    if components == [] then ""
    else Joined(components[..|components| - 1]) + "\\" + components[|components| - 1]
  }

  function Normalized(path: string): string {
    match Components(path)
    case Ok(components) => Joined(components)
    case Failed(_) => ""
  }

  method NormalizeViewPath(path: string) returns (normalized: string)
    ensures normalized == Normalized(path)
  {
    var components := SplitIsolationPath(path);
    if components.Failed? || components.value == [] {
      return "";
    }
    normalized := "";
    for i := 0 to |components.value|
      invariant normalized == Joined(components.value[..i])
    {
      assert components.value[..i + 1][..i] == components.value[..i];
      normalized := normalized + "\\";
      normalized := normalized + components.value[i];
    }
    assert components.value[..|components.value|] == components.value;
  }

  /** A piece that may be a component of a normal path. */
  predicate IsName(name: string) {
    && !Dropped(name) && name != ".."
    && forall i :: 0 <= i < |name| ==> !IsSeparator(name[i])
  }

  predicate AreNames(components: seq<string>) {
    forall i :: 0 <= i < |components| ==> IsName(components[i])
  }

  lemma {:induction false} SegmentsHoldNoSeparator(path: string)
    ensures forall k :: 0 <= k < |Segments(path)| ==>
              forall i :: 0 <= i < |Segments(path)[k]| ==> !IsSeparator(Segments(path)[k][i])
  {
    if path != "" {
      SegmentsHoldNoSeparator(path[1..]);
    }
  }

  lemma {:induction false} KeptIsPart(parts: seq<string>)
    ensures forall c :: c in Kept(parts) ==> c in parts && !Dropped(c)
  {
    if parts != [] {
      KeptIsPart(parts[1..]);
    }
  }

  lemma ComponentsAreNames(path: string)
    requires Components(path).Ok?
    ensures AreNames(Components(path).value)
  {
    var parts := Segments(path);
    SegmentsHoldNoSeparator(path);
    KeptIsPart(parts);
    var kept := Kept(parts);
    forall i | 0 <= i < |kept|
      ensures IsName(kept[i])
    {
      assert kept[i] in parts;
    }
  }

  /** Behind a separator, the segments start anew. */
  lemma {:induction false} SegmentsAppend(a: string, separator: char, b: string)
    requires IsSeparator(separator)
    ensures Segments(a + [separator] + b) == Segments(a) + Segments(b)
  {
    var path := a + [separator] + b;
    if a == "" {
      assert path[1..] == b;
    } else {
      assert path[1..] == a[1..] + [separator] + b;
      SegmentsAppend(a[1..], separator, b);
    }
  }

  lemma {:induction false} SegmentsOfName(name: string)
    requires forall i :: 0 <= i < |name| ==> !IsSeparator(name[i])
    ensures Segments(name) == [name]
  {
    if name != "" {
      SegmentsOfName(name[1..]);
      assert name == [name[0]] + name[1..];
    }
  }

  lemma {:induction false} SegmentsOfJoined(components: seq<string>)
    requires AreNames(components)
    ensures Segments(Joined(components)) == [""] + components
  {
    if components != [] {
      var n := |components| - 1;
      SegmentsOfJoined(components[..n]);
      SegmentsOfName(components[n]);
      SegmentsAppend(Joined(components[..n]), '\\', components[n]);
      assert components == components[..n] + [components[n]];
    }
  }

  lemma {:induction false} KeptNames(components: seq<string>)
    requires AreNames(components)
    ensures Kept(components) == components
  {
    if components != [] {
      KeptNames(components[1..]);
    }
  }

  /** The normal form of some components has just these components. */
  lemma ComponentsOfJoined(components: seq<string>)
    requires AreNames(components)
    ensures Components(Joined(components)) == Ok(components)
  {
    SegmentsOfJoined(components);
    KeptNames(components);
    var parts := [""] + components;
    assert parts[1..] == components;
    assert forall i :: 0 <= i < |components| ==> components[i] != "..";
    assert ".." !in parts;
    assert Kept(parts) == Kept(components);
  }

  /** Names, each behind a separator of its own. */
  function Written(names: seq<string>, separators: seq<char>): string
    requires |separators| == |names|
  {
    if names == [] then "" else
      var n := |names| - 1;
      Written(names[..n], separators[..n]) + [separators[n]] + names[n]
  }

  lemma {:induction false} SegmentsOfWritten(names: seq<string>, separators: seq<char>)
    requires |separators| == |names|
    requires forall i :: 0 <= i < |names| ==> separators[i] == '\\' || separators[i] == '/'
    requires forall i :: 0 <= i < |names| ==> '\\' !in names[i] && '/' !in names[i]
    ensures Segments(Written(names, separators)) == [""] + names
  {
    if names != [] {
      var n := |names| - 1;
      SegmentsOfWritten(names[..n], separators[..n]);
      SegmentsOfName(names[n]);
      SegmentsAppend(Written(names[..n], separators[..n]), separators[n], names[n]);
      assert names == names[..n] + [names[n]];
    }
  }

  lemma {:induction false} KeptIsFilter(parts: seq<string>)
    ensures Kept(parts) == Filter(parts, part => part != "" && part != ".")
  {
    if parts != [] {
      KeptIsFilter(parts[1..]);
    }
  }

  /** The components of an accepted path are its segments in their order, without the empty ones and
      the ones that are a single dot, each as often as it stands in the path. A path is refused
      exactly for a segment of two dots. */
  lemma ComponentsExactly(path: string, name: string)
    ensures Components(path) ==
            if ".." in Segments(path) then Failed(InvalidArgument)
            else Ok(Filter(Segments(path), part => part != "" && part != "."))
    ensures Components(path).Ok? ==>
              multiset(Components(path).value)[name] ==
              if name == "" || name == "." then 0 else multiset(Segments(path))[name]
  {
    KeptIsFilter(Segments(path));
    FilterCounts(Segments(path), part => part != "" && part != ".", name);
  }

  /** Names without a separator in them, other than the two dot names, are the components of the path
      they are written as, with either separator in front of each, and the path has its normal form. */
  lemma NamesAreComponents(names: seq<string>, separators: seq<char>)
    requires |separators| == |names|
    requires forall i :: 0 <= i < |names| ==> separators[i] == '\\' || separators[i] == '/'
    requires forall i :: 0 <= i < |names| ==>
               && names[i] != "" && names[i] != "." && names[i] != ".."
               && '\\' !in names[i] && '/' !in names[i]
    ensures Components(Written(names, separators)) == Ok(names)
    ensures Normalized(Written(names, separators)) == Written(names, seq(|names|, i => '\\'))
  {
    hide Segments, Kept, IsName;
    forall i | 0 <= i < |names|
      ensures IsName(names[i])
    {
      NameExactly(names[i]);
    }
    SegmentsOfWritten(names, separators);
    SegmentsOfJoined(names);
    ComponentsOfJoined(names);
    JoinedIsWritten(names);
  }

  lemma NameExactly(name: string)
    ensures IsName(name) <==>
            name != "" && name != "." && name != ".." && '\\' !in name && '/' !in name
  {
    if '\\' in name {
      var i :| 0 <= i < |name| && name[i] == '\\';
      assert IsSeparator(name[i]);
    }
    if '/' in name {
      var i :| 0 <= i < |name| && name[i] == '/';
      assert IsSeparator(name[i]);
    }
  }

  lemma {:induction false} JoinedIsWritten(names: seq<string>)
    ensures Joined(names) == Written(names, seq(|names|, i => '\\'))
  {
    if names != [] {
      var n := |names| - 1;
      JoinedIsWritten(names[..n]);
      assert seq(|names|, i => '\\')[..n] == seq(n, i => '\\');
      assert "\\" == ['\\'];
    }
  }

  lemma JoinedInjective(a: seq<string>, b: seq<string>)
    requires AreNames(a) && AreNames(b) && Joined(a) == Joined(b)
    ensures a == b
  {
    ComponentsOfJoined(a);
    ComponentsOfJoined(b);
  }

  lemma NormalizedTwice(path: string)
    ensures Normalized(Normalized(path)) == Normalized(path)
  {
    if Components(path).Ok? {
      ComponentsAreNames(path);
      ComponentsOfJoined(Components(path).value);
    }
  }

  // ----- case

  function FoldedAll(f: CaseFold, parts: seq<string>): (folded: seq<string>)
    ensures |folded| == |parts|
    ensures forall i :: 0 <= i < |parts| ==> folded[i] == Folded(f, parts[i])
  {
    seq(|parts|, i requires 0 <= i < |parts| => Folded(f, parts[i]))
  }

  lemma FoldKeepsAscii(f: CaseFold, c: char, d: char)
    requires IsAscii(d) && !IsUpper(d) && !IsLower(d)
    ensures f(c) == d <==> c == d
  {
  }

  lemma FoldKeepsDots(f: CaseFold, part: string)
    ensures Folded(f, part) == "." <==> part == "."
    ensures Folded(f, part) == ".." <==> part == ".."
  {
    if |part| == 1 {
      FoldKeepsAscii(f, part[0], '.');
      assert part == [part[0]] && Folded(f, part) == [f(part[0])];
    } else if |part| == 2 {
      FoldKeepsAscii(f, part[0], '.');
      FoldKeepsAscii(f, part[1], '.');
      assert part == [part[0], part[1]] && Folded(f, part) == [f(part[0]), f(part[1])];
    }
  }

  lemma {:induction false} SegmentsFolded(f: CaseFold, path: string)
    ensures Segments(Folded(f, path)) == FoldedAll(f, Segments(path))
  {
    if path != "" {
      SegmentsFolded(f, path[1..]);
      FoldKeepsAscii(f, path[0], '\\');
      FoldKeepsAscii(f, path[0], '/');
      assert Folded(f, path)[1..] == Folded(f, path[1..]);
      if !IsSeparator(path[0]) {
        var rest := Segments(path[1..]);
        FoldedConcat(f, [path[0]], rest[0]);
        assert Folded(f, [path[0]]) == [f(path[0])];
      }
    }
  }

  lemma {:induction false} KeptFolded(f: CaseFold, parts: seq<string>)
    ensures Kept(FoldedAll(f, parts)) == FoldedAll(f, Kept(parts))
  {
    if parts != [] {
      KeptFolded(f, parts[1..]);
      FoldKeepsDots(f, parts[0]);
      assert FoldedAll(f, parts)[1..] == FoldedAll(f, parts[1..]);
    }
  }

  lemma ComponentsFolded(f: CaseFold, path: string)
    ensures Components(Folded(f, path)).Ok? <==> Components(path).Ok?
    ensures Components(path).Ok? ==> Components(Folded(f, path)) == Ok(FoldedAll(f, Components(path).value))
  {
    var parts := Segments(path);
    SegmentsFolded(f, path);
    KeptFolded(f, parts);
    forall i | 0 <= i < |parts|
      ensures FoldedAll(f, parts)[i] == ".." <==> parts[i] == ".."
    {
      FoldKeepsDots(f, parts[i]);
    }
    assert ".." in FoldedAll(f, parts) <==> ".." in parts by {
      if ".." in parts {
        var i :| 0 <= i < |parts| && parts[i] == "..";
        assert FoldedAll(f, parts)[i] == "..";
      }
    }
  }

  lemma {:induction false} JoinedFolded(f: CaseFold, components: seq<string>)
    ensures Folded(f, Joined(components)) == Joined(FoldedAll(f, components))
  {
    if components != [] {
      var n := |components| - 1;
      JoinedFolded(f, components[..n]);
      assert FoldedAll(f, components)[..n] == FoldedAll(f, components[..n]);
      FoldedConcat(f, Joined(components[..n]) + "\\", components[n]);
      FoldedConcat(f, Joined(components[..n]), "\\");
      assert Folded(f, "\\") == "\\";
    }
  }

  /** Normalizing and folding may be done in either order. */
  lemma NormalizedFolded(f: CaseFold, path: string)
    ensures Normalized(Folded(f, path)) == Folded(f, Normalized(path))
  {
    ComponentsFolded(f, path);
    if Components(path).Ok? {
      JoinedFolded(f, Components(path).value);
    }
  }

  // ----- spellings

  /** Segments that come to nothing between two others. */
  lemma KeptBetween(a: seq<string>, parts: seq<string>, b: seq<string>)
    requires Kept(parts) == []
    ensures Kept(a + parts + b) == Kept(a + b)
  {
    KeptAppend(a + parts, b);
    KeptAppend(a, parts);
    KeptAppend(a, b);
  }

  /** The two slashes are one separator. */
  lemma EitherSlash(a: string, b: string)
    ensures Components(a + ['\\'] + b) == Components(a + ['/'] + b)
  {
    SegmentsAppend(a, '\\', b);
    SegmentsAppend(a, '/', b);
  }

  /** Two separators in a row are one. */
  lemma DoubledSeparator(a: string, b: string, s: char, t: char)
    requires IsSeparator(s) && IsSeparator(t)
    ensures Components(a + [s] + ([t] + b)) == Components(a + [s] + b)
  {
    hide Segments;
    SegmentsAppend(a, s, b);
    SegmentsAppend(a, s, [t] + b);
    SegmentsAppend("", t, b);
    SegmentsOfName("");
    assert "" + [t] + b == [t] + b;
    assert Segments(a) + ([""] + Segments(b)) == Segments(a) + [""] + Segments(b);
    KeptBetween(Segments(a), [""], Segments(b));
  }

  /** A folder is its own current directory. */
  lemma CurrentDirectory(a: string, b: string, s: char, t: char)
    requires IsSeparator(s) && IsSeparator(t)
    ensures Components(a + [s] + (['.', t] + b)) == Components(a + [s] + b)
  {
    hide Segments;
    SegmentsAppend(a, s, b);
    SegmentsAppend(a, s, ['.', t] + b);
    SegmentsAppend(".", t, b);
    assert "." + [t] + b == ['.', t] + b;
    SegmentsOfName(".");
    assert Segments(a) + (["."] + Segments(b)) == Segments(a) + ["."] + Segments(b);
    KeptBetween(Segments(a), ["."], Segments(b));
  }

  /** A separator at the end names nothing. */
  lemma TrailingSeparator(a: string, s: char)
    requires IsSeparator(s)
    ensures Components(a + [s]) == Components(a)
  {
    SegmentsAppend(a, s, "");
    assert a + [s] + "" == a + [s];
    KeptAppend(Segments(a), [""]);
    assert Kept([""]) == [] && Kept(Segments(a)) + [] == Kept(Segments(a));
    assert ".." in Segments(a) + [""] <==> ".." in Segments(a) || ".." in [""];
  }

  // ----- streams

  predicate IsDriveLetter(c: char) {
    IsUpper(c) || IsLower(c)
  }

  /** The colon that separates the last component of a path from the stream it names. The colon
      of a drive is none. */
  function StreamNameSeparator(path: string): (r: Expected<nat>)
    ensures r.Ok? ==> r.value < |path| && path[r.value] == ':'
  {
    var nameBegin := BehindLast(path, '\\');
    var colon := FirstFrom(path, ':', nameBegin);
    if colon == |path| then Failed(PathNoStreamName)
    else if colon == nameBegin + 1 && colon + 1 == |path| && IsDriveLetter(path[nameBegin]) then Failed(PathNoStreamName)
    else Ok(colon)
  }

  function EntryPathOfStream(path: string): (entry: string)
    ensures entry <= path
  {
    match StreamNameSeparator(path)
    case Ok(separator) => path[..separator]
    case Failed(_) => path
  }

  function StreamNameOf(path: string): string {
    match StreamNameSeparator(path)
    case Ok(separator) => path[separator + 1..]
    case Failed(_) => ""
  }

  predicate CarriesStreamName(path: string) {
    StreamNameSeparator(path).Ok?
  }

  /** A path is its entry, or its entry, a colon and its stream. The entry carries no stream. */
  lemma StreamSplits(path: string)
    ensures path == if CarriesStreamName(path) then EntryPathOfStream(path) + ":" + StreamNameOf(path)
                    else EntryPathOfStream(path)
    ensures !CarriesStreamName(EntryPathOfStream(path))
  {
    if CarriesStreamName(path) {
      var colon := StreamNameSeparator(path).value;
      var nameBegin := BehindLast(path, '\\');
      var entry := path[..colon];
      LastIs(entry, '\\', nameBegin);
      assert FirstFrom(entry, ':', nameBegin) == |entry|;
    }
  }

  /** The colon of a drive: a letter is in front of it, nothing behind it, and the two are a whole
      component. */
  predicate IsDriveColon(path: string, i: nat)
    requires i < |path|
  {
    && i + 1 == |path| && i > 0
    && ('A' <= path[i - 1] <= 'Z' || 'a' <= path[i - 1] <= 'z')
    && (i == 1 || path[i - 2] == '\\')
  }

  /** The first colon of the last component, and not the one of a drive. */
  predicate SeparatesStream(path: string, i: nat) {
    && i < |path| && path[i] == ':'
    && (forall k :: i < k < |path| ==> path[k] != '\\')
    && (forall j :: 0 <= j < i && path[j] == ':' ==> exists k :: j < k < i && path[k] == '\\')
    && !IsDriveColon(path, i)
  }

  lemma SeparatorExactly(path: string, i: nat)
    ensures StreamNameSeparator(path) == Ok(i) <==> SeparatesStream(path, i)
    ensures StreamNameSeparator(path).Failed? ==> StreamNameSeparator(path).code == PathNoStreamName
  {
    var nameBegin := BehindLast(path, '\\');
    var colon := FirstFrom(path, ':', nameBegin);
    if i < |path| && path[i] == ':' && nameBegin <= i {
      FirstColon(path, nameBegin, i);
    }
  }

  /** Behind the last backslash, the first colon is the one with a backslash behind every other. */
  lemma FirstColon(path: string, nameBegin: nat, i: nat)
    requires nameBegin == BehindLast(path, '\\') <= i < |path| && path[i] == ':'
    ensures FirstFrom(path, ':', nameBegin) == i
       <==> forall j :: 0 <= j < i && path[j] == ':' ==> exists k :: j < k < i && path[k] == '\\'
  {
    var colon := FirstFrom(path, ':', nameBegin);
    if colon == i {
      forall j | 0 <= j < i && path[j] == ':'
        ensures exists k :: j < k < i && path[k] == '\\'
      {
        assert j < nameBegin - 1 < i && path[nameBegin - 1] == '\\';
      }
    } else {
      assert colon < i && path[colon] == ':';
    }
  }

  lemma LastIs(s: string, c: char, n: nat)
    requires n <= |s| && (n > 0 ==> s[n - 1] == c)
    requires forall i :: n <= i < |s| ==> s[i] != c
    ensures BehindLast(s, c) == n
  {
    var m := BehindLast(s, c);
    var found, given := if m > 0 then s[m - 1] else c, if n > 0 then s[n - 1] else c;
    assert found == c && given == c;
  }
}
