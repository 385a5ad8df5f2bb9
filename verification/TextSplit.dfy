/** The splitting of a text on a delimiter, `SplitKeepingEmpty` of
    `common/details/PathTextDetail.hpp`. */
module TextSplit {
  import opened Outcomes

  /** The delimiter stands in the text at a position. */
  predicate StandsAt(text: string, delimiter: string, i: nat) {
    i + |delimiter| <= |text| && text[i..i + |delimiter|] == delimiter
  }

  /** `find(delimiter, from)` */
  function Find(text: string, delimiter: string, from: nat): (r: Option<nat>)
    ensures r.Some? ==> from <= r.value <= |text| - |delimiter| && StandsAt(text, delimiter, r.value)
    ensures r.Some? ==> forall i :: from <= i < r.value ==> !StandsAt(text, delimiter, i)
    ensures r.None? ==> forall i :: from <= i ==> !StandsAt(text, delimiter, i)
    decreases |text| - from
  {
    if from > |text| then None
    else if StandsAt(text, delimiter, from) then Some(from)
    else Find(text, delimiter, from + 1)
  }

  function Split(text: string, delimiter: string): (parts: seq<string>)
    ensures |parts| >= 1
  {
    if delimiter == "" then [text]
    else
      match Find(text, delimiter, 0)
      case None => [text]
      case Some(pos) => [text[..pos]] + Split(text[pos + |delimiter|..], delimiter)
  }

  function Joined(parts: seq<string>, delimiter: string): string {
    if parts == [] then ""
    else if |parts| == 1 then parts[0]
    else parts[0] + delimiter + Joined(parts[1..], delimiter)
  }

  method SplitKeepingEmpty(text: string, delimiter: string) returns (result: seq<string>)
    ensures result == Split(text, delimiter)
  {
    hide Split, Find;
    result := [];
    if delimiter == "" {
      SplitStep(text, delimiter, 0);
      return [text];
    }
    var start := 0;
    var pos := Find(text, delimiter, start);
    assert text[0..] == text;
    while pos.Some?
      invariant start <= |text| && pos == Find(text, delimiter, start)
      invariant result + Split(text[start..], delimiter) == Split(text, delimiter)
      decreases |text| - start
    {
      SplitStep(text, delimiter, start);
      result := result + [text[start..pos.value]];
      start := pos.value + |delimiter|;
      pos := Find(text, delimiter, start);
    }
    SplitStep(text, delimiter, start);
    result := result + [text[start..]];
  }

  lemma SplitOnce(text: string, delimiter: string, r: Option<nat>)
    requires delimiter != "" && Find(text, delimiter, 0) == r
    ensures r.None? ==> Split(text, delimiter) == [text]
    ensures r.Some? ==> Split(text, delimiter) == [text[..r.value]] + Split(text[r.value + |delimiter|..], delimiter)
  {
    hide Find, StandsAt;
  }

  lemma SplitOnNothing(text: string)
    ensures Split(text, "") == [text]
  {
  }

  lemma SplitStep(text: string, delimiter: string, start: nat)
    requires start <= |text|
    ensures delimiter == "" ==> Split(text, delimiter) == [text]
    ensures delimiter != "" ==>
              Split(text[start..], delimiter) ==
              match Find(text, delimiter, start)
              case None => [text[start..]]
              case Some(pos) => [text[start..pos]] + Split(text[pos + |delimiter|..], delimiter)
  {
    hide Split, Find, StandsAt;
    SplitOnNothing(text);
    FindShifts(text, delimiter, start);
    if delimiter != "" {
      match Find(text, delimiter, start)
      case None =>
        SplitOnce(text[start..], delimiter, None);
      case Some(pos) =>
        SplitOnce(text[start..], delimiter, Some(pos - start));
        assert text[start..][..pos - start] == text[start..pos];
        assert text[start..][pos - start + |delimiter|..] == text[pos + |delimiter|..];
    }
  }

  lemma StandsShifted(text: string, delimiter: string, start: nat, i: nat)
    requires start <= |text|
    ensures StandsAt(text[start..], delimiter, i) <==> StandsAt(text, delimiter, start + i)
  {
    if start + i + |delimiter| <= |text| {
      assert text[start..][i..i + |delimiter|] == text[start + i..start + i + |delimiter|];
    }
  }

  lemma FindIs(text: string, delimiter: string, from: nat, n: nat)
    requires from <= n && StandsAt(text, delimiter, n)
    requires forall i :: from <= i < n ==> !StandsAt(text, delimiter, i)
    ensures Find(text, delimiter, from) == Some(n)
  {
  }

  /** Looking from a position is looking in the text behind it. */
  lemma FindShifts(text: string, delimiter: string, start: nat)
    requires start <= |text|
    ensures Find(text[start..], delimiter, 0) ==
            match Find(text, delimiter, start)
            case None => None
            case Some(pos) => Some(pos - start)
  {
    forall i: nat
      ensures StandsAt(text[start..], delimiter, i) <==> StandsAt(text, delimiter, start + i)
    {
      StandsShifted(text, delimiter, start, i);
    }
    match Find(text, delimiter, start)
    case Some(pos) =>
      assert StandsAt(text[start..], delimiter, pos - start);
      forall i | 0 <= i < pos - start
        ensures !StandsAt(text[start..], delimiter, i)
      {
        assert !StandsAt(text, delimiter, start + i);
      }
      FindIs(text[start..], delimiter, 0, pos - start);
    case None =>
  }

  /** Splitting loses nothing: the parts, joined again, are the text. */
  lemma {:induction false} JoinedSplit(text: string, delimiter: string)
    ensures Joined(Split(text, delimiter), delimiter) == text
    decreases |text|
  {
    hide Find;
    if delimiter != "" && Find(text, delimiter, 0).Some? {
      var pos := Find(text, delimiter, 0).value;
      var rest := text[pos + |delimiter|..];
      JoinedSplit(rest, delimiter);
      JoinedFirst(text[..pos], Split(rest, delimiter), delimiter);
      assert text == text[..pos] + text[pos..pos + |delimiter|] + rest;
    }
  }

  lemma JoinedFirst(part: string, parts: seq<string>, delimiter: string)
    requires parts != []
    ensures Joined([part] + parts, delimiter) == part + delimiter + Joined(parts, delimiter)
  {
    assert ([part] + parts)[1..] == parts;
  }

  /** What the parts have to be for the delimiter to be found between them and nowhere else: no
      delimiter stands in the last one, and in front of each of the others the first one stands
      behind it. */
  predicate Separable(parts: seq<string>, delimiter: string)
    requires parts != []
  {
    if |parts| == 1 then Find(parts[0], delimiter, 0) == None
    else Find(parts[0] + delimiter, delimiter, 0) == Some(|parts[0]|) && Separable(parts[1..], delimiter)
  }

  lemma FindInFront(part: string, delimiter: string, rest: string)
    ensures Find(part + delimiter + rest, delimiter, 0) == Find(part + delimiter, delimiter, 0)
  {
    var front, text := part + delimiter, part + delimiter + rest;
    assert StandsAt(front, delimiter, |part|);
    var pos := Find(front, delimiter, 0).value;
    assert pos <= |part|;
    forall i | 0 <= i <= pos
      ensures StandsAt(text, delimiter, i) == StandsAt(front, delimiter, i)
    {
      assert text[i..i + |delimiter|] == front[i..i + |delimiter|];
    }
    FindIs(text, delimiter, 0, pos);
  }

  /** Joined parts are split into themselves exactly when they are separable. */
  lemma {:induction false} SplitJoinedExactly(parts: seq<string>, delimiter: string)
    requires parts != [] && delimiter != ""
    ensures Split(Joined(parts, delimiter), delimiter) == parts <==> Separable(parts, delimiter)
  {
    if |parts| == 1 {
      SplitWhole(parts[0], delimiter);
    } else {
      var rest := Joined(parts[1..], delimiter);
      SplitJoinedExactly(parts[1..], delimiter);
      FindInFront(parts[0], delimiter, rest);
      SplitFront(parts[0], delimiter, rest, parts);
    }
  }

  lemma SplitWhole(text: string, delimiter: string)
    requires delimiter != ""
    ensures Split(text, delimiter) == [text] <==> Find(text, delimiter, 0) == None
  {
    if Find(text, delimiter, 0).Some? {
      assert |Split(text, delimiter)| >= 2;
    }
  }

  lemma SplitFront(part: string, delimiter: string, rest: string, parts: seq<string>)
    requires delimiter != "" && |parts| > 1 && parts[0] == part
    requires Find(part + delimiter + rest, delimiter, 0) == Find(part + delimiter, delimiter, 0)
    ensures Split(part + delimiter + rest, delimiter) == parts
            <==> Find(part + delimiter, delimiter, 0) == Some(|part|) && Split(rest, delimiter) == parts[1..]
  {
    hide Split, Find;
    var text := part + delimiter + rest;
    assert StandsAt(part + delimiter, delimiter, |part|);
    var pos := Find(part + delimiter, delimiter, 0).value;
    var tail := Split(text[pos + |delimiter|..], delimiter);
    SplitOnce(text, delimiter, Some(pos));
    assert Split(text, delimiter)[0] == text[..pos] && Split(text, delimiter)[1..] == tail;
    assert parts == [parts[0]] + parts[1..];
    if pos == |part| {
      assert text[..pos] == part && text[pos + |delimiter|..] == rest;
    } else {
      assert |text[..pos]| != |parts[0]|;
    }
  }

  lemma StandsExactly(text: string, c: char, i: nat)
    ensures StandsAt(text, [c], i) <==> i < |text| && text[i] == c
  {
    if i < |text| {
      assert text[i..i + 1] == [text[i]];
    }
  }

  lemma NotFound(text: string, c: char)
    requires c !in text
    ensures Find(text, [c], 0) == None && Find(text + [c], [c], 0) == Some(|text|)
  {
    var front := text + [c];
    forall i: nat
      ensures StandsAt(text, [c], i) <==> i < |text| && text[i] == c
      ensures StandsAt(front, [c], i) <==> i < |front| && front[i] == c
    {
      StandsExactly(text, c, i);
      StandsExactly(front, c, i);
    }
    hide StandsAt;
    assert forall i :: 0 <= i < |text| ==> front[i] == text[i];
    FindIs(front, [c], 0, |text|);
  }

  /** A delimiter of one character separates the texts it does not occur in. */
  lemma {:induction false} OneCharacterSeparates(parts: seq<string>, c: char)
    requires parts != [] && forall i :: 0 <= i < |parts| ==> c !in parts[i]
    ensures Separable(parts, [c])
  {
    hide Find, StandsAt;
    NotFound(parts[0], c);
    if |parts| > 1 {
      OneCharacterSeparates(parts[1..], c);
    }
  }

  // ----- splitting on one character

  /** The first hit in a text is the first hit in a longer one. */
  lemma FindInLonger(a: string, c: char, b: string)
    ensures Find(a + [c] + b, [c], 0) == match Find(a, [c], 0) case None => Some(|a|) case Some(pos) => Some(pos)
  {
    var text := a + [c] + b;
    forall i: nat
      ensures StandsAt(a, [c], i) <==> i < |a| && a[i] == c
      ensures StandsAt(text, [c], i) <==> i < |text| && text[i] == c
    {
      StandsExactly(a, c, i);
      StandsExactly(text, c, i);
    }
    FindIs(text, [c], 0, if Find(a, [c], 0).Some? then Find(a, [c], 0).value else |a|);
  }

  /** A separator between two texts separates their elements. */
  lemma {:induction false} SplitSum(a: string, c: char, b: string)
    ensures Split(a + [c] + b, [c]) == Split(a, [c]) + Split(b, [c])
    decreases |a|
  {
    hide Split, Find, StandsAt;
    var text := a + [c] + b;
    FindInLonger(a, c, b);
    SplitOnce(text, [c], Find(text, [c], 0));
    SplitOnce(a, [c], Find(a, [c], 0));
    match Find(a, [c], 0)
    case None =>
      assert text[..|a|] == a && text[|a| + 1..] == b;
    case Some(pos) =>
      assert text[..pos] == a[..pos] && text[pos + 1..] == a[pos + 1..] + [c] + b;
      SplitSum(a[pos + 1..], c, b);
  }

  /** The elements of some texts, one text after the other. */
  function SplitEach(parts: seq<string>, c: char): seq<string> {
    if parts == [] then [] else Split(parts[0], [c]) + SplitEach(parts[1..], c)
  }

  lemma {:induction false} SplitJoinsElements(parts: seq<string>, c: char)
    requires parts != []
    ensures Split(Joined(parts, [c]), [c]) == SplitEach(parts, c)
  {
    if |parts| > 1 {
      SplitJoinsElements(parts[1..], c);
      SplitSum(parts[0], c, Joined(parts[1..], [c]));
    } else {
      assert SplitEach(parts[1..], c) == [];
    }
  }

  lemma {:induction false} SplitEachWhole(parts: seq<string>, c: char)
    requires parts != []
    ensures (forall part :: part in parts ==> c !in part) ==> SplitEach(parts, c) == parts
  {
    if forall part :: part in parts ==> c !in part {
      OneCharacterSeparates(parts, c);
      SplitJoinedExactly(parts, [c]);
      SplitJoinsElements(parts, c);
    }
  }

  // ----- the prefixes of a path

  /** The prefixes that end where the delimiter stands, the shortest first. Behind a hit the search
      goes on one character further, not one delimiter. */
  function Prefixes(path: string, offset: nat, delimiter: string): seq<string>
    decreases |path| + 1 - offset
  {
    match Find(path, delimiter, offset)
    case None => []
    case Some(pos) => [path[..pos]] + Prefixes(path, pos + 1, delimiter)
  }

  method Sequence(path: string, offset: nat, delimiter: string, includeLast: bool) returns (result: seq<string>)
    ensures result == Prefixes(path, offset, delimiter) + (if includeLast then [path] else [])
  {
    hide Find;
    result := [];
    var from := offset;
    var pos := Find(path, delimiter, from);
    while pos.Some?
      invariant pos == Find(path, delimiter, from)
      invariant result + Prefixes(path, from, delimiter) == Prefixes(path, offset, delimiter)
      decreases |path| + 1 - from
    {
      result := result + [path[..pos.value]];
      from := pos.value + 1;
      pos := Find(path, delimiter, from);
    }
    assert Prefixes(path, from, delimiter) == [];
    if includeLast {
      result := result + [path];
    }
  }

  /** A prefix is listed exactly when the delimiter stands behind it. */
  lemma {:induction false} PrefixesExactly(path: string, offset: nat, delimiter: string, s: string)
    ensures s in Prefixes(path, offset, delimiter) <==>
            s <= path && offset <= |s| && StandsAt(path, delimiter, |s|)
    decreases |path| + 1 - offset
  {
    hide StandsAt, Find;
    match Find(path, delimiter, offset)
    case None =>
    case Some(pos) =>
      PrefixesExactly(path, pos + 1, delimiter, s);
      assert s <= path && |s| == pos ==> s == path[..pos];
  }

  predicate Ascending(prefixes: seq<string>, least: nat) {
    && (forall i :: 0 <= i < |prefixes| ==> least <= |prefixes[i]|)
    && (forall i, j :: 0 <= i < j < |prefixes| ==> |prefixes[i]| < |prefixes[j]|)
  }

  lemma AscendingBehind(first: string, rest: seq<string>, least: nat)
    requires least <= |first| && Ascending(rest, |first| + 1)
    ensures Ascending([first] + rest, least)
  {
    var all := [first] + rest;
    assert all[0] == first && forall i :: 0 < i < |all| ==> all[i] == rest[i - 1];
  }

  /** Each prefix is listed once, the shorter ones first. */
  lemma {:induction false} PrefixesAscend(path: string, offset: nat, delimiter: string)
    ensures Ascending(Prefixes(path, offset, delimiter), offset)
    decreases |path| + 1 - offset
  {
    match Find(path, delimiter, offset)
    case None =>
    case Some(pos) =>
      PrefixesAscend(path, pos + 1, delimiter);
      AscendingBehind(path[..pos], Prefixes(path, pos + 1, delimiter), offset);
  }

  /** Every part and the parts in front of it, joined. */
  function JoinedUpTo(parts: seq<string>, delimiter: string, front: string): (all: seq<string>)
    ensures |all| == |parts|
    ensures forall i :: 0 <= i < |all| ==> all[i] == front + Joined(parts[..i + 1], delimiter)
  {
    seq(|parts|, i requires 0 <= i < |parts| => front + Joined(parts[..i + 1], delimiter))
  }

  lemma JoinedUpToBehind(part: string, parts: seq<string>, delimiter: string, front: string)
    ensures JoinedUpTo([part] + parts, delimiter, front)
         == [front + part] + JoinedUpTo(parts, delimiter, front + part + delimiter)
  {
    var all, rest := JoinedUpTo([part] + parts, delimiter, front), JoinedUpTo(parts, delimiter, front + part + delimiter);
    hide Joined, JoinedUpTo;
    forall i | 0 <= i < |all|
      ensures all[i] == ([front + part] + rest)[i]
    {
      if i == 0 {
        assert ([part] + parts)[..1] == [part];
        JoinedOne(part, delimiter);
      } else {
        assert ([part] + parts)[..i + 1] == [part] + parts[..i];
        JoinedFirst(part, parts[..i], delimiter);
        JoinAssociates(front, part, delimiter, Joined(parts[..i], delimiter));
      }
    }
  }

  lemma JoinAssociates(a: string, b: string, c: string, d: string)
    ensures a + (b + c + d) == a + b + c + d
  {
  }

  lemma JoinedOne(part: string, delimiter: string)
    ensures Joined([part], delimiter) == part && [part][..1] == [part]
  {
  }

  lemma CutAtHit(path: string, c: char, start: nat, pos: nat)
    requires start <= pos && StandsAt(path, [c], pos)
    ensures path[..pos] == path[..start] + path[start..pos]
    ensures path[..pos + 1] == path[..start] + path[start..pos] + [c]
  {
    assert path[pos..pos + 1] == [c];
  }

  /** For a delimiter of one character, the prefixes and the path are the parts of the path, joined
      one more at a time. */
  lemma {:induction false} PrefixesJoinParts(path: string, start: nat, c: char)
    requires start <= |path|
    ensures Prefixes(path, start, [c]) + [path] == JoinedUpTo(Split(path[start..], [c]), [c], path[..start])
    decreases |path| - start
  {
    hide Split, Find, StandsAt, Joined, JoinedUpTo;
    SplitStep(path, [c], start);
    match Find(path, [c], start)
    case None =>
      JoinedOne(path[start..], [c]);
      assert path == path[..start] + path[start..];
    case Some(pos) =>
      CutAtHit(path, c, start, pos);
      PrefixesJoinParts(path, pos + 1, c);
      JoinedUpToBehind(path[start..pos], Split(path[pos + 1..], [c]), [c], path[..start]);
  }
}
