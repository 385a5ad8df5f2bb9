/** What the mapping of `common/details/MappingAsDosNtPathDetail.hpp` promises: the form of its
    answers, the volume it picks, and the paths it treats alike. */
module DosNtPathProperties {
  import opened Outcomes
  import opened WideText
  import opened DosNtPath

  // ----- prefixes

  lemma StartsAt(m: Machine, text: string, prefix: string, i: nat)
    requires Starts(m, text, prefix) && i < |prefix|
    ensures i < |text| && m.lower(text[i]) == m.lower(prefix[i])
  {
    PrefixIsShorter(m, text, prefix);
    assert Folded(m.lower, text)[i] == Folded(m.lower, prefix)[i];
  }

  /** A character that is no letter is matched by itself alone. */
  lemma StartsExactlyAt(m: Machine, text: string, prefix: string, i: nat)
    requires Starts(m, text, prefix) && i < |prefix|
    requires IsAscii(prefix[i]) && !IsUpper(prefix[i]) && !IsLower(prefix[i])
    ensures i < |text| && text[i] == prefix[i]
  {
    StartsAt(m, text, prefix, i);
    var c := text[i];
    assert IsAscii(m.lower(c));
    assert IsAscii(c);
  }

  lemma StartsNamespace(m: Machine, path: string)
    requires Starts(m, path, NAMESPACE)
    ensures |path| >= 4 && path[..4] == NAMESPACE
  {
    StartsExactlyAt(m, path, NAMESPACE, 0);
    StartsExactlyAt(m, path, NAMESPACE, 1);
    StartsExactlyAt(m, path, NAMESPACE, 2);
    StartsExactlyAt(m, path, NAMESPACE, 3);
  }

  lemma DiffersAt(m: Machine, text: string, prefix: string, i: nat)
    requires i < |prefix| && i < |text| && m.lower(text[i]) != m.lower(prefix[i])
    ensures !Starts(m, text, prefix)
  {
    if Starts(m, text, prefix) {
      StartsAt(m, text, prefix, i);
    }
  }

  /** The pieces of a text between its backslashes, empty ones included. */
  function Pieces(text: string): (pieces: seq<string>)
    ensures |pieces| >= 1
  {
    if text == "" then [""]
    else if text[0] == '\\' then [""] + Pieces(text[1..])
    else
      var rest := Pieces(text[1..]);
      [[text[0]] + rest[0]] + rest[1..]
  }

  lemma {:induction false} PiecesOfLongerText(prefix: string, rest: string)
    requires rest == "" || rest[0] == '\\'
    ensures Pieces(prefix) <= Pieces(prefix + rest)
  {
    if prefix == "" {
      assert prefix + rest == rest;
    } else {
      assert (prefix + rest)[1..] == prefix[1..] + rest;
      PiecesOfLongerText(prefix[1..], rest);
    }
  }

  lemma FirstPiece(text: string)
    ensures text == "" || text[0] == '\\' <==> Pieces(text)[0] == ""
    ensures text == "" ==> Pieces(text) == [""]
    ensures text != "" && text[0] == '\\' ==> Pieces(text)[1..] == Pieces(text[1..])
    ensures text != "" && text[0] != '\\' ==>
              Pieces(text)[0] == [text[0]] + Pieces(text[1..])[0] && Pieces(text)[1..] == Pieces(text[1..])[1..]
  {
  }

  lemma PrefixByTail(q: seq<string>, u: seq<string>)
    requires q != [] && u != []
    ensures q <= u <==> q[0] == u[0] && q[1..] <= u[1..]
  {
    assert q == [q[0]] + q[1..] && u == [u[0]] + u[1..];
  }

  lemma PieceTail(x: char, a: string, y: char, b: string)
    ensures [x] + a == [y] + b <==> x == y && a == b
  {
    assert ([x] + a)[1..] == a && ([y] + b)[1..] == b;
    assert ([x] + a)[0] == x && ([y] + b)[0] == y;
  }

  /** Pieces that begin alike, without the first character of both. */
  lemma PiecesTail(prefix: string, text: string)
    requires prefix != "" && Pieces(prefix) <= Pieces(text)
    ensures text != "" && text[0] == prefix[0] && Pieces(prefix[1..]) <= Pieces(text[1..])
  {
    hide Pieces;
    FirstPiece(prefix);
    FirstPiece(text);
    PrefixByTail(Pieces(prefix), Pieces(text));
    if prefix[0] != '\\' {
      PieceTail(prefix[0], Pieces(prefix[1..])[0], text[0], Pieces(text[1..])[0]);
      PrefixByTail(Pieces(prefix[1..]), Pieces(text[1..]));
    } else {
      assert |Pieces(text)[1..]| >= |Pieces(prefix)[1..]| >= 1;
    }
  }

  lemma {:induction false} PiecesBegin(prefix: string, text: string)
    requires Pieces(prefix) <= Pieces(text)
    ensures prefix <= text && (|text| == |prefix| || text[|prefix|] == '\\')
    decreases |prefix|
  {
    hide Pieces;
    if prefix == "" {
      FirstPiece(prefix);
      FirstPiece(text);
    } else {
      PiecesTail(prefix, text);
      PiecesBegin(prefix[1..], text[1..]);
      assert prefix == [prefix[0]] + prefix[1..] && text == [text[0]] + text[1..];
    }
  }

  lemma FoldKeepsBackslash(m: Machine, c: char)
    ensures m.lower(c) == '\\' <==> c == '\\'
  {
    if IsAscii(m.lower(c)) {
      assert IsAscii(c);
    }
  }

  /** A path prefix is a prefix of whole components, ignoring case. */
  lemma PathPrefixIsComponents(m: Machine, path: string, prefix: string)
    ensures IsPathPrefix(m, path, prefix) <==> Pieces(Folded(m.lower, prefix)) <= Pieces(Folded(m.lower, path))
  {
    var p, t := Folded(m.lower, prefix), Folded(m.lower, path);
    if IsPathPrefix(m, path, prefix) {
      PrefixIsShorter(m, path, prefix);
      var rest := t[|p|..];
      assert t == p + rest;
      if rest != "" {
        FoldKeepsBackslash(m, path[|prefix|]);
      }
      PiecesOfLongerText(p, rest);
    }
    if Pieces(p) <= Pieces(t) {
      PiecesBegin(p, t);
      if |path| > |prefix| {
        FoldKeepsBackslash(m, path[|prefix|]);
      }
    }
  }

  // ----- the drives of a table

  lemma {:induction false} VolumesCameFromRoots(m: Machine, roots: seq<string>, mapping: DriveMapping)
    requires mapping in Volumes(m, roots)
    ensures exists root :: root in roots && VolumeOf(m, root) == Some(mapping)
  {
    hide VolumeOf;
    if mapping in OneVolume(m, roots[0]) {
      assert roots[0] in roots && VolumeOf(m, roots[0]) == Some(mapping);
    } else {
      VolumesCameFromRoots(m, roots[1..], mapping);
      var root :| root in roots[1..] && VolumeOf(m, root) == Some(mapping);
      assert root in roots;
    }
  }

  /** Every volume of a table is on a local drive, under its upper case letter. */
  lemma TableHoldsLocalDrives(m: Machine, mappings: seq<DriveMapping>, mapping: DriveMapping)
    requires IsDriveTable(m, mappings) && mapping in mappings
    ensures IsLocalDrive(m, mapping.drive) && m.upper(mapping.drive) == mapping.drive
    ensures Starts(m, mapping.devicePath, DEVICE)
  {
    assert mapping in multiset(mappings);
    assert mapping in DriveVolumes(m);
    VolumesCameFromRoots(m, m.driveRoots.value, mapping);
    var root :| root in m.driveRoots.value && VolumeOf(m, root) == Some(mapping);
  }

  // ----- the volume a device path is on

  /** A volume that carries the path, and none with a longer device path does. */
  predicate IsLongest(m: Machine, mapping: DriveMapping, path: string) {
    && mapping in DriveVolumes(m) && Carries(m, mapping, path)
    && forall other :: other in DriveVolumes(m) && Carries(m, other, path) ==>
         |other.devicePath| <= |mapping.devicePath|
  }

  lemma {:induction false} FirstCarrier(m: Machine, mappings: seq<DriveMapping>, path: string, i: nat)
    requires i < |mappings| && Carries(m, mappings[i], path)
    requires forall j :: 0 <= j < i ==> !Carries(m, mappings[j], path)
    ensures |mappings[i].devicePath| <= |path|
    ensures MappedDevice(m, mappings, path) == Ok(Rebased(mappings[i], path))
  {
    hide Carries;
    MappedDeviceStep(m, mappings, path);
    if i > 0 {
      FirstCarrier(m, mappings[1..], path, i - 1);
    }
  }

  lemma MappedDeviceStep(m: Machine, mappings: seq<DriveMapping>, path: string)
    requires mappings != []
    ensures Carries(m, mappings[0], path) ==>
              |mappings[0].devicePath| <= |path| && MappedDevice(m, mappings, path) == Ok(Rebased(mappings[0], path))
    ensures !Carries(m, mappings[0], path) ==> MappedDevice(m, mappings, path) == MappedDevice(m, mappings[1..], path)
  {
    if Carries(m, mappings[0], path) {
      PrefixIsShorter(m, path, mappings[0].devicePath);
    }
  }

  lemma {:induction false} NoCarrier(m: Machine, mappings: seq<DriveMapping>, path: string)
    requires forall j :: 0 <= j < |mappings| ==> !Carries(m, mappings[j], path)
    ensures MappedDevice(m, mappings, path) == Failed(PathDeviceUnknown)
  {
    if mappings != [] {
      NoCarrier(m, mappings[1..], path);
    }
  }

  lemma SameMembers(m: Machine, mappings: seq<DriveMapping>, mapping: DriveMapping)
    requires IsDriveTable(m, mappings)
    ensures mapping in mappings <==> mapping in DriveVolumes(m)
  {
    assert mapping in mappings <==> mapping in multiset(mappings);
    assert mapping in DriveVolumes(m) <==> mapping in multiset(DriveVolumes(m));
  }

  /** The first carrier of a table, if there is one. */
  lemma {:induction false} FindCarrier(m: Machine, mappings: seq<DriveMapping>, path: string) returns (i: nat)
    ensures i <= |mappings| && forall j :: 0 <= j < i ==> !Carries(m, mappings[j], path)
    ensures i < |mappings| ==> Carries(m, mappings[i], path)
  {
    i := 0;
    while i < |mappings| && !Carries(m, mappings[i], path)
      invariant i <= |mappings| && forall j :: 0 <= j < i ==> !Carries(m, mappings[j], path)
    {
      i := i + 1;
    }
  }

  /** The answer is on the volume whose device path is the longest that names whole components of
      the path, and there is no answer exactly when no device path does. */
  lemma DevicePicksLongest(m: Machine, mappings: seq<DriveMapping>, path: string)
    requires IsDriveTable(m, mappings)
    ensures match MappedDevice(m, mappings, path)
            case Ok(answer) => exists mapping :: IsLongest(m, mapping, path) && |mapping.devicePath| <= |path|
                                                 && answer == Rebased(mapping, path)
            case Failed(code) => code == PathDeviceUnknown
                                 && forall mapping :: mapping in DriveVolumes(m) ==> !Carries(m, mapping, path)
  {
    hide Carries, DriveVolumes;
    var i := FindCarrier(m, mappings, path);
    if i < |mappings| {
      FirstCarrier(m, mappings, path, i);
      SameMembers(m, mappings, mappings[i]);
      forall other | other in DriveVolumes(m) && Carries(m, other, path)
        ensures |other.devicePath| <= |mappings[i].devicePath|
      {
        SameMembers(m, mappings, other);
        var j :| 0 <= j < |mappings| && mappings[j] == other;
        assert i <= j;
      }
      assert IsLongest(m, mappings[i], path);
    } else {
      NoCarrier(m, mappings, path);
      forall mapping | mapping in DriveVolumes(m)
        ensures !Carries(m, mapping, path)
      {
        SameMembers(m, mappings, mapping);
      }
    }
  }

  function Swapped(s: seq<DriveMapping>, i: nat, j: nat): (t: seq<DriveMapping>)
    requires i < |s| && j < |s|
    ensures |t| == |s|
  {
    s[i := s[j]][j := s[i]]
  }

  lemma SwapKeepsAll(s: seq<DriveMapping>, i: nat, j: nat)
    requires i < |s| && j < |s|
    ensures multiset(Swapped(s, i, j)) == multiset(s)
  {
  }

  lemma SwapKeepsTable(m: Machine, mappings: seq<DriveMapping>, i: nat, j: nat)
    requires IsDriveTable(m, mappings) && i < |mappings| && j < |mappings|
    requires |mappings[i].devicePath| == |mappings[j].devicePath|
    ensures IsDriveTable(m, Swapped(mappings, i, j))
  {
    hide DriveVolumes;
    var t := Swapped(mappings, i, j);
    SwapKeepsAll(mappings, i, j);
    assert forall k :: 0 <= k < |t| ==> |t[k].devicePath| == |mappings[k].devicePath|;
  }

  /** Each of the longest volumes is the answer of some order the system may sort them in. */
  lemma EveryLongestIsPossible(m: Machine, path: string, mapping: DriveMapping) returns (mappings: seq<DriveMapping>)
    requires IsLongest(m, mapping, path)
    ensures IsDriveTable(m, mappings) && |mapping.devicePath| <= |path|
    ensures MappedDevice(m, mappings, path) == Ok(Rebased(mapping, path))
  {
    hide Carries, DriveVolumes;
    var t := Sorted(DriveVolumes(m));
    SameMembers(m, t, mapping);
    var k :| 0 <= k < |t| && t[k] == mapping;
    var i := FindCarrier(m, t, path);
    assert i <= k;
    SameMembers(m, t, t[i]);
    SwapKeepsTable(m, t, i, k);
    mappings := Swapped(t, i, k);
    FirstCarrier(m, mappings, path, i);
  }

  /** The order of the drives matters for a path exactly when two of the longest volumes that carry
      it have different letters. */
  lemma OrderMattersExactly(m: Machine, path: string)
    ensures (forall s, t :: IsDriveTable(m, s) && IsDriveTable(m, t) ==>
               MappedDevice(m, s, path) == MappedDevice(m, t, path))
            <==> (forall a, b :: IsLongest(m, a, path) && IsLongest(m, b, path) ==> a.drive == b.drive)
  {
    hide IsLongest, MappedDevice, IsDriveTable;
    if forall a, b :: IsLongest(m, a, path) && IsLongest(m, b, path) ==> a.drive == b.drive {
      forall s, t | IsDriveTable(m, s) && IsDriveTable(m, t)
        ensures MappedDevice(m, s, path) == MappedDevice(m, t, path)
      {
        SameAnswer(m, s, t, path);
      }
    } else {
      var a, b :| IsLongest(m, a, path) && IsLongest(m, b, path) && a.drive != b.drive;
      var s := EveryLongestIsPossible(m, path, a);
      var t := EveryLongestIsPossible(m, path, b);
      assert Rebased(a, path)[4] == a.drive && Rebased(b, path)[4] == b.drive;
      assert MappedDevice(m, s, path) != MappedDevice(m, t, path);
    }
  }

  lemma SameAnswer(m: Machine, s: seq<DriveMapping>, t: seq<DriveMapping>, path: string)
    requires IsDriveTable(m, s) && IsDriveTable(m, t)
    requires forall a, b :: IsLongest(m, a, path) && IsLongest(m, b, path) ==> a.drive == b.drive
    ensures MappedDevice(m, s, path) == MappedDevice(m, t, path)
  {
    DevicePicksLongest(m, s, path);
    DevicePicksLongest(m, t, path);
    if MappedDevice(m, s, path).Ok? && MappedDevice(m, t, path).Ok? {
      var a :| IsLongest(m, a, path) && |a.devicePath| <= |path| && MappedDevice(m, s, path).value == Rebased(a, path);
      var b :| IsLongest(m, b, path) && |b.devicePath| <= |path| && MappedDevice(m, t, path).value == Rebased(b, path);
      assert |a.devicePath| == |b.devicePath|;
    }
  }

  /** No two drives name one device. */
  predicate DistinctDevices(m: Machine) {
    forall a, b :: a in DriveVolumes(m) && b in DriveVolumes(m) ==>
      (Folded(m.lower, a.devicePath) == Folded(m.lower, b.devicePath) ==> a == b)
  }

  /** On a machine whose drives name distinct devices, a path has one longest volume. */
  lemma DistinctDevicesHaveOneLongest(m: Machine, path: string, a: DriveMapping, b: DriveMapping)
    requires DistinctDevices(m) && IsLongest(m, a, path) && IsLongest(m, b, path)
    ensures a == b
  {
    assert |a.devicePath| == |b.devicePath|;
    assert Folded(m.lower, a.devicePath) <= Folded(m.lower, path);
    assert Folded(m.lower, b.devicePath) <= Folded(m.lower, path);
    assert Folded(m.lower, a.devicePath) == Folded(m.lower, path)[..|a.devicePath|];
    assert Folded(m.lower, b.devicePath) == Folded(m.lower, path)[..|b.devicePath|];
  }

  lemma MappedByDevice(m: Machine, s: seq<DriveMapping>, t: seq<DriveMapping>, path: string)
    requires forall p :: MappedDevice(m, s, p) == MappedDevice(m, t, p)
    ensures Mapped(m, s, path) == Mapped(m, t, path)
  {
    hide Rejected, IsAbsolutePath, Starts, MappedVolume, MappedSystemRoot, MappedDevice, IsPathPrefix;
    assert MappedDevice(m, s, path) == MappedDevice(m, t, path);
    if IsPathPrefix(m, path, GLOBAL_ROOT) {
      PathPrefixIsShorter(m, path, GLOBAL_ROOT);
      var device := path[|GLOBAL_ROOT|..];
      assert MappedDevice(m, s, device) == MappedDevice(m, t, device);
    }
  }

  /** On such a machine every path has one answer, whatever order the drives are listed in. */
  lemma DistinctDevicesHaveOneAnswer(m: Machine, path: string, r: Expected<string>, again: Expected<string>)
    requires DistinctDevices(m) && MapsTo(m, path, r) && MapsTo(m, path, again)
    ensures r == again
  {
    hide Mapped, MappedDevice, IsLongest, IsDriveTable, DistinctDevices;
    var s :| IsDriveTable(m, s) && r == Mapped(m, s, path);
    var t :| IsDriveTable(m, t) && again == Mapped(m, t, path);
    forall p
      ensures MappedDevice(m, s, p) == MappedDevice(m, t, p)
    {
      forall a, b | IsLongest(m, a, p) && IsLongest(m, b, p)
        ensures a.drive == b.drive
      {
        DistinctDevicesHaveOneLongest(m, p, a, b);
      }
      SameAnswer(m, s, t, p);
    }
    MappedByDevice(m, s, t, path);
  }

  // ----- the form of an answer

  /** The form the view is keyed by: an absolute path of a local drive. */
  predicate IsViewForm(m: Machine, answer: string) {
    && |answer| >= 7 && answer[..4] == NAMESPACE
    && IsLocalDrive(m, answer[4]) && answer[5] == ':' && answer[6] == '\\'
  }

  lemma OnDriveIsViewForm(m: Machine, drive: char, rest: string)
    requires IsLocalDrive(m, drive) && rest != "" && rest[0] == '\\'
    ensures IsViewForm(m, OnDrive(drive, rest)) && OnDrive(drive, rest)[4] == drive
  {
  }

  lemma UpperIsLocal(m: Machine, drive: char)
    ensures IsLocalDrive(m, m.upper(drive)) == IsLocalDrive(m, drive)
  {
  }

  lemma {:induction false} FirstMountIsLocal(m: Machine, mountPoints: seq<string>)
    requires FirstMount(m, mountPoints).Some?
    ensures var drive := FirstMount(m, mountPoints).value;
            IsLocalDrive(m, drive) && m.upper(drive) == drive
  {
    if IsDriveMount(m, mountPoints[0]) {
      UpperIsLocal(m, mountPoints[0][0]);
    } else {
      FirstMountIsLocal(m, mountPoints[1..]);
    }
  }

  lemma DeviceAnswerForm(m: Machine, mappings: seq<DriveMapping>, path: string)
    requires IsDriveTable(m, mappings) && MappedDevice(m, mappings, path).Ok?
    ensures var answer := MappedDevice(m, mappings, path).value;
            IsViewForm(m, answer) && m.upper(answer[4]) == answer[4]
  {
    hide DriveVolumes, MappedDevice;
    DevicePicksLongest(m, mappings, path);
    var mapping :| IsLongest(m, mapping, path) && |mapping.devicePath| <= |path|
                   && MappedDevice(m, mappings, path).value == Rebased(mapping, path);
    SameMembers(m, mappings, mapping);
    TableHoldsLocalDrives(m, mappings, mapping);
    var rest := if |path| > |mapping.devicePath| then path[|mapping.devicePath|..] else "\\";
    OnDriveIsViewForm(m, mapping.drive, rest);
  }

  lemma VolumeAnswerForm(m: Machine, path: string)
    requires Starts(m, path, VOLUME) && MappedVolume(m, path).Ok?
    ensures var answer := MappedVolume(m, path).value;
            IsViewForm(m, answer) && m.upper(answer[4]) == answer[4]
  {
    PrefixIsShorter(m, path, VOLUME);
    var closeBrace := FirstFrom(path, '}', |VOLUME|);
    var mountPoints := m.volumeMounts("\\\\?\\" + path[4..closeBrace + 2]).value;
    FirstMountIsLocal(m, mountPoints);
    OnDriveIsViewForm(m, FirstMount(m, mountPoints).value, path[closeBrace + 1..]);
  }

  lemma SystemRootAnswerForm(m: Machine, path: string)
    requires IsPathPrefix(m, path, SYSTEM_ROOT) && MappedSystemRoot(m, path).Ok?
    ensures IsViewForm(m, MappedSystemRoot(m, path).value)
  {
    PrefixIsShorter(m, path, SYSTEM_ROOT);
  }

  lemma AbsoluteAnswerForm(m: Machine, path: string)
    requires IsAbsolutePath(m, path) && IsLocalDrive(m, path[4])
    ensures IsViewForm(m, path[4 := m.upper(path[4])])
  {
    StartsNamespace(m, path);
    UpperIsLocal(m, path[4]);
    assert path[4 := m.upper(path[4])][..4] == path[..4];
  }

  /** Every answer is an absolute path of a local drive of the machine. */
  lemma AnswersHaveViewForm(m: Machine, mappings: seq<DriveMapping>, path: string)
    requires IsDriveTable(m, mappings) && Mapped(m, mappings, path).Ok?
    ensures IsViewForm(m, Mapped(m, mappings, path).value)
  {
    hide IsViewForm, MappedDevice, MappedVolume, MappedSystemRoot, Starts, IsAbsolutePath, Rejected, IsLocalDrive;
    if IsAbsolutePath(m, path) {
      AbsoluteIsLong(m, path);
      UpperIsLocal(m, path[4]);
      AbsoluteAnswerForm(m, path);
    } else if Starts(m, path, VOLUME) {
      VolumeAnswerForm(m, path);
    } else if IsPathPrefix(m, path, SYSTEM_ROOT) {
      SystemRootAnswerForm(m, path);
    } else if IsPathPrefix(m, path, GLOBAL_ROOT) {
      PathPrefixIsShorter(m, path, GLOBAL_ROOT);
      DeviceAnswerForm(m, mappings, path[|GLOBAL_ROOT|..]);
    } else {
      DeviceAnswerForm(m, mappings, path);
    }
  }

  // ----- mapping an answer again

  lemma DriveIsNotRejected(m: Machine, answer: string)
    requires IsViewForm(m, answer)
    ensures !Rejected(m, answer)
  {
    assert answer[1] == '?' && answer[5] == ':' by {
      assert answer[..4][1] == '?';
    }
    forall i | 0 <= i < |REJECTED_NAMESPACES|
      ensures !Starts(m, answer, REJECTED_NAMESPACES[i])
    {
      if i == 0 || i == 5 || i == 6 {
        DiffersAt(m, answer, REJECTED_NAMESPACES[i], 5);
      } else {
        DiffersAt(m, answer, REJECTED_NAMESPACES[i], 1);
      }
    }
  }

  /** An answer is mapped to itself, with its drive letter in upper case. */
  lemma ViewFormMapsToItself(m: Machine, mappings: seq<DriveMapping>, answer: string)
    requires IsViewForm(m, answer)
    ensures Mapped(m, mappings, answer) == Ok(answer[4 := m.upper(answer[4])])
  {
    assert answer[0] == answer[..4][0] == '\\';
    DriveIsNotRejected(m, answer);
    assert Starts(m, answer, NAMESPACE) by {
      assert Folded(m.lower, answer)[..4] == Folded(m.lower, answer[..4]);
    }
    UpperIsLocal(m, answer[4]);
  }

  function WithUpperDrive(m: Machine, path: string): string {
    if |path| > 4 then path[4 := m.upper(path[4])] else path
  }

  /** Whatever the drive tables are: mapping an answer once more succeeds and changes at most the
      case of its drive letter, and from then on nothing changes any more. */
  lemma MappingSettles(m: Machine, path: string, answer: string, again: Expected<string>)
    requires MapsTo(m, path, Ok(answer)) && MapsTo(m, answer, again)
    ensures again == Ok(WithUpperDrive(m, answer))
    ensures forall third :: MapsTo(m, WithUpperDrive(m, answer), third) ==> third == again
  {
    hide Mapped, IsViewForm, IsDriveTable;
    var s :| IsDriveTable(m, s) && Ok(answer) == Mapped(m, s, path);
    AnswersHaveViewForm(m, s, path);
    var t :| IsDriveTable(m, t) && again == Mapped(m, t, answer);
    ViewFormMapsToItself(m, t, answer);
    AnswersHaveViewForm(m, t, answer);
    ViewFormIsLong(m, answer);
    assert again.value == WithUpperDrive(m, answer);
    forall third | MapsTo(m, again.value, third)
      ensures third == again
    {
      var u :| IsDriveTable(m, u) && third == Mapped(m, u, again.value);
      ViewFormMapsToItself(m, u, again.value);
      assert again.value[4 := m.upper(again.value[4])] == again.value;
    }
  }

  // ----- the answers that are fixed

  lemma SystemRootIsNoOtherForm(m: Machine, path: string)
    requires Starts(m, path, SYSTEM_ROOT)
    ensures !IsAbsolutePath(m, path) && !Starts(m, path, VOLUME)
  {
    StartsAt(m, path, SYSTEM_ROOT, 1);
    DiffersAt(m, path, NAMESPACE, 1);
    DiffersAt(m, path, VOLUME, 1);
  }

  /** The system spells the drive of its own directory in lower case. */
  predicate SpellsDriveInLowerCase(m: Machine) {
    m.windowsDirectory.Some? && m.windowsDirectory.value != ""
    && m.upper(m.windowsDirectory.value[0]) != m.windowsDirectory.value[0]
  }

  lemma {:induction false} TrimmedFirst(path: string)
    ensures path != "" ==> Trimmed(path) != "" && Trimmed(path)[0] == path[0]
    ensures path == "" ==> Trimmed(path) == ""
  {
    if |path| > 1 && path[|path| - 1] == '\\' {
      TrimmedFirst(path[..|path| - 1]);
    }
  }

  lemma SystemRootLetter(m: Machine, path: string)
    requires IsPathPrefix(m, path, SYSTEM_ROOT) && MappedSystemRoot(m, path).Ok?
    ensures |MappedSystemRoot(m, path).value| >= 7
    ensures var letter := MappedSystemRoot(m, path).value[4];
            m.upper(letter) == letter <==> !SpellsDriveInLowerCase(m)
  {
    hide Trimmed;
    PrefixIsShorter(m, path, SYSTEM_ROOT);
    TrimmedFirst(m.windowsDirectory.value);
  }

  /** Every answer has its drive letter in upper case, but for the one the system spells itself. */
  lemma AnswerLetter(m: Machine, mappings: seq<DriveMapping>, path: string)
    requires IsDriveTable(m, mappings) && Mapped(m, mappings, path).Ok?
    ensures |Mapped(m, mappings, path).value| >= 7
    ensures var letter := Mapped(m, mappings, path).value[4];
            m.upper(letter) == letter <==> !(IsPathPrefix(m, path, SYSTEM_ROOT) && SpellsDriveInLowerCase(m))
  {
    AnswersHaveViewForm(m, mappings, path);
    ViewFormIsLong(m, Mapped(m, mappings, path).value);
    if IsPathPrefix(m, path, SYSTEM_ROOT) {
      SystemRootIsNoOtherForm(m, path);
      SystemRootLetter(m, path);
    } else {
      OtherLetter(m, mappings, path);
    }
  }

  lemma OtherLetter(m: Machine, mappings: seq<DriveMapping>, path: string)
    requires IsDriveTable(m, mappings) && Mapped(m, mappings, path).Ok? && !IsPathPrefix(m, path, SYSTEM_ROOT)
    ensures |Mapped(m, mappings, path).value| >= 7
    ensures m.upper(Mapped(m, mappings, path).value[4]) == Mapped(m, mappings, path).value[4]
  {
    AnswersHaveViewForm(m, mappings, path);
    ViewFormIsLong(m, Mapped(m, mappings, path).value);
    hide IsViewForm, MappedDevice, MappedVolume, Starts, IsAbsolutePath, Rejected, IsLocalDrive;
    if IsAbsolutePath(m, path) {
      AbsoluteIsLong(m, path);
    } else if Starts(m, path, VOLUME) {
      VolumeAnswerForm(m, path);
    } else if IsPathPrefix(m, path, GLOBAL_ROOT) {
      PathPrefixIsShorter(m, path, GLOBAL_ROOT);
      DeviceAnswerForm(m, mappings, path[|GLOBAL_ROOT|..]);
    } else {
      DeviceAnswerForm(m, mappings, path);
    }
  }

  /** An answer is mapped to itself exactly unless it was asked for below the Windows directory on a
      machine that spells the drive of that directory in lower case. */
  lemma AnswerIsFixedExactly(m: Machine, mappings: seq<DriveMapping>, again: seq<DriveMapping>, path: string)
    requires IsDriveTable(m, mappings) && Mapped(m, mappings, path).Ok?
    ensures var answer := Mapped(m, mappings, path).value;
            (Mapped(m, again, answer) == Ok(answer)
             <==> !(IsPathPrefix(m, path, SYSTEM_ROOT) && SpellsDriveInLowerCase(m)))
  {
    hide Mapped, IsViewForm, IsPathPrefix, SpellsDriveInLowerCase;
    var answer := Mapped(m, mappings, path).value;
    AnswersHaveViewForm(m, mappings, path);
    AnswerLetter(m, mappings, path);
    ViewFormMapsToItself(m, again, answer);
    assert answer[4 := m.upper(answer[4])][4] == m.upper(answer[4]);
    assert m.upper(answer[4]) == answer[4] ==> answer[4 := m.upper(answer[4])] == answer;
  }

  /** A machine whose Windows directory is on a drive it spells `c:`. */
  function LowerCaseDrive(): Machine {
    AsciiLowerFolds();
    AsciiUpperRaises();
    Machine(AsciiLower, AsciiUpper, _ => Fixed, None, _ => None, _ => None, Some("c:\\Windows"))
  }

  const LOADER := "\\SystemRoot\\a"
  const LOADED := "\\??\\c:\\Windows\\a"

  lemma LoaderIsSystemRoot(m: Machine, mappings: seq<DriveMapping>)
    ensures IsPathPrefix(m, LOADER, SYSTEM_ROOT)
    ensures Mapped(m, mappings, LOADER) == MappedSystemRoot(m, LOADER)
  {
    assert Starts(m, LOADER, SYSTEM_ROOT) by {
      assert LOADER == SYSTEM_ROOT + "\\a";
      FoldedConcat(m.lower, SYSTEM_ROOT, "\\a");
    }
    SystemRootIsNoOtherForm(m, LOADER);
    SystemRootIsNotRejected(m, LOADER);
    hide Starts, Rejected, IsAbsolutePath, MappedSystemRoot;
  }

  lemma SystemRootIsNotRejected(m: Machine, path: string)
    requires Starts(m, path, SYSTEM_ROOT)
    ensures !Rejected(m, path)
  {
    StartsAt(m, path, SYSTEM_ROOT, 1);
    hide Starts;
    forall i | 0 <= i < |REJECTED_NAMESPACES|
      ensures !Starts(m, path, REJECTED_NAMESPACES[i])
    {
      DiffersAt(m, path, REJECTED_NAMESPACES[i], 1);
    }
  }

  lemma LoaderIsLoaded()
    requires IsPathPrefix(LowerCaseDrive(), LOADER, SYSTEM_ROOT)
    ensures MappedSystemRoot(LowerCaseDrive(), LOADER) == Ok(LOADED)
  {
    LoadedText();
    hide Starts, IsPathPrefix, Trimmed;
    assert IsLocalDrive(LowerCaseDrive(), 'c');
  }

  lemma LoadedText()
    ensures Trimmed("c:\\Windows") == "c:\\Windows" && LOADER[|SYSTEM_ROOT|..] == "\\a"
    ensures NAMESPACE + "c:\\Windows" + "\\a" == LOADED
  {
  }

  /** On that machine a path of the loader is mapped to a path that is mapped to another one. */
  lemma LoaderPathMoves(mappings: seq<DriveMapping>)
    ensures Mapped(LowerCaseDrive(), mappings, LOADER) == Ok(LOADED)
    ensures Mapped(LowerCaseDrive(), mappings, LOADED) == Ok(LOADED[4 := 'C'])
  {
    LoaderIsSystemRoot(LowerCaseDrive(), mappings);
    hide Starts, Rejected, IsAbsolutePath, MappedSystemRoot, Mapped, IsPathPrefix;
    LoaderIsLoaded();
    assert LOADED[..4] == NAMESPACE;
    assert IsViewForm(LowerCaseDrive(), LOADED);
    ViewFormMapsToItself(LowerCaseDrive(), mappings, LOADED);
  }

  lemma ViewFormIsLong(m: Machine, answer: string)
    requires IsViewForm(m, answer)
    ensures |answer| >= 7
  {
  }

  // ----- the global root

  /** The character that tells two of the forms apart. */
  lemma DeviceIsNoOtherForm(m: Machine, path: string)
    requires Starts(m, path, DEVICE)
    ensures path != "" && path[0] == '\\'
    ensures !IsAbsolutePath(m, path) && !Starts(m, path, VOLUME)
    ensures !IsPathPrefix(m, path, SYSTEM_ROOT) && !IsPathPrefix(m, path, GLOBAL_ROOT)
  {
    StartsExactlyAt(m, path, DEVICE, 0);
    StartsAt(m, path, DEVICE, 1);
    DiffersAt(m, path, NAMESPACE, 1);
    DiffersAt(m, path, VOLUME, 1);
    DiffersAt(m, path, SYSTEM_ROOT, 1);
    DiffersAt(m, path, GLOBAL_ROOT, 1);
  }

  lemma GlobalRootIsNotRejected(m: Machine, path: string)
    requires Starts(m, path, GLOBAL_ROOT)
    ensures !Rejected(m, path)
  {
    StartsAt(m, path, GLOBAL_ROOT, 1);
    StartsAt(m, path, GLOBAL_ROOT, 4);
    hide Starts;
    forall i | 0 <= i < |REJECTED_NAMESPACES|
      ensures !Starts(m, path, REJECTED_NAMESPACES[i])
    {
      DiffersAt(m, path, REJECTED_NAMESPACES[i], if i == 0 || i == 5 || i == 6 then 4 else 1);
    }
  }

  lemma GlobalRootIsNoOtherForm(m: Machine, path: string)
    requires Starts(m, path, GLOBAL_ROOT)
    ensures path != "" && path[0] == '\\'
    ensures !Rejected(m, path) && !IsAbsolutePath(m, path) && !Starts(m, path, VOLUME)
    ensures !IsPathPrefix(m, path, SYSTEM_ROOT)
  {
    StartsExactlyAt(m, path, GLOBAL_ROOT, 0);
    StartsAt(m, path, GLOBAL_ROOT, 1);
    StartsAt(m, path, GLOBAL_ROOT, 4);
    StartsAt(m, path, GLOBAL_ROOT, 5);
    DiffersAt(m, path, VOLUME, 4);
    DiffersAt(m, path, SYSTEM_ROOT, 1);
    GlobalRootIsNotRejected(m, path);
    hide Starts, Rejected;
  }

  /** A device path below the global root names what the bare device path names, exactly unless the
      bare path is in a rejected namespace, which the namespace in front of it hides. */
  lemma GlobalRootAgreesExactly(m: Machine, mappings: seq<DriveMapping>, root: string, device: string)
    requires Folded(m.lower, root) == Folded(m.lower, GLOBAL_ROOT) && Starts(m, device, DEVICE)
    ensures Mapped(m, mappings, root + device) == MappedDevice(m, mappings, device)
    ensures Mapped(m, mappings, root + device) == Mapped(m, mappings, device) <==> !Rejected(m, device)
  {
    var path := root + device;
    FoldedConcat(m.lower, root, device);
    assert |root| == |GLOBAL_ROOT|;
    assert Starts(m, path, GLOBAL_ROOT);
    GlobalRootIsNoOtherForm(m, path);
    DeviceIsNoOtherForm(m, device);
    assert path[|GLOBAL_ROOT|..] == device && path[|GLOBAL_ROOT|] == device[0];
    hide Starts, Rejected, IsAbsolutePath, MappedDevice;
    DeviceFailure(m, mappings, device);
  }

  lemma {:induction false} DeviceFailure(m: Machine, mappings: seq<DriveMapping>, path: string)
    ensures MappedDevice(m, mappings, path) != Failed(PathNotInViewNamespace)
  {
    hide Carries;
    if mappings != [] {
      MappedDeviceStep(m, mappings, path);
      DeviceFailure(m, mappings[1..], path);
    }
  }

  /** A share of the network is refused by its device path, but not by the same path below the
      global root. */
  lemma GlobalRootHidesNamespace(m: Machine, mappings: seq<DriveMapping>)
    ensures Mapped(m, mappings, "\\Device\\Mup\\share") == Failed(PathNotInViewNamespace)
    ensures Mapped(m, mappings, GLOBAL_ROOT + "\\Device\\Mup\\share") != Failed(PathNotInViewNamespace)
  {
    var share := "\\Device\\Mup\\share";
    assert Starts(m, share, REJECTED_NAMESPACES[1]) by {
      assert share == REJECTED_NAMESPACES[1] + "share";
      FoldedConcat(m.lower, REJECTED_NAMESPACES[1], "share");
    }
    assert Starts(m, share, DEVICE) by {
      assert share == DEVICE + "Mup\\share";
      FoldedConcat(m.lower, DEVICE, "Mup\\share");
    }
    hide Starts, MappedDevice;
    GlobalRootAgreesExactly(m, mappings, GLOBAL_ROOT, share);
    DeviceFailure(m, mappings, share);
  }

  // ----- a machine on which the order of the drives matters

  const TWIN := "\\Device\\V"

  /** Two drives that name one volume, as two mounts of it do. */
  function TwinDrives(): Machine {
    AsciiLowerFolds();
    AsciiUpperRaises();
    Machine(AsciiLower, AsciiUpper, _ => Fixed, Some(["C:\\", "D:\\"]), _ => Some(TWIN), _ => None, None)
  }

  lemma TwinIsDevice(m: Machine)
    ensures Trimmed(TWIN) == TWIN && Starts(m, TWIN, DEVICE)
  {
    assert TWIN == DEVICE + "V";
    FoldedConcat(m.lower, DEVICE, "V");
  }

  lemma TwinVolume(root: string)
    requires root == "C:\\" || root == "D:\\"
    ensures VolumeOf(TwinDrives(), root) == Some(DriveMapping(root[0], TWIN))
  {
    TwinIsDevice(TwinDrives());
    hide Starts, Trimmed;
  }

  lemma VolumesOfTwo(m: Machine, a: string, b: string, x: DriveMapping, y: DriveMapping)
    requires VolumeOf(m, a) == Some(x) && VolumeOf(m, b) == Some(y)
    ensures Volumes(m, [a, b]) == [x, y]
  {
    hide VolumeOf;
    assert [a, b][1..] == [b] && [b][1..] == [];
    assert Volumes(m, [b]) == [y] + [];
  }

  lemma TwinVolumes()
    ensures DriveVolumes(TwinDrives()) == [DriveMapping('C', TWIN), DriveMapping('D', TWIN)]
  {
    hide VolumeOf, Volumes;
    TwinVolume("C:\\");
    TwinVolume("D:\\");
    VolumesOfTwo(TwinDrives(), "C:\\", "D:\\", DriveMapping('C', TWIN), DriveMapping('D', TWIN));
  }

  lemma TwinsMapEitherWay() returns (s: seq<DriveMapping>, t: seq<DriveMapping>)
    ensures IsDriveTable(TwinDrives(), s) && IsDriveTable(TwinDrives(), t)
    ensures MappedDevice(TwinDrives(), s, TWIN) == Ok(OnDrive('C', "\\"))
    ensures MappedDevice(TwinDrives(), t, TWIN) == Ok(OnDrive('D', "\\"))
  {
    var m := TwinDrives();
    TwinVolumes();
    hide TwinDrives, DriveVolumes;
    assert IsLongest(m, DriveMapping('C', TWIN), TWIN);
    assert IsLongest(m, DriveMapping('D', TWIN), TWIN);
    s := EveryLongestIsPossible(m, TWIN, DriveMapping('C', TWIN));
    t := EveryLongestIsPossible(m, TWIN, DriveMapping('D', TWIN));
  }
}
