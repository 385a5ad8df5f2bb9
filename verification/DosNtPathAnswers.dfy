/** The answer of the mapping of `common/details/MappingAsDosNtPathDetail.hpp` for each form of a
    path, in terms of what the system answers about its drives. */
module DosNtPathAnswers {
  import opened Outcomes
  import opened WideText
  import opened DosNtPath
  import opened DosNtPathProperties

  // ----- the drives of a machine

  /** A drive the view has a key for, by its upper case letter. */
  predicate Local(m: Machine, letter: char) {
    'A' <= letter <= 'Z' && IsLocalType(m.driveType([letter] + ":\\"))
  }

  predicate IsLocalType(t: DriveType) {
    t == Removable || t == Fixed || t == CdRom || t == RamDisk
  }

  predicate NamesDrive(m: Machine, root: string, letter: char) {
    |root| >= 2 && m.upper(root[0]) == letter && root[1] == ':'
  }

  /** A path without the backslashes at its end, of which the first character of a text stays. */
  predicate IsCut(text: string, cut: string) {
    && cut <= text && (text != "" ==> cut != "")
    && (|cut| > 1 ==> cut[|cut| - 1] != '\\')
    && (forall i :: |cut| <= i < |text| ==> text[i] == '\\')
  }

  predicate IsListed(m: Machine, letter: char) {
    m.driveRoots.Some?
    && exists i :: 0 <= i < |m.driveRoots.value| && NamesDrive(m, m.driveRoots.value[i], letter)
  }

  /** The system lists the drive, it is local, and the target of its name is the device. */
  predicate IsOn(m: Machine, letter: char, device: string) {
    && Local(m, letter)
    && m.deviceTarget([letter] + ":").Some? && IsCut(m.deviceTarget([letter] + ":").value, device)
    && Starts(m, device, "\\Device\\")
  }

  predicate HasVolume(m: Machine, letter: char, device: string) {
    IsListed(m, letter) && IsOn(m, letter, device)
  }

  lemma {:induction false} TrimmedIsCut(text: string)
    ensures IsCut(text, Trimmed(text))
  {
    if |text| > 1 && text[|text| - 1] == '\\' {
      TrimmedIsCut(text[..|text| - 1]);
    }
  }

  lemma TrimmedExactly(text: string, cut: string)
    ensures Trimmed(text) == cut <==> IsCut(text, cut)
  {
    var t := Trimmed(text);
    TrimmedIsCut(text);
    if IsCut(text, cut) {
      assert forall i :: 0 <= i < |t| ==> t[i] == text[i];
      assert forall i :: 0 <= i < |cut| ==> cut[i] == text[i];
      assert |t| == |cut|;
      assert t == text[..|t|] && cut == text[..|cut|];
    }
  }

  lemma LocalExactly(m: Machine, letter: char)
    ensures m.upper(letter) == letter ==> (IsLocalDrive(m, letter) <==> Local(m, letter))
    ensures IsLocalDrive(m, letter) <==> Local(m, m.upper(letter))
    ensures Local(m, letter) ==> m.upper(letter) == letter
  {
  }

  /** One listed root contributes a volume exactly when it names a drive that is on the device. */
  lemma VolumeExactly(m: Machine, root: string, letter: char, device: string)
    ensures VolumeOf(m, root) == Some(DriveMapping(letter, device))
       <==> NamesDrive(m, root, letter) && IsOn(m, letter, device)
  {
    hide Trimmed, Starts, IsCut;
    if |root| >= 2 && m.upper(root[0]) == letter {
      LocalExactly(m, letter);
      assert m.upper(letter) == letter;
      if m.deviceTarget([letter] + ":").Some? {
        TrimmedExactly(m.deviceTarget([letter] + ":").value, device);
      }
    }
  }

  lemma {:induction false} VolumesExactly(m: Machine, roots: seq<string>, mapping: DriveMapping)
    ensures mapping in Volumes(m, roots) <==> exists i :: 0 <= i < |roots| && VolumeOf(m, roots[i]) == Some(mapping)
  {
    hide VolumeOf;
    if roots != [] {
      VolumesExactly(m, roots[1..], mapping);
      assert mapping in Volumes(m, roots) <==> mapping in OneVolume(m, roots[0]) || mapping in Volumes(m, roots[1..]);
      assert mapping in OneVolume(m, roots[0]) <==> VolumeOf(m, roots[0]) == Some(mapping);
      assert forall i :: 0 < i < |roots| ==> roots[i] == roots[1..][i - 1];
    }
  }

  lemma HasVolumeExactly(m: Machine, mapping: DriveMapping)
    ensures mapping in DriveVolumes(m) <==> HasVolume(m, mapping.drive, mapping.devicePath)
  {
    hide VolumeOf, Volumes, NamesDrive, IsOn;
    if m.driveRoots.Some? {
      var roots := m.driveRoots.value;
      VolumesExactly(m, roots, mapping);
      forall i | 0 <= i < |roots|
        ensures VolumeOf(m, roots[i]) == Some(mapping)
           <==> NamesDrive(m, roots[i], mapping.drive) && IsOn(m, mapping.drive, mapping.devicePath)
      {
        VolumeExactly(m, roots[i], mapping.drive, mapping.devicePath);
      }
    }
  }

  /** A drive table holds exactly the drives the system lists that are local, each with the target of
      its own name, as far as it is a device. */
  lemma DriveTableExactly(m: Machine, mappings: seq<DriveMapping>, mapping: DriveMapping)
    requires IsDriveTable(m, mappings)
    ensures mapping in mappings <==> HasVolume(m, mapping.drive, mapping.devicePath)
  {
    hide DriveVolumes, HasVolume;
    SameMembers(m, mappings, mapping);
    HasVolumeExactly(m, mapping);
  }

  lemma OneDevice(m: Machine, letter: char, a: string, b: string)
    requires HasVolume(m, letter, a) && HasVolume(m, letter, b)
    ensures a == b
  {
    hide IsCut, Starts, IsListed, Local;
    TrimmedExactly(m.deviceTarget([letter] + ":").value, a);
    TrimmedExactly(m.deviceTarget([letter] + ":").value, b);
  }

  // ----- device paths

  /** No other drive is on a device that carries the path and is as long. */
  ghost predicate IsAlone(m: Machine, path: string, letter: char, device: string) {
    forall l, d :: HasVolume(m, l, d) && IsPathPrefix(m, path, d) && |d| >= |device| ==> l == letter
  }

  function Remainder(rest: string): string {
    if rest == "" then "\\" else rest
  }

  lemma CarriedBy(m: Machine, head: string, rest: string, device: string)
    requires Folded(m.lower, head) == Folded(m.lower, device) && (rest == "" || rest[0] == '\\')
    ensures IsPathPrefix(m, head + rest, device) && |head| == |device|
  {
    FoldedConcat(m.lower, head, rest);
    assert |Folded(m.lower, head)| == |Folded(m.lower, device)|;
    assert rest != "" ==> (head + rest)[|device|] == rest[0];
  }

  lemma DeviceAnswer(m: Machine, mappings: seq<DriveMapping>, letter: char, device: string, head: string, rest: string)
    requires IsDriveTable(m, mappings) && HasVolume(m, letter, device)
    requires Folded(m.lower, head) == Folded(m.lower, device) && (rest == "" || rest[0] == '\\')
    requires IsAlone(m, head + rest, letter, device)
    ensures MappedDevice(m, mappings, head + rest) == Ok("\\??\\" + [letter] + ":" + Remainder(rest))
  {
    hide MappedDevice, HasVolume, DriveVolumes, IsDriveTable, IsPathPrefix;
    var path, mine := head + rest, DriveMapping(letter, device);
    CarriedBy(m, head, rest, device);
    HasVolumeExactly(m, mine);
    DevicePicksLongest(m, mappings, path);
    assert Carries(m, mine, path);
    var mapping :| IsLongest(m, mapping, path) && |mapping.devicePath| <= |path|
                   && MappedDevice(m, mappings, path) == Ok(Rebased(mapping, path));
    HasVolumeExactly(m, mapping);
    OneDevice(m, letter, device, mapping.devicePath);
    assert mapping == mine;
    assert path[|device|..] == rest;
    assert NAMESPACE == "\\??\\";
  }

  /** The namespaces of other machines and of pipes and mailslots. */
  predicate InOtherNamespace(m: Machine, path: string) {
    || Starts(m, path, "\\??\\UNC\\") || Starts(m, path, "\\Device\\Mup\\")
    || Starts(m, path, "\\Device\\LanmanRedirector\\") || Starts(m, path, "\\Device\\NamedPipe\\")
    || Starts(m, path, "\\Device\\Mailslot\\") || Starts(m, path, "\\??\\PIPE\\")
    || Starts(m, path, "\\??\\MAILSLOT\\")
  }

  lemma RejectedExactly(m: Machine, path: string)
    ensures Rejected(m, path) <==> InOtherNamespace(m, path)
  {
    hide Starts;
    if InOtherNamespace(m, path) {
      assert REJECTED_NAMESPACES[0] == "\\??\\UNC\\" && REJECTED_NAMESPACES[1] == "\\Device\\Mup\\";
      assert REJECTED_NAMESPACES[2] == "\\Device\\LanmanRedirector\\" && REJECTED_NAMESPACES[3] == "\\Device\\NamedPipe\\";
      assert REJECTED_NAMESPACES[4] == "\\Device\\Mailslot\\" && REJECTED_NAMESPACES[5] == "\\??\\PIPE\\";
      assert REJECTED_NAMESPACES[6] == "\\??\\MAILSLOT\\";
    }
  }

  lemma DeviceIsMapped(m: Machine, mappings: seq<DriveMapping>, path: string)
    requires Starts(m, path, "\\Device\\") && !InOtherNamespace(m, path)
    ensures Mapped(m, mappings, path) == MappedDevice(m, mappings, path)
  {
    RejectedExactly(m, path);
    DeviceIsNoOtherForm(m, path);
    hide Starts, Rejected, IsAbsolutePath, MappedDevice, IsPathPrefix, InOtherNamespace;
  }

  lemma StartsLonger(m: Machine, head: string, rest: string, device: string, prefix: string)
    requires Folded(m.lower, head) == Folded(m.lower, device) && Starts(m, device, prefix)
    ensures Starts(m, head + rest, prefix)
  {
    FoldedConcat(m.lower, head, rest);
    PrefixIsShorter(m, device, prefix);
    assert Folded(m.lower, head + rest)[..|prefix|] == Folded(m.lower, device)[..|prefix|];
  }

  /** A path on the device of a drive, in any case, has one answer: the drive and the rest of the path.
      The namespaces of other machines are not mapped, and a longer device or another drive on the same
      one takes precedence. */
  lemma DevicePathIsOnItsDrive(m: Machine, letter: char, device: string, head: string, rest: string, r: Expected<string>)
    requires HasVolume(m, letter, device)
    requires Folded(m.lower, head) == Folded(m.lower, device) && (rest == "" || rest[0] == '\\')
    requires IsAlone(m, head + rest, letter, device) && !InOtherNamespace(m, head + rest)
    requires MapsTo(m, head + rest, r)
    ensures r == Ok("\\??\\" + [letter] + ":" + Remainder(rest))
  {
    StartsLonger(m, head, rest, device, "\\Device\\");
    hide Mapped, MappedDevice, HasVolume, IsAlone, InOtherNamespace, IsDriveTable, Starts;
    var mappings :| IsDriveTable(m, mappings) && r == Mapped(m, mappings, head + rest);
    DeviceIsMapped(m, mappings, head + rest);
    DeviceAnswer(m, mappings, letter, device, head, rest);
  }

  /** Below the global root no namespace is refused. */
  lemma GlobalRootPathIsOnItsDrive(
      m: Machine, letter: char, device: string, root: string, head: string, rest: string, r: Expected<string>)
    requires HasVolume(m, letter, device)
    requires Folded(m.lower, root) == Folded(m.lower, "\\??\\GLOBALROOT")
    requires Folded(m.lower, head) == Folded(m.lower, device) && (rest == "" || rest[0] == '\\')
    requires IsAlone(m, head + rest, letter, device)
    requires MapsTo(m, root + (head + rest), r)
    ensures r == Ok("\\??\\" + [letter] + ":" + Remainder(rest))
  {
    StartsLonger(m, head, rest, device, "\\Device\\");
    hide Mapped, MappedDevice, HasVolume, IsAlone, IsDriveTable, Starts;
    var mappings :| IsDriveTable(m, mappings) && r == Mapped(m, mappings, root + (head + rest));
    GlobalRootAgreesExactly(m, mappings, root, head + rest);
    DeviceAnswer(m, mappings, letter, device, head, rest);
  }

  /** A device path is unknown exactly when no listed local drive is on a device that carries it. */
  lemma UnknownDeviceExactly(m: Machine, mappings: seq<DriveMapping>, path: string)
    requires IsDriveTable(m, mappings) && Starts(m, path, "\\Device\\") && !InOtherNamespace(m, path)
    ensures Mapped(m, mappings, path) == Failed(PathDeviceUnknown) <==>
            forall letter, device :: HasVolume(m, letter, device) ==> !IsPathPrefix(m, path, device)
  {
    DeviceIsMapped(m, mappings, path);
    hide Mapped, MappedDevice, HasVolume, IsPathPrefix, Starts, InOtherNamespace, DriveVolumes, IsDriveTable;
    NoCarrierExactly(m, mappings, path);
    forall letter, device
      ensures HasVolume(m, letter, device) <==> DriveMapping(letter, device) in DriveVolumes(m)
    {
      HasVolumeExactly(m, DriveMapping(letter, device));
    }
    if forall letter, device :: HasVolume(m, letter, device) ==> !IsPathPrefix(m, path, device) {
      forall mapping | mapping in DriveVolumes(m)
        ensures !IsPathPrefix(m, path, mapping.devicePath)
      {
        assert HasVolume(m, mapping.drive, mapping.devicePath);
      }
    }
  }

  lemma NoCarrierExactly(m: Machine, mappings: seq<DriveMapping>, path: string)
    requires IsDriveTable(m, mappings)
    ensures MappedDevice(m, mappings, path) == Failed(PathDeviceUnknown) <==>
            forall mapping :: mapping in DriveVolumes(m) ==> !IsPathPrefix(m, path, mapping.devicePath)
  {
    hide MappedDevice, DriveVolumes, IsDriveTable, IsPathPrefix;
    DevicePicksLongest(m, mappings, path);
  }

  // ----- paths of a drive

  lemma AbsoluteIsNoOtherForm(m: Machine, c: char, rest: string)
    requires 'A' <= m.upper(c) <= 'Z'
    ensures var path := "\\??\\" + [c] + ":\\" + rest;
            path[4] == c && IsAbsolutePath(m, path) && !Rejected(m, path)
  {
    var path := "\\??\\" + [c] + ":\\" + rest;
    assert path[..4] == "\\??\\" && path[4] == c && path[5] == ':' && path[6] == '\\';
    assert Starts(m, path, NAMESPACE) by {
      assert path == NAMESPACE + ([c] + ":\\" + rest);
      FoldedConcat(m.lower, NAMESPACE, [c] + ":\\" + rest);
    }
    hide Starts;
    forall i | 0 <= i < |REJECTED_NAMESPACES|
      ensures !Starts(m, path, REJECTED_NAMESPACES[i])
    {
      DiffersAt(m, path, REJECTED_NAMESPACES[i], if i == 0 || i == 5 || i == 6 then 5 else 1);
    }
  }

  /** An absolute path of a drive is answered with its letter in upper case, and refused when the drive
      is not local. */
  lemma AbsoluteAnswer(m: Machine, mappings: seq<DriveMapping>, c: char, rest: string)
    requires 'A' <= m.upper(c) <= 'Z'
    ensures Mapped(m, mappings, "\\??\\" + [c] + ":\\" + rest) ==
            if Local(m, m.upper(c)) then Ok("\\??\\" + [m.upper(c)] + ":\\" + rest) else Failed(PathNotLocalDrive)
  {
    var path := "\\??\\" + [c] + ":\\" + rest;
    AbsoluteIsNoOtherForm(m, c, rest);
    LocalExactly(m, m.upper(c));
    hide Rejected, IsAbsolutePath, IsLocalDrive, Local;
    assert path[4 := m.upper(c)] == "\\??\\" + [m.upper(c)] + ":\\" + rest;
    assert path[0] == '\\';
  }

  // ----- paths of a volume

  lemma VolumeIsNoOtherForm(m: Machine, path: string)
    requires Starts(m, path, VOLUME)
    ensures path != "" && path[0] == '\\' && !IsAbsolutePath(m, path) && !Rejected(m, path)
  {
    StartsExactlyAt(m, path, VOLUME, 0);
    StartsAt(m, path, VOLUME, 1);
    StartsAt(m, path, VOLUME, 4);
    StartsAt(m, path, VOLUME, 5);
    assert path[5] != ':';
    hide Starts;
    forall i | 0 <= i < |REJECTED_NAMESPACES|
      ensures !Starts(m, path, REJECTED_NAMESPACES[i])
    {
      DiffersAt(m, path, REJECTED_NAMESPACES[i], if i == 0 || i == 5 || i == 6 then 4 else 1);
    }
  }

  /** A mount point that is the root of a local drive. */
  predicate IsRootOf(m: Machine, mountPoint: string, letter: char) {
    |mountPoint| == 3 && m.upper(mountPoint[0]) == letter && mountPoint[1..] == ":\\" && Local(m, letter)
  }

  lemma MountExactly(m: Machine, mountPoint: string)
    ensures IsDriveMount(m, mountPoint) <==>
            |mountPoint| == 3 && IsRootOf(m, mountPoint, m.upper(mountPoint[0]))
  {
    if |mountPoint| == 3 {
      LocalExactly(m, mountPoint[0]);
      assert mountPoint[1..] == [mountPoint[1], mountPoint[2]];
    }
  }

  lemma {:induction false} FirstMountIs(m: Machine, mounts: seq<string>, letter: char, i: nat)
    requires i < |mounts| && IsRootOf(m, mounts[i], letter)
    requires forall j :: 0 <= j < i ==> forall l :: !IsRootOf(m, mounts[j], l)
    ensures FirstMount(m, mounts) == Some(letter)
  {
    hide IsRootOf, IsDriveMount;
    MountExactly(m, mounts[0]);
    if i > 0 {
      FirstMountIs(m, mounts[1..], letter, i - 1);
    } else {
      RootLetter(m, mounts[0], letter);
    }
  }

  lemma RootLetter(m: Machine, mountPoint: string, letter: char)
    requires IsRootOf(m, mountPoint, letter)
    ensures |mountPoint| == 3 && m.upper(mountPoint[0]) == letter && IsRootOf(m, mountPoint, m.upper(mountPoint[0]))
  {
  }

  lemma {:induction false} NoMount(m: Machine, mounts: seq<string>)
    requires forall j :: 0 <= j < |mounts| ==> forall l :: !IsRootOf(m, mounts[j], l)
    ensures FirstMount(m, mounts) == None
  {
    hide IsRootOf, IsDriveMount;
    if mounts != [] {
      MountExactly(m, mounts[0]);
      NoMount(m, mounts[1..]);
    }
  }

  lemma BraceIs(prefix: string, guid: string, rest: string)
    requires '}' !in guid
    ensures FirstFrom(prefix + guid + "}" + rest, '}', |prefix|) == |prefix| + |guid|
  {
    var path := prefix + guid + "}" + rest;
    assert path[|prefix| + |guid|] == '}';
    assert forall i :: |prefix| <= i < |prefix| + |guid| ==> path[i] == guid[i - |prefix|];
    var n := FirstFrom(path, '}', |prefix|);
    assert n <= |prefix| + |guid|;
  }

  /** What the system is asked about the volume of a path: the Win32 form of its name, in the spelling
      of the path and with a backslash at its end. */
  function VolumeName(prefix: string, guid: string): string
    requires |prefix| >= 4
  {
    "\\\\?\\" + prefix[4..] + guid + "}\\"
  }

  function Mounted(m: Machine, mounts: Option<seq<string>>, rest: string): Expected<string> {
    if mounts.None? || FirstMount(m, mounts.value).None? then Failed(PathVolumeUnmounted)
    else Ok("\\??\\" + [FirstMount(m, mounts.value).value] + ":" + rest)
  }

  lemma VolumeTexts(prefix: string, guid: string, rest: string, path: string, brace: nat)
    requires |prefix| == |VOLUME| && rest != "" && rest[0] == '\\'
    requires path == prefix + guid + "}" + rest && brace == |prefix| + |guid|
    ensures brace + 1 < |path| && path[brace + 1] == '\\' && path[brace + 1..] == rest
    ensures "\\\\?\\" + path[4..brace + 2] == VolumeName(prefix, guid)
  {
    assert path[4..brace + 2] == prefix[4..] + guid + "}\\";
  }

  lemma VolumeStarts(m: Machine, prefix: string, tail: string)
    requires Folded(m.lower, prefix) == Folded(m.lower, "\\??\\Volume{")
    ensures |prefix| == |VOLUME| && Starts(m, prefix + tail, VOLUME)
  {
    FoldedConcat(m.lower, prefix, tail);
    assert |prefix| == |Folded(m.lower, prefix)| == |VOLUME|;
  }

  lemma VolumeIsMapped(m: Machine, mappings: seq<DriveMapping>, path: string)
    requires Starts(m, path, VOLUME)
    ensures Mapped(m, mappings, path) == MappedVolume(m, path)
  {
    VolumeIsNoOtherForm(m, path);
    hide Starts, IsAbsolutePath, Rejected, MappedVolume;
  }

  lemma VolumeLookup(m: Machine, mappings: seq<DriveMapping>, prefix: string, guid: string, rest: string)
    requires Folded(m.lower, prefix) == Folded(m.lower, "\\??\\Volume{") && '}' !in guid
    requires rest != "" && rest[0] == '\\'
    ensures |prefix| >= 4
    ensures Mapped(m, mappings, prefix + guid + "}" + rest) == Mounted(m, m.volumeMounts(VolumeName(prefix, guid)), rest)
  {
    var path := prefix + guid + "}" + rest;
    assert path == prefix + (guid + "}" + rest);
    VolumeStarts(m, prefix, guid + "}" + rest);
    VolumeIsMapped(m, mappings, path);
    BraceIs(prefix, guid, rest);
    VolumeTexts(prefix, guid, rest, path, |prefix| + |guid|);
    hide FirstMount, Starts, FirstFrom, VolumeName, Mapped;
  }

  predicate ClosesName(path: string, i: nat) {
    11 <= i < |path| && path[i] == '}' && forall j :: 11 <= j < i ==> path[j] != '}'
  }

  /** A path without a backslash behind the brace that closes the name of the volume names none. */
  lemma VolumeMalformed(m: Machine, mappings: seq<DriveMapping>, path: string)
    requires Starts(m, path, "\\??\\Volume{")
    requires forall i: nat :: ClosesName(path, i) ==> i + 1 == |path| || path[i + 1] != '\\'
    ensures Mapped(m, mappings, path) == Failed(PathVolumeUnmounted)
  {
    VolumeIsMapped(m, mappings, path);
    PrefixIsShorter(m, path, VOLUME);
    assert |VOLUME| == 11;
    hide Starts, Mapped;
    var brace := FirstFrom(path, '}', 11);
    if brace < |path| {
      assert ClosesName(path, brace);
    }
  }

  /** A path of a volume is answered with the first of its mount points that is the root of a local
      drive, and the rest of the path. */
  lemma VolumeAnswer(m: Machine, mappings: seq<DriveMapping>, prefix: string, guid: string, rest: string, letter: char, i: nat)
    requires Folded(m.lower, prefix) == Folded(m.lower, "\\??\\Volume{") && '}' !in guid
    requires rest != "" && rest[0] == '\\' && |prefix| >= 4
    requires m.volumeMounts(VolumeName(prefix, guid)).Some?
    requires var mounts := m.volumeMounts(VolumeName(prefix, guid)).value;
             && i < |mounts| && IsRootOf(m, mounts[i], letter)
             && forall j :: 0 <= j < i ==> forall l :: !IsRootOf(m, mounts[j], l)
    ensures Mapped(m, mappings, prefix + guid + "}" + rest) == Ok("\\??\\" + [letter] + ":" + rest)
  {
    hide Mapped, FirstMount, IsRootOf;
    VolumeLookup(m, mappings, prefix, guid, rest);
    FirstMountIs(m, m.volumeMounts(VolumeName(prefix, guid)).value, letter, i);
  }

  /** It is refused when the system knows no such mount point of the volume. */
  lemma VolumeUnmounted(m: Machine, mappings: seq<DriveMapping>, prefix: string, guid: string, rest: string)
    requires Folded(m.lower, prefix) == Folded(m.lower, "\\??\\Volume{") && '}' !in guid
    requires rest != "" && rest[0] == '\\' && |prefix| >= 4
    requires var mounts := m.volumeMounts(VolumeName(prefix, guid));
             mounts.Some? ==> forall j :: 0 <= j < |mounts.value| ==> forall l :: !IsRootOf(m, mounts.value[j], l)
    ensures Mapped(m, mappings, prefix + guid + "}" + rest) == Failed(PathVolumeUnmounted)
  {
    hide Mapped, FirstMount, IsRootOf;
    VolumeLookup(m, mappings, prefix, guid, rest);
    if m.volumeMounts(VolumeName(prefix, guid)).Some? {
      NoMount(m, m.volumeMounts(VolumeName(prefix, guid)).value);
    }
  }

  // ----- paths of the Windows directory

  /** A folder on a local drive. */
  predicate IsLocalFolder(m: Machine, folder: string) {
    |folder| >= 3 && Local(m, m.upper(folder[0])) && folder[1] == ':' && folder[2] == '\\'
  }

  lemma SystemRootIsMapped(m: Machine, mappings: seq<DriveMapping>, prefix: string, rest: string)
    requires Folded(m.lower, prefix) == Folded(m.lower, "\\SystemRoot") && (rest == "" || rest[0] == '\\')
    ensures IsPathPrefix(m, prefix + rest, SYSTEM_ROOT) && (prefix + rest)[|SYSTEM_ROOT|..] == rest
    ensures Mapped(m, mappings, prefix + rest) == MappedSystemRoot(m, prefix + rest)
  {
    var path := prefix + rest;
    CarriedBy(m, prefix, rest, "\\SystemRoot");
    assert SYSTEM_ROOT == "\\SystemRoot" && |prefix| == |SYSTEM_ROOT|;
    StartsExactlyAt(m, path, SYSTEM_ROOT, 0);
    SystemRootIsNoOtherForm(m, path);
    SystemRootIsNotRejected(m, path);
    hide Starts, Rejected, IsAbsolutePath, MappedSystemRoot;
  }

  /** A path below `\SystemRoot` is answered with the Windows directory, cut of its trailing backslashes,
      and the rest of the path, and refused when the directory is on no local drive. */
  lemma SystemRootAnswer(m: Machine, mappings: seq<DriveMapping>, prefix: string, rest: string, folder: string)
    requires Folded(m.lower, prefix) == Folded(m.lower, "\\SystemRoot") && (rest == "" || rest[0] == '\\')
    ensures m.windowsDirectory == None ==> Mapped(m, mappings, prefix + rest) == Failed(PathNotLocalDrive)
    ensures m.windowsDirectory.Some? && IsCut(m.windowsDirectory.value, folder) ==>
              Mapped(m, mappings, prefix + rest) ==
              if IsLocalFolder(m, folder) then Ok("\\??\\" + folder + rest) else Failed(PathNotLocalDrive)
  {
    SystemRootIsMapped(m, mappings, prefix, rest);
    hide Mapped, Trimmed, IsPathPrefix, IsCut;
    if m.windowsDirectory.Some? {
      TrimmedExactly(m.windowsDirectory.value, folder);
      if |folder| >= 3 {
        LocalExactly(m, folder[0]);
      }
    }
  }

  // ----- paths outside the view

  /** The forms the mapping knows. */
  predicate IsOfSomeForm(m: Machine, path: string) {
    || (|path| >= 7 && Starts(m, path, "\\??\\") && 'A' <= m.upper(path[4]) <= 'Z' && path[5..7] == ":\\")
    || Starts(m, path, "\\??\\Volume{") || IsPathPrefix(m, path, "\\SystemRoot")
    || IsPathPrefix(m, path, "\\??\\GLOBALROOT") || Starts(m, path, "\\Device\\")
  }

  lemma AbsoluteExactly(m: Machine, path: string)
    ensures IsAbsolutePath(m, path) <==>
            |path| >= 7 && Starts(m, path, "\\??\\") && 'A' <= m.upper(path[4]) <= 'Z' && path[5..7] == ":\\"
  {
    hide Starts;
    assert NAMESPACE == "\\??\\" && |NAMESPACE| == 4;
    if |path| >= 7 {
      assert path[5..7] == [path[5], path[6]];
    }
  }

  /** A path is outside the view exactly when it is not empty and relative, in the namespace of other
      machines or of none of the forms. */
  lemma OutsideViewExactly(m: Machine, mappings: seq<DriveMapping>, path: string)
    ensures Mapped(m, mappings, path) == Failed(PathEmpty) <==> path == ""
    ensures Mapped(m, mappings, path) == Failed(PathNotInViewNamespace) <==>
            path != "" && (path[0] != '\\' || InOtherNamespace(m, path) || !IsOfSomeForm(m, path))
  {
    RejectedExactly(m, path);
    AbsoluteExactly(m, path);
    hide Starts, Rejected, IsAbsolutePath, IsPathPrefix, MappedVolume, MappedSystemRoot, MappedDevice, InOtherNamespace;
    DeviceCodes(m, mappings, path);
    if Starts(m, path, VOLUME) {
      VolumeCodes(m, path);
    } else if IsPathPrefix(m, path, SYSTEM_ROOT) {
      SystemRootCodes(m, path);
    } else if IsPathPrefix(m, path, GLOBAL_ROOT) {
      PathPrefixIsShorter(m, path, GLOBAL_ROOT);
      DeviceCodes(m, mappings, path[|GLOBAL_ROOT|..]);
    }
  }

  lemma {:induction false} DeviceCodes(m: Machine, mappings: seq<DriveMapping>, path: string)
    ensures MappedDevice(m, mappings, path).Failed? ==> MappedDevice(m, mappings, path) == Failed(PathDeviceUnknown)
  {
    hide Carries;
    if mappings != [] {
      MappedDeviceStep(m, mappings, path);
      DeviceCodes(m, mappings[1..], path);
    }
  }

  lemma VolumeCodes(m: Machine, path: string)
    requires Starts(m, path, VOLUME)
    ensures MappedVolume(m, path).Failed? ==> MappedVolume(m, path) == Failed(PathVolumeUnmounted)
  {
    hide FirstMount;
  }

  lemma SystemRootCodes(m: Machine, path: string)
    requires IsPathPrefix(m, path, SYSTEM_ROOT)
    ensures MappedSystemRoot(m, path).Failed? ==> MappedSystemRoot(m, path) == Failed(PathNotLocalDrive)
  {
    hide Trimmed;
  }
}
