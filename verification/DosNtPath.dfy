/** The mapping of native paths to the DOS style paths of the view,
    `common/details/MappingAsDosNtPathDetail.hpp`. What the functions ask the system for is the
    machine they run on, which stands still during one mapping. */
module DosNtPath {
  import opened Outcomes
  import opened WideText

  datatype DriveType = Unknown | NoRootDirectory | Removable | Fixed | Remote | CdRom | RamDisk

  /** The answers of the system. A query that fails, or answers with more than the function takes,
      is no answer. */
  datatype Machine = Machine(
    lower: CaseFold,
    upper: CaseRaise,
    driveType: string -> DriveType,           // GetDriveTypeW, of the root of a drive
    driveRoots: Option<seq<string>>,          // GetLogicalDriveStringsW
    deviceTarget: string -> Option<string>,   // QueryDosDeviceW, the first target
    volumeMounts: string -> Option<seq<string>>, // GetVolumePathNamesForVolumeNameW
    windowsDirectory: Option<string>)         // GetWindowsDirectoryW

  const NAMESPACE := "\\??\\"

  const REJECTED_NAMESPACES := [
    "\\??\\UNC\\", "\\Device\\Mup\\", "\\Device\\LanmanRedirector\\",
    "\\Device\\NamedPipe\\", "\\Device\\Mailslot\\", "\\??\\PIPE\\",
    "\\??\\MAILSLOT\\"]

  const VOLUME := "\\??\\Volume{"
  const SYSTEM_ROOT := "\\SystemRoot"
  const GLOBAL_ROOT := "\\??\\GLOBALROOT"
  const DEVICE := "\\Device\\"

  datatype DriveMapping = DriveMapping(drive: char, devicePath: string)

  // ----- texts

  predicate Starts(m: Machine, text: string, prefix: string) {
    Folded(m.lower, prefix) <= Folded(m.lower, text)
  }

  method StartsWithIgnoreCase(m: Machine, text: string, prefix: string) returns (starts: bool)
    ensures starts == Starts(m, text, prefix)
  {
    var size := |prefix|;
    if |text| < size {
      return false;
    }
    for index := 0 to size
      invariant forall k :: 0 <= k < index ==> m.lower(text[k]) == m.lower(prefix[k])
    {
      if m.lower(text[index]) != m.lower(prefix[index]) {
        assert Folded(m.lower, text)[index] != Folded(m.lower, prefix)[index];
        return false;
      }
    }
    return true;
  }

  predicate IsDriveLetter(m: Machine, c: char) {
    'A' <= m.upper(c) <= 'Z'
  }

  predicate Rejected(m: Machine, path: string) {
    exists i :: 0 <= i < |REJECTED_NAMESPACES| && Starts(m, path, REJECTED_NAMESPACES[i])
  }

  method IsRejectedNamespace(m: Machine, path: string) returns (rejected: bool)
    ensures rejected == Rejected(m, path)
  {
    for i := 0 to |REJECTED_NAMESPACES|
      invariant forall k :: 0 <= k < i ==> !Starts(m, path, REJECTED_NAMESPACES[k])
    {
      var starts := StartsWithIgnoreCase(m, path, REJECTED_NAMESPACES[i]);
      if starts {
        return true;
      }
    }
    return false;
  }

  predicate IsAbsolutePath(m: Machine, path: string) {
    && |path| >= |NAMESPACE| + 3
    && Starts(m, path, NAMESPACE)
    && IsDriveLetter(m, path[4]) && path[5] == ':' && path[6] == '\\'
  }

  predicate IsLocalDrive(m: Machine, drive: char) {
    && IsDriveLetter(m, drive)
    && m.driveType([m.upper(drive)] + ":\\") in {Removable, Fixed, CdRom, RamDisk}
  }

  predicate IsPathPrefix(m: Machine, path: string, prefix: string) {
    Starts(m, path, prefix) && (|path| == |prefix| || path[|prefix|] == '\\')
  }

  lemma PrefixIsShorter(m: Machine, path: string, prefix: string)
    requires Starts(m, path, prefix)
    ensures |prefix| <= |path|
  {
    assert |Folded(m.lower, prefix)| <= |Folded(m.lower, path)|;
  }

  function Trimmed(path: string): (t: string)
    ensures t <= path
    ensures |t| > 1 ==> t[|t| - 1] != '\\'
  {
    if |path| > 1 && path[|path| - 1] == '\\' then Trimmed(path[..|path| - 1]) else path
  }

  method TrimTrailingSeparators(path: string) returns (trimmed: string)
    ensures trimmed == Trimmed(path)
  {
    trimmed := path;
    while |trimmed| > 1 && trimmed[|trimmed| - 1] == '\\'
      invariant Trimmed(trimmed) == Trimmed(path)
    {
      trimmed := trimmed[..|trimmed| - 1];
    }
  }

  function OnDrive(drive: char, rest: string): string {
    NAMESPACE + [drive] + ":" + rest
  }

  // ----- volumes

  predicate IsDriveMount(m: Machine, mountPoint: string) {
    |mountPoint| == 3 && IsDriveLetter(m, mountPoint[0]) && mountPoint[1] == ':' && mountPoint[2] == '\\'
    && IsLocalDrive(m, mountPoint[0])
  }

  function FirstMount(m: Machine, mountPoints: seq<string>): Option<char> {
    if mountPoints == [] then None
    else if IsDriveMount(m, mountPoints[0]) then Some(m.upper(mountPoints[0][0]))
    else FirstMount(m, mountPoints[1..])
  }

  function MappedVolume(m: Machine, path: string): Expected<string>
    requires Starts(m, path, VOLUME)
  {
    PrefixIsShorter(m, path, VOLUME);
    var closeBrace := FirstFrom(path, '}', |VOLUME|);
    if closeBrace + 1 >= |path| || path[closeBrace + 1] != '\\' then Failed(PathVolumeUnmounted)
    else
      match m.volumeMounts("\\\\?\\" + path[4..closeBrace + 2])
      case None => Failed(PathVolumeUnmounted)
      case Some(mountPoints) =>
        match FirstMount(m, mountPoints)
        case None => Failed(PathVolumeUnmounted)
        case Some(drive) => Ok(OnDrive(drive, path[closeBrace + 1..]))
  }

  method MapVolumeGuidPath(m: Machine, path: string) returns (r: Expected<string>)
    ensures r == if Starts(m, path, VOLUME) then MappedVolume(m, path) else Failed(PathVolumeUnmounted)
  {
    var starts := StartsWithIgnoreCase(m, path, VOLUME);
    if !starts {
      return Failed(PathVolumeUnmounted);
    }
    PrefixIsShorter(m, path, VOLUME);

    var closeBrace := FirstFrom(path, '}', |VOLUME|);
    if closeBrace == |path| {
      return Failed(PathVolumeUnmounted);
    }
    if closeBrace + 1 >= |path| || path[closeBrace + 1] != '\\' {
      return Failed(PathVolumeUnmounted);
    }

    var volumeName := path[4..closeBrace + 2];
    var mounts := m.volumeMounts("\\\\?\\" + volumeName);
    if mounts.None? {
      return Failed(PathVolumeUnmounted);
    }

    for i := 0 to |mounts.value|
      invariant FirstMount(m, mounts.value) == FirstMount(m, mounts.value[i..])
    {
      var mountPoint := mounts.value[i];
      assert mounts.value[i..][1..] == mounts.value[i + 1..];
      if |mountPoint| != 3 || !IsDriveLetter(m, mountPoint[0]) || mountPoint[1] != ':'
         || mountPoint[2] != '\\' || !IsLocalDrive(m, mountPoint[0]) {
        continue;
      }
      return Ok(OnDrive(m.upper(mountPoint[0]), path[closeBrace + 1..]));
    }
    return Failed(PathVolumeUnmounted);
  }

  // ----- the Windows directory

  function MappedSystemRoot(m: Machine, path: string): Expected<string>
    requires IsPathPrefix(m, path, SYSTEM_ROOT)
  {
    match m.windowsDirectory
    case None => Failed(PathNotLocalDrive)
    case Some(directory) =>
      var windows := Trimmed(directory);
      if |windows| >= 3 && IsDriveLetter(m, windows[0]) && windows[1] == ':' && windows[2] == '\\'
         && IsLocalDrive(m, windows[0])
      then Ok(NAMESPACE + windows + path[|SYSTEM_ROOT|..])
      else Failed(PathNotLocalDrive)
  }

  method MapSystemRootPath(m: Machine, path: string) returns (r: Expected<string>)
    ensures r == if IsPathPrefix(m, path, SYSTEM_ROOT) then MappedSystemRoot(m, path) else Failed(PathNotLocalDrive)
  {
    hide Trimmed;
    if !IsPathPrefix(m, path, SYSTEM_ROOT) {
      return Failed(PathNotLocalDrive);
    }
    if m.windowsDirectory.None? {
      return Failed(PathNotLocalDrive);
    }

    var windowsPath := TrimTrailingSeparators(m.windowsDirectory.value);
    if |windowsPath| < 3 || !IsDriveLetter(m, windowsPath[0]) || windowsPath[1] != ':' || windowsPath[2] != '\\' {
      return Failed(PathNotLocalDrive);
    }
    if !IsLocalDrive(m, windowsPath[0]) {
      return Failed(PathNotLocalDrive);
    }

    PrefixIsShorter(m, path, SYSTEM_ROOT);
    var remainder := "";
    if |path| > |SYSTEM_ROOT| {
      remainder := path[|SYSTEM_ROOT|..];
    }
    assert remainder == path[|SYSTEM_ROOT|..];
    var mapped := NAMESPACE;
    mapped := mapped + windowsPath;
    mapped := mapped + remainder;
    return Ok(mapped);
  }

  // ----- devices

  /** The volume of one logical drive, none for a drive the view has no key for. */
  function VolumeOf(m: Machine, root: string): Option<DriveMapping> {
    if |root| < 2 || !IsDriveLetter(m, root[0]) || root[1] != ':' then None
    else
      var drive := m.upper(root[0]);
      if !IsLocalDrive(m, drive) then None
      else
        match m.deviceTarget([drive] + ":")
        case None => None
        case Some(target) =>
          if Starts(m, Trimmed(target), DEVICE) then Some(DriveMapping(drive, Trimmed(target))) else None
  }

  function OneVolume(m: Machine, root: string): seq<DriveMapping> {
    match VolumeOf(m, root)
    case Some(mapping) => [mapping]
    case None => []
  }

  function Volumes(m: Machine, roots: seq<string>): seq<DriveMapping> {
    if roots == [] then []
    else
      OneVolume(m, roots[0]) + Volumes(m, roots[1..])
  }

  /** The volumes of the machine in the order the system lists the drives. */
  function DriveVolumes(m: Machine): seq<DriveMapping> {
    match m.driveRoots
    case None => []
    case Some(roots) => Volumes(m, roots)
  }

  predicate LongestFirst(mappings: seq<DriveMapping>) {
    forall i, j :: 0 <= i < j < |mappings| ==> |mappings[i].devicePath| >= |mappings[j].devicePath|
  }

  /** A table of the drives: `std::sort` puts the longest device path first, and promises nothing
      about the order of device paths of the same length. */
  predicate IsDriveTable(m: Machine, mappings: seq<DriveMapping>) {
    multiset(mappings) == multiset(DriveVolumes(m)) && LongestFirst(mappings)
  }

  predicate NoLonger(mappings: seq<DriveMapping>, length: nat) {
    forall i :: 0 <= i < |mappings| ==> |mappings[i].devicePath| <= length
  }

  function Inserted(sorted: seq<DriveMapping>, mapping: DriveMapping): seq<DriveMapping> {
    if sorted == [] || |sorted[0].devicePath| < |mapping.devicePath| then [mapping] + sorted
    else [sorted[0]] + Inserted(sorted[1..], mapping)
  }

  lemma {:induction false} InsertedIsLongestFirst(sorted: seq<DriveMapping>, mapping: DriveMapping)
    requires LongestFirst(sorted)
    ensures LongestFirst(Inserted(sorted, mapping))
    ensures forall n: nat :: NoLonger(sorted, n) && |mapping.devicePath| <= n ==> NoLonger(Inserted(sorted, mapping), n)
  {
    if sorted == [] || |sorted[0].devicePath| < |mapping.devicePath| {
    } else {
      InsertedIsLongestFirst(sorted[1..], mapping);
      assert NoLonger(sorted[1..], |sorted[0].devicePath|);
      assert NoLonger(Inserted(sorted[1..], mapping), |sorted[0].devicePath|);
      forall n: nat | NoLonger(sorted, n) && |mapping.devicePath| <= n
        ensures NoLonger(Inserted(sorted, mapping), n)
      {
        assert NoLonger(sorted[1..], n);
      }
    }
  }

  lemma {:induction false} InsertedHoldsAll(sorted: seq<DriveMapping>, mapping: DriveMapping)
    ensures multiset(Inserted(sorted, mapping)) == multiset(sorted) + multiset{mapping}
  {
    if sorted == [] || |sorted[0].devicePath| < |mapping.devicePath| {
    } else {
      InsertedHoldsAll(sorted[1..], mapping);
      assert sorted == [sorted[0]] + sorted[1..];
    }
  }

  /** One of the orders `std::sort` may leave. */
  function Sorted(mappings: seq<DriveMapping>): (sorted: seq<DriveMapping>)
    ensures multiset(sorted) == multiset(mappings)
    ensures LongestFirst(sorted)
  {
    if mappings == [] then []
    else
      assert mappings == [mappings[0]] + mappings[1..];
      InsertedIsLongestFirst(Sorted(mappings[1..]), mappings[0]);
      InsertedHoldsAll(Sorted(mappings[1..]), mappings[0]);
      Inserted(Sorted(mappings[1..]), mappings[0])
  }

  /** The body of the loop over the drives. */
  method QueryVolume(m: Machine, root: string) returns (mapping: Option<DriveMapping>)
    ensures mapping == VolumeOf(m, root)
  {
    if |root| < 2 || !IsDriveLetter(m, root[0]) || root[1] != ':' {
      return None;
    }
    var drive := m.upper(root[0]);
    if !IsLocalDrive(m, drive) {
      return None;
    }
    var target := m.deviceTarget([drive] + ":");
    if target.None? {
      return None;
    }
    var devicePath := TrimTrailingSeparators(target.value);
    var isDevice := StartsWithIgnoreCase(m, devicePath, DEVICE);
    if isDevice {
      return Some(DriveMapping(drive, devicePath));
    }
    return None;
  }

  lemma VolumesStep(m: Machine, roots: seq<string>, i: nat, result: seq<DriveMapping>)
    requires i < |roots|
    ensures result + Volumes(m, roots[i..]) ==
            (match VolumeOf(m, roots[i]) case None => result case Some(mapping) => result + [mapping])
            + Volumes(m, roots[i + 1..])
  {
    hide VolumeOf;
    assert roots[i..][1..] == roots[i + 1..];
  }

  lemma VolumesEnd(m: Machine, roots: seq<string>, result: seq<DriveMapping>)
    ensures result + Volumes(m, roots[|roots|..]) == result
  {
  }

  method BuildDriveDeviceMappings(m: Machine) returns (result: seq<DriveMapping>)
    ensures IsDriveTable(m, result)
  {
    hide VolumeOf, Volumes, OneVolume;
    if m.driveRoots.None? {
      return [];
    }
    var roots := m.driveRoots.value;
    result := [];
    for i := 0 to |roots|
      invariant Volumes(m, roots) == result + Volumes(m, roots[i..])
    {
      VolumesStep(m, roots, i, result);
      var mapping := QueryVolume(m, roots[i]);
      if mapping.Some? {
        result := result + [mapping.value];
      }
    }
    VolumesEnd(m, roots, result);
    result := Sorted(result);
  }

  /** The path on the drive of a volume. The root of the volume is the root of the drive. */
  function Rebased(mapping: DriveMapping, path: string): string
    requires |path| >= |mapping.devicePath|
  {
    OnDrive(mapping.drive, if |path| > |mapping.devicePath| then path[|mapping.devicePath|..] else "\\")
  }

  predicate Carries(m: Machine, mapping: DriveMapping, path: string) {
    IsPathPrefix(m, path, mapping.devicePath)
  }

  /** The first volume of a table that carries a path. */
  function MappedDevice(m: Machine, mappings: seq<DriveMapping>, path: string): Expected<string> {
    if mappings == [] then Failed(PathDeviceUnknown)
    else if Carries(m, mappings[0], path) then
      PrefixIsShorter(m, path, mappings[0].devicePath);
      Ok(Rebased(mappings[0], path))
    else MappedDevice(m, mappings[1..], path)
  }

  method MapDevicePath(m: Machine, path: string) returns (r: Expected<string>)
    ensures exists mappings :: IsDriveTable(m, mappings) && r == MappedDevice(m, mappings, path)
  {
    var mappings := BuildDriveDeviceMappings(m);
    for i := 0 to |mappings|
      invariant MappedDevice(m, mappings, path) == MappedDevice(m, mappings[i..], path)
    {
      var mapping := mappings[i];
      assert mappings[i..][1..] == mappings[i + 1..];
      if !IsPathPrefix(m, path, mapping.devicePath) {
        continue;
      }
      PrefixIsShorter(m, path, mapping.devicePath);
      var mapped := NAMESPACE;
      mapped := mapped + [mapping.drive];
      mapped := mapped + ":";
      if |path| > |mapping.devicePath| {
        mapped := mapped + path[|mapping.devicePath|..];
      } else {
        mapped := mapped + "\\";
      }
      return Ok(mapped);
    }
    return Failed(PathDeviceUnknown);
  }

  // ----- the dispatcher

  /** The mapping, over the drive table the machine happens to build. */
  function Mapped(m: Machine, mappings: seq<DriveMapping>, path: string): Expected<string> {
    if path == "" then Failed(PathEmpty)
    else if path[0] != '\\' then Failed(PathNotInViewNamespace)
    else if Rejected(m, path) then Failed(PathNotInViewNamespace)
    else if IsAbsolutePath(m, path) then
      if IsLocalDrive(m, m.upper(path[4])) then Ok(path[4 := m.upper(path[4])]) else Failed(PathNotLocalDrive)
    else if Starts(m, path, VOLUME) then MappedVolume(m, path)
    else if IsPathPrefix(m, path, SYSTEM_ROOT) then MappedSystemRoot(m, path)
    else if IsPathPrefix(m, path, GLOBAL_ROOT) then
      PrefixIsShorter(m, path, GLOBAL_ROOT);
      if |path| == |GLOBAL_ROOT| then Failed(PathDeviceUnknown)
      else MappedDevice(m, mappings, path[|GLOBAL_ROOT|..])
    else if Starts(m, path, DEVICE) then MappedDevice(m, mappings, path)
    else Failed(PathNotInViewNamespace)
  }

  /** The answers the mapping may give: one for each drive table the system may build. */
  ghost predicate MapsTo(m: Machine, path: string, r: Expected<string>) {
    exists mappings :: IsDriveTable(m, mappings) && r == Mapped(m, mappings, path)
  }

  method MapGlobalRootPath(m: Machine, path: string) returns (r: Expected<string>)
    ensures !IsPathPrefix(m, path, GLOBAL_ROOT) || |path| == |GLOBAL_ROOT| ==> r == Failed(PathDeviceUnknown)
    ensures IsPathPrefix(m, path, GLOBAL_ROOT) && |path| != |GLOBAL_ROOT| ==>
              |path| > |GLOBAL_ROOT|
              && exists mappings :: IsDriveTable(m, mappings) && r == MappedDevice(m, mappings, path[|GLOBAL_ROOT|..])
  {
    if !IsPathPrefix(m, path, GLOBAL_ROOT) {
      return Failed(PathDeviceUnknown);
    }
    PrefixIsShorter(m, path, GLOBAL_ROOT);
    var devicePath := path[|GLOBAL_ROOT|..];
    if devicePath == "" || devicePath[0] != '\\' {
      return Failed(PathDeviceUnknown);
    }
    r := MapDevicePath(m, devicePath);
  }

  method MappingAsDosNtPath(m: Machine, path: string) returns (r: Expected<string>)
    ensures MapsTo(m, path, r)
  {
    hide Rejected, MappedVolume, MappedSystemRoot, MappedDevice, IsPathPrefix, Starts, IsAbsolutePath;
    ghost var mappings := Sorted(DriveVolumes(m));
    assert IsDriveTable(m, mappings);
    if path == "" {
      assert Mapped(m, mappings, path) == Failed(PathEmpty);
      return Failed(PathEmpty);
    }
    if path[0] != '\\' {
      assert Mapped(m, mappings, path) == Failed(PathNotInViewNamespace);
      return Failed(PathNotInViewNamespace);
    }
    var rejected := IsRejectedNamespace(m, path);
    if rejected {
      assert Mapped(m, mappings, path) == Failed(PathNotInViewNamespace);
      return Failed(PathNotInViewNamespace);
    }
    if IsAbsolutePath(m, path) {
      AbsoluteIsLong(m, path);
      var drive := m.upper(path[4]);
      if !IsLocalDrive(m, drive) {
        assert Mapped(m, mappings, path) == Failed(PathNotLocalDrive);
        return Failed(PathNotLocalDrive);
      }
      var mapped := path;
      mapped := mapped[4 := drive];
      assert Mapped(m, mappings, path) == Ok(mapped);
      return Ok(mapped);
    }
    var isVolume := StartsWithIgnoreCase(m, path, VOLUME);
    if isVolume {
      r := MapVolumeGuidPath(m, path);
      assert r == Mapped(m, mappings, path);
      return;
    }
    if IsPathPrefix(m, path, SYSTEM_ROOT) {
      r := MapSystemRootPath(m, path);
      assert r == Mapped(m, mappings, path);
      return;
    }
    if IsPathPrefix(m, path, GLOBAL_ROOT) {
      PathPrefixIsShorter(m, path, GLOBAL_ROOT);
      r := MapGlobalRootPath(m, path);
      if |path| == |GLOBAL_ROOT| {
        assert r == Mapped(m, mappings, path);
      } else {
        ghost var table :| IsDriveTable(m, table) && r == MappedDevice(m, table, path[|GLOBAL_ROOT|..]);
        assert r == Mapped(m, table, path);
      }
      return;
    }
    var isDevice := StartsWithIgnoreCase(m, path, DEVICE);
    if isDevice {
      r := MapDevicePath(m, path);
      ghost var table :| IsDriveTable(m, table) && r == MappedDevice(m, table, path);
      assert r == Mapped(m, table, path);
      return;
    }
    assert Mapped(m, mappings, path) == Failed(PathNotInViewNamespace);
    return Failed(PathNotInViewNamespace);
  }

  lemma PathPrefixIsShorter(m: Machine, path: string, prefix: string)
    requires IsPathPrefix(m, path, prefix)
    ensures |prefix| <= |path|
  {
    PrefixIsShorter(m, path, prefix);
  }

  lemma AbsoluteIsLong(m: Machine, path: string)
    requires IsAbsolutePath(m, path)
    ensures |path| >= 7
  {
  }
}
