/** The trailer of a self-extracting program, `common/ExecutablePayload.hpp`: 32 bytes behind the
    payload, which tell where in the file the payload lies. */
module ExecutablePayload {
  import opened Outcomes
  import opened Bitwise
  import opened Bytes

  const TRAILER_SIZE := 32
  const TRAILER_VERSION := 1

  /** `APPBOXSF` */
  const MAGIC: seq<byte> := [0x41, 0x50, 0x50, 0x42, 0x4F, 0x58, 0x53, 0x46]

  type uint64 = x: int | 0 <= x < 0x1_0000_0000_0000_0000

  datatype PayloadLocation = PayloadLocation(offset: uint64, size: uint64)

  function Trailer(location: PayloadLocation): (t: seq<byte>)
    ensures |t| == TRAILER_SIZE
  {
    Stored(location.offset, 8) + Stored(location.size, 8) + Stored(TRAILER_VERSION, 4) + Stored(0, 4) + MAGIC
  }

  /** `memcpy(target + at, source, |source|)` */
  method CopyInto(target: array<byte>, at: nat, source: seq<byte>)
    requires at + |source| <= target.Length
    modifies target
    ensures target[..] == old(target[..at]) + source + old(target[at + |source|..])
  {
    var i := 0;
    while i < |source|
      invariant 0 <= i <= |source|
      invariant forall k :: 0 <= k < i ==> target[at + k] == source[k]
      invariant forall k :: 0 <= k < target.Length && !(at <= k < at + i) ==> target[k] == old(target[k])
    {
      target[at + i] := source[i];
      i := i + 1;
    }
    assert target[..at] == old(target[..at]) && target[at..at + i] == source;
    assert target[at + i..] == old(target[at + |source|..]);
    assert target[..] == target[..at] + target[at..at + i] + target[at + i..];
  }

  method BuildTrailer(location: PayloadLocation) returns (trailer: array<byte>)
    ensures fresh(trailer) && trailer[..] == Trailer(location)
  {
    hide Stored;
    trailer := new byte[TRAILER_SIZE](i => 0);
    CopyInto(trailer, 0, Stored(location.offset, 8));
    CopyInto(trailer, 8, Stored(location.size, 8));
    var version := TRAILER_VERSION;
    CopyInto(trailer, 16, Stored(version, 4));
    var reserved := 0;
    CopyInto(trailer, 20, Stored(reserved, 4));
    CopyInto(trailer, 24, MAGIC);
  }

  /** A file the system can measure, open and read, and the failures of the three. */
  datatype File = Unmeasurable | Unopenable(size: uint64) | Unreadable(size: uint64) | Readable(bytes: seq<byte>)

  predicate FitsFileSize(file: File) {
    file.Readable? ==> |file.bytes| < 0x1_0000_0000_0000_0000
  }

  method ReadTrailer(program: File) returns (r: Expected<Option<PayloadLocation>>)
    requires FitsFileSize(program)
    ensures r == Read(program)
  {
    hide Loaded, Stored, Bound;
    if program.Unmeasurable? {
      return Failed(PayloadTrailerUnreadable);
    }
    var fileSize: uint64 := if program.Readable? then |program.bytes| else program.size;
    if fileSize < TRAILER_SIZE {
      return Ok(None);
    }
    if program.Unopenable? {
      return Failed(PayloadTrailerUnreadable);
    }
    if program.Unreadable? {
      return Failed(PayloadTrailerUnreadable);
    }

    var trailer := new byte[TRAILER_SIZE](i => 0);
    CopyInto(trailer, 0, program.bytes[fileSize - TRAILER_SIZE..]);
    assert trailer[..] == program.bytes[fileSize - TRAILER_SIZE..];
    if trailer[24..] != MAGIC {
      return Ok(None);
    }

    var offset := Loaded(trailer[..8]);
    var size := Loaded(trailer[8..16]);
    var version := Loaded(trailer[16..20]);
    var reserved := Loaded(trailer[20..24]);
    Bounds();
    ghost var location := PayloadLocation(offset, size);
    TrailerExactly(trailer[..], location);
    assert trailer[..8] == trailer[..][..8] && trailer[8..16] == trailer[..][8..16];
    assert trailer[16..20] == trailer[..][16..20] && trailer[20..24] == trailer[..][20..24];
    assert LocationOf(program.bytes) == location;

    var payloadEnd := fileSize - TRAILER_SIZE;
    if version != TRAILER_VERSION || reserved != 0 || size == 0 || offset > payloadEnd
       || size != payloadEnd - offset {
      return Failed(PayloadTrailerInconsistent);
    }
    return Ok(Some(PayloadLocation(offset, size)));
  }

  // ----- the layout

  /** A field holds a value exactly when the value, stored, is the field. */
  lemma FieldExactly(field: seq<byte>, value: nat)
    requires value < Bound(|field|)
    ensures field == Stored(value, |field|) <==> Loaded(field) == value
  {
    LoadedStored(value, |field|);
    StoredLoaded(field);
  }

  lemma CutInFive(t: seq<byte>, a: seq<byte>, b: seq<byte>, c: seq<byte>, d: seq<byte>, e: seq<byte>)
    requires |t| == 32 && |a| == |b| == 8 && |c| == |d| == 4 && |e| == 8
    ensures t == a + b + c + d + e
            <==> t[..8] == a && t[8..16] == b && t[16..20] == c && t[20..24] == d && t[24..] == e
  {
    assert t == t[..8] + t[8..16] + t[16..20] + t[20..24] + t[24..];
    var u := a + b + c + d + e;
    assert u[..8] == a && u[8..16] == b && u[16..20] == c && u[20..24] == d && u[24..] == e;
  }

  /** A trailer is the trailer of a location exactly when its five fields say so. */
  lemma TrailerExactly(t: seq<byte>, location: PayloadLocation)
    requires |t| == TRAILER_SIZE
    ensures t == Trailer(location) <==>
            && Loaded(t[..8]) == location.offset && Loaded(t[8..16]) == location.size
            && Loaded(t[16..20]) == TRAILER_VERSION && Loaded(t[20..24]) == 0
            && t[24..] == MAGIC
  {
    Bounds();
    FieldExactly(t[..8], location.offset);
    FieldExactly(t[8..16], location.size);
    FieldExactly(t[16..20], TRAILER_VERSION);
    FieldExactly(t[20..24], 0);
    hide Stored, Loaded;
    CutInFive(t, Stored(location.offset, 8), Stored(location.size, 8), Stored(TRAILER_VERSION, 4), Stored(0, 4), MAGIC);
  }

  // ----- what the reader answers

  /** The program the packer writes: the image of the launcher, the payload, and the trailer. */
  function Packed(image: seq<byte>, payload: seq<byte>): seq<byte>
    requires |image| + |payload| < 0x1_0000_0000_0000_0000
  {
    image + payload + Trailer(PayloadLocation(|image|, |payload|))
  }

  predicate EndsWithMagic(bytes: seq<byte>) {
    |bytes| >= TRAILER_SIZE && bytes[|bytes| - 8..] == MAGIC
  }

  /** The trailer of the file describes the bytes in front of it, and there are some. */
  predicate Describes(bytes: seq<byte>, location: PayloadLocation) {
    && location.size > 0
    && location.offset + location.size + TRAILER_SIZE == |bytes|
    && bytes[|bytes| - TRAILER_SIZE..] == Trailer(location)
  }

  function LocationOf(bytes: seq<byte>): PayloadLocation
    requires |bytes| >= TRAILER_SIZE
  {
    var trailer := bytes[|bytes| - TRAILER_SIZE..];
    Bounds();
    PayloadLocation(Loaded(trailer[..8]), Loaded(trailer[8..16]))
  }

  function Read(program: File): Expected<Option<PayloadLocation>>
    requires FitsFileSize(program)
  {
    match program
    case Unmeasurable => Failed(PayloadTrailerUnreadable)
    case Unopenable(size) => if size < TRAILER_SIZE then Ok(None) else Failed(PayloadTrailerUnreadable)
    case Unreadable(size) => if size < TRAILER_SIZE then Ok(None) else Failed(PayloadTrailerUnreadable)
    case Readable(bytes) =>
      if !EndsWithMagic(bytes) then Ok(None)
      else if Describes(bytes, LocationOf(bytes)) then Ok(Some(LocationOf(bytes)))
      else Failed(PayloadTrailerInconsistent)
  }

  lemma MagicCloses(bytes: seq<byte>, location: PayloadLocation)
    requires |bytes| >= TRAILER_SIZE && bytes[|bytes| - TRAILER_SIZE..] == Trailer(location)
    ensures EndsWithMagic(bytes) && LocationOf(bytes) == location
  {
    TrailerExactly(Trailer(location), location);
    assert bytes[|bytes| - 8..] == Trailer(location)[24..];
  }

  /** The reader finds a payload exactly in the files the packer writes, and finds it where the
      packer put it. */
  lemma ReadExactly(bytes: seq<byte>, location: PayloadLocation)
    requires FitsFileSize(Readable(bytes))
    ensures Read(Readable(bytes)) == Ok(Some(location)) <==>
            location.offset + location.size <= |bytes| && location.size > 0
            && bytes == Packed(bytes[..location.offset], bytes[location.offset..location.offset + location.size])
  {
    hide Trailer;
    var end := location.offset + location.size;
    if Read(Readable(bytes)) == Ok(Some(location)) {
      assert bytes == bytes[..location.offset] + bytes[location.offset..end] + bytes[end..];
    }
    if end <= |bytes| && location.size > 0 {
      var image, payload := bytes[..location.offset], bytes[location.offset..end];
      if bytes == Packed(image, payload) {
        assert bytes[|bytes| - TRAILER_SIZE..] == Trailer(location);
        MagicCloses(bytes, location);
      }
    }
  }

  /** What is packed is read back, unless there is nothing in the package. */
  lemma ReadPacked(image: seq<byte>, payload: seq<byte>)
    requires |image| + |payload| + TRAILER_SIZE < 0x1_0000_0000_0000_0000
    ensures Read(Readable(Packed(image, payload))) ==
            if payload == [] then Failed(PayloadTrailerInconsistent)
            else Ok(Some(PayloadLocation(|image|, |payload|)))
  {
    hide Trailer;
    var bytes := Packed(image, payload);
    assert bytes[|bytes| - TRAILER_SIZE..] == Trailer(PayloadLocation(|image|, |payload|));
    MagicCloses(bytes, PayloadLocation(|image|, |payload|));
  }

  predicate IsPackage(bytes: seq<byte>, image: seq<byte>, payload: seq<byte>) {
    payload != [] && |image| + |payload| < 0x1_0000_0000_0000_0000 && bytes == Packed(image, payload)
  }

  lemma ReadBranches(bytes: seq<byte>)
    requires FitsFileSize(Readable(bytes))
    ensures Read(Readable(bytes)) == Ok(None) <==> !EndsWithMagic(bytes)
    ensures Read(Readable(bytes)).Failed? ==> Read(Readable(bytes)) == Failed(PayloadTrailerInconsistent)
  {
    hide EndsWithMagic, Describes, LocationOf;
  }

  ghost predicate IsSomePackage(bytes: seq<byte>) {
    exists image, payload :: IsPackage(bytes, image, payload)
  }

  /** Every file is of one of three kinds. Without the magic at its end it is a plain program; with
      the magic it has a payload when the packer may have written it, and is refused otherwise. What
      the packer writes has the magic. */
  lemma AnswersExactly(bytes: seq<byte>)
    requires FitsFileSize(Readable(bytes))
    ensures Read(Readable(bytes)) == Ok(None) <==> !EndsWithMagic(bytes)
    ensures Read(Readable(bytes)).Ok? && Read(Readable(bytes)).value.Some? <==> IsSomePackage(bytes)
    ensures Read(Readable(bytes)) == Failed(PayloadTrailerInconsistent) <==>
            EndsWithMagic(bytes) && !IsSomePackage(bytes)
    ensures IsSomePackage(bytes) ==> EndsWithMagic(bytes)
  {
    hide Read, EndsWithMagic, Describes, Packed, LocationOf;
    ReadBranches(bytes);
    var answer := Read(Readable(bytes));
    if image, payload :| IsPackage(bytes, image, payload) {
      PackageIsRead(bytes, image, payload);
    }
    if answer.Ok? && answer.value.Some? {
      var location := answer.value.value;
      ReadExactly(bytes, location);
      assert IsPackage(bytes, bytes[..location.offset], bytes[location.offset..location.offset + location.size]);
    }
  }

  lemma PackageIsRead(bytes: seq<byte>, image: seq<byte>, payload: seq<byte>)
    requires FitsFileSize(Readable(bytes)) && IsPackage(bytes, image, payload)
    ensures Read(Readable(bytes)).Ok? && Read(Readable(bytes)).value.Some?
  {
    hide Trailer, Read;
    ReadPacked(image, payload);
  }

  // ----- the bytes, and the files that cannot be read

  /** The bytes of the trailer: the two 64 bit fields with the lowest byte first, version one,
      nothing, and the letters `APPBOXSF`. */
  lemma TrailerBytes(location: PayloadLocation)
    ensures var (o, z) := (location.offset, location.size);
            Trailer(location)[..16] == LowFirst(o) + LowFirst(o / 0x1_0000_0000)
                                       + LowFirst(z) + LowFirst(z / 0x1_0000_0000)
    ensures Trailer(location)[16..] == [1, 0, 0, 0, 0, 0, 0, 0, 0x41, 0x50, 0x50, 0x42, 0x4F, 0x58, 0x53, 0x46]
  {
    StoredFour(1);
    StoredFour(0);
    StoredEight(location.offset);
    StoredEight(location.size);
    hide Stored, LowFirst;
    assert LowFirst(1) == [1, 0, 0, 0] && LowFirst(0) == [0, 0, 0, 0] by { LowFirstOfSmall(); }
    CutInFive(Trailer(location), Stored(location.offset, 8), Stored(location.size, 8), [1, 0, 0, 0], [0, 0, 0, 0], MAGIC);
    var t := Trailer(location);
    assert t[16..] == t[16..20] + t[20..24] + t[24..];
    assert t[..16] == t[..8] + t[8..16];
  }

  lemma LowFirstOfSmall()
    ensures LowFirst(1) == [1, 0, 0, 0] && LowFirst(0) == [0, 0, 0, 0]
  {
  }

  /** A file that cannot be measured is unreadable, one that is shorter than a trailer is a plain
      program whether it can be read or not, and any other that cannot be opened or read is unreadable. */
  lemma UnreadableExactly(program: File)
    requires FitsFileSize(program)
    ensures Read(program) == Failed(PayloadTrailerUnreadable) <==>
            || program == Unmeasurable
            || ((program.Unopenable? || program.Unreadable?) && program.size >= 32)
    ensures (program.Unopenable? || program.Unreadable?) && program.size < 32 ==> Read(program) == Ok(None)
    ensures program.Readable? && |program.bytes| < 32 ==> Read(program) == Ok(None)
  {
    hide LocationOf, Describes;
  }
}
