/** The frames of `common/RpcCodec.hpp`: a header of a magic and a length, and the payload. The
    receive buffer is a vector of bytes which a decoded frame is removed from in place. */
module RpcCodec {
  import opened Outcomes
  import opened Bitwise
  import opened Bytes

  const MAGIC := 0x424F583A
  const HEADER_SIZE := 8
  const MAX_PAYLOAD_SIZE := 64 * 1024 * 1024

  datatype FrameStatus = Complete | NeedMoreData

  datatype FrameOutcome = FrameOutcome(status: FrameStatus, payload: seq<byte>)

  // ----- the frames

  function Header(length: nat): (h: seq<byte>)
    ensures |h| == HEADER_SIZE
  {
    Stored(MAGIC, 4) + Stored(length, 4)
  }

  predicate Sendable(payload: seq<byte>) {
    |payload| <= MAX_PAYLOAD_SIZE
  }

  function Frame(payload: seq<byte>): seq<byte> {
    Header(|payload|) + payload
  }

  function MakeFrameHeader(payload_size: nat): (r: Expected<seq<byte>>)
    ensures r.Ok? <==> payload_size <= MAX_PAYLOAD_SIZE
    ensures r.Ok? ==> |r.value| == HEADER_SIZE && Loaded(r.value[..4]) == MAGIC && Loaded(r.value[4..]) == payload_size
  {
    if payload_size > MAX_PAYLOAD_SIZE then Failed(RpcFrameTooLarge)
    else
      HeaderFields(payload_size);
      Ok(Header(payload_size))
  }

  /** The bytes of a header: `:XOB`, and the length with the lowest byte first. A payload of 64 MiB has
      one, and a longer payload is refused as too large. */
  lemma HeaderBytes(length: nat)
    ensures MakeFrameHeader(length) ==
            if length <= 67108864 then Ok([0x3A, 0x58, 0x4F, 0x42] + LowFirst(length)) else Failed(RpcFrameTooLarge)
  {
    StoredFour(0x424F583A);
    StoredFour(length);
    assert LowFirst(0x424F583A) == [0x3A, 0x58, 0x4F, 0x42];
  }

  lemma HeaderFields(length: nat)
    requires length < 0x1_0000_0000
    ensures Header(length)[..4] == Stored(MAGIC, 4) && Header(length)[4..] == Stored(length, 4)
    ensures Loaded(Header(length)[..4]) == MAGIC && Loaded(Header(length)[4..]) == length
  {
    Bounds();
    LoadedStored(MAGIC, 4);
    LoadedStored(length, 4);
  }

  // ----- decoding the front of a buffer

  datatype Decoded =
    | Decoded(payload: seq<byte>, rest: seq<byte>)
    | Incomplete
    | Invalid(code: ErrorCode)

  function Decode(buffer: seq<byte>): Decoded {
    if |buffer| < HEADER_SIZE then Incomplete
    else if Loaded(buffer[..4]) != MAGIC then Invalid(RpcFrameMagicInvalid)
    else
      var length := Loaded(buffer[4..8]);
      if length > MAX_PAYLOAD_SIZE then Invalid(RpcFrameTooLarge)
      else if |buffer| < HEADER_SIZE + length then Incomplete
      else Decoded(buffer[HEADER_SIZE..HEADER_SIZE + length], buffer[HEADER_SIZE + length..])
  }

  /** What the caller of the decoder sees, and what it finds in the buffer afterwards. */
  function Outcome(d: Decoded): Expected<FrameOutcome> {
    match d
    case Decoded(payload, _) => Ok(FrameOutcome(Complete, payload))
    case Incomplete => Ok(FrameOutcome(NeedMoreData, []))
    case Invalid(code) => Failed(code)
  }

  function Left(buffer: seq<byte>): seq<byte> {
    match Decode(buffer)
    case Decoded(_, rest) => rest
    case _ => buffer
  }

  /** A `std::vector<std::uint8_t>`: the first `size` bytes of a block of memory. */
  class ByteVector {
    var data: array<byte>
    var size: nat

    ghost predicate Valid()
      reads this
    {
      size <= data.Length
    }

    ghost function Contents(): (s: seq<byte>)
      requires Valid()
      reads this, data
      ensures |s| == size
    {
      data[..size]
    }

    constructor ()
      ensures Valid() && fresh(data) && Contents() == []
    {
      data := new byte[16];
      size := 0;
    }

    /** `memmove(data, data + from, size - from)` and `resize(size - from)`: the bytes behind the
        first `from` ones move to the front, one by one and over the bytes that go. */
    method RemoveFront(from: nat)
      requires Valid() && from <= size
      modifies this`size, data
      ensures Valid() && data == old(data)
      ensures Contents() == old(Contents())[from..]
    {
      var left := size - from;
      var i := 0;
      while i < left
        invariant 0 <= i <= left
        invariant forall k :: 0 <= k < i ==> data[k] == old(data[from + k])
        invariant forall k :: i <= k < data.Length ==> data[k] == old(data[k])
      {
        data[i] := data[from + i];
        i := i + 1;
      }
      size := left;
    }

    /** `resize(size + |chunk|)` and `memcpy` behind the old bytes. */
    method Append(chunk: seq<byte>)
      requires Valid()
      modifies this, data
      ensures Valid() && (data == old(data) || fresh(data))
      ensures Contents() == old(Contents()) + chunk
    {
      if data.Length < size + |chunk| {
        var larger := new byte[2 * data.Length + |chunk|];
        forall i | 0 <= i < size {
          larger[i] := data[i];
        }
        data := larger;
      }
      assert data[..size] == old(Contents());
      forall i | 0 <= i < |chunk| {
        data[size + i] := chunk[i];
      }
      size := size + |chunk|;
    }

    method TryDecodeFrame() returns (outcome: Expected<FrameOutcome>)
      requires Valid()
      modifies this`size, data
      ensures Valid() && data == old(data)
      ensures outcome == Outcome(Decode(old(Contents())))
      ensures Contents() == Left(old(Contents()))
    {
      if size < HEADER_SIZE {
        return Ok(FrameOutcome(NeedMoreData, []));
      }

      var magic, length := Loaded(data[..4]), Loaded(data[4..8]);
      assert data[..4] == Contents()[..4] && data[4..8] == Contents()[4..8];

      if magic != MAGIC {
        return Failed(RpcFrameMagicInvalid);
      }

      if length > MAX_PAYLOAD_SIZE {
        return Failed(RpcFrameTooLarge);
      }

      var total := length + HEADER_SIZE;
      if size < total {
        return Ok(FrameOutcome(NeedMoreData, []));
      }

      var payload := data[HEADER_SIZE..total];
      assert payload == Contents()[HEADER_SIZE..total];
      RemoveFront(total);
      return Ok(FrameOutcome(Complete, payload));
    }
  }

  // ----- what the decoder accepts

  lemma DecodeFrame(payload: seq<byte>, rest: seq<byte>)
    requires Sendable(payload)
    ensures Decode(Frame(payload) + rest) == Decoded(payload, rest)
  {
    var buffer := Frame(payload) + rest;
    HeaderFields(|payload|);
    assert buffer[..4] == Header(|payload|)[..4];
    assert buffer[4..8] == Header(|payload|)[4..];
  }

  lemma CutInFour(buffer: seq<byte>, n: nat)
    requires HEADER_SIZE + n <= |buffer|
    ensures buffer == buffer[..4] + buffer[4..8] + buffer[8..8 + n] + buffer[8 + n..]
  {
  }

  lemma DecodedIsFrame(buffer: seq<byte>)
    requires Decode(buffer).Decoded?
    ensures var d := Decode(buffer);
            Sendable(d.payload) && buffer == Frame(d.payload) + d.rest
  {
    hide Stored, Loaded;
    StoredLoaded(buffer[..4]);
    StoredLoaded(buffer[4..8]);
    CutInFour(buffer, Loaded(buffer[4..8]));
  }

  /** A decoded frame took exactly the bytes of its frame off the buffer. */
  lemma DecodedExactly(buffer: seq<byte>, payload: seq<byte>, rest: seq<byte>)
    ensures Decode(buffer) == Decoded(payload, rest) <==> Sendable(payload) && buffer == Frame(payload) + rest
  {
    if Decode(buffer) == Decoded(payload, rest) {
      DecodedIsFrame(buffer);
    }
    if Sendable(payload) && buffer == Frame(payload) + rest {
      DecodeFrame(payload, rest);
    }
  }

  predicate StartsFrame(header: seq<byte>)
    requires |header| == HEADER_SIZE
  {
    Loaded(header[..4]) == MAGIC && Loaded(header[4..]) <= MAX_PAYLOAD_SIZE
  }

  /** The headers the decoder lets through are the headers `MakeFrameHeader` makes. */
  lemma StartsFrameExactly(header: seq<byte>)
    requires |header| == HEADER_SIZE
    ensures StartsFrame(header) <==> exists n: nat :: n <= MAX_PAYLOAD_SIZE && MakeFrameHeader(n) == Ok(header)
  {
    if StartsFrame(header) {
      StoredLoaded(header[..4]);
      StoredLoaded(header[4..]);
      assert header == header[..4] + header[4..];
      assert MakeFrameHeader(Loaded(header[4..])) == Ok(header);
    }
  }

  /** A frame the buffer could still become. */
  lemma Completion(buffer: seq<byte>) returns (payload: seq<byte>)
    requires Decode(buffer).Incomplete? && |buffer| >= HEADER_SIZE
    ensures Sendable(payload) && buffer < Frame(payload)
  {
    var n := Loaded(buffer[4..8]);
    payload := buffer[8..] + seq(n - |buffer| + 8, i => 0 as byte);
    StoredLoaded(buffer[..4]);
    StoredLoaded(buffer[4..8]);
    assert buffer[..8] == buffer[..4] + buffer[4..8] == Header(n);
    assert buffer == buffer[..8] + buffer[8..];
  }

  lemma UnfinishedIsIncomplete(buffer: seq<byte>, payload: seq<byte>)
    requires Sendable(payload) && buffer < Frame(payload)
    ensures Decode(buffer).Incomplete?
  {
    if |buffer| >= HEADER_SIZE {
      HeaderFields(|payload|);
      assert buffer[..4] == Header(|payload|)[..4] && buffer[4..8] == Header(|payload|)[4..];
    }
  }

  /** The decoder asks for more exactly while the buffer is too short to tell, or holds a frame
      that has begun and not ended; it never asks for more with a whole frame's worth of bytes. */
  lemma IncompleteExactly(buffer: seq<byte>)
    ensures Decode(buffer).Incomplete? <==>
            |buffer| < HEADER_SIZE
            || exists payload: seq<byte> :: Sendable(payload) && buffer < Frame(payload)
    ensures Decode(buffer).Incomplete? ==> |buffer| < HEADER_SIZE + MAX_PAYLOAD_SIZE
  {
    if Decode(buffer).Incomplete? && |buffer| >= HEADER_SIZE {
      var payload := Completion(buffer);
    }
    if payload: seq<byte> :| Sendable(payload) && buffer < Frame(payload) {
      UnfinishedIsIncomplete(buffer, payload);
    }
  }

  lemma FrontFrameDecodes(buffer: seq<byte>, payload: seq<byte>)
    requires Sendable(payload) && Frame(payload) <= buffer
    ensures Decode(buffer) == Decoded(payload, buffer[|Frame(payload)|..])
  {
    hide Frame, Decode, Sendable;
    var rest := buffer[|Frame(payload)|..];
    assert buffer == Frame(payload) + rest;
    DecodeFrame(payload, rest);
  }

  /** A buffer is refused exactly when it is long enough to tell and neither begins with a frame
      nor is the beginning of one. */
  lemma InvalidExactly(buffer: seq<byte>)
    ensures Decode(buffer).Invalid? <==>
            |buffer| >= HEADER_SIZE
            && forall payload: seq<byte> :: Sendable(payload) ==>
                 !(Frame(payload) <= buffer) && !(buffer < Frame(payload))
  {
    IncompleteExactly(buffer);
    match Decode(buffer)
    case Decoded(payload, rest) =>
      DecodedExactly(buffer, payload, rest);
      assert Frame(payload) <= buffer;
    case Incomplete =>
    case Invalid(code) =>
      forall payload: seq<byte> | Sendable(payload)
        ensures !(Frame(payload) <= buffer)
      {
        if Frame(payload) <= buffer {
          FrontFrameDecodes(buffer, payload);
        }
      }
  }

  /** Which code a buffer is refused with. */
  lemma InvalidCodes(buffer: seq<byte>)
    ensures Decode(buffer) == Invalid(RpcFrameMagicInvalid) <==>
            |buffer| >= 8 && buffer[..4] != [0x3A, 0x58, 0x4F, 0x42]
    ensures Decode(buffer) == Invalid(RpcFrameTooLarge) <==>
            |buffer| >= 8 && buffer[..4] == [0x3A, 0x58, 0x4F, 0x42] && Loaded(buffer[4..8]) > 67108864
    ensures Decode(buffer).Invalid? ==> Decode(buffer).code in {RpcFrameMagicInvalid, RpcFrameTooLarge}
  {
    if |buffer| >= 8 {
      StoredLoaded(buffer[..4]);
      MagicBytes();
    }
    hide Stored, Loaded;
  }

  lemma MagicBytes()
    ensures Stored(0x424F583A, 4) == [0x3A, 0x58, 0x4F, 0x42]
    ensures Loaded([0x3A, 0x58, 0x4F, 0x42]) == 0x424F583A
  {
    Bounds();
    StoredFour(0x424F583A);
    LoadedStored(0x424F583A, 4);
    assert LowFirst(0x424F583A) == [0x3A, 0x58, 0x4F, 0x42];
  }

  /** The verdict on a buffer stands, whatever arrives behind it. */
  lemma DecodePrefixStable(buffer: seq<byte>, more: seq<byte>)
    ensures match Decode(buffer)
            case Decoded(payload, rest) => Decode(buffer + more) == Decoded(payload, rest + more)
            case Invalid(code) => Decode(buffer + more) == Invalid(code)
            case Incomplete => true
  {
    if |buffer| >= HEADER_SIZE {
      assert (buffer + more)[..4] == buffer[..4] && (buffer + more)[4..8] == buffer[4..8];
      var end := HEADER_SIZE + Loaded(buffer[4..8]);
      if end <= |buffer| {
        assert (buffer + more)[end..] == buffer[end..] + more;
        assert (buffer + more)[HEADER_SIZE..end] == buffer[HEADER_SIZE..end];
      }
    }
  }
}
