/**
 * Length-prefixed framing on a TCP stream (common/network_util.py).
 *
 * A frame is the payload's UTF-8 length as a 4-byte big-endian unsigned
 * integer followed by the UTF-8 payload. The reader asks the socket for no
 * more than what the current frame still lacks, so the bytes of the next
 * frame stay in the socket however `recv` splits its deliveries.
 */
module NetworkUtil {
  import opened Wrappers
  import opened Utf8

  /** Width of the length header (`SIZE_BYTES`); `STRUCT_IDENTIFIER` is ">I". */
  const SIZE_BYTES: nat := 4

  /** One past the largest length a `>I` header can carry. */
  const UINT32_LIMIT: nat := 0x1_0000_0000

  /** Errors of the framing layer. */
  datatype ReadError =
    | TcpConnectionError(msg: string)   // TCPConnectionError
    | UnicodeDecodeError                // bytes.decode('utf8') on malformed input

  /** The message raised when `recv` itself fails. */
  const SOCKET_CLOSED: string := "Socket Closed"
  /** The message raised when `recv` reports the end of the stream too early. */
  const READ_FAILED: string := "Connection error while reading data."

  /** `struct.error`, raised by `struct.pack('>I', n)` when `n` does not fit in 32 bits. */
  datatype PackError = StructError

  // ---------------------------------------------------------------- header

  /** `struct.pack('>I', n)`. */
  function BigEndian32(n: nat): (r: seq<byte>)
    requires n < UINT32_LIMIT
    ensures |r| == SIZE_BYTES
  {
    [(n / 0x100_0000) as byte, ((n / 0x1_0000) % 256) as byte,
     ((n / 0x100) % 256) as byte, (n % 256) as byte]
  }

  /** `struct.unpack('>I', b)[0]`. */
  function FromBigEndian32(b: seq<byte>): (n: nat)
    requires |b| == SIZE_BYTES
    ensures n < UINT32_LIMIT
  {
    ((b[0] as int * 256 + b[1] as int) * 256 + b[2] as int) * 256 + b[3] as int
  }

  /** Unpacking a packed header gives back the length. */
  lemma HeaderRoundTrip(n: nat)
    requires n < UINT32_LIMIT
    ensures FromBigEndian32(BigEndian32(n)) == n
  {
    var b := BigEndian32(n);
    assert n == (n / 0x100_0000) * 0x100_0000 + ((n / 0x1_0000) % 256) * 0x1_0000
                + ((n / 0x100) % 256) * 0x100 + n % 256;
  }

  /** Packing an unpacked header gives back the four bytes: the header is a bijection. */
  lemma HeaderUnpackPack(b: seq<byte>)
    requires |b| == SIZE_BYTES
    ensures BigEndian32(FromBigEndian32(b)) == b
  {
    var n := FromBigEndian32(b);
    assert n / 0x100_0000 == b[0] as int;
    assert n / 0x1_0000 == b[0] as int * 256 + b[1] as int;
    assert n / 0x100 == (b[0] as int * 256 + b[1] as int) * 256 + b[2] as int;
  }

  // ---------------------------------------------------------------- pack

  /**
   * `pack(data)`: the header carrying the length of `data`'s UTF-8 encoding,
   * then that encoding; `struct.error` if the length does not fit the header.
   */
  function Pack(data: string): (r: Result<seq<byte>, PackError>)
    ensures r.Success? <==> |Encode(data)| < UINT32_LIMIT
    ensures r.Success? ==>
              && |r.value| == SIZE_BYTES + |Encode(data)|
              && FromBigEndian32(r.value[..SIZE_BYTES]) == |Encode(data)|
              && r.value[SIZE_BYTES..] == Encode(data)
  {
    var bytes := Encode(data);
    if |bytes| < UINT32_LIMIT then
      HeaderRoundTrip(|bytes|);
      Success(BigEndian32(|bytes|) + bytes)
    else
      Failure(StructError)
  }

  // ---------------------------------------------------------------- socket

  /** One call of `recv`: the size asked for and the number of bytes handed back. */
  datatype RecvCall = RecvCall(requested: nat, delivered: nat)

  /** Total number of bytes delivered by a series of `recv` calls. */
  function Delivered(calls: seq<RecvCall>): nat {
    if calls == [] then 0 else Delivered(calls[..|calls| - 1]) + calls[|calls| - 1].delivered
  }

  /**
   * The receiving end of a TCP connection. `stream` holds every byte the peer
   * has sent that has not been received yet; the stream ends after them.
   * On a `faulty` socket (closed or reset locally) every `recv` raises.
   * `log` records every `recv` made.
   */
  class Socket {
    var stream: seq<byte>
    var faulty: bool
    var log: seq<RecvCall>

    constructor (stream: seq<byte>, faulty: bool)
      ensures this.stream == stream && this.faulty == faulty && log == []
    {
      this.stream := stream;
      this.faulty := faulty;
      log := [];
    }

    /**
     * `recv(n)`: None when it raises; otherwise a prefix of the stream of at
     * most `n` bytes. The length of the delivery is up to the network: at
     * least one byte whenever one is asked for and the stream has one, and
     * none only at the end of the stream.
     */
    method Recv(n: nat) returns (r: Option<seq<byte>>)
      modifies this
      ensures faulty == old(faulty)
      ensures old(faulty) ==> r == None && stream == old(stream)
      ensures !old(faulty) ==>
                && r.Some? && |r.value| <= n
                && old(stream) == r.value + stream
                && (n > 0 && old(stream) != [] ==> r.value != [])
      ensures log == old(log) + [RecvCall(n, if r.Some? then |r.value| else 0)]
    {
      if faulty {
        r := None;
      } else {
        var most := if n < |stream| then n else |stream|;
        var k: nat :| k <= most && (most > 0 ==> k > 0);
        r := Some(stream[..k]);
        stream := stream[k..];
      }
      log := log + [RecvCall(n, if r.Some? then |r.value| else 0)];
    }
  }

  // ---------------------------------------------------------------- reading

  /** The bytes of `chunks` joined: `b"".join(total_data)`. */
  function Join(chunks: seq<seq<byte>>): seq<byte> {
    if chunks == [] then [] else Join(chunks[..|chunks| - 1]) + chunks[|chunks| - 1]
  }

  /** `sum([len(i) for i in total_data])`. */
  function SumLens(chunks: seq<seq<byte>>): nat {
    if chunks == [] then 0 else SumLens(chunks[..|chunks| - 1]) + |chunks[|chunks| - 1]|
  }

  /** The running total the reader recomputes is the length of what it has joined. */
  lemma {:induction false} SumLensIsJoinLength(chunks: seq<seq<byte>>)
    ensures SumLens(chunks) == |Join(chunks)|
  {
    if chunks != [] {
      SumLensIsJoinLength(chunks[..|chunks| - 1]);
    }
  }

  /**
   * Every `recv` in `calls` asked for exactly what a `size`-byte read still
   * lacked: `size` minus what the calls before it delivered.
   */
  ghost predicate AsksOnlyRemainder(calls: seq<RecvCall>, size: nat) {
    calls == [] ||
    (var before := calls[..|calls| - 1];
     AsksOnlyRemainder(before, size) && calls[|calls| - 1].requested + Delivered(before) == size)
  }

  /** AsksOnlyRemainder, call by call. */
  lemma {:induction false} AsksOnlyRemainderAt(calls: seq<RecvCall>, size: nat, k: nat)
    requires AsksOnlyRemainder(calls, size) && k < |calls|
    ensures calls[k].requested + Delivered(calls[..k]) == size
    ensures calls[k].requested <= size
  {
    if k < |calls| - 1 {
      var before := calls[..|calls| - 1];
      AsksOnlyRemainderAt(before, size, k);
      assert before[..k] == calls[..k];
    }
  }

  /**
   * What `read_bytes_from_socket(socket, size)` makes of a socket, as a
   * function of its stream: the outcome and the bytes left in the stream.
   * With `size == 0` nothing is read; a faulty socket raises at the first
   * `recv`; a healthy one yields the first `size` bytes and leaves the rest,
   * or raises after consuming everything if the stream ends too soon.
   */
  function ReadBytesSpec(stream: seq<byte>, faulty: bool, size: nat): (r: (Result<seq<byte>, ReadError>, seq<byte>))
    ensures r.0.Success? ==> |r.0.value| == size && stream == r.0.value + r.1
    ensures r.0.Failure? ==> size > 0 && r.0.error.TcpConnectionError?
  {
    if size == 0 then (Success([]), stream)
    else if faulty then (Failure(TcpConnectionError(SOCKET_CLOSED)), stream)
    else if size <= |stream| then (Success(stream[..size]), stream[size..])
    else (Failure(TcpConnectionError(READ_FAILED)), [])
  }

  /**
   * `read_bytes_from_socket(socket, size)`: behaves as ReadBytesSpec however
   * `recv` splits the stream, and every `recv` asks for `size` minus what
   * has already arrived, so nothing past the `size` bytes is consumed.
   */
  method ReadBytesFromSocket(socket: Socket, size: nat) returns (r: Result<seq<byte>, ReadError>)
    modifies socket
    ensures socket.faulty == old(socket.faulty)
    ensures (r, socket.stream) == ReadBytesSpec(old(socket.stream), old(socket.faulty), size)
    ensures |old(socket.log)| <= |socket.log| && socket.log[..|old(socket.log)|] == old(socket.log)
    ensures size == 0 ==> socket.log == old(socket.log)
    ensures AsksOnlyRemainder(socket.log[|old(socket.log)|..], size)
  {
    ghost var stream0 := socket.stream;
    ghost var log0 := socket.log;
    ghost var calls: seq<RecvCall> := [];
    var totalLen: nat := 0;
    var totalData: seq<seq<byte>> := [];
    var recvSize: nat := size;

    while totalLen < size
      invariant totalLen <= size && recvSize == size - totalLen
      invariant totalLen == SumLens(totalData) == |Join(totalData)|
      invariant stream0 == Join(totalData) + socket.stream
      invariant socket.faulty == old(socket.faulty)
      invariant (old(socket.faulty) || size == 0) ==> calls == [] && totalData == []
      invariant socket.log == log0 + calls
      invariant Delivered(calls) == totalLen
      invariant AsksOnlyRemainder(calls, size)
      decreases size - totalLen
    {
      var sockData := socket.Recv(recvSize);
      var call := RecvCall(recvSize, if sockData.Some? then |sockData.value| else 0);
      AsksExtend(calls, call, size);
      calls := calls + [call];
      if sockData.None? {
        assert socket.log[|log0|..] == calls;
        assert Join(totalData) == [] && socket.stream == stream0;
        return Failure(TcpConnectionError(SOCKET_CLOSED));
      }
      var chunk := sockData.value;
      if chunk == [] {
        assert socket.log[|log0|..] == calls;
        return Failure(TcpConnectionError(READ_FAILED));
      }
      JoinAppend(totalData, chunk);
      totalData := totalData + [chunk];
      SumLensIsJoinLength(totalData);
      totalLen := SumLens(totalData);
      recvSize := size - totalLen;
    }
    assert socket.log[|log0|..] == calls;
    assert stream0[..size] == Join(totalData) && stream0[size..] == socket.stream;
    r := Success(Join(totalData));
  }

  /** Joining one more chunk appends it; the running total grows by its length. */
  lemma JoinAppend(chunks: seq<seq<byte>>, chunk: seq<byte>)
    ensures Join(chunks + [chunk]) == Join(chunks) + chunk
    ensures SumLens(chunks + [chunk]) == SumLens(chunks) + |chunk|
  {
    assert (chunks + [chunk])[..|chunks|] == chunks;
  }

  /** A call that asks for exactly the remainder keeps AsksOnlyRemainder. */
  lemma AsksExtend(calls: seq<RecvCall>, call: RecvCall, size: nat)
    requires AsksOnlyRemainder(calls, size)
    requires call.requested + Delivered(calls) == size
    ensures AsksOnlyRemainder(calls + [call], size)
    ensures Delivered(calls + [call]) == Delivered(calls) + call.delivered
  {
    assert (calls + [call])[..|calls|] == calls;
  }

  /** What `read_message` makes of a stream: its outcome and the number of bytes it consumes. */
  datatype FrameRead = FrameRead(outcome: Result<string, ReadError>, consumed: nat)

  /**
   * The specification of `read_message` on a healthy socket, as a function of
   * the bytes in the stream: read the header, then the body, then decode it.
   */
  function ParseFrame(stream: seq<byte>): (r: FrameRead)
    ensures r.consumed <= |stream|
    ensures r.outcome.Success? ==> SIZE_BYTES <= r.consumed
  {
    if |stream| < SIZE_BYTES then
      FrameRead(Failure(TcpConnectionError(READ_FAILED)), |stream|)
    else
      var messageSize := FromBigEndian32(stream[..SIZE_BYTES]);
      if |stream| - SIZE_BYTES < messageSize then
        FrameRead(Failure(TcpConnectionError(READ_FAILED)), |stream|)
      else
        var end := SIZE_BYTES + messageSize;
        match Decode(stream[SIZE_BYTES..end])
        case None => FrameRead(Failure(UnicodeDecodeError), end)
        case Some(s) => FrameRead(Success(s), end)
  }

  /**
   * `read_message(socket)`: on a healthy socket the outcome and the bytes
   * consumed are those of ParseFrame, whatever the chunking; on a faulty one
   * it raises at once and consumes nothing.
   */
  method ReadMessage(socket: Socket) returns (r: Result<string, ReadError>)
    modifies socket
    ensures socket.faulty == old(socket.faulty)
    ensures old(socket.faulty) ==>
              r == Failure(TcpConnectionError(SOCKET_CLOSED)) && socket.stream == old(socket.stream)
    ensures !old(socket.faulty) ==>
              && r == ParseFrame(old(socket.stream)).outcome
              && socket.stream == old(socket.stream)[ParseFrame(old(socket.stream)).consumed..]
  {
    ghost var stream0 := socket.stream;
    var sizeData := ReadBytesFromSocket(socket, SIZE_BYTES);
    if sizeData.Failure? {
      return Failure(sizeData.error);
    }
    var messageSize := FromBigEndian32(sizeData.value);
    var data := ReadBytesFromSocket(socket, messageSize);
    if data.Failure? {
      return Failure(data.error);
    }
    assert stream0[SIZE_BYTES..][..messageSize] == stream0[SIZE_BYTES..SIZE_BYTES + messageSize];
    assert stream0[SIZE_BYTES..][messageSize..] == stream0[SIZE_BYTES + messageSize..];
    var text := Decode(data.value);
    if text.None? {
      return Failure(UnicodeDecodeError);
    }
    r := Success(text.value);
  }

  /**
   * The framing round trip: on a stream that starts with `pack(s)`,
   * `read_message` yields `s` and consumes exactly the frame, leaving
   * whatever follows (the next frame) untouched.
   */
  lemma FrameRoundTrip(s: string, rest: seq<byte>)
    requires Pack(s).Success?
    ensures ParseFrame(Pack(s).value + rest) == FrameRead(Success(s), |Pack(s).value|)
  {
    var frame := Pack(s).value;
    var stream := frame + rest;
    assert stream[..SIZE_BYTES] == frame[..SIZE_BYTES];
    assert stream[SIZE_BYTES..|frame|] == Encode(s);
    DecodeEncode(s);
  }

  /**
   * Consecutive frames are read back one after the other: after the first
   * read, the stream left over is the second frame followed by the rest.
   */
  lemma TwoFrames(s1: string, s2: string, rest: seq<byte>)
    requires Pack(s1).Success? && Pack(s2).Success?
    ensures var stream := Pack(s1).value + Pack(s2).value + rest;
            var first := ParseFrame(stream);
            && first.outcome == Success(s1)
            && ParseFrame(stream[first.consumed..]) == FrameRead(Success(s2), |Pack(s2).value|)
  {
    var f1, f2 := Pack(s1).value, Pack(s2).value;
    assert f1 + f2 + rest == f1 + (f2 + rest);
    FrameRoundTrip(s1, f2 + rest);
    assert (f1 + (f2 + rest))[|f1|..] == f2 + rest;
    FrameRoundTrip(s2, rest);
  }

  /** A successfully read message came from exactly the frame `pack` builds for it. */
  lemma ParsedFrameIsPacked(stream: seq<byte>)
    requires ParseFrame(stream).outcome.Success?
    ensures var r := ParseFrame(stream);
            Pack(r.outcome.value).Success? && Pack(r.outcome.value).value == stream[..r.consumed]
  {
    var r := ParseFrame(stream);
    var n := FromBigEndian32(stream[..SIZE_BYTES]);
    var body := stream[SIZE_BYTES..SIZE_BYTES + n];
    EncodeDecode(body);
    HeaderUnpackPack(stream[..SIZE_BYTES]);
    assert stream[..r.consumed] == stream[..SIZE_BYTES] + body;
  }
}
