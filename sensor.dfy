/**
 * The sensor's per-connection feature extractor: receive at most
 * BufferSize - 1 bytes into a zeroed buffer, NUL-terminate it, hash the bytes
 * received with djb2 and emit the two-feature record `{"v": [hash, length]}`.
 */
module Sensor {
  import opened Djb2
  import opened Record

  const BufferSize: nat := 1024

  function Min(a: nat, b: nat): nat
  {
    if a <= b then a else b
  }

  /** What `vectorize_input` does with its caller: return a hash, or end the process. */
  datatype HashOutcome = Returned(hash: Word) | Aborted(message: string)

  /**
   * `vectorize_input(data, len)`: the djb2 hash of the first min(len, BufferSize)
   * bytes of `data`. A null `data` stops the process through SAFE_ASSERT, which
   * the `Aborted` outcome stands for; no hash is returned then.
   */
  method VectorizeInput(data: array?<Byte>, len: nat) returns (r: HashOutcome)
    requires data != null ==> Min(len, BufferSize) <= data.Length
    ensures r.Aborted? <==> data == null
    ensures data == null ==> r == Aborted("Null data input")
    ensures data != null ==> r == Returned(Hash(data[..Min(len, BufferSize)]))
    ensures data != null && len == 0 ==> r == Returned(5381)
  {
    if data == null {
      return Aborted("Null data input");
    }
    var hash: Word := Seed;
    var i: nat := 0;
    while i < len && i < BufferSize
      invariant i <= Min(len, BufferSize)
      invariant hash == Hash(data[..i])
    {
      HashSnoc(data[..i], data[i]);
      assert data[..i + 1] == data[..i] + [data[i]];
      hash := Step(hash, data[i]);
      i := i + 1;
    }
    assert data[..0] == [];
    return Returned(hash);
  }

  /**
   * What the socket holds when `recv` is called: the bytes the peer has sent
   * (none when it has closed the connection), or a receive error.
   */
  datatype Incoming = Stream(bytes: seq<Byte>) | RecvError

  /** The bytes `recv(fd, buffer, maxLen, 0)` copies into the buffer. */
  function Delivered(input: Incoming, maxLen: nat): (d: seq<Byte>)
    ensures |d| == if input.Stream? then Min(|input.bytes|, maxLen) else 0
    ensures input.Stream? ==> d <= input.bytes
  {
    match input
    case Stream(bytes) => bytes[..Min(|bytes|, maxLen)]
    case RecvError => []
  }

  /** The value `recv` returns: the number of bytes it copied, or -1 on error. */
  function RecvResult(input: Incoming, maxLen: nat): int
  {
    match input
    case Stream(_) => |Delivered(input, maxLen)|
    case RecvError => -1
  }

  /** `recv` into `buffer`: copies at most `maxLen` pending bytes and leaves the rest of the buffer alone. */
  method Receive(buffer: array<Byte>, input: Incoming, maxLen: nat) returns (bytesRead: int)
    requires maxLen <= buffer.Length
    modifies buffer
    ensures bytesRead == RecvResult(input, maxLen)
    ensures buffer[..|Delivered(input, maxLen)|] == Delivered(input, maxLen)
    ensures buffer[|Delivered(input, maxLen)|..] == old(buffer[|Delivered(input, maxLen)|..])
  {
    var d := Delivered(input, maxLen);
    var i := 0;
    while i < |d|
      invariant 0 <= i <= |d|
      invariant buffer[..i] == d[..i]
      invariant buffer[i..] == old(buffer[i..])
    {
      buffer[i] := d[i];
      i := i + 1;
    }
    bytesRead := if input.Stream? then |d| else -1;
  }

  /** The bytes one connection contributes: what one `recv` of BufferSize - 1 delivers. */
  function Received(input: Incoming): (d: seq<Byte>)
    ensures |d| < BufferSize
  {
    Delivered(input, BufferSize - 1)
  }

  /**
   * `handle_connection`: the lines it writes to standard output. Exactly one
   * record when some bytes arrived, none otherwise; the record carries the hash
   * of every received byte (the 1024-byte cap in `vectorize_input` never cuts
   * it short) and their number, and reads back as exactly those two features.
   */
  method HandleConnection(input: Incoming) returns (emitted: seq<string>)
    ensures |emitted| <= 1
    ensures |emitted| == 1 <==> input.Stream? && |input.bytes| > 0
    ensures |emitted| == 1 ==>
      0 < |Received(input)| <= BufferSize - 1 &&
      emitted[0] == FormatRecord(Hash(Received(input)), |Received(input)|) &&
      ParseRecord(emitted[0]) == Some(Features(Hash(Received(input)), |Received(input)|))
  {
    var buffer := new Byte[BufferSize](_ => 0);
    var bytesRead := Receive(buffer, input, BufferSize - 1);
    ghost var received := Received(input);
    emitted := [];
    if bytesRead > 0 {
      buffer[bytesRead] := 0;
      assert buffer[..bytesRead] == received;
      var outcome := VectorizeInput(buffer, bytesRead);
      var threatHash := outcome.hash;
      RecordRoundTrip(threatHash, bytesRead);
      emitted := [FormatRecord(threatHash, bytesRead)];
    }
  }
}
