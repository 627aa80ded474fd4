/** The wire-level vocabulary the LOC decoder relies on: fixed-width unsigned
    integers, the errors a record body can fail with, a failure-compatible
    result type (so that `:-` plays the part of Rust's `?`) and a byte cursor
    over an in-memory buffer. */
module Wire {

  type u8 = x: int | 0 <= x < 0x100
  type u16 = x: int | 0 <= x < 0x1_0000
  type u32 = x: int | 0 <= x < 0x1_0000_0000

  /** The length a record type demands of its body. */
  datatype MandatedLength = Exactly(length: u16)

  /** The ways decoding a record body can fail. Reading past the end of the
      buffer is reported as `IO`, whatever the underlying reader said. */
  datatype WireError =
    | IO
    | WrongVersion(statedVersion: u8, maximumSupportedVersion: u8)
    | WrongRecordLength(statedLength: u16, mandatedLength: MandatedLength)

  datatype Result<T> = Ok(value: T) | Err(error: WireError) {
    predicate IsFailure() { Err? }

    function PropagateFailure<U>(): Result<U>
      requires Err?
    {
      Err(error)
    }

    function Extract(): T
      requires Ok?
    {
      value
    }
  }

  /** Reads four bytes as one unsigned 32-bit integer, most significant byte
      first. */
  function BE32(b: seq<u8>): (r: u32)
    requires |b| == 4
    ensures r / 0x100 / 0x100 / 0x100 == b[0]
    ensures r / 0x100 / 0x100 % 0x100 == b[1]
    ensures r / 0x100 % 0x100 == b[2]
    ensures r % 0x100 == b[3]
  {
    var hi: int := b[0] as int * 0x100 + b[1];
    var mid: int := hi * 0x100 + b[2];
    var all: int := mid * 0x100 + b[3];
    AppendByte(b[0], b[1]);
    AppendByte(hi, b[2]);
    AppendByte(mid, b[3]);
    all
  }

  /** Appending a byte below a number is undone by division by 256. */
  lemma AppendByte(q: nat, low: u8)
    ensures (q * 0x100 + low) / 0x100 == q
    ensures (q * 0x100 + low) % 0x100 == low
  {
  }

  /** The four bytes of `x`, most significant first. */
  function ToBE32(x: u32): (b: seq<u8>)
    ensures |b| == 4
  {
    [x / 0x100 / 0x100 / 0x100, x / 0x100 / 0x100 % 0x100, x / 0x100 % 0x100, x % 0x100]
  }

  /** Any four bytes are the big-endian encoding of the integer they read as. */
  lemma BE32RoundTrip(b: seq<u8>)
    requires |b| == 4
    ensures ToBE32(BE32(b)) == b
  {
  }

  /** Reading back the big-endian encoding of an integer gives that integer. */
  lemma ToBE32RoundTrip(x: u32)
    ensures BE32(ToBE32(x)) == x
  {
    var b := ToBE32(x);
    var r := BE32(b);
    assert r % 0x100 == x % 0x100;
    assert r / 0x100 % 0x100 == x / 0x100 % 0x100;
    assert r / 0x100 / 0x100 % 0x100 == x / 0x100 / 0x100 % 0x100;
    assert r / 0x100 / 0x100 / 0x100 == x / 0x100 / 0x100 / 0x100;
    Unsplit(r);
    Unsplit(x);
  }

  /** A u32 is determined by its four bytes. */
  lemma Unsplit(x: u32)
    ensures x == ((x / 0x100 / 0x100 / 0x100 * 0x100 + x / 0x100 / 0x100 % 0x100) * 0x100
                  + x / 0x100 % 0x100) * 0x100 + x % 0x100
  {
    var q1 := x / 0x100;
    var q2 := q1 / 0x100;
    var q3 := q2 / 0x100;
    assert x == q1 * 0x100 + x % 0x100;
    assert q1 == q2 * 0x100 + q1 % 0x100;
    assert q2 == q3 * 0x100 + q2 % 0x100;
  }

  /** A read cursor over a byte buffer: the buffer never changes, only the
      position does. */
  class Cursor {
    const data: seq<u8>
    var pos: nat

    ghost predicate Valid()
      reads this
    {
      pos <= |data|
    }

    /** The bytes not yet read. */
    function Remaining(): (s: seq<u8>)
      reads this
      requires Valid()
      ensures |s| == |data| - pos
    {
      data[pos..]
    }

    constructor (data: seq<u8>)
      ensures Valid() && this.data == data && pos == 0
    {
      this.data := data;
      pos := 0;
    }

    /** Reads one byte. When the buffer is exhausted the read fails with `IO`
        and the cursor is left at the end of the buffer. */
    method ReadU8() returns (r: Result<u8>)
      requires Valid()
      modifies this
      ensures Valid()
      ensures old(pos) < |data| ==> r == Ok(data[old(pos)]) && pos == old(pos) + 1
      ensures old(pos) == |data| ==> r == Err(IO) && pos == |data|
    {
      if pos < |data| {
        r := Ok(data[pos]);
        pos := pos + 1;
      } else {
        r := Err(IO);
      }
    }

    /** Reads four bytes as a big-endian unsigned 32-bit integer. When fewer
        than four bytes remain the read fails with `IO` and the cursor is left
        at the end of the buffer. */
    method ReadU32BE() returns (r: Result<u32>)
      requires Valid()
      modifies this
      ensures Valid()
      ensures old(pos) + 4 <= |data| ==>
        r == Ok(BE32(data[old(pos)..old(pos) + 4])) && pos == old(pos) + 4
      ensures old(pos) + 4 > |data| ==> r == Err(IO) && pos == |data|
    {
      if pos + 4 <= |data| {
        r := Ok(BE32(data[pos..pos + 4]));
        pos := pos + 4;
      } else {
        r := Err(IO);
        pos := |data|;
      }
    }
  }
}
