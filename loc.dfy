/** The LOC (location) resource record of RFC 1876: its value types, the
    conversion of a raw 32-bit coordinate into degrees, minutes, seconds and
    a hemisphere, and the decoder for the 16-byte record body laid out in
    section 2 of RFC 1876. */
module LocRecord {
  import opened Wire

  /** Registration of the record type with the record registry. */
  const Name: string := "LOC"
  const RRType: u16 := 29

  /** The only body length a LOC record may state. */
  const RecordLength: u16 := 16

  /** 2^31 milliarcseconds: the raw value of the equator and of the prime
      meridian. */
  const Half: u32 := 0x8000_0000

  datatype Direction = North | East | South | West

  /** A size in centimetres written as a base and a power of ten; both are
      kept as the four bits they were read from and never multiplied out. */
  datatype Size = Size(base: u8, powerOfTen: u8)

  /** A position on one of the two axes. */
  datatype Position = Position(
    degrees: u32,
    arcminutes: u32,
    arcseconds: u32,
    milliarcseconds: u32,
    direction: Direction)

  /** A decoded LOC record. The precisions and the altitude (centimetres above
      a base 100,000 metres below the reference spheroid) are kept raw. */
  datatype Loc = Loc(
    size: Size,
    horizontalPrecision: u8,
    verticalPrecision: u8,
    latitude: Position,
    longitude: Position,
    altitude: u32)

  // ---------------------------------------------------------------------
  // Size

  /** Splits the size byte: the high nibble is the base, the low nibble the
      power of ten. The decoder takes them with `>> 4` and `& 0b1111`, which
      on a byte are the quotient and the remainder by 16 (NibbleSplit). */
  function SplitSize(bits: u8): (s: Size)
    ensures s.base < 16 && s.powerOfTen < 16
    ensures s.base * 16 + s.powerOfTen == bits
  {
    Size(bits / 16, bits % 16)
  }

  /** Shifting a byte right by four and masking its low four bits give the
      two halves SplitSize gives. */
  lemma NibbleSplit(b: bv8)
    ensures SplitSize(b as int) == Size((b >> 4) as int, (b & 0x0F) as int)
  {
    var high, low := b >> 4, b & 0x0F;
    assert b == high * 16 + low && high < 16 && low < 16;
    assert b as int == high as int * 16 + low as int;
  }

  /** Different size bytes never give the same size. */
  lemma SplitSizeInjective(x: u8, y: u8)
    requires SplitSize(x) == SplitSize(y)
    ensures x == y
  {
  }

  // ---------------------------------------------------------------------
  // Positions

  /** True of the two directions on the positive side of the equator or the
      prime meridian. */
  predicate IsNorthOrEast(d: Direction) {
    d == North || d == East
  }

  /** True of the two directions that belong to the vertical axis
      (latitude). */
  predicate IsVertical(d: Direction) {
    d == North || d == South
  }

  /** The distance, in milliarcseconds, of a raw coordinate from the equator
      or the prime meridian. */
  function Distance(input: u32): (k: nat)
    ensures k <= Half
    ensures input >= Half ==> input == Half + k
    ensures input < Half ==> input == Half - k && k > 0
  {
    if input >= Half then input - Half else Half - input
  }

  /** The angle a position stands for, back in milliarcseconds. */
  function TotalMilliarcseconds(p: Position): nat {
    ((p.degrees * 60 + p.arcminutes) * 60 + p.arcseconds) * 1000 + p.milliarcseconds
  }

  /** True when every component of `p` lies below its natural modulus. */
  predicate InRange(p: Position) {
    p.milliarcseconds < 1000 && p.arcseconds < 60 && p.arcminutes < 60
  }

  /** Breaks a count of milliarcseconds into degrees, arcminutes, arcseconds
      and milliarcseconds, in the given direction. */
  function Split(offset: nat, direction: Direction): (p: Position)
    requires offset <= Half
    ensures InRange(p) && p.direction == direction
    ensures p.degrees <= 596
  {
    var milliarcseconds := offset % 1000;
    var totalArcseconds := offset / 1000;
    var arcseconds := totalArcseconds % 60;
    var totalArcminutes := totalArcseconds / 60;
    var arcminutes := totalArcminutes % 60;
    var degrees := totalArcminutes / 60;
    Position(degrees, arcminutes, arcseconds, milliarcseconds, direction)
  }

  /** Splitting loses nothing: the components add back up to the count. */
  lemma SplitTotal(offset: nat, direction: Direction)
    requires offset <= Half
    ensures TotalMilliarcseconds(Split(offset, direction)) == offset
  {
    var p := Split(offset, direction);
    var totalArcseconds := offset / 1000;
    var totalArcminutes := totalArcseconds / 60;
    assert offset == totalArcseconds * 1000 + p.milliarcseconds;
    assert totalArcseconds == totalArcminutes * 60 + p.arcseconds;
    assert totalArcminutes == p.degrees * 60 + p.arcminutes;
  }

  /** The position a raw coordinate stands for: a count of milliarcseconds
      with 2^31 at the equator (when `vertical`) or at the prime meridian.
      The southern and western half measures its distance as `Half - input`
      directly; see FromU32AsWritten for the computation the decoder makes. */
  function FromU32(input: u32, vertical: bool): (p: Position)
    ensures InRange(p)
    ensures IsNorthOrEast(p.direction) <==> input >= Half
    ensures IsVertical(p.direction) <==> vertical
  {
    if input >= Half then
      Split(input - Half, if vertical then North else East)
    else
      Split(Half - input, if vertical then South else West)
  }

  /** A decoded position stands for the coordinate's distance from the
      origin. */
  lemma FromU32Total(input: u32, vertical: bool)
    ensures TotalMilliarcseconds(FromU32(input, vertical)) == Distance(input)
  {
    if input >= Half {
      SplitTotal(input - Half, if vertical then North else East);
    } else {
      SplitTotal(Half - input, if vertical then South else West);
    }
  }

  /** The raw coordinate a position stands for: the inverse of FromU32. */
  function ToU32(p: Position): int {
    if IsNorthOrEast(p.direction) then Half + TotalMilliarcseconds(p)
    else Half - TotalMilliarcseconds(p)
  }

  /** Converting a raw coordinate and converting back gives the coordinate. */
  lemma FromU32RoundTrip(input: u32, vertical: bool)
    ensures ToU32(FromU32(input, vertical)) == input
  {
    FromU32Total(input, vertical);
  }

  /** Two raw coordinates on the same axis never give the same position. */
  lemma FromU32Injective(x: u32, y: u32, vertical: bool)
    requires FromU32(x, vertical) == FromU32(y, vertical)
    ensures x == y
  {
    FromU32RoundTrip(x, vertical);
    FromU32RoundTrip(y, vertical);
  }

  /** The position a given in-range angle and direction are decoded from:
      every in-range position no further than 2^31 milliarcseconds from the
      origin, and strictly closer on the negative side, has a raw value. */
  lemma FromU32Surjective(p: Position)
    requires InRange(p)
    requires IsNorthOrEast(p.direction) ==> TotalMilliarcseconds(p) < Half
    requires !IsNorthOrEast(p.direction) ==> 0 < TotalMilliarcseconds(p) <= Half
    ensures 0 <= ToU32(p) < 0x1_0000_0000
    ensures FromU32(ToU32(p), IsVertical(p.direction)) == p
  {
    var x := ToU32(p);
    var q := FromU32(x, IsVertical(p.direction));
    FromU32Total(x, IsVertical(p.direction));
    MixedRadixUnique(p, q);
  }

  /** A position in range is determined by its direction and its total
      angle. */
  lemma MixedRadixUnique(p: Position, q: Position)
    requires InRange(p) && InRange(q)
    requires TotalMilliarcseconds(p) == TotalMilliarcseconds(q)
    requires p.direction == q.direction
    ensures p == q
  {
    var m1, m2 := p.degrees * 60 + p.arcminutes, q.degrees * 60 + q.arcminutes;
    var s1, s2 := m1 * 60 + p.arcseconds, m2 * 60 + q.arcseconds;
    PlaceValue(s1, p.milliarcseconds, s2, q.milliarcseconds, 1000);
    PlaceValue(m1, p.arcseconds, m2, q.arcseconds, 60);
    PlaceValue(p.degrees, p.arcminutes, q.degrees, q.arcminutes, 60);
  }

  /** A number written with a last digit below the radix (60 or 1000) has
      one such writing. */
  lemma PlaceValue(a: nat, x: nat, b: nat, y: nat, k: nat)
    requires k == 60 || k == 1000
    requires x < k && y < k
    requires a * k + x == b * k + y
    ensures a == b && x == y
  {
    if k == 60 {
      assert a * 60 + x == b * 60 + y;
    } else {
      assert a * 1000 + x == b * 1000 + y;
    }
  }

  /** A coordinate k milliarcseconds north (east) of the origin and the one k
      milliarcseconds south (west) of it differ only in their direction. */
  lemma FromU32Mirror(k: nat, vertical: bool)
    requires 0 < k < Half
    ensures FromU32(Half + k, vertical)
         == FromU32(Half - k, vertical).(direction := if vertical then North else East)
  {
  }

  // ---------------------------------------------------------------------
  // The southern and western branch as the decoder writes it

  datatype Option<T> = None | Some(value: T)

  /** u32 arithmetic that panics on overflow, as a Rust debug build does:
      `None` stands for the panic. */
  function CheckedAdd(a: u32, b: u32): (r: Option<u32>)
    ensures r.Some? <==> a + b < 0x1_0000_0000
    ensures r.Some? ==> r.value == a + b
  {
    if a + b < 0x1_0000_0000 then Some(a + b) else None
  }

  function CheckedSub(a: u32, b: u32): (r: Option<u32>)
    ensures r.Some? <==> b <= a
    ensures r.Some? ==> r.value == a - b
  {
    if b <= a then Some(a - b) else None
  }

  function CheckedMul(a: u32, b: u32): (r: Option<u32>)
    ensures r.Some? <==> a * b < 0x1_0000_0000
    ensures r.Some? ==> r.value == a * b
  {
    if a * b < 0x1_0000_0000 then Some(a * b) else None
  }

  /** The conversion exactly as the decoder writes it: a coordinate on the
      negative side is reflected to `input + (2^31 - input) * 2` and converted
      again, and only then given its southern or western direction. `None`
      stands for a u32 overflow. */
  function FromU32AsWritten(input: u32, vertical: bool): (r: Option<Position>)
    ensures r.None? <==> input == 0
    decreases if input >= Half then 0 else 1
  {
    if input >= Half then
      Some(Split(input - Half, if vertical then North else East))
    else
      match CheckedSub(Half, input)
      case None => None
      case Some(gap) =>
        match CheckedMul(gap, 2)
        case None => None
        case Some(twice) =>
          match CheckedAdd(input, twice)
          case None => None
          case Some(reflected) =>
            match FromU32AsWritten(reflected, vertical)
            case None => None
            case Some(pos) => Some(pos.(direction := if vertical then South else West))
  }

  /** For every coordinate but 0 the decoder's computation is the closed form
      FromU32. */
  lemma AsWrittenAgreesAwayFromZero(input: u32, vertical: bool)
    requires input != 0
    ensures FromU32AsWritten(input, vertical) == Some(FromU32(input, vertical))
  {
    if input < Half {
      var reflected := input + (Half - input) * 2;
      assert reflected == 0x1_0000_0000 - input;
      assert FromU32AsWritten(reflected, vertical)
          == Some(Split(reflected - Half, if vertical then North else East));
      assert reflected - Half == Half - input;
    }
  }

  /** The coordinate 0, the pole or antimeridian 2^31 milliarcseconds south or
      west of the origin, makes the decoder's multiplication overflow u32. */
  lemma AsWrittenOverflowsAtZero(vertical: bool)
    ensures CheckedMul(Half - 0, 2) == None
    ensures FromU32AsWritten(0, vertical) == None
    ensures FromU32(0, vertical).degrees == 596
  {
  }

  /** With wrapping u32 arithmetic, as in a release build, the reflection of 0
      is 0 again: the decoder would call itself on the same negative-side
      argument for ever. */
  function WrappingReflect(input: u32): (r: u32)
    ensures input != 0 && input < Half ==> r == 0x1_0000_0000 - input && r > Half
  {
    (input + (Half - input) * 2 % 0x1_0000_0000) % 0x1_0000_0000
  }

  /** The reflection of 0 under wrapping arithmetic is 0 itself, which is
      below Half, so the negative-side branch is taken again. */
  lemma WrappingReflectFixesZero()
    ensures WrappingReflect(0) == 0
  {
  }

  // ---------------------------------------------------------------------
  // Decoding the record body

  /** What decoding a record body whose declared length is `statedLength`
      yields, given the bytes from the cursor's position on. The version byte
      is examined before the stated length, and the stated length before the
      buffer is known to hold the rest of the record. */
  function Decode(statedLength: u16, bytes: seq<u8>): (r: Result<Loc>)
  {
    if |bytes| == 0 then Err(IO)
    else if bytes[0] != 0 then Err(WrongVersion(bytes[0], 0))
    else if statedLength != RecordLength then
      Err(WrongRecordLength(statedLength, Exactly(RecordLength)))
    else if |bytes| < 16 then Err(IO)
    else
      Ok(Loc(
        SplitSize(bytes[1]),
        bytes[2],
        bytes[3],
        FromU32(BE32(bytes[4..8]), true),
        FromU32(BE32(bytes[8..12]), false),
        BE32(bytes[12..16])))
  }

  /** Reads a LOC record body from the cursor: the version byte, then (once
      the version and the stated length are accepted) the size, the two
      precisions, the latitude, the longitude and the altitude, giving up on
      the first read that runs out of bytes. On success exactly 16 bytes have
      been consumed. */
  method Read(statedLength: u16, c: Cursor) returns (r: Result<Loc>)
    requires c.Valid()
    modifies c
    ensures c.Valid()
    ensures r == Decode(statedLength, old(c.Remaining()))
    ensures r.Ok? ==> c.pos == old(c.pos) + 16
    ensures r.Err? && r.error != IO ==> c.pos == old(c.pos) + 1
    ensures r == Err(IO) ==> c.pos == |c.data|
  {
    ghost var bytes := c.Remaining();
    ghost var start := c.pos;

    var version :- c.ReadU8();
    if version != 0 {
      return Err(WrongVersion(version, 0));
    }
    if statedLength != RecordLength {
      return Err(WrongRecordLength(statedLength, Exactly(RecordLength)));
    }

    var sizeBits :- c.ReadU8();
    var size := SplitSize(sizeBits);
    var horizontalPrecision :- c.ReadU8();
    var verticalPrecision :- c.ReadU8();

    var latitudeNum :- c.ReadU32BE();
    var latitude := FromU32(latitudeNum, true);
    var longitudeNum :- c.ReadU32BE();
    var longitude := FromU32(longitudeNum, false);
    var altitude :- c.ReadU32BE();

    assert c.pos == start + 16;
    assert bytes[4..8] == c.data[start + 4..start + 8];
    assert bytes[8..12] == c.data[start + 8..start + 12];
    assert bytes[12..16] == c.data[start + 12..start + 16];
    return Ok(Loc(size, horizontalPrecision, verticalPrecision, latitude, longitude, altitude));
  }

  // ---------------------------------------------------------------------
  // Properties of the decoder

  /** A record body decodes exactly when it starts with version 0, its
      declared length is 16 and the buffer holds at least 16 bytes. */
  lemma DecodeSucceedsIff(statedLength: u16, bytes: seq<u8>)
    ensures Decode(statedLength, bytes).Ok?
        <==> |bytes| >= 16 && bytes[0] == 0 && statedLength == 16
  {
  }

  /** A non-zero version byte is reported whatever the stated length and
      however short the buffer. */
  lemma VersionCheckedFirst(statedLength: u16, bytes: seq<u8>)
    requires |bytes| >= 1 && bytes[0] != 0
    ensures Decode(statedLength, bytes) == Err(WrongVersion(bytes[0], 0))
  {
  }

  /** With version 0, a stated length other than 16 is reported, even when the
      buffer holds a well-formed record. */
  lemma LengthCheckedSecond(statedLength: u16, bytes: seq<u8>)
    requires |bytes| >= 1 && bytes[0] == 0 && statedLength != 16
    ensures Decode(statedLength, bytes)
         == Err(WrongRecordLength(statedLength, Exactly(16)))
  {
  }

  /** A buffer that ends before the record does is reported as `IO`, and no
      part of the record is returned. */
  lemma ShortBufferIsIO(statedLength: u16, bytes: seq<u8>)
    requires |bytes| < 16
    requires |bytes| >= 1 ==> bytes[0] == 0 && statedLength == 16
    ensures Decode(statedLength, bytes) == Err(IO)
  {
  }

  /** The decoder reads nothing beyond the first 16 bytes. */
  lemma DecodeIgnoresTrailingBytes(statedLength: u16, bytes: seq<u8>)
    requires |bytes| >= 16
    ensures Decode(statedLength, bytes) == Decode(statedLength, bytes[..16])
  {
    assert bytes[..16][4..8] == bytes[4..8];
    assert bytes[..16][8..12] == bytes[8..12];
    assert bytes[..16][12..16] == bytes[12..16];
  }

  /** The fields of a decoded record in terms of the bytes they came from. */
  lemma DecodeFields(bytes: seq<u8>)
    requires |bytes| >= 16 && bytes[0] == 0
    ensures Decode(16, bytes).Ok?
    ensures var loc := Decode(16, bytes).value;
      && loc.size.base * 16 + loc.size.powerOfTen == bytes[1]
      && loc.horizontalPrecision == bytes[2]
      && loc.verticalPrecision == bytes[3]
      && ToBE32(ToU32(loc.latitude)) == bytes[4..8]
      && ToBE32(ToU32(loc.longitude)) == bytes[8..12]
      && ToBE32(loc.altitude) == bytes[12..16]
      && IsVertical(loc.latitude.direction)
      && !IsVertical(loc.longitude.direction)
  {
    var loc := Decode(16, bytes).value;
    FromU32RoundTrip(BE32(bytes[4..8]), true);
    FromU32RoundTrip(BE32(bytes[8..12]), false);
    BE32RoundTrip(bytes[4..8]);
    BE32RoundTrip(bytes[8..12]);
    BE32RoundTrip(bytes[12..16]);
  }

  /** A well-formed record body whose latitude bytes are all zero hands the
      coordinate 0 to the conversion, where the decoder's own computation
      overflows. */
  lemma DecodeReachesZeroCoordinate(rest: seq<u8>)
    requires |rest| == 8
    ensures var bytes := [0x00, 0x12, 0x00, 0x00, 0x00, 0x00, 0x00, 0x00] + rest;
      && Decode(16, bytes).Ok?
      && BE32(bytes[4..8]) == 0
      && Decode(16, bytes).value.latitude == FromU32(0, true)
      && FromU32AsWritten(BE32(bytes[4..8]), true) == None
  {
    var bytes := [0x00, 0x12, 0x00, 0x00, 0x00, 0x00, 0x00, 0x00] + rest;
    assert bytes[4..8] == [0, 0, 0, 0];
  }

  // ---------------------------------------------------------------------
  // The decoder on the record bodies of the crate's unit tests

  /** A well-formed record: size 0x32, zero precisions, latitude 0x8b0d2c8c,
      longitude 0x7ff8fca5, altitude 0x00989680. */
  const ExampleRecord: seq<u8> :=
    [0x00, 0x32, 0x00, 0x00,
     0x8b, 0x0d, 0x2c, 0x8c,
     0x7f, 0xf8, 0xfc, 0xa5,
     0x00, 0x98, 0x96, 0x80]

  lemma DecodesExampleRecord()
    ensures Decode(16, ExampleRecord) == Ok(Loc(
      Size(3, 2), 0, 0,
      FromU32(0x8b0d2c8c, true),
      FromU32(0x7ff8fca5, false),
      0x00989680))
  {
    assert ExampleRecord[4..8] == [0x8b, 0x0d, 0x2c, 0x8c];
    assert ExampleRecord[8..12] == [0x7f, 0xf8, 0xfc, 0xa5];
    assert ExampleRecord[12..16] == [0x00, 0x98, 0x96, 0x80];
  }

  lemma RejectsExamplesOfWrongLengthOrVersion()
    ensures Decode(2, [0x00, 0x00]) == Err(WrongRecordLength(2, Exactly(16)))
    ensures Decode(19, ExampleRecord + [0x12, 0x34, 0x56])
         == Err(WrongRecordLength(19, Exactly(16)))
    ensures Decode(4, [0x80, 0x12, 0x34, 0x56]) == Err(WrongVersion(128, 0))
    ensures Decode(0, []) == Err(IO)
    ensures Decode(16, [0x00]) == Err(IO)
  {
  }
}
