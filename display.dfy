/** The text forms of a LOC record's parts: a size as `{base}e{power}`, a
    position as degrees, arcminutes and arcseconds with an optional
    three-digit fraction, and a direction as one letter. */
module LocDisplay {
  import opened LocRecord

  // ---------------------------------------------------------------------
  // Decimal numerals

  predicate IsDigit(c: char) {
    '0' <= c <= '9'
  }

  predicate AllDigits(s: string) {
    forall i | 0 <= i < |s| :: IsDigit(s[i])
  }

  function Digit(d: nat): (c: char)
    requires d < 10
    ensures IsDigit(c) && c as int - '0' as int == d
  {
    ('0' as int + d) as char
  }

  /** The value of a string of decimal digits, most significant first. */
  function DecimalValue(s: string): nat
    requires AllDigits(s)
  {
    if s == [] then 0
    else DecimalValue(s[..|s| - 1]) * 10 + (s[|s| - 1] as int - '0' as int)
  }

  /** The shortest decimal numeral of `n`, as Rust's `{}` writes an unsigned
      integer: no sign and no leading zero. */
  function Decimal(n: nat): (s: string)
    ensures |s| >= 1 && AllDigits(s)
    ensures s[0] == '0' ==> n == 0 && s == "0"
    decreases n
  {
    if n < 10 then [Digit(n)] else Decimal(n / 10) + [Digit(n % 10)]
  }

  /** The digits of a numeral read back as the number it was made from. */
  lemma {:induction false} DecimalRoundTrip(n: nat)
    ensures DecimalValue(Decimal(n)) == n
  {
    if n >= 10 {
      var s := Decimal(n);
      assert s[..|s| - 1] == Decimal(n / 10);
      DecimalRoundTrip(n / 10);
    }
  }

  /** Numbers below 1000 take at most three digits. */
  lemma DecimalBelowThousand(n: nat)
    requires n < 1000
    ensures |Decimal(n)| <= 3
  {
    if n >= 10 {
      assert |Decimal(n)| == |Decimal(n / 10)| + 1;
      if n / 10 >= 10 {
        assert |Decimal(n / 10)| == |Decimal(n / 100)| + 1;
      }
    }
  }

  function Zeros(k: nat): (s: string)
    ensures |s| == k && AllDigits(s)
    ensures forall i | 0 <= i < k :: s[i] == '0'
  {
    seq(k, _ => '0')
  }

  /** Leading zeros do not change the value of a numeral. */
  lemma {:induction false} LeadingZeros(k: nat, s: string)
    requires AllDigits(s)
    ensures AllDigits(Zeros(k) + s)
    ensures DecimalValue(Zeros(k) + s) == DecimalValue(s)
    decreases |s|, k
  {
    var t := Zeros(k) + s;
    if s == [] {
      assert t == Zeros(k);
      if k > 0 {
        assert t[..|t| - 1] == Zeros(k - 1) + [];
        LeadingZeros(k - 1, []);
      }
    } else {
      assert t[..|t| - 1] == Zeros(k) + s[..|s| - 1];
      LeadingZeros(k, s[..|s| - 1]);
    }
  }

  /** `n` in decimal, padded on the left with zeros to at least `width`
      characters, as Rust's `{:0width}` writes it. */
  function ZeroPadded(n: nat, width: nat): (s: string)
    ensures AllDigits(s)
    ensures |s| == if |Decimal(n)| >= width then |Decimal(n)| else width
    ensures DecimalValue(s) == n
  {
    var d := Decimal(n);
    DecimalRoundTrip(n);
    if |d| >= width then d
    else
      LeadingZeros(width - |d|, d);
      Zeros(width - |d|) + d
  }

  // ---------------------------------------------------------------------
  // Renderers

  function DirectionText(d: Direction): (s: string)
    ensures |s| == 1 && !IsDigit(s[0])
  {
    match d
    case North => "N"
    case East => "E"
    case South => "S"
    case West => "W"
  }

  function SizeText(s: Size): string {
    Decimal(s.base) + "e" + Decimal(s.powerOfTen)
  }

  /** The milliarcseconds of a position, written only when there are any. */
  function FractionText(milliarcseconds: nat): string {
    if milliarcseconds != 0 then "." + ZeroPadded(milliarcseconds, 3) else ""
  }

  function PositionText(p: Position): string {
    Decimal(p.degrees) + "°" + Decimal(p.arcminutes) + "′" + Decimal(p.arcseconds)
      + FractionText(p.milliarcseconds) + "″ " + DirectionText(p.direction)
  }

  // ---------------------------------------------------------------------
  // Properties of the renderers

  /** Every direction has a letter of its own. */
  lemma DirectionTextInjective(d: Direction, e: Direction)
    requires DirectionText(d) == DirectionText(e)
    ensures d == e
  {
  }

  /** A numeral is told apart from what follows it by the first character
      that is not a digit. */
  lemma MarkAfterDigits(a: string, c: char, x: string)
    requires AllDigits(a) && !IsDigit(c)
    ensures forall i | 0 <= i < |a| :: IsDigit((a + [c] + x)[i])
    ensures (a + [c] + x)[|a|] == c
  {
  }

  /** Two strings made of a numeral, a non-digit mark and a rest agree only
      when numerals, marks and rests all agree. */
  lemma SplitAtMark(a: string, c: char, x: string, b: string, d: char, y: string)
    requires AllDigits(a) && AllDigits(b) && !IsDigit(c) && !IsDigit(d)
    requires a + [c] + x == b + [d] + y
    ensures a == b && c == d && x == y
  {
    var t := a + [c] + x;
    MarkAfterDigits(a, c, x);
    MarkAfterDigits(b, d, y);
    assert |a| == |b|;
    assert a == t[..|a|] && b == t[..|b|];
    assert x == t[|a| + 1..] && y == t[|b| + 1..];
  }

  lemma DecimalInjective(m: nat, n: nat)
    requires Decimal(m) == Decimal(n)
    ensures m == n
  {
    DecimalRoundTrip(m);
    DecimalRoundTrip(n);
  }

  /** Different sizes are never written the same. */
  lemma SizeTextInjective(s: Size, t: Size)
    requires SizeText(s) == SizeText(t)
    ensures s == t
  {
    assert SizeText(s) == Decimal(s.base) + ['e'] + Decimal(s.powerOfTen);
    assert SizeText(t) == Decimal(t.base) + ['e'] + Decimal(t.powerOfTen);
    SplitAtMark(Decimal(s.base), 'e', Decimal(s.powerOfTen), Decimal(t.base), 'e', Decimal(t.powerOfTen));
    DecimalInjective(s.base, t.base);
    DecimalInjective(s.powerOfTen, t.powerOfTen);
  }

  /** What follows the arcseconds numeral. */
  function Tail(p: Position): string {
    FractionText(p.milliarcseconds) + "″ " + DirectionText(p.direction)
  }

  lemma PositionTextParts(p: Position)
    ensures PositionText(p)
         == Decimal(p.degrees) + ['°']
          + (Decimal(p.arcminutes) + ['′'] + (Decimal(p.arcseconds) + Tail(p)))
  {
  }

  lemma TailParts(p: Position)
    ensures p.milliarcseconds != 0 ==>
      Tail(p) == [] + ['.'] + (ZeroPadded(p.milliarcseconds, 3) + ['″'] + ([' '] + DirectionText(p.direction)))
    ensures p.milliarcseconds == 0 ==>
      Tail(p) == [] + ['″'] + ([' '] + DirectionText(p.direction))
  {
  }

  /** The text after the arcseconds numeral keeps the milliarcseconds and
      the direction. */
  lemma TailInjective(p: Position, q: Position)
    requires Tail(p) == Tail(q)
    ensures p.milliarcseconds == q.milliarcseconds && p.direction == q.direction
  {
    TailParts(p);
    TailParts(q);
    var lp, lq := DirectionText(p.direction), DirectionText(q.direction);
    assert Tail(p)[0] == (if p.milliarcseconds != 0 then '.' else '″');
    assert Tail(q)[0] == (if q.milliarcseconds != 0 then '.' else '″');
    if p.milliarcseconds != 0 {
      var zp, zq := ZeroPadded(p.milliarcseconds, 3), ZeroPadded(q.milliarcseconds, 3);
      assert Tail(p)[1..] == zp + ['″'] + ([' '] + lp);
      assert Tail(q)[1..] == zq + ['″'] + ([' '] + lq);
      SplitAtMark(zp, '″', [' '] + lp, zq, '″', [' '] + lq);
      assert lp == ([' '] + lp)[1..];
      assert lq == ([' '] + lq)[1..];
    } else {
      assert lp == Tail(p)[2..] && lq == Tail(q)[2..];
    }
    DirectionTextInjective(p.direction, q.direction);
  }

  lemma TailStartsWithMark(p: Position)
    ensures |Tail(p)| >= 1 && !IsDigit(Tail(p)[0])
  {
    TailParts(p);
  }

  /** A numeral followed by a text that starts with a non-digit is told
      apart from the text. */
  lemma SplitBeforeMark(a: string, t: string, b: string, u: string)
    requires AllDigits(a) && AllDigits(b)
    requires |t| >= 1 && |u| >= 1 && !IsDigit(t[0]) && !IsDigit(u[0])
    requires a + t == b + u
    ensures a == b && t == u
  {
    assert a + t == a + [t[0]] + t[1..];
    assert b + u == b + [u[0]] + u[1..];
    SplitAtMark(a, t[0], t[1..], b, u[0], u[1..]);
    assert t == [t[0]] + t[1..] && u == [u[0]] + u[1..];
  }

  /** The text from the arcseconds numeral on keeps the arcseconds, the
      milliarcseconds and the direction. */
  lemma SecondsOnwardInjective(p: Position, q: Position)
    requires Decimal(p.arcseconds) + Tail(p) == Decimal(q.arcseconds) + Tail(q)
    ensures p.arcseconds == q.arcseconds
    ensures p.milliarcseconds == q.milliarcseconds && p.direction == q.direction
  {
    TailStartsWithMark(p);
    TailStartsWithMark(q);
    SplitBeforeMark(Decimal(p.arcseconds), Tail(p), Decimal(q.arcseconds), Tail(q));
    DecimalInjective(p.arcseconds, q.arcseconds);
    TailInjective(p, q);
  }

  /** Different positions are never written the same: the text keeps every
      component and the direction. */
  lemma PositionTextInjective(p: Position, q: Position)
    requires PositionText(p) == PositionText(q)
    ensures p == q
  {
    PositionTextParts(p);
    PositionTextParts(q);
    var sp, sq := Decimal(p.arcseconds) + Tail(p), Decimal(q.arcseconds) + Tail(q);
    SplitAtMark(Decimal(p.degrees), '°', Decimal(p.arcminutes) + ['′'] + sp,
                Decimal(q.degrees), '°', Decimal(q.arcminutes) + ['′'] + sq);
    SplitAtMark(Decimal(p.arcminutes), '′', sp, Decimal(q.arcminutes), '′', sq);
    DecimalInjective(p.degrees, q.degrees);
    DecimalInjective(p.arcminutes, q.arcminutes);
    SecondsOnwardInjective(p, q);
  }

  /** The milliarcseconds are written, after a point, exactly when there are
      any; for a decoded position the point follows the arcseconds numeral
      and is followed by exactly three digits, worth the milliarcseconds, and
      then the seconds mark. */
  lemma FractionWrittenIffNonZero(p: Position)
    ensures '.' in PositionText(p) <==> p.milliarcseconds != 0
    ensures InRange(p) && p.milliarcseconds != 0 ==>
      var t := PositionText(p);
      var i := |Decimal(p.degrees)| + |Decimal(p.arcminutes)| + |Decimal(p.arcseconds)| + 2;
      |t| >= i + 5 && t[i] == '.' && AllDigits(t[i + 1..i + 4])
      && DecimalValue(t[i + 1..i + 4]) == p.milliarcseconds && t[i + 4] == '″'
  {
    PositionTextParts(p);
    TailParts(p);
    if InRange(p) && p.milliarcseconds != 0 {
      FractionDigits(p);
    }
  }

  lemma FractionDigits(p: Position)
    requires InRange(p) && p.milliarcseconds != 0
    ensures var t := PositionText(p);
      var i := |Decimal(p.degrees)| + |Decimal(p.arcminutes)| + |Decimal(p.arcseconds)| + 2;
      |t| >= i + 5 && t[i] == '.' && AllDigits(t[i + 1..i + 4])
      && DecimalValue(t[i + 1..i + 4]) == p.milliarcseconds && t[i + 4] == '″'
  {
    DecimalBelowThousand(p.milliarcseconds);
    var t := PositionText(p);
    var head := Decimal(p.degrees) + ['°'] + Decimal(p.arcminutes) + ['′'] + Decimal(p.arcseconds);
    var z := ZeroPadded(p.milliarcseconds, 3);
    var i := |head|;
    assert t == head + ['.'] + z + ['″'] + ([' '] + DirectionText(p.direction));
    assert t[i + 1..i + 4] == z;
  }

  // ---------------------------------------------------------------------
  // The renderers on the examples of the crate's unit tests

  lemma RendersOrigins()
    ensures PositionText(FromU32(Half, false)) == "0°0′0″ E"
    ensures PositionText(FromU32(Half, true)) == "0°0′0″ N"
  {
    assert FromU32(Half, false) == Position(0, 0, 0, 0, East);
    assert FromU32(Half, true) == Position(0, 0, 0, 0, North);
    assert Decimal(0) == "0";
  }

  lemma RendersNeighboursOfMeridian()
    ensures PositionText(FromU32(Half + 1, false)) == "0°0′0.001″ E"
    ensures PositionText(FromU32(Half - 1, false)) == "0°0′0.001″ W"
  {
    assert FromU32(Half + 1, false) == Position(0, 0, 0, 1, East);
    assert FromU32(Half - 1, false) == Position(0, 0, 0, 1, West);
    OneMilliarcsecondText(East);
    OneMilliarcsecondText(West);
  }

  lemma RendersNeighboursOfEquator()
    ensures PositionText(FromU32(Half + 1, true)) == "0°0′0.001″ N"
    ensures PositionText(FromU32(Half - 1, true)) == "0°0′0.001″ S"
  {
    assert FromU32(Half + 1, true) == Position(0, 0, 0, 1, North);
    assert FromU32(Half - 1, true) == Position(0, 0, 0, 1, South);
    OneMilliarcsecondText(North);
    OneMilliarcsecondText(South);
  }

  lemma OneMilliarcsecondText(d: Direction)
    ensures PositionText(Position(0, 0, 0, 1, d)) == "0°0′0.001″ " + DirectionText(d)
  {
    assert Decimal(0) == "0";
    assert FractionText(1) == ".001";
  }

  lemma RendersSomeLatitude()
    ensures PositionText(FromU32(2332896396, true)) == "51°30′12.748″ N"
  {
    ConvertsSomeLatitude();
    WritesSomeLatitude();
  }

  lemma ConvertsSomeLatitude()
    ensures FromU32(2332896396, true) == Position(51, 30, 12, 748, North)
  {
    assert Split(185412748, North) == Position(51, 30, 12, 748, North);
  }

  lemma WritesSomeLatitude()
    ensures PositionText(Position(51, 30, 12, 748, North)) == "51°30′12.748″ N"
  {
    assert Decimal(51) == "51";
    assert Decimal(30) == "30";
    assert Decimal(12) == "12";
    assert Decimal(748) == "748";
    assert FractionText(748) == ".748";
  }

  lemma RendersSomeLongitude()
    ensures PositionText(FromU32(2147024037, false)) == "0°7′39.611″ W"
  {
    ConvertsSomeLongitude();
    WritesSomeLongitude();
  }

  lemma ConvertsSomeLongitude()
    ensures FromU32(2147024037, false) == Position(0, 7, 39, 611, West)
  {
    assert Split(459611, West) == Position(0, 7, 39, 611, West);
  }

  lemma WritesSomeLongitude()
    ensures PositionText(Position(0, 7, 39, 611, West)) == "0°7′39.611″ W"
  {
    assert Decimal(0) == "0";
    assert Decimal(7) == "7";
    assert Decimal(39) == "39";
    assert Decimal(611) == "611";
    assert FractionText(611) == ".611";
  }

  lemma RendersExampleSize()
    ensures SizeText(SplitSize(0x32)) == "3e2"
  {
  }
}
