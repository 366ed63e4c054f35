/**
  Angles as degrees and as packed degrees, minutes and seconds
  (DDDMMMSSS.SS), over the reals.
*/
module Angles {

  const SNAP: real := 0.0000001

  function Abs(x: real): real
  {
    if x < 0.0 then -x else x
  }

  /** A conversion to an integer type: truncation toward zero. */
  function Trunc(x: real): (n: int)
    ensures Abs(n as real) <= Abs(x) && Abs(x - n as real) < 1.0
    ensures x >= 0.0 ==> n >= 0 && n as real <= x
    ensures x <= 0.0 ==> n <= 0 && n as real >= x
  {
    if x >= 0.0 then x.Floor else -(-x).Floor
  }

  /** What an integer part must satisfy to be the truncation. */
  lemma TruncIs(x: real, n: int)
    requires x >= 0.0 ==> 0 <= n && n as real <= x < n as real + 1.0
    requires x <= 0.0 ==> n <= 0 && n as real - 1.0 < x <= n as real
    ensures Trunc(x) == n
  {
    var m := Trunc(x);
    assert x >= 0.0 ==> n <= m < n + 1;
    assert x <= 0.0 ==> n - 1 < m <= n;
  }

  datatype Parts = Parts(deg: int, min: int, sec: real)
  {
    /** The angle in degrees. */
    function Degrees(): real
    {
      deg as real + min as real / 60.0 + sec / 3600.0
    }

    /** The packed form. */
    function Packed(): real
    {
      deg as real * 1000000.0 + min as real * 1000.0 + sec
    }

    /** Whole minutes and seconds below sixty, all of one sign. */
    ghost predicate Proper()
    {
      && Abs(min as real) <= 59.0 && Abs(sec) < 60.0
      && ((deg >= 0 && min >= 0 && sec >= 0.0) || (deg <= 0 && min <= 0 && sec <= 0.0))
    }
  }

  /** Packed degrees to degrees. */
  function DmsToDeg(inAngle: real): real
  {
    var deg := Trunc(inAngle / 1000000.0);
    var min := Trunc((inAngle - deg as real * 1000000.0) / 1000.0);
    var sec := inAngle - deg as real * 1000000.0 - min as real * 1000.0;
    Parts(deg, min, sec).Degrees()
  }

  /** The parts of an angle before seconds are adjusted. */
  function Split(inAngle: real): Parts
  {
    var deg := Trunc(inAngle);
    var min := Trunc((inAngle - deg as real) * 60.0);
    Parts(deg, min, (inAngle - deg as real - min as real / 60.0) * 3600.0)
  }

  /** Seconds within a hair of 0 or 60 are taken to be 0 or 60, and sixty seconds or minutes carried. */
  function Adjust(p: Parts): Parts
  {
    var sec := if Abs(p.sec) < SNAP then 0.0 else p.sec;
    var carry := Abs(sec - 60.0) < SNAP || sec > 60.0;
    var sec' := if !carry then sec else if sec - 60.0 < 0.0 then 0.0 else sec - 60.0;
    var min' := if carry then p.min + 1 else p.min;
    if min' == 60 then Parts(p.deg + 1, 0, sec') else Parts(p.deg, min', sec')
  }

  /** Degrees to packed degrees. */
  function DegToDms(inAngle: real): real
  {
    Adjust(Split(inAngle)).Packed()
  }

  /** The split is exact and proper. */
  lemma SplitProper(a: real)
    ensures Split(a).Proper() && Split(a).Degrees() == a
    ensures a >= 0.0 ==> Split(a).deg >= 0 && Split(a).min >= 0 && Split(a).sec >= 0.0
    ensures a <= 0.0 ==> Split(a).deg <= 0 && Split(a).min <= 0 && Split(a).sec <= 0.0
  {
    var p := Split(a);
    var deg := Trunc(a);
    var x := (a - deg as real) * 60.0;
    var min := Trunc(x);
    assert Abs(x) < 60.0;
    assert a >= 0.0 ==> x >= 0.0;
    assert a <= 0.0 ==> x <= 0.0;
    assert p.sec == (x - min as real) * 60.0;
  }

  /** Seconds that the adjustment leaves alone. */
  predicate Kept(sec: real)
  {
    (sec == 0.0 || Abs(sec) >= SNAP) && sec <= 60.0 - SNAP
  }

  /** The adjusted parts are proper, and off by less than a hair, by nothing exactly if the seconds were kept. */
  lemma AdjustProper(p: Parts)
    requires p.Proper()
    ensures Adjust(p).Proper()
    ensures -0.0000001 / 3600.0 < Adjust(p).Degrees() - p.Degrees() < 0.0000001 / 3600.0
    ensures Adjust(p).Degrees() == p.Degrees() <==> Kept(p.sec)
    ensures Kept(p.sec) ==> Adjust(p) == p
  {
  }

  /** Unpacking the packed form of proper parts gives them back. */
  lemma UnpackPacked(p: Parts)
    requires p.Proper()
    ensures DmsToDeg(p.Packed()) == p.Degrees()
  {
    var a := p.Packed();
    TruncIs(a / 1000000.0, p.deg);
    TruncIs((a - p.deg as real * 1000000.0) / 1000.0, p.min);
  }

  /** Whole minutes and seconds below sixty, all of one sign with the degrees. */
  ghost predicate SexagesimalParts(d: int, m: int, s: real)
  {
    (0 <= d && 0 <= m <= 59 && 0.0 <= s < 60.0) || (d <= 0 && -59 <= m <= 0 && -60.0 < s <= 0.0)
  }

  /** The packed form DDDMMMSSS.SS of such parts is read as the angle they stand for. */
  lemma UnpackDigits(d: int, m: int, s: real)
    requires SexagesimalParts(d, m, s)
    ensures DmsToDeg(d as real * 1000000.0 + m as real * 1000.0 + s) == d as real + m as real / 60.0 + s / 3600.0
  {
    UnpackPacked(Parts(d, m, s));
  }

  /** What packing makes of any angle has that form, and its parts are within 0.0000001 seconds of the angle. */
  lemma PackDigits(a: real) returns (d: int, m: int, s: real)
    ensures SexagesimalParts(d, m, s)
    ensures DegToDms(a) == d as real * 1000000.0 + m as real * 1000.0 + s
    ensures -0.0000001 / 3600.0 < d as real + m as real / 60.0 + s / 3600.0 - a < 0.0000001 / 3600.0
  {
    SplitProper(a);
    AdjustProper(Split(a));
    hide Split, Adjust;
    var p := Adjust(Split(a));
    d, m, s := p.deg, p.min, p.sec;
  }

  /** Packing and unpacking changes an angle by less than 0.0000001 seconds. */
  lemma RoundTrip(a: real)
    ensures -0.0000001 / 3600.0 < DmsToDeg(DegToDms(a)) - a < 0.0000001 / 3600.0
    ensures DmsToDeg(DegToDms(a)) == a <==> Kept(Split(a).sec)
  {
    SplitProper(a);
    AdjustProper(Split(a));
    UnpackPacked(Adjust(Split(a)));
  }

  /** The parts of an angle are unique. */
  lemma SplitUnique(p: Parts)
    requires p.Proper()
    ensures Split(p.Degrees()) == p
  {
    var a := p.Degrees();
    TruncIs(a, p.deg);
    TruncIs((a - p.deg as real) * 60.0, p.min);
  }

  lemma PartsRoundTrip(p: Parts)
    requires p.Proper()
    ensures Kept(p.sec) <==> DegToDms(DmsToDeg(p.Packed())) == p.Packed()
  {
    UnpackPacked(p);
    SplitUnique(p);
    AdjustProper(p);
  }

  /** Unpacking and packing restores a packed angle exactly if its seconds are 0 or not within 0.0000001 of 0 or 60. */
  lemma PackedRoundTrip(d: int, m: int, s: real)
    requires SexagesimalParts(d, m, s)
    ensures var packed := d as real * 1000000.0 + m as real * 1000.0 + s;
            DegToDms(DmsToDeg(packed)) == packed
            <==> s == 0.0 || s <= -0.0000001 || 0.0000001 <= s <= 60.0 - 0.0000001
  {
    hide DegToDms, DmsToDeg;
    PartsRoundTrip(Parts(d, m, s));
  }
}
