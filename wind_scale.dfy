/** The wind-strength classifier: a wind speed in km/h, converted to m/s, is looked up in a
    fixed ascending table of twelve closed Beaufort-style bands. The bands leave gaps
    (1.5 to 1.6 m/s, 3.3 to 3.4 m/s, ...): a value in a gap, or a negative one, is in no band
    and the scan yields no label. */
module WindScale {
  import opened Wrappers

  /** An upper bound of a band; the last band is open-ended (float("inf")). */
  datatype Bound = Finite(limit: real) | Infinite

  /** One row `(lo, hi, label)` of the scale; both ends are inclusive. */
  datatype Band = Band(lo: real, hi: Bound, name: string)

  predicate InBand(b: Band, v: real) {
    b.lo <= v && (b.hi.Finite? ==> v <= b.hi.limit)
  }

  const KMH_PER_MPS: real := 3.6

  const SCALE: seq<Band> := [
    Band(0.0, Finite(1.5), "Calm"),
    Band(1.6, Finite(3.3), "Light Air"),
    Band(3.4, Finite(5.4), "Light Breeze"),
    Band(5.5, Finite(7.9), "Gentle Breeze"),
    Band(8.0, Finite(10.7), "Moderate Breeze"),
    Band(10.8, Finite(13.8), "Fresh Breeze"),
    Band(13.9, Finite(17.1), "Strong Breeze"),
    Band(17.2, Finite(20.7), "Near Gale"),
    Band(20.8, Finite(24.4), "Gale"),
    Band(24.5, Finite(28.4), "Strong Gale"),
    Band(28.5, Finite(32.6), "Storm"),
    Band(32.7, Infinite, "Violent Storm")
  ]

  /** The scan of `for lo, hi, label in scale: if lo <= mps <= hi: return label`, falling
      through to an implicit None: the label of the first band that holds `v`. */
  function Scan(bands: seq<Band>, v: real): (r: Option<string>)
    ensures r.None? <==> forall i :: 0 <= i < |bands| ==> !InBand(bands[i], v)
    ensures r.Some? ==> exists i :: 0 <= i < |bands| && InBand(bands[i], v) && r.value == bands[i].name
                                    && forall j :: 0 <= j < i ==> !InBand(bands[j], v)
  {
    if bands == [] then None
    else if InBand(bands[0], v) then Some(bands[0].name)
    else
      var r := Scan(bands[1..], v);
      assert r.Some? ==> exists i :: 1 <= i < |bands| && InBand(bands[i], v) && r.value == bands[i].name
                                     && forall j :: 0 <= j < i ==> !InBand(bands[j], v) by {
        if r.Some? {
          var k :| 0 <= k < |bands| - 1 && InBand(bands[1..][k], v) && r.value == bands[1..][k].name
                   && forall j :: 0 <= j < k ==> !InBand(bands[1..][j], v);
          assert forall j :: 0 <= j < k + 1 ==> !InBand(bands[j], v) by {
            forall j | 0 <= j < k + 1 ensures !InBand(bands[j], v) {
              if j > 0 { assert bands[j] == bands[1..][j - 1]; }
            }
          }
        }
      }
      r
  }

  /** wind_strength(kmh): missing stays missing, otherwise the scan over the m/s value. No
      label comes out exactly when the speed is missing, negative once converted, or converted
      into one of the eleven gaps between consecutive bands; otherwise the label is that of the
      one band holding the m/s value. */
  function WindStrength(kmh: Option<real>): (r: Option<string>)
    ensures r.None? <==>
            kmh.None? || MetresPerSecond(kmh.value) < 0.0 || InSomeGap(SCALE, MetresPerSecond(kmh.value))
    ensures r.Some? ==> exists i :: 0 <= i < |SCALE| && InBand(SCALE[i], MetresPerSecond(kmh.value)) &&
                                    r.value == SCALE[i].name
    ensures kmh.Some? ==> forall i :: 0 <= i < |SCALE| && InBand(SCALE[i], MetresPerSecond(kmh.value)) ==>
                                       r == Some(SCALE[i].name)
  {
    match kmh
    case None => None
    case Some(k) =>
      ScaleScan(MetresPerSecond(k));
      Scan(SCALE, MetresPerSecond(k))
  }

  /** Each band is a proper interval and ends strictly below where the next one starts. */
  predicate Ascending(bands: seq<Band>) {
    && (forall i :: 0 <= i < |bands| ==> bands[i].hi.Finite? ==> bands[i].lo <= bands[i].hi.limit)
    && (forall i :: 0 <= i < |bands| - 1 ==> bands[i].hi.Finite? && bands[i].hi.limit < bands[i + 1].lo)
  }

  lemma ScaleIsAscending()
    ensures Ascending(SCALE)
  {
    forall i | 0 <= i < |SCALE| - 1
      ensures SCALE[i].hi.Finite? && SCALE[i].hi.limit < SCALE[i + 1].lo
    {
      if i == 0 {} else if i == 1 {} else if i == 2 {} else if i == 3 {} else if i == 4 {}
      else if i == 5 {} else if i == 6 {} else if i == 7 {} else if i == 8 {} else if i == 9 {}
      else {}
    }
  }

  /** In an ascending table, a band ends strictly below where every later band starts. */
  lemma {:induction false} AscendingApart(bands: seq<Band>, i: int, j: int)
    requires Ascending(bands)
    requires 0 <= i < j < |bands|
    ensures bands[i].hi.Finite? && bands[i].hi.limit < bands[j].lo
  {
    if j > i + 1 {
      AscendingApart(bands, i, j - 1);
      assert bands[j - 1].lo <= bands[j - 1].hi.limit < bands[j].lo;
    }
  }

  /** In an ascending table a value lies in at most one band. */
  lemma AtMostOneBand(bands: seq<Band>, v: real, i: int, j: int)
    requires Ascending(bands)
    requires 0 <= i < |bands| && 0 <= j < |bands|
    requires InBand(bands[i], v) && InBand(bands[j], v)
    ensures i == j
  {
    if i < j {
      AscendingApart(bands, i, j);
    } else if j < i {
      AscendingApart(bands, j, i);
    }
  }

  function MetresPerSecond(kmh: real): real {
    kmh / KMH_PER_MPS
  }

  /** The open gap between band i and band i + 1. */
  predicate InGapAfter(bands: seq<Band>, i: int, v: real)
    requires 0 <= i < |bands| - 1
  {
    bands[i].hi.Finite? && bands[i].hi.limit < v < bands[i + 1].lo
  }

  predicate InSomeGap(bands: seq<Band>, v: real) {
    exists i :: 0 <= i < |bands| - 1 && InGapAfter(bands, i, v)
  }

  /** Over an ascending table whose last band is open-ended, a value at or above the first
      lower bound that lies in no band lies in a gap. */
  lemma {:induction false} MissLiesInGap(bands: seq<Band>, v: real)
    requires Ascending(bands) && |bands| > 0 && bands[|bands| - 1].hi.Infinite?
    requires bands[0].lo <= v
    requires forall i :: 0 <= i < |bands| ==> !InBand(bands[i], v)
    ensures InSomeGap(bands, v)
  {
    assert !InBand(bands[0], v);
    if v < bands[1].lo {
      assert InGapAfter(bands, 0, v);
    } else {
      var rest := bands[1..];
      assert forall i :: 0 <= i < |rest| ==> !InBand(rest[i], v) by {
        forall i | 0 <= i < |rest| ensures !InBand(rest[i], v) { assert rest[i] == bands[i + 1]; }
      }
      MissLiesInGap(rest, v);
      var g :| 0 <= g < |rest| - 1 && InGapAfter(rest, g, v);
      assert InGapAfter(bands, g + 1, v);
    }
  }

  /** Over an ascending table, a value in a gap, or below the first band, lies in no band. */
  lemma GapMisses(bands: seq<Band>, v: real)
    requires Ascending(bands) && |bands| > 0
    requires v < bands[0].lo || InSomeGap(bands, v)
    ensures forall i :: 0 <= i < |bands| ==> !InBand(bands[i], v)
  {
    if InSomeGap(bands, v) {
      var g :| 0 <= g < |bands| - 1 && InGapAfter(bands, g, v);
      forall j | 0 <= j < |bands| ensures !InBand(bands[j], v) {
        if j < g {
          AscendingApart(bands, j, g);
        } else if g + 1 < j {
          AscendingApart(bands, g + 1, j);
        }
      }
    } else {
      forall j | 0 <= j < |bands| ensures !InBand(bands[j], v) {
        if 0 < j { AscendingApart(bands, 0, j); }
      }
    }
  }

  /** On the table as written the scan finds nothing exactly when the value is negative or in
      a gap, and a value in band i gets band i's label: bands do not overlap, so the first
      band holding the value is the only one. */
  lemma ScaleScan(v: real)
    ensures Scan(SCALE, v).None? <==> v < 0.0 || InSomeGap(SCALE, v)
    ensures forall i :: 0 <= i < |SCALE| && InBand(SCALE[i], v) ==> Scan(SCALE, v) == Some(SCALE[i].name)
  {
    ScaleIsAscending();
    var r := Scan(SCALE, v);
    if r.None? && 0.0 <= v {
      MissLiesInGap(SCALE, v);
    }
    if v < 0.0 || InSomeGap(SCALE, v) {
      GapMisses(SCALE, v);
    }
    forall i | 0 <= i < |SCALE| && InBand(SCALE[i], v) ensures r == Some(SCALE[i].name) {
      var k :| 0 <= k < |SCALE| && InBand(SCALE[k], v) && r.value == SCALE[k].name;
      AtMostOneBand(SCALE, v, i, k);
    }
  }

  /** Worked cases: 5 km/h is about 1.39 m/s (Calm), 20 km/h about 5.56 m/s (Gentle Breeze);
      5.58 km/h is 1.55 m/s, inside the first gap, and gets no label. */
  lemma WindStrengthExamples()
    ensures WindStrength(Some(5.0)) == Some("Calm")
    ensures WindStrength(Some(20.0)) == Some("Gentle Breeze")
    ensures WindStrength(Some(5.58)) == None
  {
    assert InBand(SCALE[0], MetresPerSecond(5.0));
    assert InBand(SCALE[3], MetresPerSecond(20.0));
    assert InGapAfter(SCALE, 0, MetresPerSecond(5.58));
  }
}
