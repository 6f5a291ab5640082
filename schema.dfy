/** Column resolution. A column is found either by its exact name (df["Humidity"]) or, for the
    wind-speed column, as the first column whose lower-cased name contains "wind". Both transform
    and validate resolve the wind column with the same rule, defined once here. */
module Schema {
  import opened Wrappers

  /** The columns transform and validate look up by name. */
  const HUMIDITY := "Humidity"
  const PRECIP_TYPE := "Precip Type"
  const TEMPERATURE := "Temperature (C)"

  /** str.lower on the ASCII letters. */
  function ToLower(c: char): char {
    if 'A' <= c <= 'Z' then (c as int + 32) as char else c
  }

  function Lowered(s: string): (r: string)
    ensures |r| == |s| && forall i :: 0 <= i < |s| ==> r[i] == ToLower(s[i])
  {
    seq(|s|, i requires 0 <= i < |s| => ToLower(s[i]))
  }

  /** Lower-casing is idempotent: a lower-cased name lower-cases to itself. */
  lemma LoweredIdempotent(s: string)
    ensures Lowered(Lowered(s)) == Lowered(s)
  {
  }

  /** `t` occurs in `s` starting at position k. */
  predicate OccursAt(s: string, t: string, k: int) {
    0 <= k && k + |t| <= |s| && s[k..k + |t|] == t
  }

  /** `t` occurs in `s` at some position from `k` on. */
  function ContainsFrom(s: string, t: string, k: nat): (r: bool)
    ensures r <==> exists j :: k <= j && OccursAt(s, t, j)
    decreases |s| - k
  {
    if k + |t| > |s| then false
    else if s[k..k + |t|] == t then assert OccursAt(s, t, k); true
    else ContainsFrom(s, t, k + 1)
  }

  /** Python's `t in s` on strings. */
  function Contains(s: string, t: string): (r: bool)
    ensures r <==> exists k :: OccursAt(s, t, k)
  {
    ContainsFrom(s, t, 0)
  }

  /** `"wind" in col.lower()`. */
  predicate NamesWind(name: string) {
    Contains(Lowered(name), "wind")
  }

  /** Whether a name mentions wind does not depend on the case of its letters. */
  lemma NamesWindIgnoresCase(name: string)
    ensures NamesWind(Lowered(name)) <==> NamesWind(name)
  {
    LoweredIdempotent(name);
  }

  /** "Humidity" does not mention wind: it has no 'w'. So the wind column is never the
      humidity column. */
  lemma HumidityIsNotWind()
    ensures !NamesWind(HUMIDITY)
  {
    var l := Lowered(HUMIDITY);
    assert l == "humidity";
    forall k | 0 <= k && k + 4 <= |l| ensures !OccursAt(l, "wind", k) {
      assert l[k] != 'w';
    }
  }

  /** The first column, from index `from` on, whose name mentions wind. */
  function FirstWindFrom(names: seq<string>, from: nat): (r: Option<nat>)
    requires from <= |names|
    ensures r.None? <==> forall j :: from <= j < |names| ==> !NamesWind(names[j])
    ensures r.Some? ==> from <= r.value < |names| && NamesWind(names[r.value]) &&
                        forall j :: from <= j < r.value ==> !NamesWind(names[j])
    decreases |names| - from
  {
    if from == |names| then None
    else if NamesWind(names[from]) then Some(from)
    else FirstWindFrom(names, from + 1)
  }

  /** `[col for col in columns if "wind" in col.lower()][0]`, missing when the list is empty. */
  function WindColumn(names: seq<string>): (r: Option<nat>)
    ensures r.None? <==> forall j :: 0 <= j < |names| ==> !NamesWind(names[j])
    ensures r.Some? ==> r.value < |names| && NamesWind(names[r.value]) &&
                        forall j :: 0 <= j < r.value ==> !NamesWind(names[j])
  {
    FirstWindFrom(names, 0)
  }

  /** The position of the column called `name`; the first one if the name repeats. */
  function IndexOf(names: seq<string>, name: string): (r: Option<nat>)
    ensures r.None? <==> name !in names
    ensures r.Some? ==> r.value < |names| && names[r.value] == name && name !in names[..r.value]
  {
    if names == [] then None
    else if names[0] == name then Some(0)
    else
      match IndexOf(names[1..], name)
      case None => None
      case Some(i) =>
        assert names[..i + 1] == [names[0]] + names[1..][..i];
        Some(i + 1)
  }
}
