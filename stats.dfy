/** Column statistics as pandas computes them with its default skipna=True: the mean that
    Series.mean, DataFrame.mean and resample(...).mean take, the maximum of Series.max, and
    the modal value of Series.mode(), whose result is sorted so that .iloc[0] is the smallest
    of the most frequent values. */
module Stats {
  import opened Wrappers

  // ---- present values ----

  /** The present values of a column, in order (NaN dropped). */
  function Present<T>(xs: seq<Option<T>>): (p: seq<T>)
    ensures |p| <= |xs|
  {
    if xs == [] then []
    else if xs[0].Some? then [xs[0].value] + Present(xs[1..])
    else Present(xs[1..])
  }

  lemma {:induction false} PresentMembers<T>(xs: seq<Option<T>>, x: T)
    ensures x in Present(xs) <==> Some(x) in xs
  {
    if xs != [] {
      PresentMembers(xs[1..], x);
      assert xs == [xs[0]] + xs[1..];
    }
  }

  lemma {:induction false} PresentEmpty<T>(xs: seq<Option<T>>)
    ensures Present(xs) == [] <==> forall i :: 0 <= i < |xs| ==> xs[i].None?
  {
    if xs != [] {
      PresentEmpty(xs[1..]);
      assert forall i :: 1 <= i < |xs| ==> xs[i] == xs[1..][i - 1];
    }
  }

  lemma {:induction false} PresentCounts<T>(xs: seq<Option<T>>, y: T)
    ensures multiset(Present(xs))[y] == multiset(xs)[Some(y)]
  {
    if xs != [] {
      PresentCounts(xs[1..], y);
      assert xs == [xs[0]] + xs[1..];
    }
  }

  function Sum(xs: seq<real>): real {
    if xs == [] then 0.0 else xs[0] + Sum(xs[1..])
  }

  /** The skipna mean: missing when no value is present. */
  function Mean(xs: seq<Option<real>>): (r: Option<real>)
    ensures r.None? <==> forall i :: 0 <= i < |xs| ==> xs[i].None?
  {
    PresentEmpty(xs);
    var p := Present(xs);
    if |p| == 0 then None else Some(Sum(p) / |p| as real)
  }

  lemma {:induction false} SumBounds(xs: seq<real>, lo: real, hi: real)
    requires forall i :: 0 <= i < |xs| ==> lo <= xs[i] <= hi
    ensures |xs| as real * lo <= Sum(xs) <= |xs| as real * hi
  {
    if xs != [] {
      SumBounds(xs[1..], lo, hi);
    }
  }

  lemma {:induction false} PresentWithin(xs: seq<Option<real>>, lo: real, hi: real)
    requires forall i :: 0 <= i < |xs| ==> xs[i].Some? ==> lo <= xs[i].value <= hi
    ensures forall i :: 0 <= i < |Present(xs)| ==> lo <= Present(xs)[i] <= hi
  {
    if xs != [] {
      PresentWithin(xs[1..], lo, hi);
    }
  }

  lemma DivBetween(s: real, n: real, lo: real, hi: real)
    requires n > 0.0 && n * lo <= s <= n * hi
    ensures lo <= s / n <= hi
  {
    var q := s / n;
    assert s == q * n;
  }

  lemma AverageWithin(p: seq<real>, lo: real, hi: real)
    requires forall i :: 0 <= i < |p| ==> lo <= p[i] <= hi
    ensures |p| > 0 ==> lo <= Sum(p) / |p| as real <= hi
  {
    if |p| > 0 {
      SumBounds(p, lo, hi);
      DivBetween(Sum(p), |p| as real, lo, hi);
    }
  }

  /** A mean lies between every lower and upper bound of the values it averages. */
  lemma MeanWithin(xs: seq<Option<real>>, lo: real, hi: real)
    requires forall i :: 0 <= i < |xs| ==> xs[i].Some? ==> lo <= xs[i].value <= hi
    ensures Mean(xs).Some? ==> lo <= Mean(xs).value <= hi
  {
    PresentWithin(xs, lo, hi);
    AverageWithin(Present(xs), lo, hi);
  }

  function MaxOf(p: seq<real>): (m: real)
    requires p != []
    ensures m in p && forall x :: x in p ==> x <= m
  {
    if |p| == 1 then p[0]
    else
      var rest := MaxOf(p[1..]);
      assert forall x :: x in p ==> x == p[0] || x in p[1..];
      if p[0] >= rest then p[0] else rest
  }

  /** The skipna maximum: missing when no value is present. */
  function Max(xs: seq<Option<real>>): (r: Option<real>)
    ensures r.None? <==> forall i :: 0 <= i < |xs| ==> xs[i].None?
    ensures r.Some? ==> Some(r.value) in xs && forall i :: 0 <= i < |xs| && xs[i].Some? ==> xs[i].value <= r.value
  {
    PresentEmpty(xs);
    var p := Present(xs);
    if p == [] then None
    else
      var m := MaxOf(p);
      PresentMembers(xs, m);
      assert forall i :: 0 <= i < |xs| && xs[i].Some? ==> xs[i].value in p by {
        forall i | 0 <= i < |xs| && xs[i].Some? ensures xs[i].value in p {
          PresentMembers(xs, xs[i].value);
        }
      }
      Some(m)
  }

  // ---- mean imputation ----

  /** fillna: every missing entry takes `fill`, every present one is kept. */
  function FillMissing(xs: seq<Option<real>>, fill: Option<real>): (ys: seq<Option<real>>)
    ensures |ys| == |xs|
    ensures forall i :: 0 <= i < |xs| ==> ys[i] == if xs[i].Some? then xs[i] else fill
  {
    if xs == [] then [] else [if xs[0].Some? then xs[0] else fill] + FillMissing(xs[1..], fill)
  }

  /** k * v, written as repeated addition so that the sums below stay linear. */
  function Times(k: nat, v: real): real {
    if k == 0 then 0.0 else v + Times(k - 1, v)
  }

  lemma {:induction false} TimesIsProduct(k: nat, v: real)
    ensures Times(k, v) == k as real * v
  {
    if k > 0 {
      TimesIsProduct(k - 1, v);
      assert (k - 1) as real * v + v == k as real * v;
    }
  }

  /** Filling with a present value: nothing is missing any more, and the sum grows by that
      value once per filled gap. */
  lemma {:induction false} FilledSum(xs: seq<Option<real>>, v: real)
    ensures |Present(FillMissing(xs, Some(v)))| == |xs|
    ensures Sum(Present(FillMissing(xs, Some(v)))) == Sum(Present(xs)) + Times(|xs| - |Present(xs)|, v)
  {
    if xs != [] {
      FilledSum(xs[1..], v);
      assert FillMissing(xs, Some(v))[1..] == FillMissing(xs[1..], Some(v));
    }
  }

  lemma MeanKept(s: real, n: real, k: nat, s': real, n': real)
    requires n > 0.0
    requires s' == s + Times(k, s / n) && n' == n + k as real
    ensures s' / n' == s / n
  {
    TimesIsProduct(k, s / n);
    var q := s / n;
    assert s == q * n;
    assert s + k as real * q == q * (n + k as real);
  }

  /** Mean imputation keeps the mean: filling the gaps of a column with its mean and averaging
      again gives the same mean. */
  lemma MeanOfMeanFilled(xs: seq<Option<real>>)
    ensures Mean(FillMissing(xs, Mean(xs))) == Mean(xs)
  {
    var m := Mean(xs);
    if m.None? {
      assert FillMissing(xs, m) == xs;
    } else {
      var p := Present(xs);
      var q := Present(FillMissing(xs, m));
      var n := |p| as real;
      var k := |xs| - |p|;
      var s, s', n' := Sum(p), Sum(q), |q| as real;
      assert m.value == s / n;
      FilledSum(xs, m.value);
      MeanKept(s, n, k, s', n');
      assert Mean(FillMissing(xs, m)) == Some(s' / n');
    }
  }

  // ---- the modal value ----

  /** Python's ordering of str: lexicographic by code point, a proper prefix first. */
  predicate StrLe(a: string, b: string) {
    if a == [] then true
    else if b == [] then false
    else if a[0] != b[0] then a[0] < b[0]
    else StrLe(a[1..], b[1..])
  }

  lemma {:induction false} StrLeTotal(a: string, b: string)
    ensures StrLe(a, b) || StrLe(b, a)
  {
    if a != [] && b != [] && a[0] == b[0] {
      StrLeTotal(a[1..], b[1..]);
    }
  }

  lemma {:induction false} StrLeAntisymmetric(a: string, b: string)
    requires StrLe(a, b) && StrLe(b, a)
    ensures a == b
  {
    if a != [] && b != [] {
      StrLeAntisymmetric(a[1..], b[1..]);
      assert a == [a[0]] + a[1..] && b == [b[0]] + b[1..];
    }
  }

  lemma {:induction false} StrLeTransitive(a: string, b: string, c: string)
    requires StrLe(a, b) && StrLe(b, c)
    ensures StrLe(a, c)
  {
    if a != [] && b != [] && c != [] && a[0] == b[0] && b[0] == c[0] {
      StrLeTransitive(a[1..], b[1..], c[1..]);
    }
  }

  /** `x` is at least as good a mode candidate as `y` among `xs`: more frequent, or as frequent
      and not greater. */
  predicate Beats(xs: seq<string>, x: string, y: string) {
    multiset(xs)[x] > multiset(xs)[y] || (multiset(xs)[x] == multiset(xs)[y] && StrLe(x, y))
  }

  /** What Series.mode().iloc[0] denotes: a most frequent present value, and the smallest
      of those. */
  ghost predicate IsModeOf(m: string, xs: seq<Option<string>>) {
    Some(m) in xs &&
    forall y :: Some(y) in xs ==>
      multiset(xs)[Some(y)] <= multiset(xs)[Some(m)] &&
      (multiset(xs)[Some(y)] == multiset(xs)[Some(m)] ==> StrLe(m, y))
  }

  /** The candidate among `cands` that beats every other one. */
  function Best(cands: seq<string>, xs: seq<string>): (b: string)
    requires cands != []
    ensures b in cands
    ensures forall c :: c in cands ==> Beats(xs, b, c)
  {
    if |cands| == 1 then
      StrLeTotal(cands[0], cands[0]);
      cands[0]
    else
      var rest := Best(cands[1..], xs);
      assert forall c :: c in cands ==> c == cands[0] || c in cands[1..];
      StrLeTotal(cands[0], rest);
      StrLeTotal(cands[0], cands[0]);
      if Beats(xs, cands[0], rest) then
        assert forall c :: c in cands[1..] ==> Beats(xs, cands[0], c) by {
          forall c | c in cands[1..] ensures Beats(xs, cands[0], c) {
            if multiset(xs)[cands[0]] == multiset(xs)[c] {
              StrLeTransitive(cands[0], rest, c);
            }
          }
        }
        cands[0]
      else
        rest
  }

  /** x.mode().iloc[0] if not x.mode().empty else NaN. */
  function Mode(xs: seq<Option<string>>): (r: Option<string>)
    ensures r.None? <==> forall i :: 0 <= i < |xs| ==> xs[i].None?
    ensures r.Some? ==> IsModeOf(r.value, xs)
  {
    PresentEmpty(xs);
    var p := Present(xs);
    if p == [] then None
    else
      var b := Best(p, p);
      PresentMembers(xs, b);
      assert forall y :: Some(y) in xs ==>
               multiset(xs)[Some(y)] <= multiset(xs)[Some(b)] &&
               (multiset(xs)[Some(y)] == multiset(xs)[Some(b)] ==> StrLe(b, y)) by {
        forall y | Some(y) in xs
          ensures multiset(xs)[Some(y)] <= multiset(xs)[Some(b)]
          ensures multiset(xs)[Some(y)] == multiset(xs)[Some(b)] ==> StrLe(b, y)
        {
          PresentMembers(xs, y);
          PresentCounts(xs, y);
          PresentCounts(xs, b);
        }
      }
      Some(b)
  }

  /** At most one value is the mode, so Mode is the only function meeting its contract. */
  lemma ModeIsUnique(a: string, b: string, xs: seq<Option<string>>)
    requires IsModeOf(a, xs) && IsModeOf(b, xs)
    ensures a == b
  {
    StrLeAntisymmetric(a, b);
  }

  /** A value is the result of Mode exactly when it is the mode. */
  lemma ModeCharacterised(xs: seq<Option<string>>, m: string)
    ensures Mode(xs) == Some(m) <==> IsModeOf(m, xs)
  {
    if IsModeOf(m, xs) {
      ModeIsUnique(Mode(xs).value, m, xs);
    }
  }

  lemma ModeExample()
    ensures Mode([Some("Rain"), Some("Rain"), Some("Snow")]) == Some("Rain")
    ensures Mode([None, None]) == None
  {
    var xs := [Some("Rain"), Some("Rain"), Some("Snow")];
    assert multiset(xs)[Some("Rain")] == 2;
    assert multiset(xs)[Some("Snow")] == 1;
    var m := Mode(xs).value;
    assert m == "Rain" || m == "Snow";
  }
}
