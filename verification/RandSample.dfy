/**
  Sampling without replacement, framework/go/leaf/util/rand.go.

  The reference is a plain array from which values are drawn: the drawn place is filled with the last
  value and the array shrinks by one.  `RandIntervalN` keeps only the places that differ from their
  initial value in a map.  The random source is a sequence of choices, and every result below is for
  all of them.
*/
module RandSample {
  import opened NodeLists

  newtype int32 = x: int | -0x8000_0000 <= x < 0x8000_0000
  newtype uint32 = x: int | 0 <= x < 0x1_0000_0000

  /** The array left after place `k` has been drawn. */
  function Shrunk(a: seq<int>, k: int): (b: seq<int>)
    requires 0 <= k < |a|
    ensures |b| == |a| - 1
  {
    a[k := a[|a| - 1]][..|a| - 1]
  }

  /** Every choice is a place of the array as it stands at that draw. */
  predicate InRange(choices: seq<int>, l: int) {
    |choices| <= l && forall i :: 0 <= i < |choices| ==> 0 <= choices[i] < l - i
  }

  /** The values drawn from `a` by `choices`. */
  function Sample(a: seq<int>, choices: seq<int>): (r: seq<int>)
    requires InRange(choices, |a|)
    ensures |r| == |choices|
    decreases |choices|
  {
    if choices == [] then [] else [a[choices[0]]] + Sample(Shrunk(a, choices[0]), choices[1..])
  }

  /** The place of a value, when the array holds it. */
  function Place(a: seq<int>, v: int): (k: int)
    requires v in a
    ensures 0 <= k < |a| && a[k] == v
  {
    if a[0] == v then 0 else 1 + Place(a[1..], v)
  }

  /** A drawn value is gone from the array and nothing else is. */
  lemma ShrunkElems(a: seq<int>, k: int)
    requires 0 <= k < |a| && NoDup(a)
    ensures NoDup(Shrunk(a, k))
    ensures forall v :: v in Shrunk(a, k) <==> v in a && v != a[k]
  {
    var b := Shrunk(a, k);
    forall v | v in a && v != a[k] ensures v in b {
      var i :| 0 <= i < |a| && a[i] == v;
      if i == |a| - 1 { assert b[k] == v; } else { assert b[i] == v; }
    }
  }

  /** What is drawn is in the array, and nothing is drawn twice. */
  lemma {:induction false} SampleIsDistinct(a: seq<int>, choices: seq<int>)
    requires NoDup(a) && InRange(choices, |a|)
    ensures NoDup(Sample(a, choices))
    ensures forall v :: v in Sample(a, choices) ==> v in a
    decreases |choices|
  {
    if choices != [] {
      ShrunkElems(a, choices[0]);
      SampleIsDistinct(Shrunk(a, choices[0]), choices[1..]);
      var s, rest := Sample(a, choices), Sample(Shrunk(a, choices[0]), choices[1..]);
      assert forall i :: 0 <= i < |rest| ==> rest[i] in rest;
    }
  }

  /** The choices that draw a given sequence of distinct values. */
  function ChoicesFor(a: seq<int>, r: seq<int>): (choices: seq<int>)
    requires NoDup(a) && NoDup(r) && forall v :: v in r ==> v in a
    ensures InRange(choices, |a|) && |choices| == |r|
    ensures Sample(a, choices) == r
    decreases |r|
  {
    if r == [] then [] else
      var k := Place(a, r[0]);
      ShrunkElems(a, k);
      assert forall v :: v in r[1..] ==> v in a && v != r[0];
      var rest := ChoicesFor(Shrunk(a, k), r[1..]);
      assert ([k] + rest)[1..] == rest;
      [k] + rest
  }

  /** Different choices draw different sequences. */
  lemma {:induction false} SampleDetermines(a: seq<int>, c: seq<int>, d: seq<int>)
    requires NoDup(a) && InRange(c, |a|) && InRange(d, |a|)
    requires Sample(a, c) == Sample(a, d)
    ensures c == d
    decreases |c|
  {
    assert |c| == |Sample(a, c)| == |d|;
    if c != [] {
      assert Sample(a, c)[0] == a[c[0]] && Sample(a, d)[0] == a[d[0]];
      assert Sample(a, c)[1..] == Sample(Shrunk(a, c[0]), c[1..]);
      assert Sample(a, d)[1..] == Sample(Shrunk(a, d[0]), d[1..]);
      ShrunkElems(a, c[0]);
      SampleDetermines(Shrunk(a, c[0]), c[1..], d[1..]);
      assert c == [c[0]] + c[1..] && d == [d[0]] + d[1..];
    }
  }

  /** `min`, `min + 1`, ..., `max`. */
  function Interval(min: int, max: int): (a: seq<int>)
    requires min <= max
    ensures |a| == max - min + 1
    ensures NoDup(a)
    ensures forall v :: v in a <==> min <= v <= max
  {
    var a := seq(max - min + 1, i requires 0 <= i => min + i);
    assert forall v :: min <= v <= max ==> v in a by {
      forall v | min <= v <= max ensures v in a { assert a[v - min] == v; }
    }
    a
  }

  function Min(x: int, y: int): int { if x <= y then x else y }
  function Max(x: int, y: int): int { if x <= y then y else x }

  /** How many values are drawn. */
  function Count(b1: int32, b2: int32, n: uint32): (c: int) {
    Min(n as int, Max(b1 as int, b2 as int) - Min(b1 as int, b2 as int) + 1)
  }

  /** What the map-backed array holds at a value's place. */
  function At(m: map<int32, int32>, v: int32): int32 {
    if v in m then m[v] else v
  }

  /** The map represents the array of the first `|a|` places from `min`. */
  ghost predicate Backs(m: map<int32, int32>, min: int, a: seq<int>) {
    && -0x8000_0000 <= min && min + |a| <= 0x8000_0000
    && forall k :: 0 <= k < |a| ==> At(m, (min + k) as int32) as int == a[k]
  }

  lemma {:induction false} SampleConcat(a: seq<int>, c: seq<int>, k: int, b: seq<int>)
    requires InRange(c, |a|) && b == Left(a, c) && 0 <= k < |b|
    ensures InRange(c + [k], |a|)
    ensures Sample(a, c + [k]) == Sample(a, c) + [b[k]]
    ensures Left(a, c + [k]) == Shrunk(b, k)
    decreases |c|
  {
    if c != [] {
      assert (c + [k])[1..] == c[1..] + [k];
      SampleConcat(Shrunk(a, c[0]), c[1..], k, b);
    } else {
      assert (c + [k])[1..] == [];
      assert b == a;
    }
  }

  /** The array left after all of `choices`. */
  ghost function Left(a: seq<int>, choices: seq<int>): (b: seq<int>)
    requires InRange(choices, |a|)
    ensures |b| == |a| - |choices|
    decreases |choices|
  {
    if choices == [] then a else Left(Shrunk(a, choices[0]), choices[1..])
  }

  /** After the draws `c` the loop has output `r`, and its map backs what is left of the array. */
  ghost predicate Drawn(a: seq<int>, min: int, c: seq<int>, m: map<int32, int32>, r: seq<int32>) {
    && InRange(c, |a|) && Backs(m, min, Left(a, c))
    && |r| == |c| && forall i :: 0 <= i < |r| ==> r[i] as int == Sample(a, c)[i]
  }

  /** One more draw: output what is at the drawn place, and move the last value there. */
  lemma DrawOne(a: seq<int>, min: int, c: seq<int>, k: int, m: map<int32, int32>, r: seq<int32>,
                moved: map<int32, int32>)
    requires Drawn(a, min, c, m, r) && 0 <= k < |a| - |c|
    requires moved == if k == |a| - |c| - 1 then m else m[(min + k) as int32 := At(m, (min + |a| - |c| - 1) as int32)]
    ensures Drawn(a, min, c + [k], moved, r + [At(m, (min + k) as int32)])
  {
    var b := Left(a, c);
    assert Backs(moved, min, Shrunk(b, k));
    SampleConcat(a, c, k, b);
  }

  /**
    RandIntervalN(b1, b2, n), where `choices[i]` is the value that call number i of the random source
    returns for the bound it is given.  No conversion to 32 bits loses anything.
  */
  method RandIntervalN(b1: int32, b2: int32, n: uint32, choices: seq<int>) returns (r: seq<int32>)
    requires b1 != b2 ==> |choices| == Count(b1, b2, n)
    requires b1 != b2 ==> InRange(choices, Max(b1 as int, b2 as int) - Min(b1 as int, b2 as int) + 1)
    ensures b1 == b2 ==> r == [b1]
    ensures b1 != b2 ==> |r| == |choices|
    ensures b1 != b2 ==> forall i :: 0 <= i < |r| ==>
      r[i] as int == Sample(Interval(Min(b1 as int, b2 as int), Max(b1 as int, b2 as int)), choices)[i]
  {
    if b1 == b2 {
      return [b1];
    }
    var min, max := b1 as int, b2 as int;
    if min > max {
      min, max := max, min;
    }
    var l := max - min + 1;
    var count := n;
    if n as int > l {
      count := l as uint32;
    }
    ghost var a := Interval(min, max);
    r := [];
    var m: map<int32, int32> := map[];
    var i: uint32 := 0;
    assert Drawn(a, min, choices[..0], m, r);
    while i < count
      invariant 0 <= i <= count
      invariant l == |a| - i as int
      invariant Drawn(a, min, choices[..i], m, r)
    {
      hide Drawn;
      var v := (choices[i] + min) as int32;
      ghost var output := r;
      r := r + [if v in m then m[v] else v];
      var lv := (l - 1 + min) as int32;
      ghost var before := m;
      if v != lv {
        if lv in m {
          m := m[v := m[lv]];
        } else {
          m := m[v := lv];
        }
      }
      DrawOne(a, min, choices[..i], choices[i], before, output, m);
      assert choices[..i + 1] == choices[..i] + [choices[i]];
      l := l - 1;
      i := i + 1;
    }
    assert choices[..i] == choices;
  }

  /**
    Choices and samples correspond one to one: the sample of any choices is distinct values of the
    interval, and each sequence of distinct values of the interval is the sample of exactly one
    sequence of choices.
  */
  lemma SamplingIsBijective(min: int, max: int, choices: seq<int>, r: seq<int>)
    requires min <= max
    ensures InRange(choices, max - min + 1) ==>
      var s := Sample(Interval(min, max), choices);
      && NoDup(s) && |s| == |choices| && (forall v :: v in s ==> min <= v <= max)
      && ChoicesFor(Interval(min, max), s) == choices
    ensures NoDup(r) && (forall v :: v in r ==> min <= v <= max) ==>
      var c := ChoicesFor(Interval(min, max), r);
      |c| == |r| && InRange(c, max - min + 1) && Sample(Interval(min, max), c) == r
  {
    var a := Interval(min, max);
    if InRange(choices, |a|) {
      SampleIsDistinct(a, choices);
      var s := Sample(a, choices);
      SampleDetermines(a, choices, ChoicesFor(a, s));
    }
  }
}
