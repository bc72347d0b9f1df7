/**
 Lists of nodes, as the intrusive lists of the source hold them: a node is on a list at most once.
 */
module NodeLists {

  ghost predicate NoDup<T>(s: seq<T>) {
    forall i, j :: 0 <= i < j < |s| ==> s[i] != s[j]
  }

  function Elems<T(==)>(s: seq<T>): set<T> {
    set x | x in s
  }

  /** The list without its first occurrence of `x`. */
  function Without<T(==,!new)>(s: seq<T>, x: T): (r: seq<T>)
    ensures forall y :: y in r ==> y in s
    ensures NoDup(s) ==> NoDup(r) && forall y :: y in r <==> y in s && y != x
    ensures |r| == if x in s then |s| - 1 else |s|
  {
    if s == [] then []
    else if s[0] == x then s[1..]
    else
      var t := Without(s[1..], x);
      assert forall y :: y in s <==> y == s[0] || y in s[1..];
      assert NoDup(s) ==> NoDup(s[1..]) && s[0] !in s[1..];
      assert forall i :: 0 <= i < |t| ==> t[i] in t;
      [s[0]] + t
  }

  lemma ElemsAppend<T>(s: seq<T>, x: T)
    ensures Elems(s + [x]) == Elems(s) + {x}
  {
  }

  lemma ElemsUncons<T>(s: seq<T>)
    requires s != []
    ensures NoDup(s) ==> NoDup(s[1..]) && Elems(s[1..]) == Elems(s) - {s[0]}
    ensures Elems(s) == Elems(s[1..]) + {s[0]}
  {
    assert s == [s[0]] + s[1..];
  }

  lemma WithoutStep<T(!new)>(s: seq<T>, x: T)
    requires s != []
    ensures Without(s, x) == if s[0] == x then s[1..] else [s[0]] + Without(s[1..], x)
  {
  }

  lemma NoDupSplit<T>(a: seq<T>, x: T, b: seq<T>)
    requires NoDup(a + [x] + b) && a != []
    ensures NoDup(a[1..] + [x] + b) && a[0] != x
  {
    var s := a + [x] + b;
    assert s[1..] == a[1..] + [x] + b;
    assert s[0] == a[0] && s[|a|] == x;
  }

  lemma {:induction false} WithoutMiddle<T(!new)>(a: seq<T>, x: T, b: seq<T>)
    requires NoDup(a + [x] + b)
    ensures Without(a + [x] + b, x) == a + b
    decreases |a|
  {
    hide NoDup, Without;
    var s := a + [x] + b;
    WithoutStep(s, x);
    if a == [] {
      assert s[1..] == a + b;
    } else {
      NoDupSplit(a, x, b);
      WithoutMiddle(a[1..], x, b);
      assert s[1..] == a[1..] + [x] + b;
      assert [a[0]] + (a[1..] + b) == a + b;
    }
  }

  lemma {:induction false} NoDupSize<T>(s: seq<T>)
    requires NoDup(s)
    ensures |Elems(s)| == |s|
  {
    if s != [] {
      ElemsUncons(s);
      NoDupSize(s[1..]);
      assert s[0] !in s[1..];
    }
  }

  lemma {:induction false} SubsetSize<T>(a: set<T>, b: set<T>)
    requires a <= b
    ensures |a| <= |b|
    ensures |a| == |b| ==> a == b
  {
    if a != {} {
      var x :| x in a;
      SubsetSize(a - {x}, b - {x});
    }
  }

  /** Among more elements than the set has, two are equal. */
  lemma Pigeonhole<T>(s: seq<T>, all: set<T>) returns (i: nat, j: nat)
    requires |s| > |all| && forall x :: x in s ==> x in all
    ensures i < j < |s| && s[i] == s[j]
  {
    if NoDup(s) {
      NoDupSize(s);
      SubsetSize(Elems(s), all);
      assert false;
    }
    i, j :| 0 <= i < j < |s| && s[i] == s[j];
  }
}
