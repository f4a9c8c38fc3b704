/** Facts about sequences and sets that several parts share. */
module Collections {

  ghost predicate Distinct<T>(s: seq<T>) {
    forall i, j :: 0 <= i < j < |s| ==> s[i] != s[j]
  }

  function Elements<T(==)>(s: seq<T>): set<T> {
    set x | x in s
  }

  lemma Assoc<T>(a: seq<T>, b: seq<T>, c: seq<T>)
    ensures a + b + c == a + (b + c)
  {
  }

  lemma SliceConcat<T>(a: seq<T>, b: seq<T>, k: nat)
    requires k <= |a|
    ensures (a + b)[..k] == a[..k] && (a + b)[k..] == a[k..] + b
  {
  }

  lemma ElementsNone<T>(s: seq<T>)
    ensures Elements<T>([]) == {} == Elements(s[..0])
  {
  }

  lemma ElementsConcat<T>(a: seq<T>, b: seq<T>)
    ensures Elements(a + b) == Elements(a) + Elements(b)
    ensures forall x :: x in a <==> x in Elements(a)
    ensures forall x :: x in b <==> x in Elements(b)
  {
  }

  lemma ElementsMore<T>(s: seq<T>, x: T)
    ensures Elements(s + [x]) == Elements(s) + {x}
  {
  }

  lemma ElementsPush<T>(s: seq<T>, i: nat)
    requires i < |s|
    ensures Elements(s[..i + 1]) == Elements(s[..i]) + {s[i]}
  {
    assert s[..i + 1] == s[..i] + [s[i]];
  }

  /** In a sequence without repetitions, a prefix has exactly its own elements. */
  lemma InPrefix<T>(s: seq<T>, j: nat, k: nat)
    requires Distinct(s) && j < |s| && k <= |s|
    ensures s[j] in Elements(s[..k]) <==> j < k
  {
    if j < k {
      assert s[..k][j] == s[j];
    }
  }

  lemma {:induction false} DistinctSize<T>(s: seq<T>)
    requires Distinct(s)
    ensures |Elements(s)| == |s|
  {
    if s != [] {
      var t := s[..|s| - 1];
      DistinctSize(t);
      ElementsPush(s, |s| - 1);
      assert s[..|s|] == s && s[|s| - 1] !in Elements(t);
    }
  }

  lemma SubsetSize<T>(a: set<T>, b: set<T>)
    requires a <= b
    ensures |a| <= |b| && (a != b ==> |a| < |b|)
  {
    assert b == a + (b - a);
  }

  // ---------------------------------------------------------------------
  // Picking some elements of a sequence, in order
  // ---------------------------------------------------------------------

  ghost function Picked<T>(s: seq<T>, picks: seq<bool>): seq<T>
    requires |picks| == |s|
  {
    if s == [] then []
    else
      var n := |s| - 1;
      Picked(s[..n], picks[..n]) + if picks[n] then [s[n]] else []
  }

  lemma PickedOne<T>(s: seq<T>, picks: seq<bool>, x: T, pick: bool)
    requires |picks| == |s|
    ensures Picked(s + [x], picks + [pick]) == Picked(s, picks) + if pick then [x] else []
  {
    assert (s + [x])[..|s|] == s && (picks + [pick])[..|s|] == picks;
  }

  lemma {:induction false} PickedConcat<T>(s: seq<T>, p: seq<bool>, t: seq<T>, q: seq<bool>)
    requires |p| == |s| && |q| == |t|
    ensures Picked(s + t, p + q) == Picked(s, p) + Picked(t, q)
  {
    if t == [] {
      assert s + t == s && p + q == p;
      assert Picked(s, p) + [] == Picked(s, p);
    } else {
      var n := |t| - 1;
      PickedConcat(s, p, t[..n], q[..n]);
      PickedOne(s + t[..n], p + q[..n], t[n], q[n]);
      assert s + t == s + t[..n] + [t[n]] && p + q == p + q[..n] + [q[n]];
    }
  }

  lemma {:induction false} PickedLength<T>(s: seq<T>, picks: seq<bool>)
    requires |picks| == |s|
    ensures |Picked(s, picks)| <= |s|
    ensures forall x :: x in Picked(s, picks) ==> x in s
  {
    if s != [] {
      PickedLength(s[..|s| - 1], picks[..|s| - 1]);
    }
  }

  /** Whoever was picked as often as there are elements was picked throughout. */
  lemma {:induction false} PickedAll<T>(s: seq<T>, picks: seq<bool>)
    requires |picks| == |s|
    ensures |Picked(s, picks)| == |s| <==> false !in picks
    ensures false !in picks ==> Picked(s, picks) == s
  {
    if s != [] {
      var n := |s| - 1;
      PickedLength(s[..n], picks[..n]);
      PickedAll(s[..n], picks[..n]);
      assert s == s[..n] + [s[n]] && picks == picks[..n] + [picks[n]];
    }
  }
}
