// Shared vocabulary of the model: optional values, three-component real
// vectors, and the sequence/set facts several stores rely on.
module Common {

  datatype Option<T> = None | Some(value: T)

  /** A 3-vector of physical quantities (position, velocity, extents). */
  datatype Vec3 = Vec3(x: real, y: real, z: real)
  {
    function Add(o: Vec3): Vec3 { Vec3(x + o.x, y + o.y, z + o.z) }
    function Sub(o: Vec3): Vec3 { Vec3(x - o.x, y - o.y, z - o.z) }
    function Scale(k: real): Vec3 { Vec3(x * k, y * k, z * k) }
    function Neg(): Vec3 { Vec3(-x, -y, -z) }
    function Dot(o: Vec3): real { x * o.x + y * o.y + z * o.z }
    function LengthSq(): real { x * x + y * y + z * z }

    /** Component `i` of the vector, as the source's `v[i]`. */
    function At(i: nat): real
      requires i < 3
    {
      if i == 0 then x else if i == 1 then y else z
    }
  }

  const Zero := Vec3(0.0, 0.0, 0.0)

  /** The vector that is `v` on axis `axis` and 0 elsewhere. */
  function AxisVec(axis: nat, v: real): (r: Vec3)
    requires axis < 3
  {
    if axis == 0 then Vec3(v, 0.0, 0.0)
    else if axis == 1 then Vec3(0.0, v, 0.0)
    else Vec3(0.0, 0.0, v)
  }

  /** A signed unit vector on one axis has length one and is zero on the other axes. */
  lemma AxisVecMeaning(axis: nat, v: real)
    requires axis < 3 && (v == 1.0 || v == -1.0)
    ensures AxisVec(axis, v).Dot(AxisVec(axis, v)) == 1.0
    ensures AxisVec(axis, v).At(axis) == v
    ensures forall k :: 0 <= k < 3 && k != axis ==> AxisVec(axis, v).At(k) == 0.0
  {
    var u := AxisVec(axis, v);
    forall k | 0 <= k < 3 && k != axis
      ensures u.At(k) == 0.0
    {
      assert k == 0 || k == 1 || k == 2;
    }
    AxisVecDot(axis, v);
    SignSquare(v);
  }

  lemma AxisVecDot(axis: nat, v: real)
    requires axis < 3
    ensures AxisVec(axis, v).Dot(AxisVec(axis, v)) == v * v
  {
    var u := AxisVec(axis, v);
    if axis == 0 {
      assert u.Dot(u) == u.x * u.x + 0.0 + 0.0;
    } else if axis == 1 {
      assert u.Dot(u) == 0.0 + u.y * u.y + 0.0;
    } else {
      assert u.Dot(u) == 0.0 + 0.0 + u.z * u.z;
    }
  }

  lemma SignSquare(v: real)
    requires v == 1.0 || v == -1.0
    ensures v * v == 1.0
  {
    if v == 1.0 {
      assert v * v == 1.0 * 1.0;
    } else {
      assert v * v == -1.0 * -1.0;
    }
  }

  /** The first axis of least penetration: ties go to the lower axis. */
  function MinAxis(p: Vec3): (m: nat)
    ensures m < 3
    ensures forall k :: 0 <= k < 3 ==> p.At(m) <= p.At(k)
    ensures forall k :: 0 <= k < m ==> p.At(m) < p.At(k)
  {
    var m1 := if p.y < p.x then 1 else 0;
    if p.z < p.At(m1) then 2 else m1
  }

  function Abs(r: real): real { if r < 0.0 then -r else r }
  function MinR(a: real, b: real): real { if a < b then a else b }
  function MaxR(a: real, b: real): real { if a < b then b else a }

  /** A square-root routine as the source's `std::sqrt` is used. */
  ghost predicate IsSqrt(sqrt: real -> real)
  {
    forall x :: 0.0 <= x ==> 0.0 <= sqrt(x) && sqrt(x) * sqrt(x) == x
  }

  /** Squaring is strictly increasing on the non-negative reals. */
  lemma SquareLess(a: real, b: real)
    requires 0.0 <= a < b
    ensures a * a < b * b
  {
    var d := b - a;
    assert b * b == a * a + 2.0 * a * d + d * d;
    assert a * d >= 0.0;
    assert d * d > 0.0;
  }

  lemma SquareNonNeg(r: real)
    ensures r * r >= 0.0
  {
    if r > 0.0 {
      SquareLess(0.0, r);
    } else if r < 0.0 {
      SquareLess(0.0, -r);
    }
  }

  /** A non-zero number squares above `zero`, which the caller passes as 0. */
  lemma SquareAbove(r: real, zero: real)
    requires zero == 0.0 && r != 0.0
    ensures zero * zero < r * r
  {
    if r > 0.0 {
      SquareLess(0.0, r);
    } else {
      SquareLess(0.0, -r);
    }
  }

  /** A squared length is never negative, and it is positive for every non-zero vector. */
  lemma LengthSqSign(d: Vec3)
    ensures d.LengthSq() >= 0.0
    ensures d != Zero ==> d.LengthSq() > 0.0
  {
    SquareNonNeg(d.x);
    SquareNonNeg(d.y);
    SquareNonNeg(d.z);
    if d.x != 0.0 {
      SquareAbove(d.x, 0.0);
    } else if d.y != 0.0 {
      SquareAbove(d.y, 0.0);
    } else if d.z != 0.0 {
      SquareAbove(d.z, 0.0);
    }
  }

  /** A non-negative root is positive exactly when its square is. */
  lemma RootSign(len: real, s: real)
    requires len >= 0.0 && len * len == s
    ensures len > 0.0 <==> s > 0.0
  {
    if len > 0.0 {
      SquareLess(0.0, len);
    }
    if len == 0.0 {
      assert len * len == 0.0 * 0.0;
    }
  }

  lemma SqrtOfSquare(sqrt: real -> real, r: real)
    requires IsSqrt(sqrt) && 0.0 <= r
    ensures sqrt(r * r) == r
  {
    var s := sqrt(r * r);
    assert 0.0 <= s && s * s == r * r;
    if s > r {
      SquareLess(r, s);
    } else if s < r {
      SquareLess(s, r);
    }
  }

  lemma SqrtZero(sqrt: real -> real)
    requires IsSqrt(sqrt)
    ensures sqrt(0.0) == 0.0
  {
    SqrtOfSquare(sqrt, 0.0);
    assert 0.0 * 0.0 == 0.0;
  }

  lemma SqrtBelow(sqrt: real -> real, x: real, b: real)
    requires IsSqrt(sqrt) && 0.0 <= x && 0.0 <= b && x < b * b
    ensures sqrt(x) < b
  {
    var s := sqrt(x);
    assert 0.0 <= s && s * s == x;
    if b <= s {
      if b < s { SquareLess(b, s); }
    }
  }

  /** Dividing a vector by its length gives a unit vector. */
  lemma UnitAfterDivision(d: Vec3, len: real)
    requires len > 0.0 && len * len == d.LengthSq()
    ensures Vec3(d.x / len, d.y / len, d.z / len).LengthSq() == 1.0
  {
    var k := 1.0 / len;
    assert k * len == 1.0;
    assert d.x / len == d.x * k && d.y / len == d.y * k && d.z / len == d.z * k;
    ScaledLengthSq(d, k);
    assert k * k * (len * len) == (k * len) * (k * len);
  }

  /** Scaling by `k` scales the squared length by `k²`. */
  lemma ScaledLengthSq(d: Vec3, k: real)
    ensures Vec3(d.x * k, d.y * k, d.z * k).LengthSq() == k * k * d.LengthSq()
  {
    assert (d.x * k) * (d.x * k) == k * k * (d.x * d.x);
    assert (d.y * k) * (d.y * k) == k * k * (d.y * d.y);
    assert (d.z * k) * (d.z * k) == k * k * (d.z * d.z);
  }

  // ---------------------------------------------------------------- sequences

  ghost predicate NoDup<T>(s: seq<T>)
  {
    forall i, j :: 0 <= i < j < |s| ==> s[i] != s[j]
  }

  ghost predicate Increasing(s: seq<nat>)
  {
    forall i, j :: 0 <= i < j < |s| ==> s[i] < s[j]
  }

  function Elems<T>(s: seq<T>): set<T> { set x | x in s }

  /** `std::find` followed by `erase`: drop the first occurrence of `x`. */
  function RemoveFirst<T(==)>(s: seq<T>, x: T): (r: seq<T>)
  {
    if s == [] then []
    else if s[0] == x then s[1..]
    else [s[0]] + RemoveFirst(s[1..], x)
  }

  /** The elements of `s` kept by a loop that tests membership in `keep`. */
  function Filter(s: seq<nat>, keep: set<nat>): (r: seq<nat>)
  {
    if s == [] then []
    else (if s[0] in keep then [s[0]] else []) + Filter(s[1..], keep)
  }

  lemma HeadNotInTail<T>(s: seq<T>)
    requires NoDup(s) && s != []
    ensures s[0] !in s[1..] && NoDup(s[1..])
  {
    forall k | 0 <= k < |s| - 1 ensures s[1..][k] != s[0] {
      assert s[1..][k] == s[k + 1];
    }
  }

  lemma ConsNoDup<T>(a: T, t: seq<T>)
    requires a !in t && NoDup(t)
    ensures NoDup([a] + t)
  {
    forall i, j | 0 <= i < j < |t| + 1 ensures ([a] + t)[i] != ([a] + t)[j] {
      assert ([a] + t)[j] == t[j - 1];
      if i > 0 {
        assert ([a] + t)[i] == t[i - 1];
      }
    }
  }

  lemma ConsIncreasing(a: nat, t: seq<nat>)
    requires Increasing(t) && forall y :: y in t ==> a < y
    ensures Increasing([a] + t)
  {
    forall i, j | 0 <= i < j < |t| + 1 ensures ([a] + t)[i] < ([a] + t)[j] {
      assert ([a] + t)[j] == t[j - 1] && t[j - 1] in t;
      if i > 0 {
        assert ([a] + t)[i] == t[i - 1];
      }
    }
  }

  lemma {:induction false} RemoveFirstMembers<T>(s: seq<T>, x: T)
    requires NoDup(s)
    ensures |RemoveFirst(s, x)| == if x in s then |s| - 1 else |s|
    ensures forall y :: y in RemoveFirst(s, x) <==> y in s && y != x
    ensures NoDup(RemoveFirst(s, x))
  {
    if s != [] {
      HeadNotInTail(s);
      RemoveFirstMembers(s[1..], x);
      assert s == [s[0]] + s[1..];
      if s[0] != x {
        ConsNoDup(s[0], RemoveFirst(s[1..], x));
      }
    }
  }

  lemma {:induction false} NotInRemoveFirst<T>(s: seq<T>, x: T)
    requires x !in s
    ensures RemoveFirst(s, x) == s
  {
    if s != [] {
      assert x !in s[1..];
      NotInRemoveFirst(s[1..], x);
    }
  }

  /** Erasing at the index `std::find` returned is removing the first occurrence. */
  lemma {:induction false} AtIndexRemoveFirst<T>(s: seq<T>, k: nat, x: T)
    requires k < |s| && s[k] == x
    requires forall j :: 0 <= j < k ==> s[j] != x
    ensures RemoveFirst(s, x) == s[..k] + s[k + 1..]
  {
    if k > 0 {
      AtIndexRemoveFirst(s[1..], k - 1, x);
      assert s[1..][..k - 1] + s[1..][k..] == s[1..k] + s[k + 1..];
      assert s[..k] == [s[0]] + s[1..k];
    }
  }

  lemma {:induction false} RemoveFirstIncreasing(s: seq<nat>, x: nat)
    requires Increasing(s)
    ensures Increasing(RemoveFirst(s, x))
    ensures forall y :: y in RemoveFirst(s, x) ==> y in s
  {
    if s != [] {
      assert Increasing(s[1..]);
      RemoveFirstIncreasing(s[1..], x);
      assert s == [s[0]] + s[1..];
      if s[0] != x {
        var t := RemoveFirst(s[1..], x);
        forall y | y in t ensures s[0] < y {
          var j :| 0 <= j < |s[1..]| && s[1..][j] == y;
          assert s[j + 1] == y;
        }
        ConsIncreasing(s[0], t);
      }
    }
  }

  lemma {:induction false} FilterSnoc(s: seq<nat>, x: nat, keep: set<nat>)
    ensures Filter(s + [x], keep) == Filter(s, keep) + (if x in keep then [x] else [])
  {
    var tail := if x in keep then [x] else [];
    if s == [] {
      assert [] + [x] == [x];
      assert Filter([x], keep) == tail + Filter([], keep);
    } else {
      var head := if s[0] in keep then [s[0]] else [];
      assert (s + [x])[0] == s[0];
      assert (s + [x])[1..] == s[1..] + [x];
      FilterSnoc(s[1..], x, keep);
      calc {
        Filter(s + [x], keep);
        head + Filter(s[1..] + [x], keep);
        head + (Filter(s[1..], keep) + tail);
        (head + Filter(s[1..], keep)) + tail;
        Filter(s, keep) + tail;
      }
    }
  }

  lemma {:induction false} FilterMembers(s: seq<nat>, keep: set<nat>)
    ensures forall y :: y in Filter(s, keep) <==> y in s && y in keep
    ensures |Filter(s, keep)| <= |s|
  {
    if s != [] {
      FilterMembers(s[1..], keep);
      assert s == [s[0]] + s[1..];
    }
  }

  lemma {:induction false} FilterIncreasing(s: seq<nat>, keep: set<nat>)
    requires Increasing(s)
    ensures Increasing(Filter(s, keep))
  {
    if s != [] {
      assert Increasing(s[1..]);
      FilterIncreasing(s[1..], keep);
      FilterMembers(s[1..], keep);
      var t := Filter(s[1..], keep);
      forall y | y in t ensures s[0] < y {
        var j :| 0 <= j < |s[1..]| && s[1..][j] == y;
        assert s[j + 1] == y;
      }
      ConsIncreasing(s[0], t);
    }
  }

  lemma {:induction false} FilterNoDup(s: seq<nat>, keep: set<nat>)
    requires NoDup(s)
    ensures NoDup(Filter(s, keep))
  {
    if s != [] {
      HeadNotInTail(s);
      FilterNoDup(s[1..], keep);
      FilterMembers(s[1..], keep);
      if s[0] in keep {
        ConsNoDup(s[0], Filter(s[1..], keep));
      }
    }
  }

  /**
   * Filtering a duplicate-free list by a set it covers yields each member of
   * the set exactly once.
   */
  lemma FilterCovering(s: seq<nat>, keep: set<nat>)
    requires NoDup(s) && forall k :: k in keep ==> k in s
    ensures NoDup(Filter(s, keep)) && |Filter(s, keep)| == |keep|
    ensures forall y :: y in Filter(s, keep) <==> y in keep
  {
    FilterMembers(s, keep);
    FilterNoDup(s, keep);
    NoDupCard(Filter(s, keep));
    assert Elems(Filter(s, keep)) == keep;
  }

  /** Dropping the last entry keeps a list duplicate-free, and that entry is not among the others. */
  lemma NoDupInit<T>(s: seq<T>)
    requires NoDup(s) && s != []
    ensures NoDup(s[..|s| - 1]) && s[|s| - 1] !in s[..|s| - 1]
  {
    var init := s[..|s| - 1];
    forall i | 0 <= i < |init| ensures init[i] != s[|s| - 1] {
      assert init[i] == s[i];
    }
  }

  lemma IncreasingNoDup(s: seq<nat>)
    requires Increasing(s)
    ensures NoDup(s)
  {
  }

  lemma {:induction false} NoDupCard<T>(s: seq<T>)
    requires NoDup(s)
    ensures |Elems(s)| == |s|
  {
    if s != [] {
      HeadNotInTail(s);
      NoDupCard(s[1..]);
      assert s == [s[0]] + s[1..];
      assert Elems(s) == {s[0]} + Elems(s[1..]);
    }
  }

  /** Concatenation is associative (stated once, outside heavy contexts). */
  lemma AppendAssoc<T>(a: seq<T>, b: seq<T>, c: seq<T>)
    ensures (a + b) + c == a + (b + c)
  {
  }

  /** The consecutive naturals `lo`, `lo + 1`, ..., `hi - 1`. */
  function Range(lo: nat, hi: nat): (r: seq<nat>)
    decreases hi
    ensures |r| == if lo <= hi then hi - lo else 0
  {
    if hi <= lo then [] else Range(lo, hi - 1) + [hi - 1]
  }

  /** Entry `k` of `Range(lo, hi)` is `lo + k`. */
  lemma {:induction false} RangeIndex(lo: nat, hi: nat)
    ensures forall k :: 0 <= k < |Range(lo, hi)| ==> Range(lo, hi)[k] == lo + k
    decreases hi
  {
    if lo < hi {
      RangeIndex(lo, hi - 1);
    }
  }

  /** A live-id list as the stores keep it: strictly increasing ids in [1, next). */
  ghost predicate IdList(s: seq<nat>, next: nat)
  {
    Increasing(s) && forall i :: 0 <= i < |s| ==> 1 <= s[i] < next
  }

  /** Appending the counter's value keeps an id list an id list for the bumped counter. */
  lemma IdListAppend(s: seq<nat>, next: nat)
    requires IdList(s, next) && 1 <= next
    ensures IdList(s + [next], next + 1) && next !in s
  {
    var t := s + [next];
    forall i, j | 0 <= i < j < |t| ensures t[i] < t[j] {
      if j < |s| {
        assert t[i] == s[i] && t[j] == s[j];
      } else {
        assert t[i] == s[i];
      }
    }
  }

  /**
   * Erasing the index `std::find` returned removes exactly the first occurrence,
   * and what is left is still an id list.
   */
  lemma EraseAt(s: seq<nat>, next: nat, k: nat, x: nat)
    requires IdList(s, next) && k < |s| && s[k] == x
    requires forall j :: 0 <= j < k ==> s[j] != x
    ensures s[..k] + s[k + 1..] == RemoveFirst(s, x)
    ensures IdList(RemoveFirst(s, x), next)
    ensures forall y :: y in RemoveFirst(s, x) <==> y in s && y != x
  {
    AtIndexRemoveFirst(s, k, x);
    IncreasingNoDup(s);
    RemoveFirstMembers(s, x);
    RemoveFirstIncreasing(s, x);
    var r := RemoveFirst(s, x);
    forall i | 0 <= i < |r| ensures 1 <= r[i] < next {
      assert r[i] in s;
    }
  }

  /** Every key of `m` occurs in `s`. */
  ghost predicate KeysIn<V>(m: map<nat, V>, s: seq<nat>)
  {
    forall id :: id in m ==> id in s
  }

  /** Dropping `x` from both the table and the live list keeps the table's keys live. */
  lemma KeysInErase<V>(m: map<nat, V>, s: seq<nat>, x: nat, r: seq<nat>)
    requires KeysIn(m, s)
    requires forall y :: y in r <==> y in s && y != x
    ensures KeysIn(m - {x}, r) && |m - {x}| <= |m|
  {
    MapRemoveCard(m, x);
  }

  lemma MapRemoveAbsent<V>(m: map<nat, V>, s: seq<nat>, x: nat)
    requires KeysIn(m, s) && x !in s
    ensures m - {x} == m
  {
  }

  lemma MapRemoveTwice<K, V>(m: map<K, V>, k: K)
    ensures (m - {k}) - {k} == m - {k}
  {
    assert ((m - {k}) - {k}).Keys == (m - {k}).Keys;
  }

  lemma MapRemoveCard<K, V>(m: map<K, V>, k: K)
    ensures |m - {k}| <= |m|
  {
    assert (m - {k}).Keys == m.Keys - {k};
    assert |m - {k}| == |(m - {k}).Keys| && |m| == |m.Keys|;
  }

  /**
   * The keys of a hash table in its (unspecified) iteration order: a loop that
   * appends every key exactly once, as the source's range-for over an
   * `unordered_map` does.
   */
  method KeysInIterationOrder<K, V>(m: map<K, V>) returns (ks: seq<K>)
    ensures NoDup(ks)
    ensures forall k :: k in ks <==> k in m
    ensures |ks| == |m|
  {
    ks := [];
    var rest := m.Keys;
    while rest != {}
      invariant rest <= m.Keys
      invariant forall k :: k in ks <==> k in m && k !in rest
      invariant NoDup(ks)
      invariant |ks| + |rest| == |m|
      decreases |rest|
    {
      var k :| k in rest;
      ks := ks + [k];
      rest := rest - {k};
    }
  }
}
