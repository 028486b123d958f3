// Bytes and byte sequences, and the few general notions the other modules share.

module Bytes {
  type Byte = bv8
  type Vec = seq<Byte>

  datatype Option<+T> = None | Some(value: T)

  function Min(a: int, b: int): int {
    if a < b then a else b
  }

  predicate Distinct<T(==)>(s: seq<T>) {
    forall i, j :: 0 <= i < j < |s| ==> s[i] != s[j]
  }

  function Zeros(n: nat): (v: Vec)
    ensures |v| == n
  {
    seq(n, _ => 0 as Byte)
  }

  // s with the stretch starting at o overwritten by v.
  function Splice(s: Vec, o: nat, v: Vec): (t: Vec)
    requires o + |v| <= |s|
    ensures |t| == |s|
  {
    s[..o] + v + s[o + |v|..]
  }

  lemma SpliceFrom(t: Vec, s: Vec, o: nat, v: Vec)
    requires |t| == |s| && o + |v| <= |s|
    requires forall q :: 0 <= q < |s| && !(o <= q < o + |v|) ==> t[q] == s[q]
    requires forall q :: o <= q < o + |v| ==> t[q] == v[q - o]
    ensures t == Splice(s, o, v)
  {}

  lemma SpliceAt(s: Vec, o: nat, v: Vec, q: nat)
    requires o + |v| <= |s| && q < |s|
    ensures Splice(s, o, v)[q] == if o <= q < o + |v| then v[q - o] else s[q]
  {}

  lemma SpliceHolds(s: Vec, o: nat, v: Vec)
    requires o + |v| <= |s|
    ensures Splice(s, o, v)[o..o + |v|] == v
  {}

  // Stretches that the splice does not touch.
  lemma SpliceKeeps(s: Vec, o: nat, v: Vec, a: nat, b: nat)
    requires o + |v| <= |s| && a <= b <= |s| && (b <= o || o + |v| <= a)
    ensures Splice(s, o, v)[a..b] == s[a..b]
  {}

  // A stretch extended by what is written right behind it.
  lemma SpliceExtends(s: Vec, o: nat, v: Vec, a: nat)
    requires o + |v| <= |s| && a <= o
    ensures Splice(s, o, v)[a..o + |v|] == s[a..o] + v
  {
    var t := Splice(s, o, v);
    SpliceHolds(s, o, v);
    assert t[a..o + |v|] == t[a..o] + t[o..o + |v|];
    SpliceKeeps(s, o, v, a, o);
  }

  lemma SliceOfSlice(s: Vec, a: nat, b: nat, x: nat, n: nat)
    requires a <= b <= |s| && a + x + n <= b
    ensures s[a..b][x..x + n] == s[a + x..a + x + n]
  {
    var u, v := s[a..b][x..x + n], s[a + x..a + x + n];
    forall t | 0 <= t < n ensures u[t] == v[t] {
      assert u[t] == s[a..b][x + t];
    }
    assert |u| == |v|;
  }

  lemma SlicesJoin(s: Vec, a: nat, b: nat, c: nat)
    requires a <= b <= c <= |s|
    ensures s[a..b] + s[b..c] == s[a..c]
  {}

  lemma Regrouped(a: Vec, b: Vec, c: Vec)
    ensures a + (b + c) == (a + b) + c
  {}
}
