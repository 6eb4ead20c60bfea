/** The ring map shared by every stage: detected rings keyed by integer
    degree, plus the ordered traversals the stages perform over it. */
module RingMaps {

  /** One detected ring on one ray: mean radius and the point on the ray at
      that radius. */
  datatype Ring = Ring(radius: real, x: real, y: real)

  type RingMap = map<int, seq<Ring>>

  /** Set extensionality, in the form the such-that operator needs. */
  lemma EmptyOrInhabited(s: set<int>)
    ensures s == {} || exists e :: e in s
  {
    if !(exists e :: e in s) {
      assert forall e :: e !in s;
      assert s == {};
    }
  }

  /** The least of `s = rest + {x}` is `x` or the least of `rest`. */
  lemma LeastOfInsert(s: set<int>, x: int, rest: set<int>, m: int)
    requires x in s && rest == s - {x}
    requires m in rest && forall k :: k in rest ==> m <= k
    ensures var least := if x < m then x else m;
      least in s && forall k :: k in s ==> least <= k
  {
    var least := if x < m then x else m;
    forall k | k in s
      ensures least <= k
    {
      if k != x {
        assert k in rest;
      }
    }
  }

  /** A non-empty finite set of integers has a least element. */
  lemma {:induction false} LeastExists(s: set<int>)
    requires s != {}
    ensures exists m :: m in s && forall k :: k in s ==> m <= k
    decreases |s|
  {
    EmptyOrInhabited(s);
    var x :| x in s;
    var least := x;
    if s != {x} {
      var rest := s - {x};
      LeastExists(rest);
      var m :| m in rest && forall k :: k in rest ==> m <= k;
      LeastOfInsert(s, x, rest, m);
      least := if x < m then x else m;
    } else {
      assert forall k :: k in s ==> x <= k;
    }
    assert least in s && forall k :: k in s ==> least <= k;
  }

  /** The least element of a non-empty set of integers. */
  function SetMin(s: set<int>): (m: int)
    requires s != {}
    ensures m in s
    ensures forall k :: k in s ==> m <= k
  {
    LeastExists(s);
    var m :| m in s && forall k :: k in s ==> m <= k;
    m
  }

  /** `keys.sorted()`: the keys in ascending order. */
  function SortedKeys(s: set<int>): (r: seq<int>)
    ensures |r| == |s|
    ensures forall i, j :: 0 <= i < j < |r| ==> r[i] < r[j]
    ensures forall k :: k in s <==> k in r
    decreases |s|
  {
    if s == {} then
      []
    else
      var m := SetMin(s);
      var rest := SortedKeys(s - {m});
      assert forall k :: k in rest ==> m < k;
      [m] + rest
  }

  /** The number of entries stored under the listed keys. */
  function CountUnder<T>(m: map<int, seq<T>>, ks: seq<int>): nat
    requires forall i :: 0 <= i < |ks| ==> ks[i] in m
  {
    if |ks| == 0 then 0 else |m[ks[0]]| + CountUnder(m, ks[1..])
  }

  /** Counting under the first `a` keys counts the first key's list, then
      the next `a - 1` keys. */
  lemma {:induction false} CountUnderPrefix<T>(m: map<int, seq<T>>, ks: seq<int>, a: int)
    requires forall i :: 0 <= i < |ks| ==> ks[i] in m
    requires 0 < a <= |ks|
    ensures CountUnder(m, ks[..a]) == |m[ks[0]]| + CountUnder(m, ks[1..][..a - 1])
  {
    assert ks[..a][1..] == ks[1..][..a - 1];
  }

  /** `values.flatMap { $0 }.count`: every entry of every list. */
  function TotalCount<T>(m: map<int, seq<T>>): nat
  {
    CountUnder(m, SortedKeys(m.Keys))
  }

  /** The entries under the listed keys, each tagged with its key. */
  function FlattenKeys<T>(m: map<int, seq<T>>, ks: seq<int>): (r: seq<(int, T)>)
    requires forall i :: 0 <= i < |ks| ==> ks[i] in m
    requires forall i, j :: 0 <= i < j < |ks| ==> ks[i] < ks[j]
    ensures |r| == CountUnder(m, ks)
    ensures forall i :: 0 <= i < |r| ==> r[i].0 in ks && r[i].1 in m[r[i].0]
    ensures forall i, j :: 0 <= i < j < |r| ==> r[i].0 <= r[j].0
  {
    if |ks| == 0 then
      []
    else
      var head := seq(|m[ks[0]]|, i requires 0 <= i < |m[ks[0]]| => (ks[0], m[ks[0]][i]));
      var tail := FlattenKeys(m, ks[1..]);
      assert forall i :: 0 <= i < |tail| ==> ks[0] < tail[i].0 by {
        forall i | 0 <= i < |tail|
          ensures ks[0] < tail[i].0
        {
          var t :| 0 <= t < |ks[1..]| && ks[1..][t] == tail[i].0;
          assert ks[t + 1] == tail[i].0;
        }
      }
      head + tail
  }

  /** Entry `j` stored under `ks[a]` sits at position `j` of the block that
      follows the entries of the earlier keys: the flattening is the keys'
      lists, tagged and laid end to end in key order, each entry once. */
  lemma {:induction false} FlattenKeysAt<T>(m: map<int, seq<T>>, ks: seq<int>, a: int, j: int)
    requires forall i :: 0 <= i < |ks| ==> ks[i] in m
    requires forall i, j :: 0 <= i < j < |ks| ==> ks[i] < ks[j]
    requires 0 <= a < |ks| && 0 <= j < |m[ks[a]]|
    ensures EntryListed(m, ks, a, j)
  {
    if a == 0 {
      assert ks[..a] == [];
      FlattenKeysHead(m, ks, j);
    } else {
      FlattenKeysAt(m, ks[1..], a - 1, j);
      FlattenKeysAtLater(m, ks, a, j);
    }
  }

  /** Entry `j` of key `ks[a]` sits in the flattened list right after the
      entries of the keys before it. */
  ghost predicate EntryListed<T>(m: map<int, seq<T>>, ks: seq<int>, a: int, j: int)
    requires forall i :: 0 <= i < |ks| ==> ks[i] in m
    requires forall i, j :: 0 <= i < j < |ks| ==> ks[i] < ks[j]
    requires 0 <= a < |ks| && 0 <= j < |m[ks[a]]|
  {
    EntryAt(FlattenKeys(m, ks), CountUnder(m, ks[..a]) + j, ks[a], m[ks[a]][j])
  }

  /** Position `p` of `r` exists and holds the pair `(k, v)`. */
  ghost predicate EntryAt<T>(r: seq<(int, T)>, p: int, k: int, v: T)
  {
    0 <= p < |r| && r[p] == (k, v)
  }

  /** The inductive step of `FlattenKeysAt`: an entry's position among the
      keys after the first moves up by the first key's entry count. */
  lemma FlattenKeysAtLater<T>(m: map<int, seq<T>>, ks: seq<int>, a: int, j: int)
    requires forall i :: 0 <= i < |ks| ==> ks[i] in m
    requires forall i, j :: 0 <= i < j < |ks| ==> ks[i] < ks[j]
    requires 0 < a < |ks| && 0 <= j < |m[ks[a]]|
    requires EntryListed(m, ks[1..], a - 1, j)
    ensures EntryListed(m, ks, a, j)
  {
    CountUnderPrefix(m, ks, a);
    FlattenKeysTail(m, ks, CountUnder(m, ks[..a]) + j);
  }

  /** The first key's entries open the flattened list. */
  lemma {:induction false} FlattenKeysHead<T>(m: map<int, seq<T>>, ks: seq<int>, i: int)
    requires forall i :: 0 <= i < |ks| ==> ks[i] in m
    requires forall i, j :: 0 <= i < j < |ks| ==> ks[i] < ks[j]
    requires 0 < |ks| && 0 <= i < |m[ks[0]]|
    ensures i < |FlattenKeys(m, ks)| && FlattenKeys(m, ks)[i] == (ks[0], m[ks[0]][i])
  {
  }

  /** After the first key's entries come the remaining keys' entries. */
  lemma {:induction false} FlattenKeysTail<T>(m: map<int, seq<T>>, ks: seq<int>, i: int)
    requires forall i :: 0 <= i < |ks| ==> ks[i] in m
    requires forall i, j :: 0 <= i < j < |ks| ==> ks[i] < ks[j]
    requires 0 < |ks| && |m[ks[0]]| <= i < |FlattenKeys(m, ks)|
    ensures FlattenKeys(m, ks)[i] == FlattenKeys(m, ks[1..])[i - |m[ks[0]]|]
  {
  }

  /** `FlattenKeysAt` over the sorted keys: position `CountUnder` of the
      smaller keys plus `j` holds the `j`-th entry under key `ks[a]`. */
  lemma {:induction false} FlattenAt<T>(m: map<int, seq<T>>, ks: seq<int>, a: int, j: int)
    requires ks == SortedKeys(m.Keys)
    requires 0 <= a < |ks| && 0 <= j < |m[ks[a]]|
    ensures EntryAt(Flatten(m), CountUnder(m, ks[..a]) + j, ks[a], m[ks[a]][j])
  {
    FlattenKeysAt(m, ks, a, j);
    assert Flatten(m) == FlattenKeys(m, ks);
  }

  /** The flattening helpers (`getAllRingCenterCoordinates`,
      `getAllRedPixelCoordinates`): one entry per stored element, sorted by
      key. Within one key the stored order is kept. */
  function Flatten<T>(m: map<int, seq<T>>): (r: seq<(int, T)>)
    ensures |r| == TotalCount(m)
    ensures forall i :: 0 <= i < |r| ==> r[i].0 in m && r[i].1 in m[r[i].0]
    ensures forall i, j :: 0 <= i < j < |r| ==> r[i].0 <= r[j].0
  {
    FlattenKeys(m, SortedKeys(m.Keys))
  }
}
