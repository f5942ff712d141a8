/**
 * A Python dict with string keys, as a value: the keys in first-insertion
 * order beside the key/value map.
 */
module OrderedDict {

  datatype ODict<V> = ODict(keys: seq<string>, entries: map<string, V>)

  predicate NoDup(s: seq<string>) {
    forall p, q | 0 <= p < q < |s| :: s[p] != s[q]
  }

  lemma NoDupSnoc(s: seq<string>, x: string)
    requires NoDup(s + [x])
    ensures NoDup(s) && x !in s
  {
    forall p, q | 0 <= p < q < |s| ensures s[p] != s[q] {
      assert (s + [x])[p] == s[p] && (s + [x])[q] == s[q];
    }
    assert forall p | 0 <= p < |s| :: (s + [x])[p] == s[p] && (s + [x])[|s|] == x;
  }

  /** The key sequence lists each key of the map exactly once. */
  ghost predicate Valid<V>(d: ODict<V>) {
    NoDup(d.keys) && forall k :: k in d.keys <==> k in d.entries
  }

  function Empty<V>(): (r: ODict<V>)
    ensures Valid(r) && r.keys == [] && r.entries == map[]
  {
    ODict([], map[])
  }

  /**
   * `d[k] = v`. A new key goes to the end; assigning to a key already present
   * replaces its value and keeps its position.
   */
  function Put<V>(d: ODict<V>, k: string, v: V): (r: ODict<V>)
    ensures Valid(d) ==> Valid(r)
    ensures k in r.entries && r.entries[k] == v
    ensures forall k' | k' != k :: (k' in r.entries <==> k' in d.entries)
    ensures forall k' | k' != k && k' in d.entries :: r.entries[k'] == d.entries[k']
    ensures k in d.entries ==> r.keys == d.keys
    ensures k !in d.entries ==> |r.keys| == |d.keys| + 1 && r.keys[|d.keys|] == k
    ensures forall p | 0 <= p < |d.keys| :: p < |r.keys| && r.keys[p] == d.keys[p]
  {
    ODict(if k in d.entries then d.keys else d.keys + [k], d.entries[k := v])
  }

  /** Assigning twice to the same key is the second assignment alone. */
  lemma PutPut<V>(d: ODict<V>, k: string, v: V, w: V)
    ensures Put(Put(d, k, v), k, w) == Put(d, k, w)
  {
  }

  /** The position of the first occurrence of `x` in `s`. */
  function IndexOf(s: seq<string>, x: string): (r: nat)
    requires x in s
    ensures r < |s| && s[r] == x
    ensures forall q | 0 <= q < r :: s[q] != x
  {
    if s[0] == x then 0 else 1 + IndexOf(s[1..], x)
  }

  /** Appending to a sequence does not move the first occurrence of an element already in it. */
  lemma {:induction false} IndexOfAppend(s: seq<string>, y: string, x: string)
    requires x in s
    ensures IndexOf(s + [y], x) == IndexOf(s, x)
  {
    if s[0] != x {
      assert (s + [y])[1..] == s[1..] + [y];
      IndexOfAppend(s[1..], y, x);
    }
  }

  /** An element appended to a sequence that lacks it is first found at the end. */
  lemma IndexOfLast(s: seq<string>, y: string)
    requires y !in s
    ensures IndexOf(s + [y], y) == |s|
  {
    assert forall i | 0 <= i < |s| :: (s + [y])[i] == s[i];
  }

  /** A sequence without repeats stays so when a new element is appended. */
  lemma NoDupAppend(s: seq<string>, x: string)
    requires NoDup(s) && x !in s
    ensures NoDup(s + [x])
  {
    forall p, q | 0 <= p < q < |s| + 1 ensures (s + [x])[p] != (s + [x])[q] {
      assert (s + [x])[p] == s[p];
      if q < |s| {
        assert (s + [x])[q] == s[q];
      }
    }
  }

  /**
   * The distinct elements of `s` in order of first occurrence: the key order
   * of a dict that is assigned the keys of `s` one after the other.
   */
  function Dedup(s: seq<string>): seq<string>
    decreases |s|
  {
    if s == [] then []
    else
      var d := Dedup(s[..|s| - 1]);
      if s[|s| - 1] in d then d else d + [s[|s| - 1]]
  }

  lemma {:induction false} DedupMembers(s: seq<string>)
    ensures forall x :: x in Dedup(s) <==> x in s
    decreases |s|
  {
    if s != [] {
      var n := |s| - 1;
      DedupMembers(s[..n]);
      assert s == s[..n] + [s[n]];
    }
  }

  lemma {:induction false} DedupNoDup(s: seq<string>)
    ensures NoDup(Dedup(s))
    decreases |s|
  {
    if s != [] {
      var n := |s| - 1;
      DedupNoDup(s[..n]);
      if s[n] !in Dedup(s[..n]) {
        NoDupAppend(Dedup(s[..n]), s[n]);
      }
    }
  }

  /**
   * Appending `x` to `s0` keeps a list ordered by first occurrence ordered:
   * `d` is `d0` with `x` added at the end unless it is already there.
   */
  lemma OrderSnoc(d0: seq<string>, s0: seq<string>, x: string, d: seq<string>, s: seq<string>)
    requires forall y :: y in d0 <==> y in s0
    requires forall a, b | 0 <= a < b < |d0| :: IndexOf(s0, d0[a]) < IndexOf(s0, d0[b])
    requires d == (if x in d0 then d0 else d0 + [x]) && s == s0 + [x]
    ensures forall y :: y in d <==> y in s
    ensures forall a, b | 0 <= a < b < |d| :: IndexOf(s, d[a]) < IndexOf(s, d[b])
  {
    forall y | y in s0 ensures IndexOf(s, y) == IndexOf(s0, y) {
      IndexOfAppend(s0, x, y);
    }
    if x !in d0 {
      IndexOfLast(s0, x);
      forall a, b | 0 <= a < b < |d| ensures IndexOf(s, d[a]) < IndexOf(s, d[b]) {
        assert d[a] == d0[a];
        if b < |d0| {
          assert d[b] == d0[b];
        }
      }
    }
  }

  /** The elements of `Dedup(s)` appear in the order of their first occurrence in `s`. */
  lemma {:induction false} DedupOrder(s: seq<string>)
    ensures forall x :: x in Dedup(s) <==> x in s
    ensures forall a, b | 0 <= a < b < |Dedup(s)| :: IndexOf(s, Dedup(s)[a]) < IndexOf(s, Dedup(s)[b])
    decreases |s|
  {
    if s != [] {
      var n := |s| - 1;
      var s0, x := s[..n], s[n];
      DedupOrder(s0);
      var d0 := Dedup(s0);
      assert s0 + [x] == s;
      OrderSnoc(d0, s0, x, Dedup(s), s);
    }
  }

  /** Without repeats there is nothing to drop. */
  lemma {:induction false} DedupDistinct(s: seq<string>)
    requires NoDup(s)
    ensures Dedup(s) == s
    decreases |s|
  {
    if s != [] {
      var n := |s| - 1;
      assert s == s[..n] + [s[n]];
      NoDupSnoc(s[..n], s[n]);
      DedupDistinct(s[..n]);
    }
  }
}
