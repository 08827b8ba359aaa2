/** The juror tree (`TREE: RbTree<Blob, Blob>`, src/main.rs:111): an ordered
    map from juror key to encoded history. Its observable behaviour is that of
    a map whose traversal visits keys in ascending byte-lexicographic order
    (the `Ord` of `Vec<u8>`), so it is modelled as an association list kept
    strictly sorted by that order. The balancing and hashing of the red-black
    tree are not part of this model. */
module PoolTree {
  import opened HistoryCodec

  datatype Entry = Entry(key: Blob, value: Blob)

  datatype Option<T> = None | Some(value: T)

  /** Byte-lexicographic order on keys: a proper prefix comes first,
      otherwise the first differing byte decides. */
  predicate LexLess(a: Blob, b: Blob)
  {
    if |a| == 0 then |b| > 0
    else if |b| == 0 then false
    else a[0] < b[0] || (a[0] == b[0] && LexLess(a[1..], b[1..]))
  }

  lemma {:induction false} LexIrreflexive(a: Blob)
    ensures !LexLess(a, a)
  {
    if |a| > 0 {
      LexIrreflexive(a[1..]);
    }
  }

  lemma {:induction false} LexTransitive(a: Blob, b: Blob, c: Blob)
    requires LexLess(a, b) && LexLess(b, c)
    ensures LexLess(a, c)
  {
    if |a| > 0 && a[0] == b[0] && b[0] == c[0] {
      LexTransitive(a[1..], b[1..], c[1..]);
    }
  }

  /** Any two distinct keys are ordered one way or the other. */
  lemma {:induction false} LexTotal(a: Blob, b: Blob)
    requires a != b
    ensures LexLess(a, b) || LexLess(b, a)
  {
    if |a| > 0 && |b| > 0 && a[0] == b[0] {
      assert a == [a[0]] + a[1..] && b == [b[0]] + b[1..];
      LexTotal(a[1..], b[1..]);
    }
  }

  /** Consecutive keys strictly increase. */
  ghost predicate Sorted(t: seq<Entry>)
  {
    forall i :: 0 < i < |t| ==> LexLess(t[i - 1].key, t[i].key)
  }

  /** Every key of the list is above `k`. */
  ghost predicate Above(k: Blob, t: seq<Entry>)
  {
    forall i :: 0 <= i < |t| ==> LexLess(k, t[i].key)
  }

  lemma {:induction false} SortedAbove(t: seq<Entry>)
    requires Sorted(t) && |t| > 0
    ensures Above(t[0].key, t[1..])
  {
    if |t| > 1 {
      SortedAbove(t[1..]);
      forall i | 0 <= i < |t| - 1
        ensures LexLess(t[0].key, t[1..][i].key)
      {
        if i > 0 {
          assert Above(t[1].key, t[2..]);
          assert t[1..][i] == t[2..][i - 1];
          LexTransitive(t[0].key, t[1].key, t[1..][i].key);
        }
      }
    }
  }

  /** Sorted lists have pairwise distinct, ascending keys. */
  lemma SortedStrict(t: seq<Entry>, i: int, j: int)
    requires Sorted(t) && 0 <= i < j < |t|
    ensures LexLess(t[i].key, t[j].key)
  {
    SortedAbove(t[i..]);
    assert t[i..][1..][j - i - 1] == t[j];
  }

  /** `RbTree::get`. */
  function Lookup(t: seq<Entry>, k: Blob): Option<Blob>
  {
    if t == [] then None
    else if t[0].key == k then Some(t[0].value)
    else Lookup(t[1..], k)
  }

  /** In a sorted list, lookup finds the entry at the key's position. */
  lemma {:induction false} LookupAt(t: seq<Entry>, i: int)
    requires Sorted(t) && 0 <= i < |t|
    ensures Lookup(t, t[i].key) == Some(t[i].value)
  {
    if i > 0 {
      SortedStrict(t, 0, i);
      LexIrreflexive(t[0].key);
      LookupAt(t[1..], i - 1);
    }
  }

  /** A key is present exactly when some entry carries it. */
  lemma {:induction false} LookupFound(t: seq<Entry>, k: Blob)
    ensures Lookup(t, k).Some? <==> exists i :: 0 <= i < |t| && t[i].key == k
    ensures Lookup(t, k).Some? ==> exists i :: 0 <= i < |t| && t[i] == Entry(k, Lookup(t, k).value)
  {
    if t != [] && t[0].key != k {
      LookupFound(t[1..], k);
      if Lookup(t, k).Some? {
        var i :| 0 <= i < |t[1..]| && t[1..][i] == Entry(k, Lookup(t, k).value);
        assert t[i + 1] == t[1..][i];
      }
      if exists i :: 0 <= i < |t| && t[i].key == k {
        var i :| 0 <= i < |t| && t[i].key == k;
        assert t[1..][i - 1] == t[i];
      }
    }
  }

  /** `RbTree::insert`: replaces the value of a present key, otherwise adds
      the key at its place in the order. */
  function Insert(t: seq<Entry>, k: Blob, v: Blob): (r: seq<Entry>)
  {
    if t == [] then [Entry(k, v)]
    else if t[0].key == k then [Entry(k, v)] + t[1..]
    else if LexLess(k, t[0].key) then [Entry(k, v)] + t
    else [t[0]] + Insert(t[1..], k, v)
  }

  /** Insertion keeps the list sorted, and the new list starts with the
      smaller of the key and the old first key. */
  lemma {:induction false} InsertSorted(t: seq<Entry>, k: Blob, v: Blob)
    requires Sorted(t)
    ensures Sorted(Insert(t, k, v))
    ensures |Insert(t, k, v)| > 0
    ensures Insert(t, k, v)[0].key == if t != [] && LexLess(t[0].key, k) then t[0].key else k
  {
    LexIrreflexive(k);
    if t != [] && LexLess(k, t[0].key) && LexLess(t[0].key, k) {
      LexTransitive(k, t[0].key, k);
    }
    if t != [] && t[0].key != k && !LexLess(k, t[0].key) {
      LexTotal(k, t[0].key);
      InsertSorted(t[1..], k, v);
      var r := Insert(t, k, v);
      assert r[1..] == Insert(t[1..], k, v);
      if |t| > 1 {
        assert LexLess(t[0].key, t[1].key);
      }
    }
  }

  /** After `Insert(t, k, v)`, key `k` maps to `v` and every other key keeps
      its value (or its absence). */
  lemma {:induction false} LookupInsert(t: seq<Entry>, k: Blob, v: Blob, q: Blob)
    ensures Lookup(Insert(t, k, v), q) == if q == k then Some(v) else Lookup(t, q)
  {
    if t != [] && t[0].key != k && !LexLess(k, t[0].key) {
      LookupInsert(t[1..], k, v, q);
    }
  }

  /** Everything `Insert` promises of a sorted list at once. */
  lemma InsertSpec(t: seq<Entry>, k: Blob, v: Blob)
    requires Sorted(t)
    ensures Sorted(Insert(t, k, v))
    ensures forall q :: Lookup(Insert(t, k, v), q) == if q == k then Some(v) else Lookup(t, q)
  {
    InsertSorted(t, k, v);
    forall q
      ensures Lookup(Insert(t, k, v), q) == if q == k then Some(v) else Lookup(t, q)
    {
      LookupInsert(t, k, v, q);
    }
  }
}
