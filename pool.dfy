/** Point-in-time pool reconstruction and the arithmetic of selection
    (src/main.rs, `collect_pool`, `make_jury`, `expand`).

    A history alternates activation and deactivation indices. The test that
    `collect_pool` applies to one history is `ActiveAt`; it is kept exactly as
    the source writes it, including the comparison `last >= index` for a
    currently active juror, and the lemmas below compare it with a replay of
    the history up to the queried index. */
module Pool {
  import opened HistoryCodec
  import opened PoolTree

  /** Some whole activation/deactivation pair `(h[2i], h[2i+1])` covers
      `index` (the spans of `chunks_exact(2)`; an odd last entry is no span). */
  predicate InSpan(h: History, index: u32)
  {
    exists i :: 0 <= i < |h| / 2 && h[2 * i] <= index < h[2 * i + 1]
  }

  /** The membership test of `collect_pool` for one history, as written:
      a currently active juror (odd length) counts when its last activation
      is at or after `index`; otherwise some span must cover `index`. */
  predicate ActiveAt(h: History, index: u32)
  {
    (|h| % 2 == 1 && h[|h| - 1] >= index) || InSpan(h, index)
  }

  /** The keys of `t`, in its order, whose decoded history passes
      `ActiveAt`. */
  function PoolAt(t: seq<Entry>, index: u32): seq<Blob>
  {
    if t == [] then []
    else
      var last := t[|t| - 1];
      PoolAt(t[..|t| - 1], index) + if ActiveAt(ToHistory(last.value), index) then [last.key] else []
  }

  /** Each member of the pool comes after the previous one in key order. */
  ghost predicate Ascending(s: seq<Blob>)
  {
    forall i, j :: 0 <= i < j < |s| ==> LexLess(s[i], s[j])
  }

  ghost predicate Distinct(s: seq<Blob>)
  {
    forall i, j :: 0 <= i < j < |s| ==> s[i] != s[j]
  }

  lemma AscendingDistinct(s: seq<Blob>)
    requires Ascending(s)
    ensures Distinct(s)
  {
    forall i, j | 0 <= i < j < |s|
      ensures s[i] != s[j]
    {
      LexIrreflexive(s[i]);
    }
  }

  /** Every pool member is the key of an entry whose history passes the
      test. */
  lemma {:induction false} PoolKeys(t: seq<Entry>, index: u32, k: Blob)
    requires k in PoolAt(t, index)
    ensures exists i :: 0 <= i < |t| && t[i].key == k && ActiveAt(ToHistory(t[i].value), index)
  {
    var last := t[|t| - 1];
    if k in PoolAt(t[..|t| - 1], index) {
      PoolKeys(t[..|t| - 1], index, k);
      var i :| 0 <= i < |t| - 1 && t[..|t| - 1][i].key == k && ActiveAt(ToHistory(t[..|t| - 1][i].value), index);
      assert t[i] == t[..|t| - 1][i];
    } else {
      assert k == last.key && ActiveAt(ToHistory(last.value), index);
    }
  }

  /** A key whose entry passes the test is in the pool. */
  lemma {:induction false} PoolIncludes(t: seq<Entry>, index: u32, i: int)
    requires 0 <= i < |t| && ActiveAt(ToHistory(t[i].value), index)
    ensures t[i].key in PoolAt(t, index)
  {
    if i < |t| - 1 {
      PoolIncludes(t[..|t| - 1], index, i);
    }
  }

  /** Membership: over a sorted tree, `k` is in the pool exactly when `k` is
      present and its history passes the test. */
  lemma PoolMembership(t: seq<Entry>, index: u32, k: Blob)
    requires Sorted(t)
    ensures k in PoolAt(t, index) <==>
              Lookup(t, k).Some? && ActiveAt(ToHistory(Lookup(t, k).value), index)
  {
    if k in PoolAt(t, index) {
      PoolKeys(t, index, k);
      var i :| 0 <= i < |t| && t[i].key == k && ActiveAt(ToHistory(t[i].value), index);
      LookupAt(t, i);
    }
    if Lookup(t, k).Some? {
      LookupFound(t, k);
      var i :| 0 <= i < |t| && t[i] == Entry(k, Lookup(t, k).value);
      if ActiveAt(ToHistory(Lookup(t, k).value), index) {
        PoolIncludes(t, index, i);
      }
    }
  }

  /** A tree none of whose histories passes the test at `index` yields the
      empty pool. */
  lemma {:induction false} PoolEmpty(t: seq<Entry>, index: u32)
    requires forall i :: 0 <= i < |t| ==> !ActiveAt(ToHistory(t[i].value), index)
    ensures PoolAt(t, index) == []
  {
    if t != [] {
      PoolEmpty(t[..|t| - 1], index);
    }
  }

  /** Every pool member is below a bound that every key of the tree is
      below. */
  lemma PoolBelow(t: seq<Entry>, index: u32, bound: Blob)
    requires forall i :: 0 <= i < |t| ==> LexLess(t[i].key, bound)
    ensures forall x :: x in PoolAt(t, index) ==> LexLess(x, bound)
  {
    forall x | x in PoolAt(t, index)
      ensures LexLess(x, bound)
    {
      PoolKeys(t, index, x);
    }
  }

  /** Order: over a sorted tree the pool follows the key order, so it holds
      no key twice. */
  lemma {:induction false} PoolAscending(t: seq<Entry>, index: u32)
    requires Sorted(t)
    ensures Ascending(PoolAt(t, index)) && Distinct(PoolAt(t, index))
  {
    var p := PoolAt(t, index);
    if t != [] {
      var init := t[..|t| - 1];
      var last := t[|t| - 1];
      assert Sorted(init);
      PoolAscending(init, index);
      forall i | 0 <= i < |init|
        ensures LexLess(init[i].key, last.key)
      {
        SortedStrict(t, i, |t| - 1);
      }
      PoolBelow(init, index, last.key);
      var q := PoolAt(init, index);
      assert p == q || p == q + [last.key];
      forall i, j | 0 <= i < j < |p|
        ensures LexLess(p[i], p[j])
      {
        if j >= |q| {
          assert p[i] in q;
        }
      }
    }
    AscendingDistinct(p);
  }

  /** All entries strictly increase, as the indices appended by successive
      calls do. */
  ghost predicate Increasing(h: History)
  {
    forall i, j :: 0 <= i < j < |h| ==> h[i] < h[j]
  }

  /** The number of transitions at or before `index`. */
  function CountUpTo(h: History, index: u32): nat
  {
    if h == [] then 0 else (if h[0] <= index then 1 else 0) + CountUpTo(h[1..], index)
  }

  /** Replaying a history up to `index`: the juror is active when an odd
      number of transitions has happened by then. */
  predicate ReplayActive(h: History, index: u32)
  {
    CountUpTo(h, index) % 2 == 1
  }

  lemma {:induction false} CountNone(h: History, index: u32)
    requires forall i :: 0 <= i < |h| ==> h[i] > index
    ensures CountUpTo(h, index) == 0
  {
    if h != [] {
      CountNone(h[1..], index);
    }
  }

  lemma {:induction false} CountAll(h: History, index: u32)
    requires forall i :: 0 <= i < |h| ==> h[i] <= index
    ensures CountUpTo(h, index) == |h|
  {
    if h != [] {
      CountAll(h[1..], index);
    }
  }

  /** Dropping the first pair: once `index` is past its deactivation, the
      remaining spans decide. */
  lemma InSpanDropPair(h: History, index: u32)
    requires |h| >= 2 && h[1] <= index
    ensures InSpan(h, index) <==> InSpan(h[2..], index)
  {
    var r := h[2..];
    if InSpan(h, index) {
      var i :| 0 <= i < |h| / 2 && h[2 * i] <= index < h[2 * i + 1];
      assert i > 0;
      assert r[2 * (i - 1)] == h[2 * i] && r[2 * (i - 1) + 1] == h[2 * i + 1];
    }
    if InSpan(r, index) {
      var i :| 0 <= i < |r| / 2 && r[2 * i] <= index < r[2 * i + 1];
      assert h[2 * (i + 1)] == r[2 * i] && h[2 * (i + 1) + 1] == r[2 * i + 1];
    }
  }

  /** Before the first deactivation, only the first pair can cover `index`. */
  lemma InSpanFirstPair(h: History, index: u32)
    requires Increasing(h) && |h| >= 2 && index < h[1]
    ensures InSpan(h, index) <==> h[0] <= index
  {
    if h[0] <= index {
      assert h[2 * 0] <= index < h[2 * 0 + 1];
    }
  }

  lemma CountPair(h: History, index: u32)
    requires |h| >= 2
    ensures CountUpTo(h, index) == (if h[0] <= index then 1 else 0)
                                   + (if h[1] <= index then 1 else 0) + CountUpTo(h[2..], index)
  {
    assert h[1..][1..] == h[2..];
  }

  /** For a juror that is currently inactive (even length), the span test is
      exactly replay: the juror is in the pool at `index` iff it had been
      activated and not yet deactivated by then. */
  lemma {:induction false} SpansMatchReplay(h: History, index: u32)
    requires Increasing(h) && |h| % 2 == 0
    ensures InSpan(h, index) <==> ReplayActive(h, index)
  {
    if h != [] {
      CountPair(h, index);
      if index < h[1] {
        CountNone(h[2..], index);
        InSpanFirstPair(h, index);
      } else {
        InSpanDropPair(h, index);
        SpansMatchReplay(h[2..], index);
      }
    }
  }

  /** For a juror that is currently inactive, `collect_pool` reconstructs its
      past membership exactly. */
  lemma InactiveReplay(h: History, index: u32)
    requires Increasing(h) && |h| % 2 == 0
    ensures ActiveAt(h, index) <==> ReplayActive(h, index)
  {
    SpansMatchReplay(h, index);
  }

  /** For a juror that is currently active (odd length), the test as written
      holds exactly up to and including its last activation: the juror is
      left out of every pool taken after it activated, although replay counts
      it active from its activation on. */
  lemma CurrentlyActiveAsWritten(h: History, index: u32)
    requires Increasing(h) && |h| % 2 == 1
    ensures ActiveAt(h, index) <==> index <= h[|h| - 1]
    ensures index >= h[|h| - 1] ==> ReplayActive(h, index)
  {
    var last := h[|h| - 1];
    if InSpan(h, index) {
      var i :| 0 <= i < |h| / 2 && h[2 * i] <= index < h[2 * i + 1];
      assert h[2 * i + 1] <= last;
    }
    if index >= last {
      CountAll(h, index);
    }
  }

  /** A juror activated at 5 and never removed is not in the pool at 7, and is
      in the pool at 3, before it joined. */
  lemma ActiveAfterActivationExcluded()
    ensures !ActiveAt([5], 7) && ReplayActive([5], 7)
    ensures ActiveAt([5], 3) && !ReplayActive([5], 3)
  {
    assert !InSpan([5], 7) && !InSpan([5], 3);
    assert CountUpTo([5], 7) == 1 + CountUpTo([], 7);
    assert CountUpTo([5], 3) == CountUpTo([], 3);
  }

  /** `SliceRandom::choose_multiple` with a ChaCha20 generator seeded by a
      32-byte seed: a deterministic function of the pool, the count and the
      seed. Its internals are not modelled; `IsDraw` is its contract. */
  type Chooser = (seq<Blob>, nat, Blob) -> seq<Blob>

  function Min(a: int, b: int): int
  {
    if a <= b then a else b
  }

  /** `r` is `min(count, |pool|)` distinct members of `pool`. */
  ghost predicate DrawOf(pool: seq<Blob>, count: nat, r: seq<Blob>)
  {
    |r| == Min(count, |pool|) && Distinct(r) && forall x :: x in r ==> x in pool
  }

  ghost predicate IsDraw(choose: Chooser)
  {
    forall pool, count, seed :: Distinct(pool) ==> DrawOf(pool, count, choose(pool, count, seed))
  }

  /** Drawing more with the same seed extends the smaller draw. The model
      does not assume this of `choose_multiple`; the lemma below takes it as a
      hypothesis. */
  ghost predicate PrefixStable(choose: Chooser)
  {
    forall pool, n: nat, m: nat, seed :: n <= m ==> choose(pool, n, seed) <= choose(pool, m, seed)
  }

  /** What `expand` adds after a selection of `n` from the same pool and
      seed: with a prefix-stable draw, the selection followed by the expansion
      is the draw of `n + m`, and the expansion repeats no selected juror. */
  lemma ExpansionExtendsSelection(choose: Chooser, pool: seq<Blob>, n: nat, m: nat, seed: Blob)
    requires IsDraw(choose) && PrefixStable(choose) && Distinct(pool) && n <= |pool|
    ensures var all := choose(pool, n + m, seed);
            n <= |all| &&
            choose(pool, n, seed) + all[n..] == all &&
            |all[n..]| == Min(n + m, |pool|) - n &&
            forall x :: x in all[n..] ==> x !in choose(pool, n, seed)
  {
    var sel := choose(pool, n, seed);
    var all := choose(pool, n + m, seed);
    assert DrawOf(pool, n, sel) && DrawOf(pool, n + m, all);
    assert sel <= all;
    assert all[..n] == sel;
    assert sel + all[n..] == all;
    forall x | x in all[n..]
      ensures x !in sel
    {
      var j :| 0 <= j < |all[n..]| && all[n..][j] == x;
      forall i | 0 <= i < |sel|
        ensures sel[i] != x
      {
        assert all[i] == sel[i] && all[n + j] == x;
      }
    }
  }
}
