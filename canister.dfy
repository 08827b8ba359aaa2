/** The jury canister's state and its update and query calls
    (src/main.rs:88-291, 357-460).

    A trap aborts the whole call, and the platform rolls back every change
    the call made; a trap is therefore modelled as an `Err` result with the
    state left as it was, including the pending entry the call had already
    pushed. */
module Jury {
  import opened HistoryCodec
  import opened PoolTree
  import opened Pool

  /** The most transitions one juror's history may hold. */
  const MAX_HISTORY: nat := 8

  datatype Kind = AddJurors | RemoveJurors | SelectJurors | ExpandJurors

  /** One pending or committed operation. `jurorsIndex` is never set by the
      calls modelled here and keeps its default, 0. */
  datatype Data = Data(kind: Kind, jurors: seq<Blob>, rand: Blob, jurorsIndex: u32)

  datatype Block = Block(certificate: Blob, tree: Blob, data: Data, previousHash: Blob)

  datatype Error =
    | NotAuthorized
    | HistoryFull(juror: Blob)
    | SeedCallFailed
    | SeedLength(length: nat)
    | BlockNotFound(index: u32)
    | StoredSeedLength(length: nat)
    | ExpansionOutOfRange(oldCount: u32, drawn: nat)
    | PrincipalNotFound(id: Blob)

  datatype Result<T> = Ok(value: T) | Err(error: Error)

  /** A stored value, decoded. */
  function Decoded(v: Option<Blob>): Option<History>
  {
    match v
    case None => None
    case Some(b) => Some(ToHistory(b))
  }

  /** The decoded history stored for `k`, if any. */
  function HistoryOf(t: seq<Entry>, k: Blob): Option<History>
  {
    Decoded(Lookup(t, k))
  }

  /** A present juror whose history has odd length: currently active. */
  predicate Active(h: Option<History>)
  {
    h.Some? && |h.value| % 2 == 1
  }

  /** A present juror whose history has even length: currently inactive. */
  predicate Inactive(h: Option<History>)
  {
    h.Some? && |h.value| % 2 == 0
  }

  /** An encoded history of one to `MAX_HISTORY` transitions. */
  predicate WellFormed(v: Blob)
  {
    |v| % 4 == 0 && 1 <= |v| / 4 <= MAX_HISTORY
  }

  /** `add` traps on a listed juror that is inactive and has used up its
      transitions. */
  predicate Full(v: Option<Blob>)
  {
    Inactive(Decoded(v)) && |Decoded(v).value| >= MAX_HISTORY
  }

  /** The value `add` leaves for one listed juror. */
  function Activated(v: Option<Blob>, index: u32): Option<Blob>
  {
    match v
    case None => Some(FromHistory([index]))
    case Some(b) =>
      var h := ToHistory(b);
      if |h| % 2 == 0 then Some(FromHistory(h + [index])) else v
  }

  /** The value `remove` leaves for one listed juror. */
  function Deactivated(v: Option<Blob>, index: u32): Option<Blob>
  {
    match v
    case None => None
    case Some(b) =>
      var h := ToHistory(b);
      if |h| % 2 == 1 then Some(FromHistory(h + [index])) else v
  }

  /** What `add` does to one listed juror: an absent juror starts with
      `[index]`, an inactive one gets `index` appended, an active one is left
      alone. Afterwards the juror is active, so it cannot be full, and a
      juror that was not full stays within the cap. */
  lemma ActivatedHistory(v: Option<Blob>, index: u32)
    ensures Decoded(Activated(v, index)) ==
              if v.None? then Some([index])
              else if Inactive(Decoded(v)) then Some(Decoded(v).value + [index])
              else Decoded(v)
    ensures Active(Decoded(Activated(v, index))) && !Full(Activated(v, index))
    ensures Active(Decoded(v)) ==> Activated(v, index) == v
    ensures (v.Some? ==> WellFormed(v.value)) && !Full(v) ==> WellFormed(Activated(v, index).value)
  {
    if v.None? {
      DecodeEncode([index]);
    } else if Inactive(Decoded(v)) {
      DecodeEncode(Decoded(v).value + [index]);
    }
  }

  /** What `remove` does to one listed juror: an active juror gets `index`
      appended; an absent or inactive one is left alone. Afterwards a present
      juror is inactive, and within the cap when it was before (an active
      history has odd length, below the even cap). */
  lemma DeactivatedHistory(v: Option<Blob>, index: u32)
    ensures Decoded(Deactivated(v, index)) ==
              if Active(Decoded(v)) then Some(Decoded(v).value + [index]) else Decoded(v)
    ensures !Active(Decoded(v)) ==> Deactivated(v, index) == v
    ensures v.Some? ==> Inactive(Decoded(Deactivated(v, index)))
    ensures v.Some? && WellFormed(v.value) ==> WellFormed(Deactivated(v, index).value)
  {
    if Active(Decoded(v)) {
      DecodeEncode(Decoded(v).value + [index]);
    }
  }

  /** Activating a juror twice in one call is activating it once: the second
      occurrence finds it active. */
  lemma ActivatedTwice(v: Option<Blob>, index: u32)
    ensures Activated(Activated(v, index), index) == Activated(v, index)
  {
    ActivatedHistory(v, index);
    ActivatedHistory(Activated(v, index), index);
  }

  /** Deactivating a juror twice in one call is deactivating it once. */
  lemma DeactivatedTwice(v: Option<Blob>, index: u32)
    ensures Deactivated(Deactivated(v, index), index) == Deactivated(v, index)
  {
    DeactivatedHistory(v, index);
    if v.Some? {
      DeactivatedHistory(Deactivated(v, index), index);
    }
  }

  /** Histories strictly increase and record no index later than `count`. */
  ghost predicate Chronicle(v: Blob, count: int)
  {
    var h := ToHistory(v);
    Increasing(h) && forall i :: 0 <= i < |h| ==> h[i] as int <= count
  }

  /** An index later than every recorded one keeps a history increasing. */
  lemma ActivatedChronicle(v: Option<Blob>, index: u32)
    requires v.Some? ==> Chronicle(v.value, index as int - 1)
    ensures Chronicle(Activated(v, index).value, index as int)
  {
    ActivatedHistory(v, index);
  }

  lemma DeactivatedChronicle(v: Option<Blob>, index: u32)
    requires v.Some? && Chronicle(v.value, index as int - 1)
    ensures Chronicle(Deactivated(v, index).value, index as int)
  {
    DeactivatedHistory(v, index);
  }

  /** `updated` is `t` after `add`'s loop activated every juror of `jurors`
      at `index`. */
  ghost predicate ActivatedAll(t: seq<Entry>, updated: seq<Entry>, jurors: seq<Blob>, index: u32)
  {
    forall k :: Lookup(updated, k) == if k in jurors then Activated(Lookup(t, k), index) else Lookup(t, k)
  }

  /** `updated` is `t` after `remove`'s loop deactivated every juror of
      `jurors` at `index`. */
  ghost predicate DeactivatedAll(t: seq<Entry>, updated: seq<Entry>, jurors: seq<Blob>, index: u32)
  {
    forall k :: Lookup(updated, k) == if k in jurors then Deactivated(Lookup(t, k), index) else Lookup(t, k)
  }

  /** Every stored history is well formed. */
  ghost predicate AllWellFormed(t: seq<Entry>)
  {
    forall k :: Lookup(t, k).Some? ==> WellFormed(Lookup(t, k).value)
  }

  /** Every stored history is chronological up to `count`. */
  ghost predicate AllChronicle(t: seq<Entry>, count: int)
  {
    forall k :: Lookup(t, k).Some? ==> Chronicle(Lookup(t, k).value, count)
  }

  /** `jurors[i]` is the first listed juror that is full in `t`: the one
      whose check traps `add`. */
  ghost predicate FirstFull(t: seq<Entry>, jurors: seq<Blob>, i: int)
  {
    0 <= i < |jurors| && Full(Lookup(t, jurors[i])) &&
    forall j :: j in jurors[..i] ==> !Full(Lookup(t, j))
  }

  /** The loop of `add` over the listed jurors, on the tree `t`: activate
      each one at `index`, or stop at the first full juror (where `add`
      traps). */
  method ActivateEach(t: seq<Entry>, jurors: seq<Blob>, index: u32)
    returns (updated: seq<Entry>, full: Option<Blob>)
    requires Sorted(t)
    ensures Sorted(updated)
    ensures full.None? <==> forall j :: j in jurors ==> !Full(Lookup(t, j))
    ensures full.Some? ==> full.value in jurors && Full(Lookup(t, full.value))
    ensures full.Some? ==> exists i :: FirstFull(t, jurors, i) && jurors[i] == full.value
    ensures full.None? ==> ActivatedAll(t, updated, jurors, index)
  {
    updated, full := t, None;
    var i := 0;
    while i < |jurors|
      invariant 0 <= i <= |jurors|
      invariant Sorted(updated)
      invariant forall j :: j in jurors[..i] ==> !Full(Lookup(t, j))
      invariant ActivatedAll(t, updated, jurors[..i], index)
    {
      var j := jurors[i];
      var current := Lookup(updated, j);
      ActivatedHistory(Lookup(t, j), index);
      if current.Some? {
        var history := ToHistory(current.value);
        if |history| % 2 == 0 {
          if |history| >= MAX_HISTORY {
            assert Full(current);
            assert j !in jurors[..i];
            assert Full(Lookup(t, j));
            assert FirstFull(t, jurors, i);
            full := Some(j);
            return;
          }
          InsertSpec(updated, j, FromHistory(history + [index]));
          updated := Insert(updated, j, FromHistory(history + [index]));
        }
      } else {
        InsertSpec(updated, j, FromHistory([index]));
        updated := Insert(updated, j, FromHistory([index]));
      }
      ActivatedTwice(Lookup(t, j), index);
      assert jurors[..i + 1] == jurors[..i] + [j];
      i := i + 1;
    }
    assert jurors[..i] == jurors;
  }

  /** The loop of `remove`: deactivate each listed juror that is present and
      active. */
  method DeactivateEach(t: seq<Entry>, jurors: seq<Blob>, index: u32) returns (updated: seq<Entry>)
    requires Sorted(t)
    ensures Sorted(updated)
    ensures DeactivatedAll(t, updated, jurors, index)
  {
    updated := t;
    var i := 0;
    while i < |jurors|
      invariant 0 <= i <= |jurors|
      invariant Sorted(updated)
      invariant DeactivatedAll(t, updated, jurors[..i], index)
    {
      var j := jurors[i];
      var current := Lookup(updated, j);
      if current.Some? {
        var history := ToHistory(current.value);
        if |history| % 2 == 1 {
          InsertSpec(updated, j, FromHistory(history + [index]));
          updated := Insert(updated, j, FromHistory(history + [index]));
        }
      }
      DeactivatedTwice(Lookup(t, j), index);
      assert jurors[..i + 1] == jurors[..i] + [j];
      i := i + 1;
    }
    assert jurors[..i] == jurors;
  }

  /** The effect of `add` on each key: unlisted keys keep their value, an
      absent listed key starts at `[index]`, an inactive one gets `index`
      appended and an active one is untouched. */
  lemma AddEffect(t: seq<Entry>, u: seq<Entry>, jurors: seq<Blob>, index: u32)
    requires ActivatedAll(t, u, jurors, index)
    ensures forall k :: k !in jurors ==> Lookup(u, k) == Lookup(t, k)
    ensures forall k :: k in jurors && Lookup(t, k).None? ==> HistoryOf(u, k) == Some([index])
    ensures forall k :: k in jurors && Inactive(HistoryOf(t, k)) ==>
              HistoryOf(u, k) == Some(HistoryOf(t, k).value + [index])
    ensures forall k :: k in jurors && Active(HistoryOf(t, k)) ==> Lookup(u, k) == Lookup(t, k)
  {
    forall k | k in jurors
      ensures Lookup(t, k).None? ==> HistoryOf(u, k) == Some([index])
      ensures Inactive(HistoryOf(t, k)) ==> HistoryOf(u, k) == Some(HistoryOf(t, k).value + [index])
      ensures Active(HistoryOf(t, k)) ==> Lookup(u, k) == Lookup(t, k)
    {
      ActivatedHistory(Lookup(t, k), index);
    }
  }

  /** `add` without a trap keeps every history within the cap. */
  lemma AddWellFormed(t: seq<Entry>, u: seq<Entry>, jurors: seq<Blob>, index: u32)
    requires ActivatedAll(t, u, jurors, index) && AllWellFormed(t)
    requires forall j :: j in jurors ==> !Full(Lookup(t, j))
    ensures AllWellFormed(u)
  {
    forall k | k in jurors
      ensures WellFormed(Lookup(u, k).value)
    {
      ActivatedHistory(Lookup(t, k), index);
    }
  }

  /** `add` at an index later than every recorded one keeps every history
      strictly increasing. */
  lemma AddChronicle(t: seq<Entry>, u: seq<Entry>, jurors: seq<Blob>, index: u32)
    requires ActivatedAll(t, u, jurors, index) && AllChronicle(t, index as int - 1)
    ensures AllChronicle(u, index as int)
  {
    forall k | Lookup(u, k).Some?
      ensures Chronicle(Lookup(u, k).value, index as int)
    {
      if k in jurors {
        ActivatedChronicle(Lookup(t, k), index);
      }
    }
  }

  /** The effect of `remove` on each key: only listed, active keys change,
      and they get `index` appended. */
  lemma RemoveEffect(t: seq<Entry>, u: seq<Entry>, jurors: seq<Blob>, index: u32)
    requires DeactivatedAll(t, u, jurors, index)
    ensures forall k :: k !in jurors ==> Lookup(u, k) == Lookup(t, k)
    ensures forall k :: k in jurors && Active(HistoryOf(t, k)) ==>
              HistoryOf(u, k) == Some(HistoryOf(t, k).value + [index])
    ensures forall k :: k in jurors && !Active(HistoryOf(t, k)) ==> Lookup(u, k) == Lookup(t, k)
  {
    forall k | k in jurors
      ensures Active(HistoryOf(t, k)) ==> HistoryOf(u, k) == Some(HistoryOf(t, k).value + [index])
      ensures !Active(HistoryOf(t, k)) ==> Lookup(u, k) == Lookup(t, k)
    {
      DeactivatedHistory(Lookup(t, k), index);
    }
  }

  /** `remove` keeps every history within the cap. */
  lemma RemoveWellFormed(t: seq<Entry>, u: seq<Entry>, jurors: seq<Blob>, index: u32)
    requires DeactivatedAll(t, u, jurors, index) && AllWellFormed(t)
    ensures AllWellFormed(u)
  {
    forall k | k in jurors && Lookup(u, k).Some?
      ensures WellFormed(Lookup(u, k).value)
    {
      DeactivatedHistory(Lookup(t, k), index);
    }
  }

  /** `remove` at an index later than every recorded one keeps every history
      strictly increasing. */
  lemma RemoveChronicle(t: seq<Entry>, u: seq<Entry>, jurors: seq<Blob>, index: u32)
    requires DeactivatedAll(t, u, jurors, index) && AllChronicle(t, index as int - 1)
    ensures AllChronicle(u, index as int)
  {
    forall k | k in jurors && Lookup(u, k).Some?
      ensures Chronicle(Lookup(u, k).value, index as int)
    {
      DeactivatedChronicle(Lookup(t, k), index);
    }
  }

  /** The canister's state. `tree` is `TREE`, `pending` the `PENDING_DATA`
      cell, `log` the committed blocks of `LOG`, `genesisHash` the
      `PREVIOUS_HASH` cell and `auth` the keys of `AUTH`. */
  class Canister {
    var tree: seq<Entry>
    var pending: seq<Data>
    var log: seq<Block>
    var genesisHash: Blob
    var auth: set<Blob>

    /** The tree is ordered and every stored history is well formed and at
        most `MAX_HISTORY` long. */
    ghost predicate Valid()
      reads this
    {
      Sorted(tree) && AllWellFormed(tree)
    }

    /** The number of operations so far: committed blocks plus pending
        entries. */
    function Count(): nat
      reads this
    {
      |log| + |pending|
    }

    /** Every history strictly increases and lies at or before the current
        count, and the count still fits in 32 bits. */
    ghost predicate Chronological()
      reads this
    {
      Count() < U32_LIMIT && AllChronicle(tree, Count())
    }

    /** `canister_init`: the caller becomes the first authorized principal;
        a supplied genesis hash is stored when it is 32 bytes long, otherwise
        the cell keeps its default of 32 zero bytes. `genesis` is the hex
        argument after decoding (`None` when absent or not hex). */
    constructor (caller: Blob, genesis: Option<Blob>)
      ensures Valid() && Chronological()
      ensures tree == [] && pending == [] && log == []
      ensures auth == {caller}
      ensures genesisHash == if genesis.Some? && |genesis.value| == 32 then genesis.value else seq(32, _ => 0)
    {
      tree := [];
      pending := [];
      log := [];
      auth := {caller};
      if genesis.Some? && |genesis.value| == 32 {
        genesisHash := genesis.value;
      } else {
        genesisHash := seq(32, _ => 0);
      }
    }

    /** `get_index`: the count truncated to `u32` by `as u32`. */
    function GetIndex(): (i: u32)
      reads this
      ensures Count() < U32_LIMIT ==> i as int == Count()
    {
      (Count() % U32_LIMIT) as u32
    }

    /** `get_pending`: the number of pending entries, truncated to `u32`. */
    function GetPending(): (n: u32)
      reads this
      ensures |pending| < U32_LIMIT ==> n as int == |pending|
      ensures n == 0 <==> |pending| % U32_LIMIT == 0
    {
      (|pending| % U32_LIMIT) as u32
    }

    /** `is_authorized`, the guard of every update call. */
    predicate IsAuthorized(caller: Blob)
      reads this
    {
      caller in auth
    }

    /** `push_pending`: append one entry to the pending cell. */
    method PushPending(d: Data)
      modifies this
      ensures pending == old(pending) + [d]
      ensures tree == old(tree) && log == old(log)
      ensures genesisHash == old(genesisHash) && auth == old(auth)
    {
      pending := pending + [d];
    }

    /** `add`: record one pending `Add` entry and activate every listed juror
        at the new index. */
    method Add(caller: Blob, newJurors: seq<Blob>) returns (r: Result<u32>)
      requires Valid()
      modifies this
      ensures Valid()
      ensures log == old(log) && genesisHash == old(genesisHash) && auth == old(auth)
      ensures !old(IsAuthorized(caller)) ==> r == Err(NotAuthorized)
      ensures old(IsAuthorized(caller)) ==>
                (r.Err? <==> exists j :: j in newJurors && Full(old(Lookup(tree, j))))
      ensures old(IsAuthorized(caller)) && r.Err? ==>
                r.error.HistoryFull? && exists i :: FirstFull(old(tree), newJurors, i) && newJurors[i] == r.error.juror
      ensures r.Err? ==> tree == old(tree) && pending == old(pending)
      ensures r.Ok? ==> pending == old(pending) + [Data(AddJurors, newJurors, [], 0)]
      ensures r.Ok? ==> r.value == GetIndex() && Count() == old(Count()) + 1
      ensures r.Ok? ==> forall k :: k !in newJurors ==> Lookup(tree, k) == old(Lookup(tree, k))
      ensures r.Ok? ==> forall k :: k in newJurors && old(Lookup(tree, k)).None? ==>
                          HistoryOf(tree, k) == Some([r.value])
      ensures r.Ok? ==> forall k :: k in newJurors && Inactive(old(HistoryOf(tree, k))) ==>
                          HistoryOf(tree, k) == Some(old(HistoryOf(tree, k)).value + [r.value])
      ensures r.Ok? ==> forall k :: k in newJurors && Active(old(HistoryOf(tree, k))) ==>
                          Lookup(tree, k) == old(Lookup(tree, k))
      ensures old(Chronological()) && old(Count()) + 1 < U32_LIMIT ==> Chronological()
    {
      if !IsAuthorized(caller) {
        return Err(NotAuthorized);
      }
      var saved := pending;
      PushPending(Data(AddJurors, newJurors, [], 0));
      var index := GetIndex();
      var updated, full := ActivateEach(tree, newJurors, index);
      if full.Some? {
        pending := saved;
        return Err(HistoryFull(full.value));
      }
      AddEffect(tree, updated, newJurors, index);
      AddWellFormed(tree, updated, newJurors, index);
      if old(Chronological()) && old(Count()) + 1 < U32_LIMIT {
        AddChronicle(tree, updated, newJurors, index);
      }
      tree := updated;
      r := Ok(index);
    }

    /** `remove`: record one pending `Remove` entry and deactivate every
        listed juror that is present and active. */
    method Remove(caller: Blob, removeJurors: seq<Blob>) returns (r: Result<u32>)
      requires Valid()
      modifies this
      ensures Valid()
      ensures log == old(log) && genesisHash == old(genesisHash) && auth == old(auth)
      ensures r.Err? <==> !old(IsAuthorized(caller))
      ensures r.Err? ==> r == Err(NotAuthorized) && tree == old(tree) && pending == old(pending)
      ensures r.Ok? ==> pending == old(pending) + [Data(RemoveJurors, removeJurors, [], 0)]
      ensures r.Ok? ==> r.value == GetIndex() && Count() == old(Count()) + 1
      ensures r.Ok? ==> forall k :: k !in removeJurors ==> Lookup(tree, k) == old(Lookup(tree, k))
      ensures r.Ok? ==> forall k :: k in removeJurors && Active(old(HistoryOf(tree, k))) ==>
                          HistoryOf(tree, k) == Some(old(HistoryOf(tree, k)).value + [r.value])
      ensures r.Ok? ==> forall k :: k in removeJurors && !Active(old(HistoryOf(tree, k))) ==>
                          Lookup(tree, k) == old(Lookup(tree, k))
      ensures old(Chronological()) && old(Count()) + 1 < U32_LIMIT ==> Chronological()
    {
      if !IsAuthorized(caller) {
        return Err(NotAuthorized);
      }
      PushPending(Data(RemoveJurors, removeJurors, [], 0));
      var index := GetIndex();
      var updated := DeactivateEach(tree, removeJurors, index);
      RemoveEffect(tree, updated, removeJurors, index);
      RemoveWellFormed(tree, updated, removeJurors, index);
      if old(Chronological()) && old(Count()) + 1 < U32_LIMIT {
        RemoveChronicle(tree, updated, removeJurors, index);
      }
      tree := updated;
      r := Ok(index);
    }

    /** The closure `collect_pool` runs on each entry: the membership test
        for one decoded history. */
    static method IsActiveAt(history: History, index: u32) returns (found: bool)
      ensures found == ActiveAt(history, index)
    {
      found := false;
      if |history| % 2 == 1 {
        // a currently active juror
        if history[|history| - 1] >= index {
          found := true;
        }
      }
      if !found {
        var s := 0;
        while s < |history| / 2
          invariant 0 <= s <= |history| / 2
          invariant forall i :: 0 <= i < s ==> !(history[2 * i] <= index < history[2 * i + 1])
        {
          if history[2 * s] <= index && history[2 * s + 1] > index {
            found := true;
            break;
          }
          s := s + 1;
        }
      }
    }

    /** `collect_pool`: walk the tree in key order and keep each key whose
        history passes the membership test at `index`. */
    method CollectPool(index: u32) returns (pool: seq<Blob>)
      requires Valid()
      ensures pool == PoolAt(tree, index)
      ensures Ascending(pool)
      ensures forall k :: k in pool <==>
                HistoryOf(tree, k).Some? && ActiveAt(HistoryOf(tree, k).value, index)
    {
      pool := [];
      var n := 0;
      while n < |tree|
        invariant 0 <= n <= |tree|
        invariant pool == PoolAt(tree[..n], index)
      {
        var entry := tree[n];
        var found := IsActiveAt(ToHistory(entry.value), index);
        if found {
          pool := pool + [entry.key];
        }
        assert tree[..n + 1][..n] == tree[..n] && tree[..n + 1][n] == entry;
        n := n + 1;
      }
      assert tree[..n] == tree;
      PoolAscending(tree, index);
      forall k
        ensures k in pool <==> HistoryOf(tree, k).Some? && ActiveAt(HistoryOf(tree, k).value, index)
      {
        PoolMembership(tree, index, k);
      }
    }

    /** `make_jury`: draw `count` jurors from the pool at `index` with the
        generator seeded by `seed`. */
    method MakeJury(index: u32, count: u32, seed: Blob, choose: Chooser) returns (jury: seq<Blob>)
      requires Valid() && IsDraw(choose)
      ensures jury == choose(PoolAt(tree, index), count as nat, seed)
      ensures |jury| == Min(count as int, |PoolAt(tree, index)|) && Distinct(jury)
      ensures forall k :: k in jury ==> HistoryOf(tree, k).Some? && ActiveAt(HistoryOf(tree, k).value, index)
    {
      var pool := CollectPool(index);
      AscendingDistinct(pool);
      jury := choose(pool, count as nat, seed);
      assert DrawOf(pool, count as nat, jury);
    }

    /** `select`, with the reply of the randomness call as a parameter
        (`None` when the call fails). */
    method Select(caller: Blob, index: u32, count: u32, reply: Option<Blob>, choose: Chooser)
      returns (r: Result<u32>)
      requires Valid() && IsDraw(choose)
      modifies this
      ensures Valid()
      ensures tree == old(tree) && log == old(log)
      ensures genesisHash == old(genesisHash) && auth == old(auth)
      ensures !old(IsAuthorized(caller)) ==> r == Err(NotAuthorized)
      ensures old(IsAuthorized(caller)) && reply.None? ==> r == Err(SeedCallFailed)
      ensures old(IsAuthorized(caller)) && reply.Some? && |reply.value| != 32 ==>
                r == Err(SeedLength(|reply.value|))
      ensures r.Err? ==> pending == old(pending)
      ensures r.Ok? <==> old(IsAuthorized(caller)) && reply.Some? && |reply.value| == 32
      ensures r.Ok? ==>
                pending == old(pending) +
                  [Data(SelectJurors, choose(PoolAt(tree, index), count as nat, reply.value), reply.value, 0)]
      ensures r.Ok? ==> DrawOf(PoolAt(tree, index), count as nat, pending[|pending| - 1].jurors)
      ensures r.Ok? ==> r.value == GetIndex() && Count() == old(Count()) + 1
    {
      if !IsAuthorized(caller) {
        return Err(NotAuthorized);
      }
      if reply.None? {
        return Err(SeedCallFailed);
      }
      var seed := reply.value;
      if |seed| != 32 {
        return Err(SeedLength(|seed|));
      }
      var jurors := MakeJury(index, count, seed, choose);
      PoolAscending(tree, index);
      AscendingDistinct(PoolAt(tree, index));
      PushPending(Data(SelectJurors, jurors, seed, 0));
      r := Ok(GetIndex());
    }

    /** `get_block`: a committed block, or not found. */
    function GetBlock(index: u32): (b: Result<Block>)
      reads this
      ensures b.Ok? <==> (index as int) < |log|
      ensures b.Ok? ==> b.value == log[index]
    {
      if (index as int) < |log| then Ok(log[index]) else Err(BlockNotFound(index))
    }

    /** `expand`: replay the draw recorded in block `index`, with the same
        seed, over the pool at `index` as the tree now stands, for the old
        count plus `count` (a wrapping `u32` addition), and keep what comes
        after the first old-count jurors. */
    method Expand(caller: Blob, index: u32, count: u32, choose: Chooser) returns (r: Result<u32>)
      requires Valid() && IsDraw(choose)
      modifies this
      ensures Valid()
      ensures tree == old(tree) && log == old(log)
      ensures genesisHash == old(genesisHash) && auth == old(auth)
      ensures r.Err? ==> pending == old(pending)
      ensures !old(IsAuthorized(caller)) ==> r == Err(NotAuthorized)
      ensures old(IsAuthorized(caller)) && index as int >= |log| ==> r == Err(BlockNotFound(index))
      ensures r.Ok? ==>
                var prior := log[index].data;
                var oldCount := |prior.jurors| % U32_LIMIT;
                var target := (oldCount + count as int) % U32_LIMIT;
                var drawn := choose(PoolAt(tree, index), target, prior.rand);
                |prior.rand| == 32 && oldCount <= |drawn| &&
                |drawn| == Min(target, |PoolAt(tree, index)|) &&
                pending == old(pending) + [Data(ExpandJurors, drawn[oldCount..], prior.rand, 0)] &&
                r.value == GetIndex() && Count() == old(Count()) + 1
      ensures old(IsAuthorized(caller)) && (index as int) < |log| && |log[index].data.rand| == 32 ==>
                var oldCount := |log[index].data.jurors| % U32_LIMIT;
                var target := (oldCount + count as int) % U32_LIMIT;
                (r.Ok? <==> oldCount <= Min(target, |PoolAt(tree, index)|))
    {
      if !IsAuthorized(caller) {
        return Err(NotAuthorized);
      }
      var block := GetBlock(index);
      if block.Err? {
        return Err(block.error);
      }
      var prior := block.value.data;
      if |prior.rand| != 32 {
        return Err(StoredSeedLength(|prior.rand|));
      }
      var oldCount := (|prior.jurors| % U32_LIMIT) as u32;
      var target := ((oldCount as int + count as int) % U32_LIMIT) as u32;
      var drawn := MakeJury(index, target, prior.rand, choose);
      if |drawn| < oldCount as int {
        return Err(ExpansionOutOfRange(oldCount, |drawn|));
      }
      PushPending(Data(ExpandJurors, drawn[oldCount..], prior.rand, 0));
      r := Ok(GetIndex());
    }

    /** `get_certificate`: nothing while the pending batch is empty, otherwise
        whatever certificate the platform holds (`platform`). */
    function GetCertificate(platform: Option<Blob>): (c: Option<Blob>)
      reads this
      ensures |pending| == 0 ==> c == None
      ensures |pending| > 0 ==> c == platform
    {
      if |pending| == 0 then None else platform
    }

    /** `take_cell` on the pending cell: return its contents and leave the
        default, an empty batch. */
    method TakePending() returns (batch: seq<Data>)
      modifies this
      ensures batch == old(pending) && pending == []
      ensures tree == old(tree) && log == old(log)
      ensures genesisHash == old(genesisHash) && auth == old(auth)
    {
      batch := pending;
      pending := [];
    }

    /** `get_previous_hash`: the stored genesis hash while the log is empty,
        otherwise the digest of the last committed block (`digest` stands
        for SHA-256 over its Candid encoding). */
    function GetPreviousHash(digest: Block -> Blob): (h: Blob)
      reads this
      ensures |log| == 0 ==> h == genesisHash
      ensures |log| > 0 ==> h == digest(log[|log| - 1])
    {
      if |log| > 0 then digest(log[|log| - 1]) else genesisHash
    }

    /** `authorize`: add a principal to the allow-set. */
    method Authorize(caller: Blob, principal: Blob) returns (r: Result<()>)
      modifies this
      ensures tree == old(tree) && pending == old(pending) && log == old(log)
      ensures genesisHash == old(genesisHash)
      ensures r.Ok? <==> old(IsAuthorized(caller))
      ensures r.Ok? ==> auth == old(auth) + {principal}
      ensures r.Err? ==> r == Err(NotAuthorized) && auth == old(auth)
    {
      if !IsAuthorized(caller) {
        return Err(NotAuthorized);
      }
      auth := auth + {principal};
      r := Ok(());
    }

    /** `deauthorize`: remove a principal; removing one that is not in the
        set traps (the `unwrap` of the removed value). */
    method Deauthorize(caller: Blob, principal: Blob) returns (r: Result<()>)
      modifies this
      ensures tree == old(tree) && pending == old(pending) && log == old(log)
      ensures genesisHash == old(genesisHash)
      ensures !old(IsAuthorized(caller)) ==> r == Err(NotAuthorized)
      ensures old(IsAuthorized(caller)) && principal !in old(auth) ==> r == Err(PrincipalNotFound(principal))
      ensures r.Ok? <==> old(IsAuthorized(caller)) && principal in old(auth)
      ensures r.Ok? ==> auth == old(auth) - {principal}
      ensures r.Err? ==> auth == old(auth)
    {
      if !IsAuthorized(caller) {
        return Err(NotAuthorized);
      }
      if principal !in auth {
        return Err(PrincipalNotFound(principal));
      }
      auth := auth - {principal};
      r := Ok(());
    }
  }

  /** A client of the contracts above: on a fresh canister, two jurors are
      added at index 1 and the first is removed at index 2. */
  method AddRemoveExample(admin: Blob) returns (c: Canister)
    ensures c.Valid()
    ensures HistoryOf(c.tree, [1]) == Some([1, 2]) && HistoryOf(c.tree, [2]) == Some([1])
    ensures forall k :: k != [1] && k != [2] ==> Lookup(c.tree, k).None?
  {
    c := new Canister(admin, None);
    var j1: Blob := [1];
    var j2: Blob := [2];
    assert Lookup(c.tree, j1).None? && Lookup(c.tree, j2).None? && c.IsAuthorized(admin);
    var added := c.Add(admin, [j1, j2]);
    assert !Full(Lookup([], j1)) && !Full(Lookup([], j2));
    assert added == Ok(1);
    assert j1 in [j1, j2] && j2 in [j1, j2];
    assert HistoryOf(c.tree, j1) == Some([1]) && HistoryOf(c.tree, j2) == Some([1]);
    assert forall k :: k !in [j1, j2] ==> Lookup(c.tree, k).None?;
    var removed := c.Remove(admin, [j1]);
    assert removed == Ok(2);
    assert j1 in [j1] && j2 !in [j1];
    assert HistoryOf(c.tree, j1) == Some([1] + [2]) && HistoryOf(c.tree, j2) == Some([1]);
    var h1: History := [1, 2];
    assert [1] + [2] == h1;
  }

  /** The tree that example leaves, holding only `[1] -> [1, 2]` and
      `[2] -> [1]`: both jurors are in the pool at 1, neither at 2. */
  lemma ExamplePools(t: seq<Entry>)
    requires Sorted(t)
    requires HistoryOf(t, [1]) == Some([1, 2]) && HistoryOf(t, [2]) == Some([1])
    requires forall k :: k != [1] && k != [2] ==> Lookup(t, k).None?
    ensures forall k: Blob :: k in PoolAt(t, 1) <==> k == [1] || k == [2]
    ensures PoolAt(t, 2) == []
  {
    var h1: History := [1, 2];
    var h2: History := [1];
    assert h1[2 * 0] <= 1 < h1[2 * 0 + 1];
    assert ActiveAt(h1, 1) && ActiveAt(h2, 1);
    assert !ActiveAt(h1, 2) && !ActiveAt(h2, 2);
    forall k: Blob
      ensures k in PoolAt(t, 1) <==> k == [1] || k == [2]
    {
      PoolMembership(t, 1, k);
    }
    forall i | 0 <= i < |t|
      ensures !ActiveAt(ToHistory(t[i].value), 2)
    {
      LookupAt(t, i);
    }
    PoolEmpty(t, 2);
  }

  /** The pools of that example. At index 1 both jurors are in. At index 2
      neither is: the first was removed at 2, and the second, still active
      since index 1, fails the `last >= index` test of `collect_pool`. */
  method AddRemovePools(admin: Blob) returns (atOne: seq<Blob>, atTwo: seq<Blob>)
    ensures forall k: Blob :: k in atOne <==> k == [1] || k == [2]
    ensures atTwo == []
  {
    var c := AddRemoveExample(admin);
    ExamplePools(c.tree);
    atOne := c.CollectPool(1);
    atTwo := c.CollectPool(2);
  }
}
