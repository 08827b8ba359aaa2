# ic-jury juror membership, modelled in Dafny

The jury canister keeps one record per juror: the history of indices at which
the juror was activated and deactivated, in alternation. Every update call
(`add`, `remove`, `select`, `expand`) queues one pending operation. The call
returns the operation's index, which is the number of committed blocks plus
the number of pending operations. `add` and `remove` append that index to the
histories of the jurors they name. `collect_pool` rebuilds the pool of jurors
active at a past index from those histories. `select` draws a jury from that
pool with a 32-byte random seed. `expand` replays the draw recorded in block
`index` with the same seed for a larger count, over the pool at `index` as
the tree now stands, and drops its first old-count jurors.

The model has four modules:

- `HistoryCodec` (`codec.dfy`) covers the byte encoding of a history:
  little-endian 32-bit words, concatenated.
- `PoolTree` (`pool_tree.dfy`) models the juror tree (`RbTree<Blob, Blob>`)
  as an association list kept strictly sorted in byte-lexicographic key
  order. Lookup and insertion are proved correct on it.
- `Pool` (`pool.dfy`) holds the membership test of `collect_pool` as
  written, the pool it yields, and its relation to a replay of the history.
  It also states the contract of the random draw and what an expansion adds
  to a selection.
- `Jury` (`canister.dfy`) holds the canister's state as the class
  `Canister`, with its update and query calls as methods and functions.

A Rust `trap` aborts the update call, and the platform rolls back everything
the call did. The model therefore turns each trap into an `Err` result with
the state unchanged, including the pending entry the call had already pushed.

Two behaviours of the code shape the contracts:

- **The "currently active" test.** Replaying a history counts an
  odd-length history as active from its last activation on; the code
  (src/main.rs:207) tests `history[len - 1] >= index`.
  - `Pool.CurrentlyActiveAsWritten` and `Pool.ActiveAfterActivationExcluded`
    show the consequence. A juror that is still active is left out of every
    pool taken after its activation, and is counted in pools taken before it.
  - `Jury.AddRemovePools` shows it on a concrete trace.
  - For jurors that are currently inactive, `Pool.SpansMatchReplay` proves
    that the span test reconstructs past membership exactly.
- **Adding a juror who is already active** leaves the history unchanged and
  does not trap (src/main.rs:153-166).

## Model

| member | source | states |
|---|---|---|
| HistoryCodec.FromHistory | src/main.rs:121-127 | the encoding is 4·len(h) bytes long, and bytes 4i..4i+4 are the little-endian bytes of word i |
| HistoryCodec.ToHistory | src/main.rs:129-133 | decoding yields len(b)/4 words, and word i is the little-endian value of bytes 4i..4i+4 |
| HistoryCodec.DecodeEncode | src/main.rs:121-133 | decoding an encoded history gives it back |
| HistoryCodec.EncodeDecode | src/main.rs:121-133 | a blob whose length is a multiple of 4 is the encoding of its own decoding |
| HistoryCodec.TrailingBytesDropped | src/main.rs:129-133 | `chunks_exact(4)` ignores a tail of up to three bytes |
| PoolTree.InsertSpec | src/main.rs:111 | inserting into the sorted tree keeps it sorted; the inserted key maps to the new value and every other key keeps its value or stays absent |
| PoolTree.LookupFound | src/main.rs:111 | `get` finds a key exactly when some entry carries it |
| Pool.PoolMembership | src/main.rs:198-226 | over a sorted tree, k is in the pool at index exactly when k is present and its decoded history passes the membership test (odd with last ≥ index, or a pair h[2i] ≤ index < h[2i+1]) |
| Pool.PoolEmpty | src/main.rs:198-226 | a tree none of whose histories passes the test at index yields the empty pool |
| Pool.PoolAscending | src/main.rs:198-226 | the pool follows the tree's key order, so it holds no key twice |
| Pool.SpansMatchReplay | src/main.rs:212-221 | for an increasing history of even length, the span test holds exactly when an odd number of transitions has happened by index |
| Pool.InactiveReplay | src/main.rs:198-226 | for a currently inactive juror, the whole membership test agrees with replaying the history |
| Pool.CurrentlyActiveAsWritten | src/main.rs:205-211 | for an increasing history of odd length, the test holds exactly when index ≤ the last activation, although replay counts the juror active from that activation on |
| Pool.ActiveAfterActivationExcluded | src/main.rs:207 | a juror activated at 5 and never removed is not in the pool at 7, where replay counts it active, and is in the pool at 3, where replay does not |
| Pool.ExpansionExtendsSelection | src/main.rs:228-260 | with a prefix-stable draw, the selection of n followed by the expansion's slice is the draw of n + m; the slice has min(n + m, pool size) − n members, none of them already selected |
| Jury.ActivatedHistory | src/main.rs:153-168 | what `add` does to one juror: an absent juror gets [index]; an inactive one gets index appended; an active one is unchanged. Afterwards the juror is active and not full, and a history that was within the cap stays within it |
| Jury.DeactivatedHistory | src/main.rs:185-191 | what `remove` does to one juror: an active one gets index appended, anyone else is unchanged. Afterwards a present juror is inactive and stays within the cap |
| Jury.ActivatedTwice | src/main.rs:151-169 | a juror listed twice in one `add` is activated once |
| Jury.DeactivatedTwice | src/main.rs:183-193 | a juror listed twice in one `remove` is deactivated once |
| Jury.ActivatedChronicle | src/main.rs:149-166 | appending an index later than every recorded one keeps the history strictly increasing and bounded by that index |
| Jury.DeactivatedChronicle | src/main.rs:181-191 | the same for `remove` |
| Jury.ActivateEach | src/main.rs:151-169 | the loop of `add`: it stops exactly when some listed juror is inactive with at least MAX_HISTORY (8) entries, and names the first such juror in list order; otherwise the new tree is sorted and activates exactly the listed jurors |
| Jury.DeactivateEach | src/main.rs:183-193 | the loop of `remove`: the new tree is sorted and deactivates exactly the listed jurors |
| Jury.AddEffect | src/main.rs:151-169 | after `add`, unlisted keys keep their values, absent listed keys start at [index], inactive ones get index appended, and active ones are untouched |
| Jury.AddWellFormed | src/main.rs:153-166 | an `add` that does not trap keeps every history between 1 and 8 entries |
| Jury.AddChronicle | src/main.rs:149-169 | an `add` at an index later than every recorded one keeps every history strictly increasing |
| Jury.RemoveEffect | src/main.rs:183-193 | after `remove`, only listed active keys change, and each gets index appended |
| Jury.RemoveWellFormed | src/main.rs:183-193 | `remove` keeps every history between 1 and 8 entries |
| Jury.RemoveChronicle | src/main.rs:181-193 | a `remove` at a later index keeps every history strictly increasing |
| Jury.Canister.constructor | src/main.rs:462-476 | the caller is the only authorized principal; the genesis hash is the supplied one when it has 32 bytes, otherwise 32 zero bytes; tree, pending and log start empty |
| Jury.Canister.GetIndex | src/main.rs:366-370 | the index is the number of committed plus pending operations while that count fits in a u32 (it is truncated by `as u32`) |
| Jury.Canister.GetPending | src/main.rs:372-376 | the number of pending operations, truncated to u32; zero exactly when that number is a multiple of 2^32 |
| Jury.Canister.PushPending | src/main.rs:135-141 | appends one entry to the pending batch and changes nothing else |
| Jury.Canister.Add | src/main.rs:143-173 | unauthorized callers are refused; otherwise the call fails exactly when a listed juror is full, with `HistoryFull` naming the first full juror in list order, and then nothing changes; on success one Add entry is queued, the returned index is the new get_index and the count grows by one, each key changes as AddEffect states, the tree stays sorted and within the cap, and chronological order is kept while the count fits in a u32 |
| Jury.Canister.Remove | src/main.rs:175-196 | the call fails only for an unauthorized caller; on success one Remove entry is queued, the new index is returned, each key changes as RemoveEffect states, and the invariants are kept as for Add |
| Jury.Canister.IsActiveAt | src/main.rs:202-222 | the per-entry closure, with its `found` flag and `break`, computes exactly the membership test |
| Jury.Canister.CollectPool | src/main.rs:198-226 | the loop yields the pool at index, in ascending key order, containing exactly the present keys whose history passes the test |
| Jury.Canister.MakeJury | src/main.rs:228-234 | the jury is the draw from the pool at index: min(count, pool size) distinct jurors, each active at index by the test |
| Jury.Canister.Select | src/main.rs:236-246 | errors for an unauthorized caller, a failed randomness call and a seed that is not 32 bytes, and nothing changes on an error; otherwise one Select entry holding the draw and the seed is queued, the draw holds min(count, pool size) distinct pool members, and the new index is returned |
| Jury.Canister.GetBlock | src/main.rs:378-382 | a block is found exactly when the index is within the log, and it is the block stored there |
| Jury.Canister.Expand | src/main.rs:248-260 | errors for an unauthorized caller, a missing block and a stored seed that is not 32 bytes; it succeeds exactly when the old count is at most min(old + count mod 2^32, pool size). On success one Expand entry is queued: the draw for the wrapped total with the stored seed, minus its first old-count jurors |
| Jury.Canister.GetCertificate | src/main.rs:262-270 | None whenever nothing is pending, otherwise the platform's certificate |
| Jury.Canister.TakePending | src/main.rs:272-279 | returns the pending batch and leaves the default, an empty batch |
| Jury.Canister.GetPreviousHash | src/main.rs:281-291 | the genesis hash while the log is empty, otherwise the digest of the last block |
| Jury.Canister.Authorize | src/main.rs:402-411 | an authorized caller adds the principal to the allow-set; anyone else is refused and nothing changes |
| Jury.Canister.Deauthorize | src/main.rs:413-421 | an authorized caller removes a principal that is in the set; removing an absent principal fails (the `unwrap` traps) and nothing changes |
| Jury.AddRemoveExample | src/main.rs:143-196 | on a fresh canister, adding jurors [1] and [2] and then removing [1] leaves the histories [1, 2] and [1] and no other key |
| Jury.ExamplePools | src/main.rs:198-226 | over the tree that trace leaves, the pool at 1 holds exactly [1] and [2], and the pool at 2 is empty |
| Jury.AddRemovePools | src/main.rs:198-226 | after that trace, `collect_pool(1)` holds exactly [1] and [2]; `collect_pool(2)` is empty, although [2] has been active since index 1 |

## Left out

- Stable-memory plumbing (`MemoryManager`, `StableCell`, `Log`, `StableBTreeMap`, the `Storable` encodings) is platform storage with no logic of its own. Its cells are plain fields of `Canister`.
- `choose_multiple` with a ChaCha20 generator is foreign library code. It is the function parameter `choose`, constrained only by `IsDraw`: min(count, pool size) distinct pool members.
- `Pool.ExpansionExtendsSelection` takes prefix stability of the draw as a hypothesis, because the model does not prove it of `choose_multiple`.
- SHA-256, `labeled_hash`, `set_certified_data` and `data_certificate` are foreign cryptographic and platform calls. They appear only as the parameters `digest` and `platform`.
- `get_rng_seed`'s asynchronous call to `raw_rand` is an I/O point. Its reply is the parameter `reply`, and interleaving with other calls during the await is not modelled.
- `ic_cdk::caller()` is the explicit `caller` parameter.
- Principals are opaque byte strings. The 32-byte key-size limit of the stable map is not modelled.
- `build_tree` and `commit` are commented out in the source, so no live call appends to the log. The log is a field that nothing in the model extends.
- Candid export, `main`, `post_upgrade` and the hex decoding in `canister_init` are boilerplate. `canister_init` receives the genesis hash already decoded.
- `get_size`, `get_jurors` and `get_authorized` are read-only views over the log and the allow-set, and are not modelled.
- The red-black tree's balancing and its certified root hash are not modelled. Only its behaviour as an ordered map is.
- `take_cell` is generic over any stable cell. It is modelled only on the pending cell, which is the only use `commit` would make of it.
- `expand` computes the pool at `index` from the tree as it is now, not as it was when block `index` was written. The model keeps this behaviour and says nothing about the two pools agreeing.
- Jury.Canister.Add: chronological order (strictly increasing histories) is promised only while the operation count plus one fits in a u32. Past that, `get_index` wraps and a later index can be smaller.
- Jury.Canister.Remove: the same u32 bound on chronological order applies.
