# mini-redis in Dafny

A model of the storage engine of mini-redis and of the event loop that drives it, with proofs about every run. The
layers are those of the program:

- `Avl`, `HashMap`, `ZSet`: the order-statistic AVL tree, the progressively rehashed hash map, and the sorted set that
  keeps both over the same nodes. `Pairs` is what a sorted set is for: a map from names to scores and its one sorted
  listing.
- `Heap`, `Database`: the timer heap with owner indexes, the keyspace, lazy and active expiry.
- `Store`, `Commands`, `Expiry`, `Limits`: what each command means on a plain map of records, the handlers proved
  against it, the theorem that expiry is invisible, and exactly which replies the client can take. `Crowded` is about
  sorted sets that have outgrown the 32-bit counts of their trees.
- `Codec`, `Wire`, `Framing`, `Client`: typed values, request bodies and frames as bytes, and the receiving client.
- `Ring`, `Clients`, `Timers`, `Requests`, `History`, `Server`: the idle list, the connection table, reaping and
  timeouts, requests on one connection, the run of the server as a list of requests and reaper passes, and the steps of
  the event loop. `Lines` is what whole iterations and runs come to, connection by connection; `Loop` is proved against
  it.
- `Laws`: what a client can rely on, command by command, in terms of command vectors, clock readings and answers.
  `Capture`: the wire format with every number written out.
- `Pool`: the worker pool as an interleaving of atomic steps. `Disposal` joins it to the entries that the keyspace hands
  off.

**Addresses.** A node is an address (`Ptr`, 0 is null) into a sequence of records that a class owns. An intrusive node
embedded in a larger record has the address of that record, so `container_of` is the identity: a `ZNode` is one address
in the tree, the name index and the pair data; an `Entry` is one address in the keyspace map, the timer heap and the
entry table. The code's writes are writes to these records, in the code's order.

**Abstract values.** Each class has a ghost value that its invariant ties to the real fields and that every method
specifies: the tree shape, the node set, the listing, the deadlines, the store `st`, the list order, the history `past`.
Some invariants are written as a quantifier over a marker predicate (`Open`, `Look`, `Shown`); asserting the marker
makes the body available, elsewhere the invariant is only a name. This keeps each proof small.

**The main results.**

1. A sorted set is, after every run of inserts, updates and deletes, the unique sorted listing of a plain map, and both
   of its indexes hold the same nodes (`ZSet.ZSet.Insert`, `ZSet.ZSet.Delete`, `Pairs.RunRefines`). The order is scores
   upwards and names in lexicographic order (`Base.PairLessIs`, `Pairs.SortedIs`), and `ZQUERY` answers the members from
   a rank on: offset places past the number of members before the key (`Laws.QueryIs`, `Pairs.SeekCounts`).
2. Deletion and insertion on the AVL tree are exact for every tree and node (`Avl.Arena.Del`, `Avl.Arena.Fix`). Rank
   walks use 32-bit counts: they end within twice the height and without overflow in every tree, and they are exact for
   every start and offset if and only if both subtrees of the root have fewer than 2^32 nodes (`Avl.Arena.Offset`,
   `Avl.NarrowIff`, `Avl.Unseen`, `Avl.LostRank`). So a sorted set answers every `ZQUERY` with the slice of its listing
   if and only if no count has wrapped around; otherwise some `ZQUERY` gets the empty array for pairs that are there
   (`Commands.DoZQuery`, `Crowded.FaultyIff`). That never happens up to 2^32 members and always from 2^33 on, and
   `ZADD`s can build such a set (`Crowded.FaultySizes`, `Crowded.Crowd`).
3. The hash map is one set of nodes at every point of a migration, and migration always outruns growth
   (`HashMap.HMap.Insert`, `HashMap.HMap.Size`). Over any run the migration loop goes round at most nine times for every
   four inserts (`HashMap.HMap.Amortized`). One call moves the first min(128, remaining) nodes, and it passes no more
   than b slots if and only if so many nodes belong within b slots of the cursor (`HashMap.HMap.HelpRehashing`,
   `HashMap.PauseIff`); an insert can pass all slots but one (`HashMap.LongSkip`).
4. `Commands.DoRequest` takes any database from one abstract store to the next and appends exactly one value (for a
   `ZQUERY` on a set of more than 2^32 members some of its pairs; see 2 for when it is exact). The client takes that
   value exactly when its encoding is at most 32 KiB (`Limits.RequestDecodes`, `Client.ReceiveIff`); every reply but
   those of `KEYS` and `ZQUERY` is, and for these two the exact length is given.
5. The answers agree with each other over every run of requests and reaper passes from any store on: what `SET`, `DEL`,
   `EXPIRE`, `PEXPIRE`, `PERSIST`, `ZADD` and `ZREM` leave is what later reads find, until the next command that can
   change the key or until its deadline, and no other command changes it (`Laws.Kept`, `Laws.SetThen`, `Laws.DelThen`,
   `Laws.ExpireThen`, `Laws.PersistThen`, `Laws.AddThen`, `Laws.RemThen`). Every run of the server is such a run
   (`Laws.ChronicleRuns`, `Loop.Run`).
6. The server steps `Accept`, `Ready` and `ProcessTimers` keep one invariant, from which it follows over every run that
   the requests executed for a client are the frames of the bytes it has sent, that what it has received is a prefix of
   their framed replies, and that reply i is what a store that forgets each key at its deadline answers to frame i at
   that point of the run (`Server.Server.SentInOrder`). `Loop.Run` composes these steps from the constructor through any
   number of iterations. Its run is exactly the script of its turns: the requests of each report, every one with the
   ideal store's reply at its place, and one timer pass a turn that removed due keys in order and all of them unless
   there were more than 2000. Its connections, open and ended, are exactly the lives that the turns make
   (`Lines.Lives`): a life's requests are the frames of the bytes it got, these are the bytes that arrived since its
   accept, and what it was sent are the replies as far as its socket had room. This is so after each turn, so no request
   waits for a later one (`Lines.Prompt`). Every request of the run arrived on a connection
   (`Lines.RequestArrived`), and no reply is held back (`Lines.FollowSent`, `Lines.AllSent`). How the bytes were split into
   reads makes no difference (`Requests.ReadAll`).
7. Timeouts are exact precisely when the gap fits in 31 bits (`Timers.TimeoutExact`), which it does while a connection is
   open, if the idle timeout is below 2^31 ms (`Server.TimeoutWithClient`); idle connections are closed exactly when due
   (`Clients.Clients.ReapIdle`).
8. The pool loses no task and no wakeup, never gets stuck, gets queued work done in a bounded number of steps
   (`Pool.WorkDone`), and its shutdown ends with every task run once. An entry that leaves the keyspace is then freed
   exactly once, on the spot or by a worker (`Disposal.FreedOnce`), and at no time twice (`Disposal.NeverTwice`).

**Where code and documents disagree.** The model follows the code. A malformed request body is answered with an error
and the connection stays open, where `docs/architecture.md` says it is closed. `ZQUERY` with an odd limit emits one
element more than the limit, where `README.md` says it steps until limit elements (`Store.LimitIff`, `Store.OddLimit`).
`KEYS` does not expire keys on sight, so it can list overdue ones; it lists exactly the live keys if and only if no timer
in the heap is due (`Timers.KeysExactIff`, `Expiry.KeysNotInvisible`). `README.md` gives 32768 bytes as the limit for
frames in both directions, but the server does not bound its replies: a `KEYS` or `ZQUERY` reply can be longer, and the
client then refuses it (`Limits.KeysShortIff`, `Limits.QueryShortIff`, `Limits.KeysTooLong`). `avl.h` promises that
`avl_offset` walks `offset` positions; with `cnt` a `uint32_t`, it can miss nodes of a tree of more than 2^32 nodes, and
`ZQUERY` pairs of such a set (`Crowded.FaultyIff`). `hashtable.h` promises no O(n) pause; one insert can pass all slots of
the old table but one (`HashMap.LongSkip`, and `HashMap.PauseIff` for exactly when).

## Model

| member | source | states |
|---|---|---|
| Avl.Arena.Update | src/ds/avl.cpp:6-9 | once those of its children are, a node's height is that of its subtree and its cnt the subtree's size modulo 2^32 |
| Avl.Arena.RotLeft | src/ds/avl.cpp:16-32 | a left rotation is the tree rotation: parent links, heights and counts exact, nothing outside the nodes involved written |
| Avl.Arena.RotRight | src/ds/avl.cpp:34-50 | the mirror image |
| Avl.RotLInorder | src/ds/avl.cpp:16-32 | a left rotation keeps the in-order sequence |
| Avl.RotRInorder | src/ds/avl.cpp:34-50 | a right rotation keeps the in-order sequence |
| Avl.Arena.FixLeft | src/ds/avl.cpp:53-59 | a subtree two levels too deep on the left becomes balanced, same order, at most one level lower |
| Avl.Arena.FixRight | src/ds/avl.cpp:61-66 | the mirror image |
| Avl.ClimbBalance | src/ds/avl.cpp:68-88 | the imbalance met one level up is never more than two, so the two exact tests of the walk suffice |
| Avl.Arena.Fix | src/ds/avl.cpp:68-88 | from one link or unlink that changed a height by at most one, the walk to the root leaves a valid tree (links, heights, counts, balance) with the same in-order sequence and writes no other node |
| Avl.Arena.DelEasy | src/ds/avl.cpp:91-101 | unlinking a node with at most one child removes exactly it from the order |
| Avl.Arena.DelTwo | src/ds/avl.cpp:103-125 | a node with two children is replaced by its successor, found before rebalancing moves anything, and the order loses exactly the node |
| Avl.Arena.Del | src/ds/avl.cpp:103-125 | deleting any node of any valid tree gives a valid tree whose in-order sequence is the old one without that node |
| Avl.Arena.OffsetStep | src/ds/avl.cpp:127-151 | one turn of the rank walk; once it goes down, the target stays in the subtree by the counts below, whether they have wrapped around or not |
| Avl.Arena.Offset | src/ds/avl.cpp:127-151 | in every tree at most 2 x height steps to a node or null; in a narrow tree the node at rank(start) + offset, null exactly out of range, for every int64 offset; from the root null for every target the counts do not show |
| Avl.NarrowIff | src/ds/avl.cpp:127-151 | the counts at the root show every node of the tree if and only if both its subtrees have fewer than 2^32 nodes |
| Avl.Unseen | src/ds/avl.cpp:127-151 | every tree that is not narrow has a node that the counts at its root do not show, and by the contract of `Avl.Arena.Offset` the walk from the root to it gives null |
| Avl.LostRank | src/ds/avl.cpp:127-151 | a tree of any size from 2^33 nodes on, linked leaf by leaf, is not narrow and has such a node |
| Avl.NoOverflow | src/ds/avl.cpp:127-151 | no value the walk computes leaves the int64 range in a tree of fewer than 2^64 nodes |
| Tree.HeightBound | include/ds/avl.h:13-19 | a balanced tree of fewer than 2^64 nodes has fewer than 130 levels, so the 32-bit height never wraps around |
| Tree.FibSize | src/ds/avl.cpp:6-9 | a balanced tree of height h has at least Fib(h + 2) - 1 nodes |
| Avl.Arena.LinkLeaf | src/ds/zset.cpp:79-91 | linking a leaf at an empty link and rebalancing inserts it between its neighbours in order |
| HashMap.SlotIsMod | src/store/hashtable.cpp:17-22 | the slot of a hash is the hash modulo the capacity |
| HashMap.SlotIsMask | src/store/hashtable.cpp:17-22 | for a power of two the slot is the bitwise and of the hash with the capacity less one |
| HashMap.HMap.HInsert | src/store/hashtable.cpp:17-22 | the node goes to the front of the chain its hash selects |
| HashMap.HMap.HLookup | src/store/hashtable.cpp:26-34 | the link that owns the first matching node of the chain, or no node of the table matches |
| HashMap.HMap.HDetach | src/store/hashtable.cpp:37-42 | exactly the owned node leaves the table |
| HashMap.CursorInBounds | src/store/hashtable.cpp:49-61 | while nodes remain in the older table the migration cursor names a slot |
| HashMap.HMap.HelpRehashing | src/store/hashtable.cpp:49-61 | moves exactly the first min(128, remaining) nodes in the order of slots and chains, keeps the node set, drops the older table exactly when it is empty; the cursor goes to the slot of the last node moved, and the loop takes one turn for each node moved and each slot passed |
| HashMap.AdvancedStops | src/store/hashtable.cpp:49-61 | after a call that finds nodes the cursor is at or below slot b if and only if at least min(128, remaining) of them belong in slots up to b |
| HashMap.PauseIff | include/store/hashtable.h:28 | a call passes at most b slots, of any b, if and only if min(128, remaining) nodes belong within b slots of where the cursor was |
| HashMap.HMap.Amortized | include/store/hashtable.h:28 | over any run of lookups, inserts and deletes from the empty map the migration loop goes round at most nine times for every four inserts |
| HashMap.NearlyFull | src/store/hashtable.cpp:77-85 | inserts make, for every capacity c there can be, a map of 8c - 1 nodes that all belong in the last slot, with no migration under way |
| HashMap.LongSkip | src/store/hashtable.cpp:77-85 | on such a map the next insert starts a migration and, in that one call, passes c - 1 slots: from slot 0 to the last, in c - 1 turns more than it moves nodes |
| HashMap.HMap.TriggerRehashing | src/store/hashtable.cpp:63-68 | a migration starts with exactly 8 x capacity nodes and doubles the capacity |
| HashMap.HMap.Lookup | src/store/hashtable.cpp:70-75 | a matching node of the whole set or null, at any point of a migration; what the migration costs it |
| HashMap.HMap.Insert | src/store/hashtable.cpp:77-85 | the node set gains exactly the node, the growth bound still holds (migration outruns growth), the capacity doubles only with the node that fills the table, and then it says where the cursor stops and after how many turns |
| HashMap.HMap.Delete | src/store/hashtable.cpp:87-92 | removes and returns one matching node, or none matches and nothing changes; what the migration costs it |
| HashMap.HMap.Foreach | src/store/hashtable.cpp:94-105 | visits every node exactly once unless the callback stops it |
| HashMap.HMap.Size | src/store/hashtable.cpp:113-115 | the number of nodes, always below 8 x the capacity of the newer table |
| Base.PairTrichotomy | src/ds/zset.cpp:32-47 | the tuple order is total on pairs with different names |
| Base.PairTransitive | src/ds/zset.cpp:32-47 | the tuple order is transitive |
| Base.PairLessIs | src/ds/zset.cpp:32-47 | the tuple order is: the lower score first, and for equal scores the name that ends or has the smaller byte where the two first differ |
| Pairs.SortedIs | src/ds/zset.cpp:79-91 | a listing is sorted exactly if every pair precedes all later ones in that order, and no name comes twice |
| Pairs.Canonical | src/ds/zset.cpp:79-124 | two sorted listings of one map are the same list |
| Pairs.PutMap | src/ds/zset.cpp:93-112 | adding keeps the listing sorted and updates the map at one name, unless the stored score compares equal |
| Pairs.DropMap | src/ds/zset.cpp:114-124 | removing deletes exactly the name from the map |
| Pairs.SeekSplits | src/ds/zset.cpp:126-137 | the seek index splits the listing into pairs below the key and the rest |
| Pairs.SeekCounts | src/ds/zset.cpp:126-137 | the seek index is the number of members whose pairs precede the key |
| Pairs.RankIs | src/ds/zset.cpp:126-142 | a pair's place in the listing is the number of members that precede it |
| Pairs.RunRefines | src/ds/zset.cpp:79-124 | after any run of inserts, score updates and deletes the listing is the one sorted listing of a plain map run the same way |
| ZSet.ZSet.Lookup | src/ds/zset.cpp:66-76 | finds the node of a name exactly when the listing has the name |
| ZSet.ZSet.TreeInsert | src/ds/zset.cpp:79-91 | the pair is placed in (score, name) order |
| ZSet.ZSet.Update | src/ds/zset.cpp:93-101 | a changed score moves the pair, an equal one changes nothing |
| ZSet.ZSet.Insert | src/ds/zset.cpp:103-112 | both indexes hold the same nodes afterwards, the listing is the old one with the pair put, true iff the name was absent |
| ZSet.ZSet.Delete | src/ds/zset.cpp:114-124 | both indexes lose exactly the node |
| ZSet.RunOps | src/ds/zset.cpp:66-124 | any run of inserts and deletes on the real set does to its listing what the run on lists does, so RunRefines speaks of it |
| ZSet.ZSet.Seek | src/ds/zset.cpp:126-137 | the first node whose pair is not below the key |
| ZSet.ZSet.Offset | src/ds/zset.cpp:139-142 | while no count of the tree has wrapped around the node offset places away in the listing, in any set one of its nodes or null; null from the root to a place that its counts do not show; null in null out |
| ZSet.WrongQuery | src/ds/zset.cpp:126-142 | in every set with a wrapped count some seek ends at the root, and some offset from there is to a pair of the set that the root's counts do not show, so that Offset gives null |
| ZSet.MissesIff | src/ds/zset.cpp:126-142 | there is no such seek and offset if and only if no count has wrapped around |
| ZSet.ZSet.CountedSizes | src/ds/zset.cpp:139-142 | no count has wrapped around in a set of up to 2^32 pairs, and one has in every set of 2^33 pairs or more |
| ZSet.ZSet.Count | src/ds/zset.cpp:103-124 | the name index counts as many nodes as the listing has pairs |
| Heap.TimerHeap.Up | src/ds/heap.cpp:8-18 | sifting up restores heap order and owner indexes and no owner changes its deadline |
| Heap.TimerHeap.Down | src/ds/heap.cpp:20-43 | sifting down does the same |
| Heap.TimerHeap.Update | src/ds/heap.cpp:45-51 | order broken at one position is restored |
| Heap.TimerHeap.Upsert | src/ds/heap.cpp:53-61 | the named owner gets the deadline, no other owner changes, order and owner indexes hold |
| Heap.TimerHeap.Delete | src/ds/heap.cpp:63-70 | exactly the named item goes, from any position; the index of its owner is not written |
| Heap.RootMin | src/ds/heap.cpp:45-51 | the root carries the smallest deadline |
| Codec.DecodeEncode | client/client.cpp:43-95 | the decoder undoes the encoder on every nested value that fits the format, whatever follows, and uses exactly its bytes |
| Codec.EncodeDecode | client/client.cpp:43-95 | whatever the decoder accepts is byte for byte the encoding of its result |
| Codec.RoundTripIff | src/protocol/serialize.cpp:10-57 | encode then decode is the identity exactly on the values that fit |
| Codec.TruncatedRejected | client/client.cpp:43-95 | every proper prefix of an encoding is rejected |
| Codec.Out.OutNil | src/protocol/serialize.cpp:22-24 | appends one encoded nil |
| Codec.Out.OutStr | src/protocol/serialize.cpp:28-32 | appends one encoded string |
| Codec.Out.OutInt | src/protocol/serialize.cpp:34-37 | appends one encoded integer |
| Codec.Out.OutDbl | src/protocol/serialize.cpp:39-42 | appends one encoded double |
| Codec.Out.OutErr | src/protocol/serialize.cpp:46-51 | appends one encoded error |
| Codec.Out.OutArr | src/protocol/serialize.cpp:54-57 | appends an array header |
| Codec.Out.BeginArr | src/protocol/serialize.cpp:62-66 | a header with a placeholder and its position |
| Codec.Out.EndArr | src/protocol/serialize.cpp:68-71 | after the patch the buffer holds exactly the encoded array of the elements written |
| Wire.BuildBody | client/client.cpp:102-105 | builds the encoding of the argument list |
| Wire.ParseReq | src/protocol/wire.cpp:9-27 | 0 and the arguments, or -1 exactly when the body does not parse |
| Wire.ParseIff | src/protocol/wire.cpp:9-27 | a body parses to args iff args is sendable and the body is its encoding, so truncated, overrunning and trailing bytes are rejected |
| Wire.ReadBackIff | src/protocol/wire.cpp:7-27 | an encoded list is read back exactly if it has at most 200000 arguments, each shorter than 2^32 bytes |
| Wire.FrameReadBack | src/protocol/wire.cpp:3-7 | every list whose encoding fits in a frame of 32 KiB is read back |
| Store.TtlMs | src/server/command.cpp:127-145 | TTLs are clamped into the int64 range |
| Laws.TtlIs | src/server/command.cpp:142-143 | EXPIRE n lasts 1000 n ms up to n = 9223372036854775 and 9223372036854775000 ms beyond, PEXPIRE n lasts n ms |
| Store.LimitIff | src/server/command.cpp:245-258 | ZQUERY emits at most limit elements exactly when the limit is even or not reached |
| Store.OddLimit | src/server/command.cpp:252-257 | one pair and limit 1 give two elements |
| Expiry.OddLimitReached | src/server/command.cpp:252-257 | one ZADD from the empty store, then ZQUERY with limit 1 answers two elements |
| Expiry.StepInvisible | src/server/command.cpp:49-60 | a command or reaper pass cannot tell a store with unreaped overdue keys from one without |
| Expiry.ExpiryInvisible | src/server/server.cpp:184-191 | over any interleaving of commands and reaper passes under a non-decreasing clock all replies are those of a store that forgets each key at its deadline |
| Expiry.HistoryInvisible | src/server/server.cpp:184-191 | the same for a recorded history from the empty store |
| Expiry.KeysListsOverdue | src/server/command.cpp:118-121 | what KEYS lists beyond the live keys is exactly the overdue keys not yet reaped; the two agree iff there are none |
| Expiry.KeysNotInvisible | src/server/command.cpp:118-121 | after SET and PEXPIRE from the empty store, KEYS at the deadline lists a key that the ideal store no longer has |
| Expiry.RunLive | src/server/server.cpp:184-191 | after any history the code and the ideal store agree on the live keys |
| Timers.KeysExactIff | src/server/command.cpp:118-121 | KEYS lists exactly the live keys iff the heap is empty or its root is not due |
| Database.Database.EntrySetTtl | src/store/database.cpp:5-17 | sets or drops one entry's deadline and no other |
| Database.Database.EntryDel | src/store/database.cpp:32-46 | drops the timer, then queues a sorted set of more than 1000 pairs to the pool, if there is one, and frees anything else |
| Database.Database.Detach | src/server/server.cpp:187-188 | deleting by key or by identity removes the entry itself from the map |
| Database.Database.DropEntry | src/server/command.cpp:103-110 | the key leaves keyspace, heap and abstract store together, and its entry is freed or queued, once |
| Database.Database.OnePlace | src/store/database.cpp:32-46 | every entry there has been is in exactly one of the keyspace, the queue to the pool and the freed ones |
| Disposal.NeverTwice | src/store/database.cpp:21-46 | at no point of any interleaving of the workers has an entry been freed twice, or one of the keyspace once |
| Disposal.FreedOnce | src/store/database.cpp:21-46 | when the workers are gone every entry that has left the keyspace has been freed exactly once, on the spot or by its task |
| Database.Database.Shrunk | src/store/database.cpp:32-46 | removing one entry keeps keyspace and heap in bijection, and a freed or queued entry is in neither |
| Database.Database.LookupEntry | src/server/command.cpp:49-60 | the live entry of a key or null; an overdue entry is deleted on sight |
| Database.Database.HandedOff | src/store/database.cpp:32-46 | an entry handed to a worker is in no structure, handed off once, not freed, and shares nothing with any live or waiting entry |
| Database.Database.Visit | src/server/command.cpp:118-121 | hm_foreach meets every entry once, and hm_size is their number |
| Database.Database.SetTtl | src/server/command.cpp:127-145 | one key's deadline changes, everything else stays |
| Database.Database.Overwrite | src/server/command.cpp:88-91 | a string is replaced in place |
| Database.Database.AddEntry | src/server/command.cpp:92-99 | a new key gets a fresh entry in the map |
| Database.Database.ZPut | src/server/command.cpp:202-203 | one pair is put into the key's set |
| Database.Database.ZFind | src/server/command.cpp:212 | finds a pair of the key's set by name |
| Database.Database.ZTake | src/server/command.cpp:213 | one pair is taken out; the key stays even when its set is empty |
| Commands.DoGet | src/server/command.cpp:79-84 | GET on the real structures has the effect and the one reply of the abstract command |
| Commands.DoSet | src/server/command.cpp:86-101 | SET on the real structures has the effect and the one reply of the abstract command |
| Commands.DoDel | src/server/command.cpp:103-110 | DEL on the real structures has the effect and the one reply of the abstract command |
| Commands.DoExpire | src/server/command.cpp:127-145 | EXPIRE and PEXPIRE on the real structures has the effect and the one reply of the abstract command |
| Commands.DoTtl | src/server/command.cpp:149-158 | TTL and PTTL on the real structures has the effect and the one reply of the abstract command |
| Commands.DoPersist | src/server/command.cpp:161-167 | PERSIST on the real structures has the effect and the one reply of the abstract command |
| Commands.DoZAdd | src/server/command.cpp:186-204 | ZADD on the real structures has the effect and the one reply of the abstract command |
| Commands.DoZRem | src/server/command.cpp:207-215 | ZREM on the real structures has the effect and the one reply of the abstract command |
| Commands.DoZScore | src/server/command.cpp:218-226 | ZSCORE on the real structures has the effect and the one reply of the abstract command |
| Commands.DoZQuery | src/server/command.cpp:231-259 | ZQUERY on the real structures has the effect and the one reply of the abstract command if no count of the set has wrapped around; on any set the reply is pairs of the set, ceil(limit/2) at most; and it is the empty array, which is wrong, where wrapped counts lose the pairs asked for |
| Commands.MissedReply | src/server/command.cpp:247-258 | where wrapped counts lose the pairs asked for, the abstract reply to a positive limit is not empty |
| Crowded.FaultyIff | src/server/command.cpp:247-258 | a sorted set answers some ZQUERY with the empty array for pairs that are there if and only if a count has wrapped around |
| Crowded.FaultySizes | include/ds/avl.h:13-19 | no set of up to 2^32 members does, and every set of 2^33 or more |
| Crowded.Crowd | src/server/command.cpp:186-204 | ZADDs from the empty database make a set of any size, and from 2^33 members on it does |
| Commands.ExpectZset | src/server/command.cpp:174-183 | the set's entry, or the WRONGTYPE reply, or missing |
| Commands.EmitPairs | src/server/command.cpp:250-257 | the loop emits the slice from its starting place, ceil(limit/2) pairs at most, and counts two per pair; from a null start nothing; where counts have wrapped around it still emits only pairs of the set, and ends |
| Commands.QuerySet | src/server/command.cpp:245-258 | seek, rank step and emission together append exactly the encoded slice of the sorted listing, while no count has wrapped around, and the empty array where wrapped counts lose the start |
| Commands.DoKeys | src/server/command.cpp:112-121 | every key once, overdue or not, and the header count is their number |
| Commands.RejectIff | src/server/command.cpp:263-281 | a request is rejected exactly when its verb and length are not in the table, whatever the case of the verb |
| Commands.OnlyItsKey | src/server/command.cpp:263-281 | whatever the command vector, only the record of the key it names can change |
| Commands.DoRequest | src/server/command.cpp:263-281 | for every command vector and every database exactly one encoded value is appended and the store moves as the abstract command says |
| Laws.MeansTwo | src/server/command.cpp:267-275 | a vector of two is GET, DEL, TTL, PTTL or PERSIST of its key exactly if its first word spells that verb in letters of either case |
| Laws.MeansThree | src/server/command.cpp:268-278 | the same for SET, EXPIRE (in seconds), PEXPIRE (in milliseconds), ZREM and ZSCORE |
| Laws.MeansMore | src/server/command.cpp:270-279 | the same for KEYS, ZADD and ZQUERY |
| Laws.UnknownIs | src/server/command.cpp:263-281 | any other vector is answered with error 1, the empty one with error 2, and changes nothing |
| Laws.BadNumberIs | src/server/command.cpp:127-133 | numbers that do not parse are answered with error 2 and change nothing; ZQUERY looks at its score first |
| Laws.MalformedIs | src/server/server.cpp:105-128 | a malformed body is answered with error 2 and changes nothing |
| Laws.StepKeeps | src/server/command.cpp:49-60 | GET, TTL, PTTL, ZSCORE, ZQUERY and KEYS, commands on other keys, anything refused and reaper passes leave what a key holds from then on |
| Laws.Kept | src/server/command.cpp:49-60 | so does any run of them |
| Laws.SetThen | src/server/command.cpp:86-101 | after a SET that answers nil, GET answers that string at any later time, TTL and PTTL -1, and ZADD, ZREM and ZSCORE the WRONGTYPE error, until a command that can change the key |
| Laws.DelThen | src/server/command.cpp:103-110 | after a DEL the key is not there: GET and ZSCORE nil, TTL and PTTL -2, DEL, PERSIST and ZREM 0 |
| Laws.ExpireThen | src/server/command.cpp:127-145 | after EXPIRE or PEXPIRE, GET and ZSCORE answer what they did just before until the deadline, PTTL the milliseconds left and TTL the seconds rounded up; from the deadline on, or at once for a count that is not positive, the key is not there |
| Laws.ExpireIsPexpire | src/server/command.cpp:127-145 | EXPIRE n and PEXPIRE 1000 n are the same step |
| Laws.PersistThen | src/server/command.cpp:161-167 | after PERSIST, GET and ZSCORE answer what they did at any later time, and a key that is there has no deadline |
| Laws.AddThen | src/server/command.cpp:186-204 | after a ZADD that answers a number, ZSCORE answers an equal score for that member, the very one if it was new, and what it did for any other; GET and SET answer WRONGTYPE, and the deadline is the same |
| Laws.RemThen | src/server/command.cpp:207-215 | after a ZREM that answers a number, ZSCORE answers nil for that member and what it did for any other; the key and its deadline stay |
| Laws.KeyAnswers | src/server/command.cpp:103-167 | on one store at one reading DEL and EXPIRE answer 1 exactly if TTL does not answer -2, PERSIST exactly if PTTL finds a deadline, and GET answers nil exactly if TTL answers -2 |
| Laws.SetAnswers | src/server/command.cpp:79-101 | SET answers nil, or the WRONGTYPE error exactly if GET does |
| Laws.MemberAnswers | src/server/command.cpp:186-226 | ZADD answers 1 exactly if ZSCORE finds no such member, ZREM exactly if it does; all answer the error on a string |
| Laws.QueryIs | src/server/command.cpp:231-259 | on a set of up to 2^32 members ZQUERY answers name and score in turn, by rank: the i-th pair is the member that as many others precede as precede the key, plus offset, plus i; as many pairs as reach the limit, none if no member is at or after the key |
| Laws.OneRank | src/ds/zset.cpp:126-142 | a rank belongs to one member, so these ranks decide the answer |
| Laws.KeysAre | src/server/command.cpp:112-121 | KEYS answers each key of the store once and nothing else, and changes nothing |
| Laws.ChronicleRuns | src/server/server.cpp:194-238 | every run that the server has recorded is a run that the laws speak of |
| Client.ReceiveIff | client/client.cpp:113-118 | the client prints a framed value, and goes on behind it, exactly when its encoding is at most 32 KiB, also where the header wraps around |
| Client.ReceiveAllIff | client/client.cpp:113-118 | out of a stream of framed replies the client prints exactly these replies iff all are at most 32 KiB |
| Limits.RequestNumbers | src/server/command.cpp:263-281 | over every request the store keeps its limits, the numbers in the reply fit, and any reply but those of KEYS and ZQUERY is at most 32 KiB |
| Limits.RequestDecodes | client/client.cpp:113-118 | the client takes the reply to a request exactly when it is at most 32 KiB long; for all requests but KEYS and ZQUERY it is |
| Limits.KeysShortIff | src/server/command.cpp:112-121 | the KEYS reply is 5 + sum(5 + key length) bytes, so it is taken exactly when that is at most 32 KiB |
| Limits.KeysByStore | src/server/command.cpp:112-121 | every listing of one store is equally long, so whether the client takes KEYS depends on the store alone |
| Limits.QueryShortIff | src/server/command.cpp:250-258 | the ZQUERY reply is 5 + sum(14 + name length) bytes over its slice, so it is taken exactly when that is at most 32 KiB |
| Limits.KeysTooLong | src/server/server.cpp:121-124 | two SETs of long keys from the empty store lead to a KEYS reply that the client refuses, in whatever order |
| Limits.DispatchFits | src/server/command.cpp:263-281 | arguments short enough for a request, and scores that are doubles, make a command within the limits |
| Framing.DrainIff | src/server/server.cpp:105-128 | draining is unique decoding into frames within the size limit and a rest that does not start with one |
| Capture.HeaderIs | src/server/server.cpp:105-116 | a header is four bytes, lowest first: more than 32768 is oversized, otherwise that many bytes are a frame once they are there |
| Capture.ReceiptIs | client/client.cpp:113-118 | the client stops exactly at a header of 0 or more than 32768, or when bytes are missing |
| Capture.WordIs | include/protocol/wire.h:15-24 | a 32-bit number is written as the four bytes that stand for it, lowest first |
| Capture.LongIs | src/protocol/serialize.cpp:14-16 | an integer is written as eight bytes in two's complement |
| Capture.TagsAre | include/protocol/serialize.h:8-23 | the tags 0 to 5 in front of nil, error, string, integer, double and array |
| Capture.RequestBytes | README.md:606-614 | the 34 bytes of the frame for SET user:1 alice |
| Capture.Exchange | README.md:618-627 | SET user:1 alice, GET user:1 and FOO on an empty store are answered with the bytes given there |
| Framing.DrainMore | src/server/server.cpp:130-140 | later bytes never change what has been cut off, and an oversized header stays one |
| Framing.ChunkingInvisible | src/server/server.cpp:130-140 | for every split of a stream the frames cut off chunk by chunk, and whether an oversized header is met, are those of the whole stream |
| Requests.ServesConcat | src/server/server.cpp:137 | a run of requests followed by another is one run |
| Requests.ReadAll | src/server/server.cpp:130-140 | a run of reads on one connection: whatever the chunks, the requests executed, the replies appended and the bytes left over are those of the whole stream up to its first oversized header |
| Requests.TryOneRequest | src/server/server.cpp:105-128 | nothing, a close for an oversized header, or one frame executed and its framed reply queued; a malformed body gets an error reply |
| Requests.ServeBuffered | src/server/server.cpp:137 | all complete requests are executed in order and the framed reply of each is queued in order |
| Requests.HandleRead | src/server/server.cpp:130-140 | a read leaves no complete frame behind and exactly one direction wanted, or the connection is to be closed |
| Requests.HandleWrite | src/server/server.cpp:142-149 | bytes move from the buffer to the socket in order; reading resumes exactly when the buffer is empty |
| History.ChronicleServedAll | src/server/server.cpp:105-128 | the requests of one read join the run of the server: each is served on the store that the run had led to, and the run is a legal history of the expiry theorem |
| History.ChroniclePass | src/server/server.cpp:184-191 | so does a reaper pass |
| History.AnsweredRight | src/server/server.cpp:105-128 | in every run each request has the reply of the ideal store at that point of the run (KEYS a listing, a malformed body the error), and the client takes it exactly when it is at most 32 KiB |
| History.OwnPrinted | client/client.cpp:113-118 | the client of one connection prints all its replies exactly if all are at most 32 KiB |
| History.SessionStep | src/server/server.cpp:231-233 | a readiness step keeps a session in order: the requests of the run that came in on the connection are the frames of the bytes it got, and bytes sent and waiting are exactly their framed replies |
| Ring.IdleRing.Empty | include/ds/dlist.h:15-17 | empty exactly when the head is linked to itself |
| Ring.IdleRing.PushBack | include/ds/dlist.h:30-36 | inserting before the head appends; the circle stays well formed both ways |
| Ring.IdleRing.Detach | include/ds/dlist.h:20-26 | exactly the node leaves the circle and is linked to itself |
| Ring.IdleRing.DetachAgain | include/ds/dlist.h:19-26 | detaching an unlisted node changes nothing |
| Clients.Clients.Accept | src/server/server.cpp:95-101 | a new connection at the back of the list, reading |
| Clients.Clients.Touch | src/server/server.cpp:225-229 | activity moves the connection to the back with the new time |
| Clients.Clients.Close | include/server/conn.h:25-28 | the connection leaves table and list |
| Clients.Clients.ReapIdle | src/server/server.cpp:171-178 | stopping at the first live connection closes exactly the connections idle past the timeout |
| Clients.Clients.NextIdle | src/server/server.cpp:155-158 | the front of the list times out first of all |
| Timers.NextDue | src/server/server.cpp:159-161 | the heap root is the nearest deadline of all keys |
| Timers.ReapKeys | src/server/server.cpp:184-191 | due keys go in deadline order, never one that is not due, until 2000 are gone or none is due |
| Timers.PassIsEvent | src/server/server.cpp:184-191 | a pass is a legal event of the expiry theorem |
| Timers.TimeoutExact | src/server/server.cpp:162-165 | the timeout is the gap to the nearest timer exactly when the gap is below 2^31 ms |
| Timers.TimeoutWraps | src/server/server.cpp:165 | a TTL of 30 days makes the timeout negative |
| Server.TimeoutWithClient | src/server/server.cpp:153-166 | with a connection open and an idle timeout below 2^31 ms the poll timeout is always exact |
| Server.SleepsThrough | src/server/server.cpp:159-165 | SET and PEXPIRE of 30 days from the empty store, with no connection left, make the timeout negative |
| Server.Server.Accept | src/server/server.cpp:82-102 | keeps the server invariant; one fresh connection and session |
| Server.Server.Ready | src/server/server.cpp:218-234 | keeps the server invariant for every report of poll, read and write; the requests executed are the frames completed and join the run, and it says why a connection ends and that no other connection changes |
| Server.Server.ProcessTimers | src/server/server.cpp:168-192 | keeps the server invariant; closes exactly the idle connections and reaps due keys |
| Server.Server.NextTimerMs | src/server/server.cpp:153-166 | the timeout for the earliest of all connection and key deadlines, -1 when there is none |
| Server.OverdueTimeout | src/server/server.cpp:162-164 | while a due key remains the next timeout is 0 |
| Server.Server.AnswersIdeal | src/server/server.cpp:194-238 | over every run the replies to all commands on keys, on all connections and with all reaper passes in between, are those of the ideal store |
| Server.Server.SentInOrder | src/server/server.cpp:194-238 | over every run, for every client: its requests in the run are the frames it has sent, what it has received is a prefix of their framed replies, and reply i is what the ideal store answers to frame i at that point of the run |
| Server.Server.ClientPrints | client/client.cpp:113-118 | over every run, a client that has been sent everything prints exactly its replies iff each is at most 32 KiB, and only KEYS and ZQUERY can be longer |
| Lines.FollowGot | src/server/server.cpp:130-140 | a connection uses bytes in the order of their arrival, and while it is open none is left out |
| Lines.FollowSent | src/server/server.cpp:142-149 | what waited before some reports is sent after them as far as the socket had room, always in the order of the requests |
| Lines.AllSent | src/server/server.cpp:142-149 | a readiness step that leaves a connection open empties its outgoing buffer, and turns it back to reading, if and only if the socket has room for all that waits, the replies of the step included |
| Lines.WaitingIs | src/server/server.cpp:142-149 | the bytes in the outgoing buffer of an open connection are exactly the replies not yet sent, so there are none once all is sent |
| Lines.WhyClosed | src/server/server.cpp:231-233 | a connection that a report closed had an oversized header, an error, a hangup or a failed write |
| Lines.TalliedOwn | src/server/server.cpp:225-233 | what a readiness step leaves in buffers, session and run is one step of the connection's line |
| Lines.MatchesTurn | src/server/server.cpp:200-237 | over a whole turn the connections and requests of the server stay exactly those of the lives |
| Lines.LifeGot | src/server/server.cpp:82-102 | a life began with the accept of its turn, and what it got is what has arrived on it since: all of it while open, a first part of it if ended |
| Lines.LifeEach | src/server/server.cpp:82-102 | there is one life for each turn that accepted, in order |
| Lines.RequestArrived | src/server/server.cpp:105-128 | every request of a run lies in the life of a connection on its descriptor, and is a frame of the bytes that this life got, which are the first bytes that arrived there since its accept |
| Lines.PromptMore | src/server/server.cpp:200-237 | after every turn of a run each connection, open or ended, has had exactly the frames of the bytes it got so far executed |
| Loop.HandleAll | src/server/server.cpp:218-234 | over any list of poll entries the run gains exactly the requests executed for them, with the clock of their report, and every connection takes the course of its line: bytes got, requests served, bytes sent, open or closed; descriptors that were not open do nothing |
| Loop.Iterate | src/server/server.cpp:200-237 | one whole iteration: the poll timeout, at most one accept, the reports, then one timer pass that closes exactly the idle and is entered in the run with exactly the keys it removed, all due and in order, and none due is left unless 2000 went |
| Loop.Run | src/server/server.cpp:194-238 | from the constructor through any number of iterations, whatever descriptors accept hands out: the run is exactly the script of the turns, every request has the ideal store's reply at its place and was executed in the turn that completed its frame, every timer pass did its work, the connections, open and ended, are exactly the lives that the turns make, and the run obeys the laws of the commands |
| Pool.InvKept | src/threadpool/thread_pool.cpp:11-44 | every step of owner and workers keeps mutual exclusion, shutdown order, no lost wakeup and every task in exactly one place |
| Pool.AlwaysInv | src/threadpool/thread_pool.cpp:3-44 | the same over every interleaving from the constructor on |
| Pool.WakeupsKept | src/threadpool/thread_pool.cpp:22-35 | while work is queued some worker is awake or a notification is still to come |
| Pool.OnceKept | src/threadpool/thread_pool.cpp:22-43 | a task is in exactly one of queue, worker or done |
| Pool.AllDone | src/threadpool/thread_pool.cpp:11-44 | when all workers have returned every task ever queued has run exactly once |
| Pool.StepsRunOut | src/threadpool/thread_pool.cpp:11-20 | each step of a pool that is being joined brings its end closer |
| Pool.ShutdownBounded | src/threadpool/thread_pool.cpp:11-20 | no interleaving of the shutdown is longer than a bound |
| Pool.NeverStuck | src/threadpool/thread_pool.cpp:11-44 | while work is queued or a call is under way some thread can move without a new call or a spurious wakeup |
| Pool.WorkBounded | src/threadpool/thread_pool.cpp:30-44 | between calls and spurious wakeups no interleaving of the workers is longer than a bound |
| Pool.WorkDone | src/threadpool/thread_pool.cpp:30-44 | where the workers of an idle owner can go no further the queue is empty, all wait, and every task queued has run exactly once |

## Left out

- Sockets, `poll`, `accept`, `fcntl` and descriptor ownership: kernel calls; their results are parameters of the steps.
- The real clock: a parameter; readings never decrease and stay below 2^63. One command takes two readings, its lookup's
  and its effect's.
- Text to number conversion (`str2dbl`, `str2int`) and the locale in `to_upper`: arbitrary functions, and ASCII case.
- IEEE doubles: a score is a place in a total preorder plus eight bytes; NaN never enters, and 0.0 and -0.0 may compare
  equal with different bytes.
- The hash function: arbitrary; nothing depends on its quality.
- Memory layout, `malloc` and reuse of freed addresses: addresses are never reused; what remains is that a freed or
  queued entry is in no shared structure.
- `zset_clear`, `tree_dispose`, `hm_clear`, the server destructor: plain teardown.
- The client's REPL and the text it prints: what is modelled is which value it prints.
- Commands.DoZQuery: for a set in which a count has wrapped around it does not say which pairs a query emits that does
  not start at the root of the tree, because that depends on the shape of the tree.
- Commands.EmitPairs: the same.
- Commands.QuerySet: the same.
- ZSet.ZSet.Offset: the same, for the node it returns.
- The time `calloc` takes for a new table: what the cost of a migration counts are turns of the migration loop.
- Interrupted and failing `poll` calls, and a failing `accept`: no step happens.
- Idle timeouts of 2^63 ms and more, where the deadline of a connection could wrap around.
- The order in which `KEYS` lists the keys: any order without repetition.
- Producers other than the event loop: the pool's owner makes one call at a time, as the server does.
- The order of connections within one pass over the poll results: each step keeps the invariant, so any order does.
