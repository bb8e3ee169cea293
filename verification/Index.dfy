/** What a hash holds, as a value: keys, chains and capacity, and the effect that every
    operation of src/core/hash.c has on them. */
module Indexes {
  import opened Common
  import opened DynArrays
  import opened Chains
  import opened Removals

  /** The size up to which no 32-bit product in hash.c or array.c wraps. */
  const LIMIT: nat := 0x800_0000

  /** The bucket of a key among m buckets. */
  function Home(hash: Uint64 -> Uint64, m: nat): Uint64 -> nat {
    (key: Uint64) => if m == 0 then 0 else hash(key) % m
  }

  /** `chains` has one chain for every bucket. */
  datatype Index = Index(keys: seq<Uint64>, chains: seq<Chain>, capacity: nat)

  // ---------- Inserting ----------

  /** _dsim_hash_key_insert: the row in front of its bucket's chain. */
  function WithRow(home: Uint64 -> nat, keys: seq<Uint64>, chains: seq<Chain>, row: nat): (r: seq<Chain>)
    requires row < |keys|
    ensures |r| == |chains|
  {
    var b := home(keys[row]);
    if b < |chains| then chains[b := [row] + chains[b]] else chains
  }

  /** The rows from `row` on, inserted one after the other. */
  function Threaded(home: Uint64 -> nat, keys: seq<Uint64>, chains: seq<Chain>, row: nat): (r: seq<Chain>)
    ensures |r| == |chains|
    decreases |keys| - row
  {
    if row >= |keys| then chains else Threaded(home, keys, WithRow(home, keys, chains, row), row + 1)
  }

  function NoRows(m: nat): (r: seq<Chain>)
    ensures |r| == m && forall b :: 0 <= b < m ==> r[b] == []
  {
    seq(m, _ => [])
  }

  /** _dsim_hash_rehash. */
  function Rebuilt(hash: Uint64 -> Uint64, keys: seq<Uint64>, m: nat): seq<Chain> {
    Threaded(Home(hash, m), keys, NoRows(m), 0)
  }

  function Reserved(hash: Uint64 -> Uint64, x: Index, count: nat): (y: Index)
    ensures y.keys == x.keys
  {
    if count <= |x.keys| then x
    else
      Index(x.keys, if |x.chains| * 11 / 16 < count then Rebuilt(hash, x.keys, 2 * count) else x.chains, Max(x.capacity, count))
  }

  /** Room for more rows, if there is too little. */
  function WithRoom(hash: Uint64 -> Uint64, x: Index, full: bool, count: nat): (y: Index)
    requires count <= LIMIT
    ensures y.keys == x.keys
  {
    if full then Reserved(hash, x, NextPow2(count)) else x
  }

  function Appended(hash: Uint64 -> Uint64, x: Index, ks: seq<Uint64>): (y: Index)
    ensures y.keys == x.keys + ks && y.capacity == x.capacity
  {
    Index(x.keys + ks, Threaded(Home(hash, |x.chains|), x.keys + ks, x.chains, |x.keys|), x.capacity)
  }

  function Pushed(hash: Uint64 -> Uint64, x: Index, key: Uint64): (y: Index)
    requires |x.keys| + 8 <= LIMIT
    ensures y.keys == x.keys + [key]
  {
    Appended(hash, WithRoom(hash, x, |x.keys| == x.capacity, |x.keys| + 8), [key])
  }

  function PushedN(hash: Uint64 -> Uint64, x: Index, ks: seq<Uint64>): (y: Index)
    requires |x.keys| + |ks| <= LIMIT
    ensures y.keys == x.keys + ks
  {
    Appended(hash, WithRoom(hash, x, |x.keys| + |ks| > x.capacity, |x.keys| + |ks|), ks)
  }

  // ---------- Removing ----------

  function HoleIn(hash: Uint64 -> Uint64, x: Index, pos: nat, n: nat): Hole {
    Hole(Home(hash, |x.chains|), x.keys, x.chains, pos, n)
  }

  function Removed(x: Index, pos: nat, n: nat): Index
    requires pos + n <= |x.keys|
  {
    Index(CutFast(x.keys, pos, n), RemovedChains(x.chains, |x.keys|, pos, n), x.capacity)
  }

  // ---------- Steps ----------

  lemma ThreadedStep(home: Uint64 -> nat, keys: seq<Uint64>, chains: seq<Chain>, row: nat)
    ensures Threaded(home, keys, chains, row) ==
      if row < |keys| then Threaded(home, keys, WithRow(home, keys, chains, row), row + 1) else chains
  {
  }
}
