/** Linear probing over an open-addressed table, shared by every hashed table of the model.
    A table is a sequence of slots; the first `n` of them are active and a slot equal to
    `free` is empty. */
module Probing {

  /** The slot reached after `j` steps from `home` in a table of `n` slots. */
  function At(home: nat, j: nat, n: nat): (s: nat)
    requires home < n && j <= n
    ensures s < n
  {
    if home + j < n then home + j else home + j - n
  }

  /** How many probing steps lead from `home` to slot `s`. */
  function Distance(home: nat, s: nat, n: nat): (j: nat)
    requires home < n && s < n
    ensures j < n && At(home, j, n) == s
  {
    if home <= s then s - home else s + n - home
  }

  /** The number of used slots among the first `n`. */
  ghost function Used<T>(slots: seq<T>, n: nat, free: T): (count: nat)
    requires n <= |slots|
    ensures count <= n
  {
    if n == 0 then 0
    else Used(slots, n - 1, free) + if slots[n - 1] == free then 0 else 1
  }

  /** A table whose probe sequence from `home` meets only used slots is full. */
  lemma {:induction false} AllUsed<T>(slots: seq<T>, n: nat, free: T)
    requires n <= |slots|
    requires forall s :: 0 <= s < n ==> slots[s] != free
    ensures Used(slots, n, free) == n
  {
    if n > 0 {
      AllUsed(slots, n - 1, free);
    }
  }

  lemma {:induction false} ProbeMeetsFree<T>(slots: seq<T>, n: nat, home: nat, free: T)
    requires home < n <= |slots|
    requires Used(slots, n, free) < n
    ensures exists j :: 0 <= j < n && slots[At(home, j, n)] == free
  {
    if forall j :: 0 <= j < n ==> slots[At(home, j, n)] != free {
      forall s | 0 <= s < n
        ensures slots[s] != free
      {
        assert At(home, Distance(home, s, n), n) == s;
      }
      AllUsed(slots, n, free);
      assert false;
    }
  }

  lemma {:induction false} UsedUpdate<T>(slots: seq<T>, n: nat, free: T, i: nat, value: T)
    requires i < |slots| && n <= |slots|
    ensures Used(slots[i := value], n, free)
         == Used(slots, n, free)
          + (if i < n && slots[i] == free && value != free then 1 else 0)
          - (if i < n && slots[i] != free && value == free then 1 else 0)
  {
    if n > 0 {
      UsedUpdate(slots, n - 1, free, i, value);
    }
  }

  lemma {:induction false} UsedNone<T>(slots: seq<T>, n: nat, free: T)
    requires n <= |slots|
    requires forall s :: 0 <= s < n ==> slots[s] == free
    ensures Used(slots, n, free) == 0
  {
    if n > 0 {
      UsedNone(slots, n - 1, free);
    }
  }

  /** Only the first `n` slots count. */
  lemma {:induction false} UsedPrefix<T>(a: seq<T>, b: seq<T>, n: nat, free: T)
    requires n <= |a| && n <= |b|
    requires forall s :: 0 <= s < n ==> a[s] == b[s]
    ensures Used(a, n, free) == Used(b, n, free)
  {
    if n > 0 {
      UsedPrefix(a, b, n - 1, free);
    }
  }

  /** Filling the first `n` slots with the free value. */
  function Cleared<T>(slots: seq<T>, n: nat, free: T): (r: seq<T>)
    requires n <= |slots|
    ensures |r| == |slots|
    ensures forall s :: 0 <= s < n ==> r[s] == free
    ensures forall s :: n <= s < |slots| ==> r[s] == slots[s]
  {
    seq(n, _ => free) + slots[n..]
  }

  /** Growing a vector to at least `n` slots, as `Vec::resize` does. */
  function Resized<T>(slots: seq<T>, n: nat, free: T): (r: seq<T>)
    ensures |r| == if |slots| < n then n else |slots|
    ensures forall s :: 0 <= s < |slots| ==> r[s] == slots[s]
    ensures forall s :: |slots| <= s < |r| ==> r[s] == free
  {
    if |slots| < n then slots + seq(n - |slots|, _ => free) else slots
  }

  // ----- tables keyed by a hash of the key -----

  /** Slot `s` is met by probing from `home` before any free slot. */
  ghost predicate OnPath<K>(keys: seq<K>, free: K, home: nat, s: nat)
    requires home < |keys| && s < |keys|
  {
    forall j :: 0 <= j < Distance(home, s, |keys|) ==> keys[At(home, j, |keys|)] != free
  }

  function Home<K>(hash: K -> nat, key: K, n: nat): (slot: nat)
    requires 0 < n
    ensures slot < n
  {
    hash(key) % n
  }

  /** Every stored key is found from its home slot, and is stored once. */
  ghost predicate KeyTable<K>(keys: seq<K>, free: K, hash: K -> nat) {
    && 0 < |keys|
    && (forall s :: 0 <= s < |keys| && keys[s] != free ==> OnPath(keys, free, Home(hash, keys[s], |keys|), s))
    && (forall s, t :: 0 <= s < t < |keys| && keys[s] != free ==> keys[s] != keys[t])
  }

  /** The probe for `key` passed `k` used slots that hold other keys. */
  ghost predicate Probed<K>(keys: seq<K>, free: K, hash: K -> nat, key: K, k: nat)
    requires 0 < |keys| && k < |keys|
  {
    forall j :: 0 <= j < k ==>
      keys[At(Home(hash, key, |keys|), j, |keys|)] != free && keys[At(Home(hash, key, |keys|), j, |keys|)] != key
  }

  lemma StartsProbed<K>(keys: seq<K>, free: K, hash: K -> nat, key: K)
    requires 0 < |keys|
    ensures Probed(keys, free, hash, key, 0)
  {
  }

  lemma {:induction false} EmptyKeyTable<K>(keys: seq<K>, free: K, hash: K -> nat)
    requires 0 < |keys| && forall s :: 0 <= s < |keys| ==> keys[s] == free
    ensures KeyTable(keys, free, hash) && Used(keys, |keys|, free) == 0
  {
    UsedNone(keys, |keys|, free);
  }

  /** A probe that reaches a free slot without meeting the key proves it absent. */
  lemma KeyMiss<K>(keys: seq<K>, free: K, hash: K -> nat, key: K, k: nat)
    requires KeyTable(keys, free, hash) && k < |keys| && key != free
    requires Probed(keys, free, hash, key, k)
    requires keys[At(Home(hash, key, |keys|), k, |keys|)] == free
    ensures key !in keys
  {
    forall s | 0 <= s < |keys|
      ensures keys[s] != key
    {
      var home := Home(hash, key, |keys|);
      assert At(home, Distance(home, s, |keys|), |keys|) == s;
    }
  }

  /** Writing an absent key at the free slot its probe ended at keeps the table. */
  lemma KeyInsert<K>(keys: seq<K>, free: K, hash: K -> nat, key: K, k: nat)
    requires KeyTable(keys, free, hash) && k < |keys| && key != free && key !in keys
    requires Probed(keys, free, hash, key, k)
    requires keys[At(Home(hash, key, |keys|), k, |keys|)] == free
    ensures KeyTable(keys[At(Home(hash, key, |keys|), k, |keys|) := key], free, hash)
    ensures Used(keys[At(Home(hash, key, |keys|), k, |keys|) := key], |keys|, free) == Used(keys, |keys|, free) + 1
  {
    var slot := At(Home(hash, key, |keys|), k, |keys|);
    var after := keys[slot := key];
    UsedUpdate(keys, |keys|, free, slot, key);
    assert Distance(Home(hash, key, |keys|), slot, |keys|) == k;
    forall s | 0 <= s < |after| && after[s] != free
      ensures OnPath(after, free, Home(hash, after[s], |after|), s)
    {
      if s != slot {
        assert OnPath(keys, free, Home(hash, keys[s], |keys|), s);
      }
    }
  }

  /** A probe in a table with a free slot goes on behind a slot that holds another key. */
  lemma {:induction false} KeyPasses<K>(keys: seq<K>, free: K, hash: K -> nat, key: K, k: nat)
    requires 0 < |keys| && k < |keys| && Used(keys, |keys|, free) < |keys|
    requires Probed(keys, free, hash, key, k)
    requires keys[At(Home(hash, key, |keys|), k, |keys|)] != free && keys[At(Home(hash, key, |keys|), k, |keys|)] != key
    ensures k + 1 < |keys| && Probed(keys, free, hash, key, k + 1)
  {
    hide Used, At;
    var home := Home(hash, key, |keys|);
    ProbeMeetsFree(keys, |keys|, home, free);
    var j :| 0 <= j < |keys| && keys[At(home, j, |keys|)] == free;
    assert j > k;
  }

  lemma NextSlot(home: nat, k: nat, n: nat)
    requires home < n && k + 1 <= n
    ensures At(home, k + 1, n) == (At(home, k, n) + 1) % n
  {
  }
}
