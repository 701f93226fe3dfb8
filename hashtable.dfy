/** The separate-chaining hash map. The bucket vector is a sequence of
    chains, each chain a sequence of key/value pairs in list order. The key
    hash (std::hash) is a parameter of the table; a key's bucket is its hash
    modulo the bucket count. */
module Hashing {
  import opened Wrappers

  /** HT_INIT_CAPACITY, the default bucket count. */
  const InitCapacity: nat := 11

  /** The bucket of key `k` among `n` buckets. */
  function Bucket<K>(hash: K -> nat, k: K, n: nat): (b: nat)
    requires n > 0
    ensures b < n
  {
    hash(k) % n
  }

  /** The pairs of the table, bucket after bucket, each chain front to
      back. */
  function Flatten<K, V>(t: seq<seq<(K, V)>>): seq<(K, V)>
  {
    if |t| == 0 then [] else Flatten(t[..|t| - 1]) + t[|t| - 1]
  }

  /** The map a sequence of pairs stands for, read front to back: a later
      pair for a key replaces an earlier one. */
  function SeqMap<K, V>(s: seq<(K, V)>): map<K, V>
  {
    if |s| == 0 then map[] else SeqMap(s[..|s| - 1])[s[|s| - 1].0 := s[|s| - 1].1]
  }

  /** The map the whole table stands for. */
  function TableMap<K, V>(t: seq<seq<(K, V)>>): map<K, V>
  {
    SeqMap(Flatten(t))
  }

  ghost predicate UniqueKeys<K, V>(s: seq<(K, V)>)
  {
    forall i, j :: 0 <= i < j < |s| ==> s[i].0 != s[j].0
  }

  /** Every pair sits in the chain its key hashes to. */
  ghost predicate Placed<K, V>(t: seq<seq<(K, V)>>, hash: K -> nat)
  {
    |t| > 0 &&
    forall i, j :: 0 <= i < |t| && 0 <= j < |t[i]| ==> Bucket(hash, t[i][j].0, |t|) == i
  }

  /** `n` empty chains. */
  function EmptyTable<K, V>(n: nat): (t: seq<seq<(K, V)>>)
    ensures |t| == n && forall i :: 0 <= i < n ==> t[i] == []
  {
    seq(n, _ => [])
  }

  /** The table Rehash builds: the pairs of `s` appended in turn to the
      chain of their bucket among `n`. */
  function Distribute<K, V>(s: seq<(K, V)>, hash: K -> nat, n: nat): (t: seq<seq<(K, V)>>)
    requires n > 0
    ensures |t| == n
  {
    if |s| == 0 then EmptyTable(n)
    else
      var t := Distribute(s[..|s| - 1], hash, n);
      var p := s[|s| - 1];
      var b := Bucket(hash, p.0, n);
      t[b := t[b] + [p]]
  }

  /** The pairs of `s` whose key falls in bucket `i` of `n`, in order: an
      independent description of one chain after Rehash. */
  function InBucket<K, V>(s: seq<(K, V)>, hash: K -> nat, n: nat, i: nat): seq<(K, V)>
    requires n > 0
  {
    if |s| == 0 then []
    else
      var r := InBucket(s[..|s| - 1], hash, n, i);
      if Bucket(hash, s[|s| - 1].0, n) == i then r + [s[|s| - 1]] else r
  }

  /** The map built by inserting the pairs of `s` in turn when the first
      pair for a key wins, as an initializer list does. */
  function FirstWins<K, V>(s: seq<(K, V)>): map<K, V>
  {
    if |s| == 0 then map[]
    else
      var m := FirstWins(s[..|s| - 1]);
      if s[|s| - 1].0 in m then m else m[s[|s| - 1].0 := s[|s| - 1].1]
  }

  /** A key is in the map of `s` exactly when some pair of `s` has it. */
  lemma {:induction false} SeqMapKeys<K, V>(s: seq<(K, V)>, k: K)
    ensures k in SeqMap(s) <==> exists i :: 0 <= i < |s| && s[i].0 == k
  {
    if |s| > 0 {
      var s' := s[..|s| - 1];
      SeqMapKeys(s', k);
      if k in SeqMap(s') {
        var i :| 0 <= i < |s'| && s'[i].0 == k;
        assert s[i].0 == k;
      }
      if exists i :: 0 <= i < |s| && s[i].0 == k {
        var i :| 0 <= i < |s| && s[i].0 == k;
        if i < |s| - 1 {
          assert s'[i].0 == k;
        }
      }
    }
  }

  /** With unique keys, the map of `s` sends each key to the value of the
      one pair that has it. */
  lemma {:induction false} SeqMapAt<K, V>(s: seq<(K, V)>, j: nat)
    requires UniqueKeys(s) && j < |s|
    ensures s[j].0 in SeqMap(s) && SeqMap(s)[s[j].0] == s[j].1
  {
    var s' := s[..|s| - 1];
    if j < |s| - 1 {
      assert UniqueKeys(s');
      SeqMapAt(s', j);
      assert s'[j] == s[j];
    }
  }

  lemma {:induction false} SeqMapAppend<K, V>(a: seq<(K, V)>, b: seq<(K, V)>)
    ensures SeqMap(a + b) == SeqMap(a) + SeqMap(b)
    decreases |b|
  {
    if |b| == 0 {
      assert a + b == a;
    } else {
      var b' := b[..|b| - 1];
      assert (a + b)[..|a + b| - 1] == a + b';
      SeqMapAppend(a, b');
    }
  }

  /** In a placed table, the map of the table agrees on each key with the
      map of that key's chain. */
  lemma {:induction false} TableMapAt<K, V>(t: seq<seq<(K, V)>>, hash: K -> nat, n: nat, k: K)
    requires n > 0 && |t| <= n
    requires forall i, j :: 0 <= i < |t| && 0 <= j < |t[i]| ==> Bucket(hash, t[i][j].0, n) == i
    ensures k in TableMap(t) <==> Bucket(hash, k, n) < |t| && k in SeqMap(t[Bucket(hash, k, n)])
    ensures k in TableMap(t) ==> TableMap(t)[k] == SeqMap(t[Bucket(hash, k, n)])[k]
  {
    if |t| > 0 {
      var t', last := t[..|t| - 1], t[|t| - 1];
      TableMapAt(t', hash, n, k);
      SeqMapAppend(Flatten(t'), last);
      if Bucket(hash, k, n) != |t| - 1 {
        SeqMapKeys(last, k);
      }
      if Bucket(hash, k, n) == |t| - 1 {
        SeqMapKeys(Flatten(t'), k);
        FlattenBuckets(t', hash, n);
      }
    }
  }

  /** Every pair of a placed prefix of a table has a bucket below the
      prefix's length. */
  lemma {:induction false} FlattenBuckets<K, V>(t: seq<seq<(K, V)>>, hash: K -> nat, n: nat)
    requires n > 0 && |t| <= n
    requires forall i, j :: 0 <= i < |t| && 0 <= j < |t[i]| ==> Bucket(hash, t[i][j].0, n) == i
    ensures forall q :: 0 <= q < |Flatten(t)| ==> Bucket(hash, Flatten(t)[q].0, n) < |t|
  {
    if |t| > 0 {
      var t' := t[..|t| - 1];
      FlattenBuckets(t', hash, n);
      forall q | 0 <= q < |Flatten(t)|
        ensures Bucket(hash, Flatten(t)[q].0, n) < |t|
      {
        if q >= |Flatten(t')| {
          assert Flatten(t)[q] == t[|t| - 1][q - |Flatten(t')|];
        } else {
          assert Flatten(t)[q] == Flatten(t')[q];
        }
      }
    }
  }

  /** A sequence with unique keys stands for a map with one key per pair. */
  lemma {:induction false} SeqMapSize<K, V>(s: seq<(K, V)>)
    requires UniqueKeys(s)
    ensures |SeqMap(s)| == |s|
  {
    if |s| > 0 {
      var s' := s[..|s| - 1];
      assert UniqueKeys(s');
      SeqMapSize(s');
      SeqMapKeys(s', s[|s| - 1].0);
    }
  }

  /** Removing the pair at `j` from a sequence with unique keys removes its
      key from the map and changes nothing else. */
  lemma {:induction false} SeqMapRemove<K, V>(c: seq<(K, V)>, j: nat)
    requires UniqueKeys(c) && j < |c|
    ensures SeqMap(c[..j] + c[j + 1..]) == SeqMap(c) - {c[j].0}
  {
    var c', last := c[..|c| - 1], c[|c| - 1];
    assert UniqueKeys(c');
    if j == |c| - 1 {
      assert c[..j] + c[j + 1..] == c';
      SeqMapKeys(c', last.0);
    } else {
      SeqMapRemove(c', j);
      var r := c[..j] + c[j + 1..];
      assert r[..|r| - 1] == c'[..j] + c'[j + 1..] && r[|r| - 1] == last;
      assert last.0 != c[j].0;
    }
  }

  /** Two maps with the same keys and the same value at each key are equal. */
  lemma MapExtensional<K, V>(a: map<K, V>, b: map<K, V>)
    requires forall k :: k in a <==> k in b
    requires forall k :: k in a ==> a[k] == b[k]
    ensures a == b
  {
    assert a.Keys == b.Keys;
  }

  /** Replacing chain `b` of a placed table by a chain whose keys all hash
      to `b` keeps the table placed; the new table's map agrees with the new
      chain on the keys of bucket `b` and with the old table elsewhere. */
  lemma ReplaceChain<K, V>(t: seq<seq<(K, V)>>, hash: K -> nat, b: nat, c: seq<(K, V)>, k: K)
    requires Placed(t, hash) && b < |t|
    requires forall q :: 0 <= q < |c| ==> Bucket(hash, c[q].0, |t|) == b
    ensures Placed(t[b := c], hash)
    ensures Bucket(hash, k, |t|) == b ==>
              (k in TableMap(t[b := c]) <==> k in SeqMap(c)) &&
              (k in SeqMap(c) ==> TableMap(t[b := c])[k] == SeqMap(c)[k])
    ensures Bucket(hash, k, |t|) != b ==>
              (k in TableMap(t[b := c]) <==> k in TableMap(t)) &&
              (k in TableMap(t) ==> TableMap(t[b := c])[k] == TableMap(t)[k])
  {
    var n, t' := |t|, t[b := c];
    assert Placed(t', hash);
    TableMapAt(t, hash, n, k);
    TableMapAt(t', hash, n, k);
  }

  /** Appending a pair to its own chain of a placed table adds it to the
      table's map, replacing any earlier value of its key, and keeps the
      table placed. */
  lemma InsertMap<K(!new), V>(t: seq<seq<(K, V)>>, hash: K -> nat, p: (K, V))
    requires Placed(t, hash)
    ensures var b := Bucket(hash, p.0, |t|);
            Placed(t[b := t[b] + [p]], hash) &&
            TableMap(t[b := t[b] + [p]]) == TableMap(t)[p.0 := p.1]
  {
    var n, b := |t|, Bucket(hash, p.0, |t|);
    var c := t[b] + [p];
    assert c[..|c| - 1] == t[b];
    ReplaceChain(t, hash, b, c, p.0);
    var m, m' := TableMap(t)[p.0 := p.1], TableMap(t[b := c]);
    forall k
      ensures k in m' <==> k in m
    {
      ReplaceChain(t, hash, b, c, k);
      TableMapAt(t, hash, n, k);
    }
    forall k | k in m'
      ensures m'[k] == m[k]
    {
      ReplaceChain(t, hash, b, c, k);
      TableMapAt(t, hash, n, k);
    }
    MapExtensional(m', m);
  }

  /** Removing the pair at `j` of chain `b` from a placed table whose chains
      have unique keys removes its key from the table's map and keeps the
      table placed. */
  lemma EraseMap<K(!new), V>(t: seq<seq<(K, V)>>, hash: K -> nat, b: nat, j: nat)
    requires Placed(t, hash) && b < |t| && j < |t[b]| && UniqueKeys(t[b])
    ensures Placed(t[b := t[b][..j] + t[b][j + 1..]], hash)
    ensures TableMap(t[b := t[b][..j] + t[b][j + 1..]]) == TableMap(t) - {t[b][j].0}
  {
    var n := |t|;
    var c: seq<(K, V)> := t[b][..j] + t[b][j + 1..];
    forall q | 0 <= q < |c|
      ensures Bucket(hash, c[q].0, n) == b
    {
      assert c[q] == t[b][if q < j then q else q + 1];
    }
    SeqMapRemove(t[b], j);
    ReplaceChain(t, hash, b, c, t[b][j].0);
    var m, m' := TableMap(t) - {t[b][j].0}, TableMap(t[b := c]);
    forall k
      ensures k in m' <==> k in m
    {
      ReplaceChain(t, hash, b, c, k);
      TableMapAt(t, hash, n, k);
    }
    forall k | k in m'
      ensures m'[k] == m[k]
    {
      ReplaceChain(t, hash, b, c, k);
      TableMapAt(t, hash, n, k);
    }
    MapExtensional(m', m);
  }

  /** Replacing one chain changes the number of pairs by the difference in
      the chain's length. */
  lemma {:induction false} FlattenUpdateLength<K, V>(t: seq<seq<(K, V)>>, b: nat, c: seq<(K, V)>)
    requires b < |t|
    ensures |Flatten(t[b := c])| + |t[b]| == |Flatten(t)| + |c|
  {
    var t' := t[b := c];
    if b < |t| - 1 {
      assert t'[..|t| - 1] == t[..|t| - 1][b := c];
      FlattenUpdateLength(t[..|t| - 1], b, c);
    } else {
      assert t'[..|t| - 1] == t[..|t| - 1];
    }
  }

  /** A placed prefix of a table whose chains have unique keys has unique
      keys throughout. */
  lemma {:induction false} FlattenUnique<K, V>(t: seq<seq<(K, V)>>, hash: K -> nat, n: nat)
    requires n > 0 && |t| <= n
    requires forall i, j :: 0 <= i < |t| && 0 <= j < |t[i]| ==> Bucket(hash, t[i][j].0, n) == i
    requires forall i :: 0 <= i < |t| ==> UniqueKeys(t[i])
    ensures UniqueKeys(Flatten(t))
  {
    if |t| > 0 {
      var t', last := t[..|t| - 1], t[|t| - 1];
      FlattenUnique(t', hash, n);
      FlattenBuckets(t', hash, n);
      var f, m := Flatten(t), |Flatten(t')|;
      forall i, j | 0 <= i < j < |f|
        ensures f[i].0 != f[j].0
      {
        if j < m {
          assert f[i] == Flatten(t')[i] && f[j] == Flatten(t')[j];
        } else if i < m {
          assert f[i] == Flatten(t')[i] && f[j] == last[j - m];
        } else {
          assert f[i] == last[i - m] && f[j] == last[j - m];
        }
      }
    }
  }

  /** The size of a valid table's map is its number of pairs. */
  lemma TableMapSize<K, V>(t: seq<seq<(K, V)>>, hash: K -> nat)
    requires Placed(t, hash) && forall i :: 0 <= i < |t| ==> UniqueKeys(t[i])
    ensures |TableMap(t)| == |Flatten(t)|
  {
    FlattenUnique(t, hash, |t|);
    SeqMapSize(Flatten(t));
  }

  /** The table Rehash builds is placed, holds every pair once and stands
      for the same map as the pairs it was built from. */
  lemma {:induction false} DistributeMap<K(!new), V>(s: seq<(K, V)>, hash: K -> nat, n: nat)
    requires n > 0
    ensures Placed(Distribute(s, hash, n), hash)
    ensures |Flatten(Distribute(s, hash, n))| == |s|
    ensures TableMap(Distribute(s, hash, n)) == SeqMap(s)
  {
    if |s| == 0 {
      var t := EmptyTable<K, V>(n);
      assert t[..n - 1] == EmptyTable(n - 1);
      EmptyFlatten<K, V>(n);
    } else {
      var s', p := s[..|s| - 1], s[|s| - 1];
      DistributeMap(s', hash, n);
      var t := Distribute(s', hash, n);
      var b := Bucket(hash, p.0, n);
      InsertMap(t, hash, p);
      FlattenUpdateLength(t, b, t[b] + [p]);
    }
  }

  /** Appending a pair to one chain adds exactly that pair to the pairs of
      the table. */
  lemma {:induction false} FlattenAppend<K, V>(t: seq<seq<(K, V)>>, b: nat, p: (K, V))
    requires b < |t|
    ensures multiset(Flatten(t[b := t[b] + [p]])) == multiset(Flatten(t)) + multiset{p}
  {
    var t', u := t[b := t[b] + [p]], t[..|t| - 1];
    if b < |t| - 1 {
      assert t'[..|t| - 1] == u[b := u[b] + [p]];
      FlattenAppend(u, b, p);
    } else {
      assert t'[..|t| - 1] == u;
      assert Flatten(t') == Flatten(u) + t[b] + [p];
    }
  }

  /** Rehash relocates every pair exactly once: the pairs of the table it
      builds are the pairs it was given. */
  lemma {:induction false} DistributeMoves<K, V>(s: seq<(K, V)>, hash: K -> nat, n: nat)
    requires n > 0
    ensures multiset(Flatten(Distribute(s, hash, n))) == multiset(s)
  {
    if |s| == 0 {
      EmptyFlatten<K, V>(n);
    } else {
      var s', p := s[..|s| - 1], s[|s| - 1];
      DistributeMoves(s', hash, n);
      var t, b := Distribute(s', hash, n), Bucket(hash, p.0, n);
      assert Distribute(s, hash, n) == t[b := t[b] + [p]];
      FlattenAppend(t, b, p);
      assert s == s' + [p];
      assert multiset(s) == multiset(s') + multiset{p};
    }
  }

  lemma {:induction false} EmptyFlatten<K, V>(n: nat)
    ensures Flatten(EmptyTable<K, V>(n)) == []
  {
    if n > 0 {
      assert EmptyTable<K, V>(n)[..n - 1] == EmptyTable(n - 1);
      EmptyFlatten<K, V>(n - 1);
    }
  }

  /** Pairs with unique keys are distributed into chains with unique keys. */
  lemma {:induction false} DistributeUnique<K(!new), V>(s: seq<(K, V)>, hash: K -> nat, n: nat)
    requires n > 0 && UniqueKeys(s)
    ensures forall i :: 0 <= i < n ==> UniqueKeys(Distribute(s, hash, n)[i])
  {
    if |s| > 0 {
      var s', p := s[..|s| - 1], s[|s| - 1];
      assert UniqueKeys(s');
      DistributeUnique(s', hash, n);
      DistributeMap(s', hash, n);
      var t := Distribute(s', hash, n);
      var b := Bucket(hash, p.0, n);
      SeqMapKeys(s', p.0);
      TableMapAt(t, hash, n, p.0);
      SeqMapKeys(t[b], p.0);
      assert UniqueKeys(t[b] + [p]);
    }
  }

  /** Each chain Rehash builds lists the pairs of its bucket in their
      original order. */
  lemma {:induction false} DistributeInBucket<K, V>(s: seq<(K, V)>, hash: K -> nat, n: nat, i: nat)
    requires i < n
    ensures Distribute(s, hash, n)[i] == InBucket(s, hash, n, i)
  {
    if |s| > 0 {
      DistributeInBucket(s[..|s| - 1], hash, n, i);
    }
  }

  /** A key is in the first-wins map of `s` exactly when some pair has it,
      and it maps to the value of the first such pair. */
  lemma {:induction false} FirstWinsFirst<K, V>(s: seq<(K, V)>, i: nat)
    requires i < |s| && forall j :: 0 <= j < i ==> s[j].0 != s[i].0
    ensures s[i].0 in FirstWins(s) && FirstWins(s)[s[i].0] == s[i].1
  {
    var s' := s[..|s| - 1];
    if i < |s| - 1 {
      FirstWinsFirst(s', i);
    } else {
      FirstWinsKeys(s', s[i].0);
    }
  }

  lemma {:induction false} FirstWinsKeys<K, V>(s: seq<(K, V)>, k: K)
    ensures k in FirstWins(s) <==> exists i :: 0 <= i < |s| && s[i].0 == k
  {
    if |s| > 0 {
      var s' := s[..|s| - 1];
      FirstWinsKeys(s', k);
      if k in FirstWins(s') {
        var i :| 0 <= i < |s'| && s'[i].0 == k;
        assert s[i].0 == k;
      }
      if exists i :: 0 <= i < |s| && s[i].0 == k {
        var i :| 0 <= i < |s| && s[i].0 == k;
        if i < |s| - 1 {
          assert s'[i].0 == k;
        }
      }
    }
  }

  /** Removing one pair from a sequence with unique keys leaves unique keys. */
  lemma RemoveUnique<K, V>(c: seq<(K, V)>, j: nat)
    requires UniqueKeys(c) && j < |c|
    ensures UniqueKeys(c[..j] + c[j + 1..])
  {
    var r := c[..j] + c[j + 1..];
    forall a, b | 0 <= a < b < |r|
      ensures r[a].0 != r[b].0
    {
      assert r[a] == c[if a < j then a else a + 1];
      assert r[b] == c[if b < j then b else b + 1];
    }
  }

  /** The pairs of `c` whose key is not `k`, in order. */
  function Without<K(==), V>(c: seq<(K, V)>, k: K): seq<(K, V)>
  {
    if |c| == 0 then []
    else Without(c[..|c| - 1], k) + if c[|c| - 1].0 == k then [] else [c[|c| - 1]]
  }

  /** In a chain with unique keys, dropping the pairs with the key of the pair
      at `j` drops exactly that pair. */
  lemma {:induction false} WithoutAt<K, V>(c: seq<(K, V)>, j: nat)
    requires UniqueKeys(c) && j < |c|
    ensures Without(c, c[j].0) == c[..j] + c[j + 1..]
  {
    var c', last := c[..|c| - 1], c[|c| - 1];
    if j == |c| - 1 {
      WithoutAbsent(c', c[j].0);
      assert c[..j] + c[j + 1..] == c';
    } else {
      assert UniqueKeys(c') && c'[j] == c[j];
      WithoutAt(c', j);
      assert c[..j] + c[j + 1..] == c'[..j] + c'[j + 1..] + [last];
    }
  }

  /** Dropping a key no pair has leaves the chain as it is. */
  lemma {:induction false} WithoutAbsent<K, V>(c: seq<(K, V)>, k: K)
    requires forall q :: 0 <= q < |c| ==> c[q].0 != k
    ensures Without(c, k) == c
  {
    if |c| > 0 {
      WithoutAbsent(c[..|c| - 1], k);
    }
  }

  /** The inner loop of Rehash: move the pairs of `chain`, front to back,
      onto the ends of their chains among `n` in `into`, the table built so
      far from the pairs `before`. */
  method SpliceChain<K, V>(chain: seq<(K, V)>, hash: K -> nat, n: nat,
                           into: seq<seq<(K, V)>>, ghost before: seq<(K, V)>)
    returns (out: seq<seq<(K, V)>>)
    requires n > 0 && into == Distribute(before, hash, n)
    ensures out == Distribute(before + chain, hash, n)
  {
    out := into;
    var current := chain;
    ghost var j := 0;
    assert before + chain[..0] == before;
    while |current| > 0
      invariant 0 <= j <= |chain| && current == chain[j..]
      invariant out == Distribute(before + chain[..j], hash, n)
    {
      var p := current[0];
      var b := Bucket(hash, p.0, n);
      ghost var moved := before + chain[..j];
      assert (moved + [p])[..|moved|] == moved;
      assert before + chain[..j + 1] == moved + [p];
      out := out[b := out[b] + [p]];
      current := current[1..];
      j := j + 1;
    }
    assert chain[..j] == chain;
  }

  /** The table Rehash builds from a valid table is valid for `n` buckets and
      stands for the same map with the same number of pairs. */
  lemma RehashValid<K(!new), V>(t: seq<seq<(K, V)>>, hash: K -> nat, n: nat)
    requires Placed(t, hash) && forall i :: 0 <= i < |t| ==> UniqueKeys(t[i])
    requires n > 0
    ensures var t' := Distribute(Flatten(t), hash, n);
            Placed(t', hash) && (forall i :: 0 <= i < |t'| ==> UniqueKeys(t'[i])) &&
            |Flatten(t')| == |Flatten(t)| && TableMap(t') == TableMap(t)
  {
    FlattenUnique(t, hash, |t|);
    DistributeMap(Flatten(t), hash, n);
    DistributeUnique(Flatten(t), hash, n);
  }

  /** A hash map with separate chaining over buckets `table`, holding
      `elements` pairs; `hash` plays the part of std::hash. */
  class HashTable<K(==, !new), V> {
    const hash: K -> nat
    var table: seq<seq<(K, V)>>
    var capacity: nat
    var elements: nat

    /** Bucket count and capacity agree, every pair sits in its key's bucket,
        no chain repeats a key and `elements` counts the pairs. */
    ghost predicate Valid()
      reads this
    {
      capacity > 0 && |table| == capacity && Placed(table, hash) &&
      (forall i :: 0 <= i < |table| ==> UniqueKeys(table[i])) &&
      elements == |Flatten(table)|
    }

    /** The key/value map the table stands for. */
    ghost function Map(): map<K, V>
      reads this
    {
      TableMap(table)
    }

    /** A table with the default bucket count. */
    constructor (hash: K -> nat)
      ensures Valid() && Map() == map[]
      ensures this.hash == hash && capacity == InitCapacity && elements == 0
      ensures table == EmptyTable(InitCapacity)
    {
      this.hash, capacity, elements := hash, InitCapacity, 0;
      table := EmptyTable(InitCapacity);
      new;
      EmptyFlatten<K, V>(InitCapacity);
    }

    /** A table with `capacity` empty buckets. */
    constructor WithCapacity(hash: K -> nat, capacity: nat)
      requires capacity > 0
      ensures Valid() && Map() == map[]
      ensures this.hash == hash && this.capacity == capacity && elements == 0
      ensures table == EmptyTable(capacity)
    {
      this.hash, this.capacity, elements := hash, capacity, 0;
      table := EmptyTable(capacity);
      new;
      EmptyFlatten<K, V>(capacity);
    }

    /** A table holding the pairs of `pairs`, inserted in order, so that the
        first pair for a key wins. */
    constructor FromPairs(hash: K -> nat, pairs: seq<(K, V)>, capacity: nat)
      requires capacity > 0
      ensures Valid() && Map() == FirstWins(pairs)
      ensures this.hash == hash && this.capacity == capacity
    {
      this.hash, this.capacity, elements := hash, capacity, 0;
      table := EmptyTable(capacity);
      new;
      EmptyFlatten<K, V>(capacity);
      var i := 0;
      while i < |pairs|
        invariant 0 <= i <= |pairs|
        invariant Valid() && this.capacity == capacity
        invariant Map() == FirstWins(pairs[..i])
      {
        assert pairs[..i + 1][..i] == pairs[..i];
        Insert(pairs[i].0, pairs[i].1);
        i := i + 1;
      }
      assert pairs[..i] == pairs;
    }

    /** The bucket of `k`: std::hash modulo the bucket count. */
    function Index(k: K): (b: nat)
      reads this
      requires capacity > 0
      ensures b < capacity
    {
      Bucket(hash, k, capacity)
    }

    /** Look `k` up in its chain. */
    method Find(k: K) returns (r: Option<V>)
      requires Valid()
      ensures r == if k in Map() then Some(Map()[k]) else None
    {
      var chain := table[Index(k)];
      TableMapAt(table, hash, capacity, k);
      SeqMapKeys(chain, k);
      for i := 0 to |chain|
        invariant forall q :: 0 <= q < i ==> chain[q].0 != k
      {
        if chain[i].0 == k {
          SeqMapAt(chain, i);
          return Some(chain[i].1);
        }
      }
      return None;
    }

    /** Add `(k, v)` at the end of the chain of `k`, unless `k` is present:
        then nothing changes and the stored value is kept. */
    method Insert(k: K, v: V)
      requires Valid()
      modifies this
      ensures Valid() && capacity == old(capacity)
      ensures Map() == if k in old(Map()) then old(Map()) else old(Map())[k := v]
      ensures k in old(Map()) ==> table == old(table) && elements == old(elements)
      ensures k !in old(Map()) ==>
                table == old(table)[Index(k) := old(table)[Index(k)] + [(k, v)]] &&
                elements == old(elements) + 1
    {
      var index := Index(k);
      var found := Find(k);
      if found == None {
        var c := table[index] + [(k, v)];
        TableMapAt(table, hash, capacity, k);
        SeqMapKeys(table[index], k);
        InsertMap(table, hash, (k, v));
        FlattenUpdateLength(table, index, c);
        assert UniqueKeys(c);
        table := table[index := c];
        elements := elements + 1;
      }
    }

    /** Remove the pair for `k` from its chain, if there is one. */
    method Erase(k: K)
      requires Valid()
      modifies this
      ensures Valid() && capacity == old(capacity)
      ensures Map() == old(Map()) - {k}
      ensures elements == old(elements) - if k in old(Map()) then 1 else 0
      ensures table == old(table)[Index(k) := Without(old(table)[Index(k)], k)]
    {
      var index := Index(k);
      var chain := table[index];
      TableMapAt(table, hash, capacity, k);
      SeqMapKeys(chain, k);
      for i := 0 to |chain|
        invariant forall q :: 0 <= q < i ==> chain[q].0 != k
      {
        if chain[i].0 == k {
          var c := chain[..i] + chain[i + 1..];
          WithoutAt(chain, i);
          EraseMap(table, hash, index, i);
          RemoveUnique(chain, i);
          FlattenUpdateLength(table, index, c);
          table := table[index := c];
          elements := elements - 1;
          return;
        }
      }
      WithoutAbsent(chain, k);
      assert table[index := chain] == table;
      assert TableMap(table) - {k} == TableMap(table);
    }

    /** Empty every chain, keeping the bucket count. */
    method Clear()
      requires Valid()
      modifies this
      ensures Valid() && Map() == map[]
      ensures capacity == old(capacity) && elements == 0
      ensures table == EmptyTable(capacity)
    {
      table := EmptyTable(capacity);
      elements := 0;
      EmptyFlatten<K, V>(capacity);
    }

    /** Clear as the source writes it: the chains are emptied and the bucket
        vector is cleared too, while the pair count and the capacity stay. */
    method ClearAsWritten()
      requires Valid()
      modifies this
      ensures table == [] && elements == old(elements) && capacity == old(capacity)
      ensures forall k :: Index(k) >= |table|
      ensures old(elements) > 0 ==> elements != |Map()|
      ensures !Valid()
    {
      table := [];
    }

    /** Move every pair into a fresh table of `n` buckets, bucket by bucket and
        front to back within a chain, then adopt it. */
    method Rehash(n: nat)
      requires Valid() && n > 0
      modifies this
      ensures Valid()
      ensures table == Distribute(Flatten(old(table)), hash, n)
      ensures capacity == n && elements == old(elements)
      ensures Map() == old(Map())
    {
      var buckets, newTable := table, EmptyTable(n);
      ghost var moved: seq<(K, V)> := [];
      for i := 0 to capacity
        invariant unchanged(this)
        invariant moved == Flatten(buckets[..i])
        invariant newTable == Distribute(moved, hash, n)
      {
        newTable := SpliceChain(buckets[i], hash, n, newTable, moved);
        moved := moved + buckets[i];
        assert buckets[..i + 1][..i] == buckets[..i];
      }
      assert buckets[..capacity] == buckets;
      RehashValid(buckets, hash, n);
      table, capacity := newTable, n;
    }

    /** The pair count: the number of keys of the map. */
    method Size() returns (r: nat)
      requires Valid()
      ensures r == |Map()|
    {
      TableMapSize(table, hash);
      return elements;
    }

    /** Whether the table holds no pair. */
    method Empty() returns (r: bool)
      requires Valid()
      ensures r <==> Map() == map[]
    {
      TableMapSize(table, hash);
      return elements == 0;
    }
  }

  /** Inserting a key twice keeps one pair, holding the first value. */
  method DuplicateKeys(hash: string -> nat) returns (size: nat, found: Option<int>)
    ensures size == 1 && found == Some(5)
  {
    var table := new HashTable(hash);
    table.Insert("apple", 5);
    table.Insert("apple", 10);
    size := table.Size();
    found := table.Find("apple");
  }

  /** Erasing a key removes it; erasing an absent key changes nothing. */
  method EraseKeys(hash: string -> nat) returns (found: Option<int>, size: nat)
    ensures found == None && size == 0
  {
    var table := new HashTable(hash);
    table.Insert("grape", 25);
    table.Erase("grape");
    found := table.Find("grape");
    table.Erase("fig");
    size := table.Size();
  }

  /** After a rehash to 20 buckets every key still finds its value. */
  method RehashKeepsValues(hash: string -> nat) returns (a: Option<int>, b: Option<int>, c: Option<int>)
    ensures a == Some(30) && b == Some(35) && c == Some(40)
  {
    var table := new HashTable(hash);
    table.Insert("lemon", 30);
    table.Insert("mango", 35);
    table.Insert("orange", 40);
    table.Rehash(20);
    a := table.Find("lemon");
    b := table.Find("mango");
    c := table.Find("orange");
  }

  /** A table built from three pairs with distinct keys holds all three. */
  method ThreePairs(hash: string -> nat) returns (size: nat, found: Option<int>)
    ensures size == 3 && found == Some(10)
  {
    var pairs: seq<(string, int)> := [("apple", 5), ("banana", 10), ("cherry", 15)];
    assert pairs[..2][..1] == pairs[..1] && pairs[..3] == pairs;
    assert FirstWins(pairs[..1]) == map["apple" := 5];
    assert FirstWins(pairs[..2]) == map["apple" := 5, "banana" := 10];
    var table := new HashTable.FromPairs(hash, pairs, InitCapacity);
    size := table.Size();
    found := table.Find("banana");
  }
}
