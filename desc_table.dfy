/**
 * The PHP arrays `$descriptions` and `$meta` of index.php: filename => description,
 * kept in insertion order. Assigning an existing key keeps its position, assigning a
 * new key appends it, and unset() removes it.
 */
module DescTable {
  import opened Wrappers

  datatype Pair = Pair(name: string, desc: string)

  type Table = seq<Pair>

  /** array_keys, in order. */
  function Names(t: Table): (r: seq<string>)
    ensures |r| == |t|
  {
    if t == [] then [] else [t[0].name] + Names(t[1..])
  }

  lemma {:induction false} NamesAt(t: Table, i: nat)
    requires i < |t|
    ensures Names(t)[i] == t[i].name
  {
    if i > 0 { NamesAt(t[1..], i - 1); }
  }

  lemma {:induction false} NamesSnoc(t: Table, p: Pair)
    ensures Names(t + [p]) == Names(t) + [p.name]
  {
    if t != [] {
      assert (t + [p])[1..] == t[1..] + [p];
      NamesSnoc(t[1..], p);
    }
  }

  /** No filename appears twice, as in every PHP array. */
  ghost predicate UniqueKeys(t: Table) {
    forall i, j :: 0 <= i < j < |t| ==> t[i].name != t[j].name
  }

  /** `$t[$k] ?? null`. */
  function Lookup(t: Table, k: string): (r: Option<string>)
    ensures r.None? <==> k !in Names(t)
    ensures r.Some? ==> Pair(k, r.value) in t
  {
    if t == [] then None
    else if t[0].name == k then Some(t[0].desc)
    else Lookup(t[1..], k)
  }

  /** `$t[$k] = $v`: k now maps to v, every other key is untouched, and only a new key changes the order. */
  function Put(t: Table, k: string, v: string): (r: Table)
    ensures Lookup(r, k) == Some(v)
    ensures forall k' :: k' != k ==> Lookup(r, k') == Lookup(t, k')
    ensures k !in Names(t) ==> r == t + [Pair(k, v)]
    ensures k in Names(t) ==> Names(r) == Names(t)
    ensures forall p :: p in r ==> p in t || p == Pair(k, v)
  {
    if t == [] then [Pair(k, v)]
    else if t[0].name == k then
      assert t == [t[0]] + t[1..];
      PutFront(t[0], t[1..], k, v);
      [Pair(k, v)] + t[1..]
    else
      var rest := Put(t[1..], k, v);
      assert t == [t[0]] + t[1..];
      PutBehind(t[0], t[1..], rest, k, v);
      [t[0]] + rest
  }

  /** Assigning to the key of the first pair replaces that pair where it stands. */
  lemma PutFront(h: Pair, t: Table, k: string, v: string)
    requires h.name == k
    ensures Lookup([Pair(k, v)] + t, k) == Some(v)
    ensures forall k' :: k' != k ==> Lookup([Pair(k, v)] + t, k') == Lookup([h] + t, k')
    ensures k in Names([h] + t) && Names([Pair(k, v)] + t) == Names([h] + t)
    ensures forall p :: p in [Pair(k, v)] + t ==> p in [h] + t || p == Pair(k, v)
  {
    assert ([Pair(k, v)] + t)[1..] == t && ([h] + t)[1..] == t;
    assert Names([h] + t) == [k] + Names(t);
  }

  /** Assigning behind a pair with another key: what holds of the rest holds with that pair in front. */
  lemma PutBehind(h: Pair, t: Table, r: Table, k: string, v: string)
    requires h.name != k
    requires Lookup(r, k) == Some(v)
    requires forall k' :: k' != k ==> Lookup(r, k') == Lookup(t, k')
    requires k !in Names(t) ==> r == t + [Pair(k, v)]
    requires k in Names(t) ==> Names(r) == Names(t)
    requires forall p :: p in r ==> p in t || p == Pair(k, v)
    ensures Lookup([h] + r, k) == Some(v)
    ensures forall k' :: k' != k ==> Lookup([h] + r, k') == Lookup([h] + t, k')
    ensures k !in Names([h] + t) ==> [h] + r == [h] + t + [Pair(k, v)]
    ensures k in Names([h] + t) ==> Names([h] + r) == Names([h] + t)
    ensures forall p :: p in [h] + r ==> p in [h] + t || p == Pair(k, v)
  {
    LookupBehind(h, t, r, k);
    NamesBehind(h, t, r, k, v);
  }

  lemma LookupBehind(h: Pair, t: Table, r: Table, k: string)
    requires h.name != k
    requires forall k' :: k' != k ==> Lookup(r, k') == Lookup(t, k')
    ensures Lookup([h] + r, k) == Lookup(r, k)
    ensures forall k' :: k' != k ==> Lookup([h] + r, k') == Lookup([h] + t, k')
  {
    assert ([h] + r)[1..] == r && ([h] + t)[1..] == t;
  }

  lemma NamesBehind(h: Pair, t: Table, r: Table, k: string, v: string)
    requires k !in Names(t) ==> r == t + [Pair(k, v)]
    requires k in Names(t) ==> Names(r) == Names(t)
    requires h.name != k
    ensures k !in Names([h] + t) ==> [h] + r == [h] + t + [Pair(k, v)]
    ensures k in Names([h] + t) ==> Names([h] + r) == Names([h] + t)
  {
    assert ([h] + r)[1..] == r && ([h] + t)[1..] == t;
  }

  /** Assignment never makes a key appear twice. */
  lemma PutKeepsKeysUnique(t: Table, k: string, v: string)
    requires UniqueKeys(t)
    ensures UniqueKeys(Put(t, k, v))
  {
    var r := Put(t, k, v);
    if k !in Names(t) {
      forall i | 0 <= i < |t| ensures t[i].name != k { NamesAt(t, i); }
    } else {
      forall i, j | 0 <= i < j < |r| ensures r[i].name != r[j].name {
        NamesAt(r, i); NamesAt(r, j); NamesAt(t, i); NamesAt(t, j);
      }
    }
  }

  /** `unset($t[$k])`: k is gone and every other pair stays, in its order. */
  function Remove(t: Table, k: string): (r: Table)
    ensures Lookup(r, k) == None
    ensures forall k' :: k' != k ==> Lookup(r, k') == Lookup(t, k')
    ensures forall p :: p in r <==> p in t && p.name != k
    ensures k !in Names(t) ==> r == t
  {
    if t == [] then []
    else if t[0].name == k then Remove(t[1..], k)
    else [t[0]] + Remove(t[1..], k)
  }

  /** Removal never makes a key appear twice. */
  lemma {:induction false} RemoveKeepsKeysUnique(t: Table, k: string)
    requires UniqueKeys(t)
    ensures UniqueKeys(Remove(t, k))
  {
    if t != [] {
      UniqueTail(t);
      RemoveKeepsKeysUnique(t[1..], k);
      if t[0].name != k {
        UniqueCons(t[0], Remove(t[1..], k));
      }
    }
  }

  /**
   * In a table without repeated keys, unsetting a present key cuts out its one pair and
   * keeps the others in their order, the order in which the writer emits them.
   */
  lemma {:induction false} RemoveCutsOnePair(t: Table, k: string)
    requires UniqueKeys(t) && k in Names(t)
    ensures exists i :: 0 <= i < |t| && t[i].name == k && Remove(t, k) == t[..i] + t[i + 1..]
  {
    UniqueTail(t);
    if t[0].name == k {
      assert k !in Names(t[1..]) by {
        forall i | 0 <= i < |t| - 1 ensures Names(t[1..])[i] != k {
          NamesAt(t[1..], i);
          assert t[1..][i] in t[1..];
        }
      }
      assert Remove(t, k) == t[..0] + t[1..];
    } else {
      RemoveCutsOnePair(t[1..], k);
      var j :| 0 <= j < |t| - 1 && t[1..][j].name == k && Remove(t[1..], k) == t[1..][..j] + t[1..][j + 1..];
      assert Remove(t, k) == [t[0]] + Remove(t[1..], k);
      CutBehindFirst(t, j);
      assert t[j + 1].name == k;
    }
  }

  /** Cutting index j out of the tail and putting the head back cuts index j + 1 out of the table. */
  lemma CutBehindFirst(t: Table, j: nat)
    requires j + 1 < |t|
    ensures [t[0]] + (t[1..][..j] + t[1..][j + 1..]) == t[..j + 1] + t[j + 2..]
  {
    var a, b := [t[0]] + (t[1..][..j] + t[1..][j + 1..]), t[..j + 1] + t[j + 2..];
    assert |a| == |b|;
    forall i | 0 <= i < |a| ensures a[i] == b[i] {
      if i > j {
        assert a[i] == t[i + 1];
      }
    }
  }

  /** Behind its first pair, a table without repeated keys has none either, and not the first key. */
  lemma UniqueTail(t: Table)
    requires UniqueKeys(t) && t != []
    ensures UniqueKeys(t[1..]) && forall q :: q in t[1..] ==> q.name != t[0].name
  {
    forall i, j | 0 <= i < j < |t| - 1 ensures t[1..][i].name != t[1..][j].name {
      assert t[1..][i] == t[i + 1] && t[1..][j] == t[j + 1];
    }
    forall q | q in t[1..] ensures q.name != t[0].name {
      var j :| 0 <= j < |t| - 1 && t[1..][j] == q;
      assert t[j + 1] == q;
    }
  }

  /** A pair whose key the rest lacks can go in front of a table without repeated keys. */
  lemma UniqueCons(p: Pair, rest: Table)
    requires UniqueKeys(rest) && forall q :: q in rest ==> q.name != p.name
    ensures UniqueKeys([p] + rest)
  {
    var r := [p] + rest;
    forall i, j | 0 <= i < j < |r| ensures r[i].name != r[j].name {
      assert r[j] == rest[j - 1] && r[j] in rest;
      if i > 0 { assert r[i] == rest[i - 1]; }
    }
  }

  /** In a table without repeated keys, a pair it holds is what Lookup finds. */
  lemma {:induction false} MemberLookup(t: Table, p: Pair)
    requires UniqueKeys(t) && p in t
    ensures Lookup(t, p.name) == Some(p.desc)
  {
    if t[0] != p {
      assert p in t[1..];
      MemberLookup(t[1..], p);
    }
  }
}
