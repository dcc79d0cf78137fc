/**
 * Ordered string-keyed maps, the shape of a PHP array: entries keep their
 * insertion order, assigning to an existing key keeps its position, and
 * assigning to a new key appends it.
 */
module AssocLists {
  import opened Wrappers

  type Entries<V> = seq<(string, V)>

  function Keys<V>(d: Entries<V>): set<string> {
    set i | 0 <= i < |d| :: d[i].0
  }

  /** No key occurs twice, as in every PHP array. */
  predicate Distinct<V>(d: Entries<V>) {
    forall i, j | 0 <= i < j < |d| :: d[i].0 != d[j].0
  }

  /** `$d[$k]` when the key is set. */
  function Lookup<V>(d: Entries<V>, k: string): Option<V> {
    if d == [] then None
    else if d[0].0 == k then Some(d[0].1)
    else Lookup(d[1..], k)
  }

  /** `$d[$k] = $v`. */
  function Put<V>(d: Entries<V>, k: string, v: V): Entries<V> {
    if d == [] then [(k, v)]
    else if d[0].0 == k then [(k, v)] + d[1..]
    else [d[0]] + Put(d[1..], k, v)
  }

  /** `unset($d[$k])`. */
  function Remove<V>(d: Entries<V>, k: string): Entries<V> {
    if d == [] then []
    else if d[0].0 == k then Remove(d[1..], k)
    else [d[0]] + Remove(d[1..], k)
  }

  /** The keys in array order. */
  function KeyOrder<V>(d: Entries<V>): (r: seq<string>)
    ensures |r| == |d| && forall i | 0 <= i < |d| :: r[i] == d[i].0
  {
    seq(|d|, i requires 0 <= i < |d| => d[i].0)
  }

  lemma KeysTail<V>(d: Entries<V>)
    requires d != []
    ensures Keys(d) == {d[0].0} + Keys(d[1..])
  {
    forall x | x in Keys(d) ensures x in {d[0].0} + Keys(d[1..]) {
      var i :| 0 <= i < |d| && d[i].0 == x;
      if i > 0 { assert d[1..][i - 1].0 == x; }
    }
    forall x | x in Keys(d[1..]) ensures x in Keys(d) {
      var i :| 0 <= i < |d[1..]| && d[1..][i].0 == x;
      assert d[i + 1].0 == x;
    }
  }

  lemma HeadNotInTail<V>(d: Entries<V>)
    requires Distinct(d) && d != []
    ensures d[0].0 !in Keys(d[1..])
  {
    forall i | 0 <= i < |d[1..]| ensures d[1..][i].0 != d[0].0 {
      assert d[1..][i] == d[i + 1];
    }
  }

  /** A key is found exactly when it is present. */
  lemma {:induction false} LookupPresent<V>(d: Entries<V>, k: string)
    ensures Lookup(d, k).Some? <==> k in Keys(d)
  {
    if d != [] {
      KeysTail(d);
      LookupPresent(d[1..], k);
    }
  }

  /** With distinct keys, every entry is what its key looks up. */
  lemma {:induction false} LookupAt<V>(d: Entries<V>, i: nat)
    requires Distinct(d) && i < |d|
    ensures Lookup(d, d[i].0) == Some(d[i].1)
  {
    if i > 0 {
      assert d[0].0 != d[i].0;
      assert d[1..][i - 1] == d[i];
      LookupAt(d[1..], i - 1);
    }
  }

  /** Every key reads the same value in both arrays. */
  ghost predicate SameValues<V>(a: Entries<V>, b: Entries<V>) {
    forall k :: Lookup(a, k) == Lookup(b, k)
  }

  /** PHP's `===` on arrays: two arrays with distinct keys are identical
      exactly when they list the same keys in the same order and every key
      reads the same value. */
  lemma SameArray<V>(a: Entries<V>, b: Entries<V>)
    requires Distinct(a) && Distinct(b)
    ensures a == b <==> KeyOrder(a) == KeyOrder(b) && SameValues(a, b)
  {
    if KeyOrder(a) == KeyOrder(b) && SameValues(a, b) {
      assert |a| == |KeyOrder(a)| == |KeyOrder(b)| == |b|;
      forall i | 0 <= i < |a| ensures a[i] == b[i] {
        LookupAt(a, i);
        LookupAt(b, i);
        assert a[i].0 == KeyOrder(a)[i] == b[i].0;
      }
      assert a == b;
    }
  }

  /** What is put is found afterwards, and no other key's value changes. */
  lemma {:induction false} LookupPut<V>(d: Entries<V>, k: string, v: V, other: string)
    ensures Lookup(Put(d, k, v), k) == Some(v)
    ensures other != k ==> Lookup(Put(d, k, v), other) == Lookup(d, other)
  {
    if d != [] && d[0].0 != k {
      LookupPut(d[1..], k, v, other);
    }
  }

  /** Putting adds the key to the key set and keeps keys distinct. */
  lemma {:induction false} PutKeys<V>(d: Entries<V>, k: string, v: V)
    requires Distinct(d)
    ensures Keys(Put(d, k, v)) == Keys(d) + {k}
    ensures Distinct(Put(d, k, v))
  {
    var r := Put(d, k, v);
    if d == [] {
      assert r == [(k, v)];
      KeysTail(r);
    } else if d[0].0 == k {
      KeysTail(d);
      KeysTail(r);
      assert r[1..] == d[1..];
    } else {
      PutKeys(d[1..], k, v);
      KeysTail(d);
      KeysTail(r);
      assert r[1..] == Put(d[1..], k, v);
      forall j | 0 < j < |r| ensures r[0].0 != r[j].0 {
        assert r[j].0 in Keys(r[1..]);
        HeadNotInTail(d);
      }
    }
  }

  /** After removal the key is gone and no other key's value changes. */
  lemma {:induction false} LookupRemove<V>(d: Entries<V>, k: string, other: string)
    ensures Lookup(Remove(d, k), k) == None
    ensures other != k ==> Lookup(Remove(d, k), other) == Lookup(d, other)
  {
    if d != [] {
      LookupRemove(d[1..], k, other);
    }
  }

  /** Removing takes the key out of the key set and keeps keys distinct. */
  lemma {:induction false} RemoveKeys<V>(d: Entries<V>, k: string)
    requires Distinct(d)
    ensures Keys(Remove(d, k)) == Keys(d) - {k}
    ensures Distinct(Remove(d, k))
  {
    if d != [] {
      RemoveKeys(d[1..], k);
      KeysTail(d);
      if d[0].0 != k {
        var r := Remove(d, k);
        KeysTail(r);
        assert r[1..] == Remove(d[1..], k);
        forall j | 0 < j < |r| ensures r[0].0 != r[j].0 {
          assert r[j].0 in Keys(r[1..]);
          HeadNotInTail(d);
        }
      }
    }
  }

  /** Assigning a present key keeps every key where it was. */
  lemma {:induction false} PutPresentKeepsOrder<V>(d: Entries<V>, k: string, v: V)
    requires k in Keys(d)
    ensures |Put(d, k, v)| == |d|
    ensures forall i | 0 <= i < |d| :: Put(d, k, v)[i].0 == d[i].0
  {
    KeysTail(d);
    if d[0].0 != k {
      PutPresentKeepsOrder(d[1..], k, v);
    }
  }

  /** Assigning an absent key appends it. */
  lemma {:induction false} PutAbsentAppends<V>(d: Entries<V>, k: string, v: V)
    requires k !in Keys(d)
    ensures Put(d, k, v) == d + [(k, v)]
  {
    if d != [] {
      KeysTail(d);
      PutAbsentAppends(d[1..], k, v);
      assert d == [d[0]] + d[1..];
    }
  }

  /** Assigning a key the value it already has leaves the array identical
      (same entries, same order). */
  lemma {:induction false} PutSameValue<V>(d: Entries<V>, k: string, v: V)
    requires Lookup(d, k) == Some(v)
    ensures Put(d, k, v) == d
  {
    if d[0].0 != k {
      PutSameValue(d[1..], k, v);
    }
  }

  /** In an array with distinct keys, removal cuts out exactly the one entry. */
  lemma {:induction false} RemoveAt<V>(d: Entries<V>, i: nat)
    requires Distinct(d) && i < |d|
    ensures Remove(d, d[i].0) == d[..i] + d[i + 1..]
  {
    if i == 0 {
      RemoveAbsent(d[1..], d[0].0);
      assert d[1..] == d[i + 1..];
    } else {
      RemoveAt(d[1..], i - 1);
      assert d[1..][i - 1].0 == d[i].0;
      assert d[..i] == [d[0]] + d[1..][..i - 1];
      assert d[i + 1..] == d[1..][i..];
    }
  }

  lemma {:induction false} RemoveAbsent<V>(d: Entries<V>, k: string)
    requires forall j | 0 <= j < |d| :: d[j].0 != k
    ensures Remove(d, k) == d
  {
    if d != [] {
      RemoveAbsent(d[1..], k);
      assert d == [d[0]] + d[1..];
    }
  }

  /** Unsetting a key and setting it again to the same value moves it to the
      end of the array. */
  lemma UnsetThenResetAppends<V>(d: Entries<V>, i: nat)
    requires Distinct(d) && i < |d|
    ensures Put(Remove(d, d[i].0), d[i].0, d[i].1) == d[..i] + d[i + 1..] + [d[i]]
  {
    RemoveAt(d, i);
    RemoveKeys(d, d[i].0);
    PutAbsentAppends(Remove(d, d[i].0), d[i].0, d[i].1);
  }

  /** So unset-then-reset gives back the identical array exactly when the key
      was already the last one. */
  lemma UnsetThenResetReorders<V>(d: Entries<V>, i: nat)
    requires Distinct(d) && i < |d|
    ensures Put(Remove(d, d[i].0), d[i].0, d[i].1) == d <==> i == |d| - 1
  {
    UnsetThenResetAppends(d, i);
    var r := d[..i] + d[i + 1..] + [d[i]];
    if i < |d| - 1 {
      assert r[i] == d[i + 1];
      assert d[i + 1].0 != d[i].0;
    } else {
      assert d[i + 1..] == [];
      assert d == d[..i] + [d[i]];
    }
  }
}
