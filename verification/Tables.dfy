/** Key-ordered tables, as the embedded store keeps them: rows in ascending key order, one row
    per key, iteration in key order. */
module Tables {
  import opened Wrappers

  datatype Row<+V> = Row(key: nat, value: V)

  type Table<+V> = seq<Row<V>>

  predicate Ascending<V>(t: Table<V>) {
    forall i, j | 0 <= i < j < |t| :: t[i].key < t[j].key
  }

  function Get<V>(t: Table<V>, key: nat): Option<V> {
    if t == [] then None
    else if t[0].key == key then Some(t[0].value)
    else Get(t[1..], key)
  }

  /** Inserts a row or overwrites the row with that key. */
  function Put<V>(t: Table<V>, key: nat, value: V): (r: Table<V>) {
    if t == [] || key < t[0].key then [Row(key, value)] + t
    else if t[0].key == key then [Row(key, value)] + t[1..]
    else [t[0]] + Put(t[1..], key, value)
  }

  function Without<V>(t: Table<V>, keys: set<nat>): (r: Table<V>)
    ensures |r| <= |t|
  {
    if t == [] then []
    else if t[0].key in keys then Without(t[1..], keys)
    else [t[0]] + Without(t[1..], keys)
  }

  /** The key after the last one. */
  function NextKey<V>(t: Table<V>): nat {
    if t == [] then 0 else t[|t| - 1].key + 1
  }

  lemma {:induction false} NextKeyIsBeyond<V>(t: Table<V>)
    requires Ascending(t)
    ensures forall i | 0 <= i < |t| :: t[i].key < NextKey(t)
  {
  }

  lemma {:induction false} GetAbsent<V>(t: Table<V>, key: nat)
    requires forall i | 0 <= i < |t| :: t[i].key != key
    ensures Get(t, key) == None
  {
    if t != [] {
      GetAbsent(t[1..], key);
    }
  }

  lemma {:induction false} GetAt<V>(t: Table<V>, i: nat)
    requires Ascending(t) && i < |t|
    ensures Get(t, t[i].key) == Some(t[i].value)
  {
    if i > 0 {
      GetAt(t[1..], i - 1);
    }
  }

  lemma {:induction false} GetFound<V>(t: Table<V>, key: nat) returns (i: nat)
    requires Get(t, key).Some?
    ensures i < |t| && t[i] == Row(key, Get(t, key).value)
  {
    if t[0].key == key {
      i := 0;
    } else {
      i := GetFound(t[1..], key);
      i := i + 1;
    }
  }

  lemma {:induction false} AscendingFrom<V>(first: Row<V>, later: Table<V>)
    requires Ascending(later) && forall r | r in later :: first.key < r.key
    ensures Ascending([first] + later)
  {
    forall j | 0 <= j < |later| ensures first.key < later[j].key {
      assert later[j] in later;
    }
  }

  lemma {:induction false} PutRows<V>(t: Table<V>, key: nat, value: V)
    ensures Put(t, key, value) != []
    ensures forall r | r in Put(t, key, value) :: r == Row(key, value) || r in t
    ensures Ascending(t) ==> Ascending(Put(t, key, value))
  {
    if t != [] && t[0].key < key {
      PutRows(t[1..], key, value);
      var later := Put(t[1..], key, value);
      if Ascending(t) {
        AscendingFrom(t[0], later);
      }
    }
  }

  /** A table holds what was put last under each key. */
  lemma {:induction false} GetOfPut<V>(t: Table<V>, key: nat, value: V, k: nat)
    requires Ascending(t)
    ensures Get(Put(t, key, value), k) == if k == key then Some(value) else Get(t, k)
  {
    if t != [] && t[0].key < key {
      GetOfPut(t[1..], key, value, k);
    }
  }

  /** A row beyond the last key overwrites nothing. */
  lemma {:induction false} PutBeyond<V>(t: Table<V>, key: nat, value: V)
    requires forall i | 0 <= i < |t| :: t[i].key < key
    ensures Put(t, key, value) == t + [Row(key, value)]
  {
    if t != [] {
      PutBeyond(t[1..], key, value);
      assert t == [t[0]] + t[1..];
    }
  }

  lemma {:induction false} PutInPlace<V>(before: Table<V>, row: Row<V>, after: Table<V>, value: V)
    requires Ascending(before + [row] + after)
    ensures Put(before + [row] + after, row.key, value) == before + [Row(row.key, value)] + after
  {
    var t := before + [row] + after;
    if before == [] {
      assert t == [row] + after;
    } else {
      assert t[0].key < t[|before|].key;
      assert t[1..] == before[1..] + [row] + after;
      PutInPlace(before[1..], row, after, value);
      assert before == [before[0]] + before[1..];
      assert t[0] == before[0];
    }
  }

  lemma {:induction false} WithoutRows<V>(t: Table<V>, keys: set<nat>)
    ensures forall r | r in Without(t, keys) :: r in t && r.key !in keys
    ensures Ascending(t) ==> Ascending(Without(t, keys))
  {
    if t != [] {
      WithoutRows(t[1..], keys);
      var later := Without(t[1..], keys);
      if Ascending(t) {
        AscendingFrom(t[0], later);
      }
    }
  }

  lemma {:induction false} WithoutNone<V>(t: Table<V>, keys: set<nat>)
    requires forall r | r in t :: r.key !in keys
    ensures Without(t, keys) == t
  {
    if t != [] {
      WithoutNone(t[1..], keys);
    }
  }

  lemma {:induction false} WithoutTwice<V>(t: Table<V>, a: set<nat>, b: set<nat>)
    ensures Without(Without(t, a), b) == Without(t, a + b)
  {
    if t != [] {
      WithoutTwice(t[1..], a, b);
      if t[0].key !in a {
        assert Without(t, a)[1..] == Without(t[1..], a);
      }
    }
  }

  lemma {:induction false} GetOfWithout<V>(t: Table<V>, keys: set<nat>, k: nat)
    ensures Get(Without(t, keys), k) == if k in keys then None else Get(t, k)
  {
    if t != [] {
      GetOfWithout(t[1..], keys, k);
    }
  }
}
