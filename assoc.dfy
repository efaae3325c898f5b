/**
 * Insertion-ordered association lists with string keys: the model of a plain
 * JavaScript object used as a dictionary (iterated by `Object.keys` and
 * `Object.entries` in insertion order). Writing an existing key replaces its
 * value in place; writing a new key appends it.
 */
module Assoc {
  import opened Wrappers

  function Keys<V>(m: seq<(string, V)>): (ks: seq<string>)
    ensures |ks| == |m|
    ensures forall i :: 0 <= i < |m| ==> ks[i] == m[i].0
  {
    if m == [] then [] else [m[0].0] + Keys(m[1..])
  }

  predicate Distinct<T(==)>(s: seq<T>) {
    forall i, j :: 0 <= i < j < |s| ==> s[i] != s[j]
  }

  /** Every key occurs once, as in a JavaScript object. */
  predicate UniqueKeys<V>(m: seq<(string, V)>) {
    Distinct(Keys(m))
  }

  /** `m[k]`, or `None` for `undefined`. */
  function Lookup<V>(m: seq<(string, V)>, k: string): Option<V> {
    if m == [] then None
    else if m[0].0 == k then Some(m[0].1)
    else Lookup(m[1..], k)
  }

  /** `m[k] = v`: replaces the value under `k` in place, or appends `(k, v)`. */
  function Put<V>(m: seq<(string, V)>, k: string, v: V): seq<(string, V)> {
    if m == [] then [(k, v)]
    else if m[0].0 == k then [(k, v)] + m[1..]
    else [m[0]] + Put(m[1..], k, v)
  }

  /** A key reads a value exactly when it is one of the keys. */
  lemma {:induction false} LookupDefined<V>(m: seq<(string, V)>, k: string)
    ensures Lookup(m, k).Some? <==> k in Keys(m)
  {
    if m != [] && m[0].0 != k {
      LookupDefined(m[1..], k);
    }
  }

  /** `m[k] = v` keeps the keys and their order, appending `k` when it is new. */
  lemma {:induction false} PutKeys<V>(m: seq<(string, V)>, k: string, v: V)
    ensures Keys(Put(m, k, v)) == if k in Keys(m) then Keys(m) else Keys(m) + [k]
  {
    if m != [] && m[0].0 != k {
      PutKeys(m[1..], k, v);
    }
  }

  /** The keys after `m[k] = v` are the old keys and `k`. */
  lemma PutKeysMembership<V>(m: seq<(string, V)>, k: string, v: V, k': string)
    ensures k' in Keys(Put(m, k, v)) <==> k' in Keys(m) || k' == k
  {
    PutKeys(m, k, v);
  }

  /** After `m[k] = v`, `k` reads `v` and every other key reads what it read before. */
  lemma {:induction false} LookupPut<V>(m: seq<(string, V)>, k: string, v: V, k': string)
    ensures Lookup(Put(m, k, v), k') == if k' == k then Some(v) else Lookup(m, k')
  {
    if m != [] && m[0].0 != k {
      LookupPut(m[1..], k, v, k');
    }
  }

  lemma PutKeepsUniqueKeys<V>(m: seq<(string, V)>, k: string, v: V)
    requires UniqueKeys(m)
    ensures UniqueKeys(Put(m, k, v))
  {
    PutKeys(m, k, v);
  }

  /** Writing a key twice is writing it once, with the second value. */
  lemma {:induction false} PutPut<V>(m: seq<(string, V)>, k: string, v: V, w: V)
    ensures Put(Put(m, k, v), k, w) == Put(m, k, w)
  {
    if m != [] && m[0].0 != k {
      PutPut(m[1..], k, v, w);
    }
  }

  /** A key of a non-empty list is a key of all but its last entry, or the last entry's. */
  lemma {:induction false} KeysSnocMembership<V>(m: seq<(string, V)>, k: string)
    requires m != []
    ensures k in Keys(m) <==> k in Keys(m[..|m| - 1]) || k == m[|m| - 1].0
  {
    if |m| > 1 {
      var tail := m[1..];
      assert m[..|m| - 1][1..] == tail[..|tail| - 1];
      KeysSnocMembership(tail, k);
    }
  }

  // ---------------------------------------------------------------- insertion order

  /**
   * The keys that a sequence of writes leaves, in insertion order: each write
   * (`Some(k)`) appends `k` unless it is already a key; `None` writes nothing.
   */
  function KeyFold(writes: seq<Option<string>>): seq<string>
    decreases |writes|
  {
    if writes == [] then []
    else
      var keys := KeyFold(writes[..|writes| - 1]);
      match writes[|writes| - 1]
      case Some(k) => if k in keys then keys else keys + [k]
      case None => keys
  }

  /** The position of the first write of `k`, or `|writes|` when there is none. */
  function FirstWrite(writes: seq<Option<string>>, k: string): (f: nat)
    ensures f <= |writes|
    ensures f < |writes| ==> writes[f] == Some(k)
    ensures forall i :: 0 <= i < f ==> writes[i] != Some(k)
    decreases |writes|
  {
    if writes == [] then 0
    else
      var f := FirstWrite(writes[..|writes| - 1], k);
      if f < |writes| - 1 then f
      else if writes[|writes| - 1] == Some(k) then |writes| - 1
      else |writes|
  }

  /**
   * The keys left by a sequence of writes are exactly the keys written, each
   * once, ordered by their first write.
   */
  lemma {:induction false} KeyFoldOrder(writes: seq<Option<string>>)
    ensures forall k :: k in KeyFold(writes) <==> FirstWrite(writes, k) < |writes|
    ensures forall i, j :: 0 <= i < j < |KeyFold(writes)| ==>
      FirstWrite(writes, KeyFold(writes)[i]) < FirstWrite(writes, KeyFold(writes)[j])
    decreases |writes|
  {
    if writes != [] {
      var prefix := writes[..|writes| - 1];
      var keys := KeyFold(prefix);
      KeyFoldOrder(prefix);
      forall k | k in keys
        ensures FirstWrite(writes, k) == FirstWrite(prefix, k)
      {
      }
      match writes[|writes| - 1]
      case Some(k) =>
        if k !in keys {
          assert FirstWrite(writes, k) == |prefix|;
          assert forall i :: 0 <= i < |keys| ==> keys[i] in keys;
        }
      case None =>
    }
  }

  /** Nothing is written before the first write of the first key in insertion order. */
  lemma KeyFoldFirst(writes: seq<Option<string>>)
    requires KeyFold(writes) != []
    ensures forall i :: 0 <= i < FirstWrite(writes, KeyFold(writes)[0]) ==> writes[i].None?
  {
    KeyFoldOrder(writes);
    forall i | 0 <= i < FirstWrite(writes, KeyFold(writes)[0])
      ensures writes[i].None?
    {
      match writes[i]
      case Some(k) =>
        // the membership of `k`, which the order lemma ties to its first write
        var kept := k in KeyFold(writes);
        assert false;
      case None =>
    }
  }
}
