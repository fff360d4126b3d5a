/** PHP's ordered arrays with string keys, as the scanner builds them.

    An ordered map is the list of its key/value pairs in insertion order.
    Assigning to a key that is present replaces the value in place; assigning
    to a new key appends the pair at the end. Iteration (`foreach`) visits the
    pairs in list order. */
module OrderedMaps {
  import opened Basics

  /** The set of keys of `m`. */
  function Keys<V>(m: seq<(string, V)>): set<string>
  {
    if m == [] then {} else {m[0].0} + Keys(m[1..])
  }

  /** The value stored under `k`, if any (the first one, should keys repeat). */
  function Lookup<V>(m: seq<(string, V)>, k: string): (r: Option<V>)
    ensures r.Some? <==> k in Keys(m)
  {
    if m == [] then None
    else if m[0].0 == k then Some(m[0].1)
    else Lookup(m[1..], k)
  }

  /** No key occurs twice: the shape every PHP array has. */
  ghost predicate DistinctKeys<V>(m: seq<(string, V)>)
  {
    forall i, j :: 0 <= i < j < |m| ==> m[i].0 != m[j].0
  }

  /** `$m[$k] = $v`. */
  function Put<V>(m: seq<(string, V)>, k: string, v: V): (r: seq<(string, V)>)
    ensures Keys(r) == Keys(m) + {k}
    ensures Lookup(r, k) == Some(v)
    ensures forall k' :: k' != k ==> Lookup(r, k') == Lookup(m, k')
    ensures k !in Keys(m) ==> r == m + [(k, v)]
    ensures k in Keys(m) ==> |r| == |m| && forall i :: 0 <= i < |m| ==> r[i].0 == m[i].0
  {
    if m == [] then [(k, v)]
    else if m[0].0 == k then [(k, v)] + m[1..]
    else [m[0]] + Put(m[1..], k, v)
  }

  lemma {:induction false} KeysAppend<V>(m: seq<(string, V)>, n: seq<(string, V)>)
    ensures Keys(m + n) == Keys(m) + Keys(n)
  {
    if m != [] {
      assert (m + n)[1..] == m[1..] + n;
      KeysAppend(m[1..], n);
    } else {
      assert m + n == n;
    }
  }

  lemma {:induction false} KeysIndex<V>(m: seq<(string, V)>, k: string)
    ensures k in Keys(m) <==> exists i :: 0 <= i < |m| && m[i].0 == k
  {
    if m != [] {
      KeysIndex(m[1..], k);
      if k in Keys(m[1..]) {
        var i :| 0 <= i < |m[1..]| && m[1..][i].0 == k;
        assert m[i + 1].0 == k;
      }
      if exists i :: 0 <= i < |m| && m[i].0 == k {
        var i :| 0 <= i < |m| && m[i].0 == k;
        if i > 0 {
          assert m[1..][i - 1].0 == k;
        }
      }
    }
  }

  /** Assigning to the key that was appended last replaces that value
      where it stands. */
  lemma {:induction false} PutLast<V>(m: seq<(string, V)>, k: string, v: V, w: V)
    requires k !in Keys(m)
    ensures Put(m + [(k, v)], k, w) == m + [(k, w)]
  {
    if m != [] {
      assert (m + [(k, v)])[1..] == m[1..] + [(k, v)];
      PutLast(m[1..], k, v, w);
    }
  }

  /** Assigning into a PHP array keeps its keys unique. */
  lemma {:induction false} PutKeepsKeysDistinct<V>(m: seq<(string, V)>, k: string, v: V)
    requires DistinctKeys(m)
    ensures DistinctKeys(Put(m, k, v))
  {
    var r := Put(m, k, v);
    if k !in Keys(m) {
      forall i | 0 <= i < |m| ensures m[i].0 != k {
        KeysIndex(m, k);
      }
    } else {
      assert forall i :: 0 <= i < |m| ==> r[i].0 == m[i].0;
    }
  }
}
