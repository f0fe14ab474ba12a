/** A Python `dict` as the JSON decoder and the extraction code build it: a
    sequence of key/value pairs in insertion order. Assigning to a key that
    is already present replaces its value where it stands; assigning to a
    new key appends the pair at the end. */
module OrderedDict {
  import opened Wrappers

  type Dict<V> = seq<(string, V)>

  /** The keys in iteration order. */
  function Keys<V>(d: Dict<V>): (ks: seq<string>)
    ensures |ks| == |d| && forall i :: 0 <= i < |d| ==> ks[i] == d[i].0
  {
    seq(|d|, i requires 0 <= i < |d| => d[i].0)
  }

  /** The set of keys present. */
  ghost function KeySet<V>(d: Dict<V>): set<string>
  {
    if d == [] then {} else {d[0].0} + KeySet(d[1..])
  }

  lemma {:induction false} KeySetAt<V>(d: Dict<V>, k: string)
    ensures k in KeySet(d) <==> exists i :: 0 <= i < |d| && d[i].0 == k
  {
    if d != [] {
      KeySetAt(d[1..], k);
      if k in KeySet(d[1..]) {
        var i :| 0 <= i < |d[1..]| && d[1..][i].0 == k;
        assert d[i + 1].0 == k;
      }
      if i :| 0 < i < |d| && d[i].0 == k {
        assert d[1..][i - 1].0 == k;
      }
    }
  }

  /** No key occurs twice, as in every dictionary Python builds. */
  ghost predicate DistinctKeys<V>(d: Dict<V>)
  {
    forall i, j :: 0 <= i < j < |d| ==> d[i].0 != d[j].0
  }

  /** `d.get(k)`: the value stored under the first occurrence of `k`, or
      `None` when `k` is absent. */
  function Get<V>(d: Dict<V>, k: string): (r: Option<V>)
    ensures r.None? <==> k !in KeySet(d)
  {
    if d == [] then None
    else if d[0].0 == k then Some(d[0].1)
    else Get(d[1..], k)
  }

  /** A present key yields the value of the first pair that holds it. */
  lemma {:induction false} GetFirst<V>(d: Dict<V>, k: string)
    ensures Get(d, k).Some? ==>
              exists i :: 0 <= i < |d| && d[i] == (k, Get(d, k).value)
                          && forall j :: 0 <= j < i ==> d[j].0 != k
  {
    if d != [] {
      if d[0].0 == k {
        assert d[0] == (k, Get(d, k).value);
      } else if Get(d, k).Some? {
        var v := Get(d, k).value;
        GetFirst(d[1..], k);
        var i :| 0 <= i < |d[1..]| && d[1..][i] == (k, v)
                 && forall j :: 0 <= j < i ==> d[1..][j].0 != k;
        assert d[i + 1] == (k, v);
        forall j | 0 <= j < i + 1 ensures d[j].0 != k {
          if j > 0 { assert d[j] == d[1..][j - 1]; }
        }
      }
    }
  }

  /** `d[k] = v`: afterwards `k` maps to `v`, every other key keeps its value
      and the key set gains `k`. */
  function Set<V>(d: Dict<V>, k: string, v: V): (r: Dict<V>)
    ensures |r| >= |d| && Get(r, k) == Some(v)
    ensures forall k' :: k' != k ==> Get(r, k') == Get(d, k')
    ensures KeySet(r) == KeySet(d) + {k}
  {
    if d == [] then
      [(k, v)]
    else if d[0].0 == k then
      var r := [(k, v)] + d[1..];
      assert r[1..] == d[1..];
      r
    else
      var rest := Set(d[1..], k, v);
      var r := [d[0]] + rest;
      assert r[1..] == rest;
      r
  }

  /** `d[k] = v` on an existing key leaves every key where it was. */
  lemma {:induction false} SetKeepsPosition<V>(d: Dict<V>, k: string, v: V)
    requires k in KeySet(d)
    ensures Keys(Set(d, k, v)) == Keys(d)
  {
    var r := Set(d, k, v);
    if d[0].0 == k {
      assert r == [(k, v)] + d[1..];
      assert forall i :: 0 <= i < |d| ==> Keys(r)[i] == Keys(d)[i];
    } else {
      var rest := Set(d[1..], k, v);
      SetKeepsPosition(d[1..], k, v);
      assert r == [d[0]] + rest;
      assert Keys(r) == [d[0].0] + Keys(rest);
      assert Keys(d) == [d[0].0] + Keys(d[1..]);
    }
  }

  /** `d[k] = v` on a new key appends the pair at the end. */
  lemma {:induction false} SetAppends<V>(d: Dict<V>, k: string, v: V)
    requires k !in KeySet(d)
    ensures Set(d, k, v) == d + [(k, v)]
  {
    if d != [] {
      SetAppends(d[1..], k, v);
      assert d == [d[0]] + d[1..];
    }
  }

  /** `d[k] = v` keeps the keys distinct. */
  lemma {:induction false} SetDistinct<V>(d: Dict<V>, k: string, v: V)
    requires DistinctKeys(d)
    ensures DistinctKeys(Set(d, k, v))
  {
    if d != [] {
      DistinctKeysTail(d);
      if d[0].0 == k {
        var r := Set(d, k, v);
        assert r == [(k, v)] + d[1..];
        DistinctKeysCons((k, v), d[1..]);
      } else {
        SetDistinct(d[1..], k, v);
        DistinctKeysCons(d[0], Set(d[1..], k, v));
      }
    }
  }

  /** A pair whose key is new, put in front of a dictionary with distinct
      keys, keeps the keys distinct. */
  lemma DistinctKeysCons<V>(p: (string, V), rest: Dict<V>)
    requires DistinctKeys(rest) && p.0 !in KeySet(rest)
    ensures DistinctKeys([p] + rest)
  {
    var r := [p] + rest;
    forall i, j | 0 <= i < j < |r| ensures r[i].0 != r[j].0 {
      if i == 0 {
        KeySetAt(rest, r[j].0);
        assert rest[j - 1].0 == r[j].0;
      } else {
        assert r[i] == rest[i - 1] && r[j] == rest[j - 1];
      }
    }
  }

  /** The tail of a dictionary with distinct keys has distinct keys, none of
      them its head's. */
  lemma DistinctKeysTail<V>(d: Dict<V>)
    requires d != [] && DistinctKeys(d)
    ensures DistinctKeys(d[1..]) && d[0].0 !in KeySet(d[1..])
  {
    assert forall i :: 0 <= i < |d[1..]| ==> d[1..][i] == d[i + 1];
    KeySetAt(d[1..], d[0].0);
  }
}
