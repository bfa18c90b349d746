/** Tables built by repeated insertion that refuses a repeated key. */
module Tables {
  import opened Base

  ghost predicate Distinct<K, V>(pairs: seq<(K, V)>) {
    forall i, j :: 0 <= i < j < |pairs| ==> pairs[i].0 != pairs[j].0
  }

  ghost predicate HasKey<K, V>(pairs: seq<(K, V)>, k: K) {
    exists p :: p in pairs && p.0 == k
  }

  /** `m` holds exactly `pairs`, each key once. */
  ghost predicate Tabulates<K(!new), V>(pairs: seq<(K, V)>, m: map<K, V>) {
    && Distinct(pairs)
    && |m| == |pairs|
    && (forall k :: k in m <==> HasKey(pairs, k))
    && (forall p :: p in pairs ==> p.0 in m && m[p.0] == p.1)
  }

  /** Inserting `pairs` in order into an empty table, refusing a repeated key. */
  function Table<K(==), V>(pairs: seq<(K, V)>): Outcome<map<K, V>>
    decreases |pairs|
  {
    if pairs == [] then
      Accepted(map[])
    else
      var (k, v) := pairs[|pairs| - 1];
      match Table(pairs[..|pairs| - 1])
      case Refused => Refused
      case Accepted(m) => if k in m then Refused else Accepted(m[k := v])
  }

  lemma TableNext<K, V>(pairs: seq<(K, V)>, k: K, v: V)
    ensures Table(pairs + [(k, v)]) == match Table(pairs)
                                       case Refused => Refused
                                       case Accepted(m) => if k in m then Refused else Accepted(m[k := v])
  {
    assert (pairs + [(k, v)])[..|pairs|] == pairs;
  }

  lemma {:induction false} TablePrefix<K, V>(pairs: seq<(K, V)>, n: nat)
    requires n <= |pairs| && Table(pairs[..n]).Refused?
    ensures Table(pairs).Refused?
    decreases |pairs|
  {
    if n < |pairs| {
      assert pairs[..|pairs| - 1][..n] == pairs[..n];
      TablePrefix(pairs[..|pairs| - 1], n);
    } else {
      assert pairs[..n] == pairs;
    }
  }

  /** Insertion succeeds exactly on distinct keys, and then the table is the pairs. */
  lemma {:induction false} TableTabulates<K(!new), V>(pairs: seq<(K, V)>)
    ensures Table(pairs).Accepted? <==> Distinct(pairs)
    ensures Table(pairs).Accepted? ==> Tabulates(pairs, Table(pairs).value)
    decreases |pairs|
  {
    if pairs != [] {
      var n := |pairs| - 1;
      var front := pairs[..n];
      TableTabulates(front);
      if Table(front).Refused? {
        var i, j :| 0 <= i < j < n && front[i].0 == front[j].0;
        assert pairs[i].0 == pairs[j].0;
      } else {
        assert pairs == front + [(pairs[n].0, pairs[n].1)];
        ExtendTable(front, Table(front).value, pairs[n].0, pairs[n].1);
      }
    }
  }

  lemma HasKeyNext<K(!new), V>(front: seq<(K, V)>, k: K, v: V)
    ensures forall key :: HasKey(front + [(k, v)], key) <==> HasKey(front, key) || key == k
  {
    var pairs := front + [(k, v)];
    assert pairs[|front|] == (k, v);
    assert forall p :: p in pairs <==> p in front || p == (k, v);
  }

  lemma DistinctNext<K, V>(front: seq<(K, V)>, k: K, v: V)
    requires Distinct(front)
    ensures Distinct(front + [(k, v)]) <==> !HasKey(front, k)
  {
    var pairs := front + [(k, v)];
    if HasKey(front, k) {
      var i :| 0 <= i < |front| && front[i].0 == k;
      assert pairs[i].0 == pairs[|front|].0;
    } else {
      forall i, j | 0 <= i < j < |pairs| ensures pairs[i].0 != pairs[j].0 {
        assert pairs[i] in front;
      }
    }
  }

  lemma ExtendTable<K(!new), V>(front: seq<(K, V)>, m: map<K, V>, k: K, v: V)
    requires Tabulates(front, m)
    ensures k in m ==> !Distinct(front + [(k, v)])
    ensures k !in m ==> Tabulates(front + [(k, v)], m[k := v])
  {
    HasKeyNext(front, k, v);
    DistinctNext(front, k, v);
    assert m[k := v].Keys == m.Keys + {k};
  }

  lemma {:induction false} DistinctFits<K, V>(pairs: seq<(K, V)>, keys: set<K>)
    requires Distinct(pairs) && forall i :: 0 <= i < |pairs| ==> pairs[i].0 in keys
    ensures |pairs| <= |keys|
  {
    if pairs != [] {
      var n := |pairs| - 1;
      DistinctFits(pairs[..n], keys - {pairs[n].0});
    }
  }
}
