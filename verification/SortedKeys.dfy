/** Python's sorted(keys, reverse=True) on a set of integers. */
module SortedKeys {
  predicate IsMax(m: int, keys: set<int>) {
    m in keys && forall x :: x in keys ==> x <= m
  }

  lemma {:induction false} MaxExists(keys: set<int>)
    requires keys != {}
    ensures exists m :: IsMax(m, keys)
  {
    if forall k: int :: k !in keys {
      assert false;
    }
    var k: int :| k in keys;
    var rest := keys - {k};
    assert forall x :: x in keys ==> x == k || x in rest;
    if rest == {} {
      assert IsMax(k, keys);
    } else {
      MaxExists(rest);
      var m :| IsMax(m, rest);
      var top := if m < k then k else m;
      assert IsMax(top, keys);
    }
  }

  /** sorted(keys, reverse=True) */
  function Descending(keys: set<int>): (r: seq<int>)
    ensures forall k :: k in r <==> k in keys
  {
    if keys == {} then [] else
    MaxExists(keys);
    var m :| IsMax(m, keys);
    [m] + Descending(keys - {m})
  }

  lemma {:induction false} DescendingSorted(keys: set<int>, i: nat, j: nat)
    requires i < j < |Descending(keys)|
    ensures Descending(keys)[i] > Descending(keys)[j]
  {
    var r := Descending(keys);
    var m := r[0];
    assert r[1..] == Descending(keys - {m});
    assert r[j] == r[1..][j - 1];
    if i == 0 {
      assert r[j] in Descending(keys - {m});
      assert IsMax(m, keys);
    } else {
      DescendingSorted(keys - {m}, i - 1, j - 1);
    }
  }

  lemma DescendingOne(p: int)
    ensures Descending({p}) == [p]
  {
    MaxExists({p});
    var m :| IsMax(m, {p});
    assert {p} - {p} == {};
  }

  lemma DescendingTwo(p: int, q: int)
    requires q < p
    ensures Descending({p, q}) == [p, q]
  {
    assert IsMax(p, {p, q});
    assert {p, q} - {p} == {q};
    DescendingOne(q);
  }
}
