/** Small value types shared by the other modules. */
module Wrappers {

  /** A Java reference that may be `null`. */
  datatype Option<+T> = None | Some(value: T)

  /** `order` lists every element of `keys` exactly once: the order in which a
      Java `HashMap` or `LinkedHashMap` visits its keys. */
  ghost predicate Enumerates<T(!new)>(order: seq<T>, keys: set<T>)
  {
    && (forall i, j :: 0 <= i < j < |order| ==> order[i] != order[j])
    && (forall x :: x in order <==> x in keys)
  }

  /** `s` with every occurrence of `x` removed, the rest in order. */
  function Without<T(==,!new)>(s: seq<T>, x: T): (r: seq<T>)
    ensures forall y :: y in r <==> y in s && y != x
    ensures |r| <= |s|
  {
    if s == [] then []
    else if s[0] == x then Without(s[1..], x)
    else [s[0]] + Without(s[1..], x)
  }

  /** Removing a key from an enumeration gives an enumeration of the smaller set. */
  lemma {:induction false} WithoutEnumerates<T(!new)>(order: seq<T>, keys: set<T>, x: T)
    requires Enumerates(order, keys)
    ensures Enumerates(Without(order, x), keys - {x})
  {
    if order != [] {
      assert Enumerates(order[1..], keys - {order[0]});
      WithoutEnumerates(order[1..], keys - {order[0]}, x);
      var r := Without(order, x);
      if order[0] != x {
        assert order[0] !in Without(order[1..], x);
        assert r == [order[0]] + Without(order[1..], x);
        forall i, j | 0 <= i < j < |r| ensures r[i] != r[j] {
          if i == 0 {
            assert r[j] in Without(order[1..], x);
          } else {
            assert r[i] == Without(order[1..], x)[i - 1];
            assert r[j] == Without(order[1..], x)[j - 1];
          }
        }
      }
    }
  }

  /** Adding a new key at the end of an enumeration enumerates the larger set. */
  lemma EnumeratesAppend<T(!new)>(order: seq<T>, keys: set<T>, x: T)
    requires Enumerates(order, keys) && x !in keys
    ensures Enumerates(order + [x], keys + {x})
  {
    var r := order + [x];
    forall i, j | 0 <= i < j < |r| ensures r[i] != r[j] {
      if j == |order| {
        assert r[i] in order;
      } else {
        assert r[i] == order[i] && r[j] == order[j];
      }
    }
  }

  /** Dropping the first key of an enumeration (the eldest entry) enumerates
      the remaining keys. */
  lemma EnumeratesDropFirst<T(!new)>(order: seq<T>, keys: set<T>)
    requires Enumerates(order, keys) && order != []
    ensures Enumerates(order[1..], keys - {order[0]})
  {
    forall x ensures x in order[1..] <==> x in keys - {order[0]} {
      if x in order[1..] {
        var k :| 0 <= k < |order[1..]| && order[1..][k] == x;
        assert order[k + 1] == x;
      }
      if x in order && x != order[0] {
        var k :| 0 <= k < |order| && order[k] == x;
        assert order[1..][k - 1] == x;
      }
    }
  }

  /** An enumeration is exactly as long as the set it enumerates. */
  lemma {:induction false} EnumeratesSize<T(!new)>(order: seq<T>, keys: set<T>)
    requires Enumerates(order, keys)
    ensures |order| == |keys|
  {
    if order != [] {
      EnumeratesDropFirst(order, keys);
      EnumeratesSize(order[1..], keys - {order[0]});
    } else {
      assert forall x :: x !in keys;
    }
  }

  /** Moving a key to the end of an enumeration (making it the most recently
      used) keeps an enumeration of the same keys, of the same length. */
  lemma MoveToEnd<T(!new)>(order: seq<T>, keys: set<T>, x: T)
    requires Enumerates(order, keys) && x in keys
    ensures Enumerates(Without(order, x) + [x], keys)
    ensures |Without(order, x) + [x]| == |order|
  {
    var rest := Without(order, x);
    WithoutEnumerates(order, keys, x);
    EnumeratesAppend(rest, keys - {x}, x);
    assert keys - {x} + {x} == keys;
    EnumeratesSize(rest, keys - {x});
    EnumeratesSize(order, keys);
  }

  /** Adding a new key at the end of an enumeration that is full and then
      dropping the first key (evicting the eldest entry) enumerates the keys
      with the new one in and the eldest one out, at the same length. */
  lemma AppendThenDropFirst<T(!new)>(order: seq<T>, keys: set<T>, x: T)
    requires Enumerates(order, keys) && x !in keys && order != []
    ensures Enumerates(order[1..] + [x], keys + {x} - {order[0]})
    ensures |order[1..] + [x]| == |order|
  {
    EnumeratesAppend(order, keys, x);
    EnumeratesDropFirst(order + [x], keys + {x});
    assert (order + [x])[1..] == order[1..] + [x];
  }
}
