/** The failure-carrying datatypes every component shares, the sizes of sets, and picking from a set. */
module Common {

  datatype Option<+T> = None | Some(value: T)

  datatype Result<+T, +E> = Success(value: T) | Failure(error: E)

  lemma {:induction false} SmallerSet<T>(a: set<T>, b: set<T>)
    requires a <= b
    ensures |a| <= |b|
    decreases a
  {
    if a != {} {
      var x :| x in a;
      SmallerSet(a - {x}, b - {x});
    }
  }

  lemma {:induction false} FewValues<K, V>(m: map<K, V>, values: set<V>)
    requires values <= m.Values
    ensures |values| <= |m|
    decreases values
  {
    if values != {} {
      var v :| v in values;
      var k :| k in m && m[k] == v;
      assert |m - {k}| == |m| - 1 by {
        assert (m - {k}).Keys == m.Keys - {k};
      }
      forall w | w in values && w != v ensures w in (m - {k}).Values {
        var j :| j in m && m[j] == w;
        assert j in m - {k} && (m - {k})[j] == w;
      }
      FewValues(m - {k}, values - {v});
    }
  }

  method AnyOf<T(==)>(s: set<T>) returns (x: T)
    requires s != {}
    ensures x in s
  {
    x :| x in s;
  }
}
