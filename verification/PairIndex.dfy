/** A relation stored as a map of non-empty sets, the way the code keeps its indices. */
module PairIndex {

  /** The map holds exactly the pairs of the relation, and no empty set. */
  ghost predicate Indexes<A(!new), B(!new)>(m: map<A, set<B>>, rel: set<(A, B)>) {
    && (forall a, b :: (a, b) in rel <==> a in m && b in m[a])
    && (forall a :: a in m ==> m[a] != {})
  }

  function Insert<A(==), B(==)>(m: map<A, set<B>>, a: A, b: B): map<A, set<B>> {
    m[a := (if a in m then m[a] else {}) + {b}]
  }

  /** A set that becomes empty is removed. */
  function Delete<A(==), B(==)>(m: map<A, set<B>>, a: A, b: B): map<A, set<B>> {
    if a !in m then m else if m[a] - {b} == {} then m - {a} else m[a := m[a] - {b}]
  }

  lemma InsertIndexes<A(!new), B(!new)>(m: map<A, set<B>>, rel: set<(A, B)>, a: A, b: B)
    requires Indexes(m, rel)
    ensures Indexes(Insert(m, a, b), rel + {(a, b)})
  {
  }

  lemma DeleteIndexes<A(!new), B(!new)>(m: map<A, set<B>>, rel: set<(A, B)>, a: A, b: B)
    requires Indexes(m, rel)
    ensures Indexes(Delete(m, a, b), rel - {(a, b)})
  {
    var m' := Delete(m, a, b);
    forall x, y ensures (x, y) in rel - {(a, b)} <==> x in m' && y in m'[x] {
      assert (x, y) in rel <==> x in m && y in m[x];
      if x == a && a in m {
        assert y in m[a] - {b} <==> y in m[a] && y != b;
      }
    }
  }
}
