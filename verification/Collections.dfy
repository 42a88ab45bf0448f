/** Facts about sequences and sets that all three systems need. */
module Collections {

  datatype Option<T> = None | Some(value: T)

  ghost predicate Distinct<T>(c: seq<T>) {
    forall i, j :: 0 <= i < j < |c| ==> c[i] != c[j]
  }

  lemma SubsetSize<T>(a: set<T>, b: set<T>)
    requires a <= b
    ensures |a| <= |b|
  {
    assert b == a + (b - a);
  }

  /** As many elements as positions, where none occurs twice. */
  lemma {:induction false} ImageSize<T>(ks: set<nat>, c: seq<T>)
    requires Distinct(c) && forall k :: k in ks ==> k < |c|
    ensures |set k | k in ks :: c[k]| == |ks|
  {
    if ks != {} {
      var k :| k in ks;
      var rest := ks - {k};
      ImageSize(rest, c);
      assert ks == rest + {k};
      assert (set j | j in ks :: c[j]) == (set j | j in rest :: c[j]) + {c[k]};
      assert forall j :: j in rest ==> c[j] != c[k];
    }
  }
}
