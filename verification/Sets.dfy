/** Cardinality and ordering facts about finite sets that several modules share. */
module Sets {

  lemma SubsetCard<T>(a: set<T>, b: set<T>)
    requires a <= b
    ensures |a| <= |b|
    ensures |a| == |b| ==> a == b
  {
    assert b == a + (b - a);
    assert |b| == |a| + |b - a|;
  }

  /** Moving one element from what is left to what is done. */
  lemma MoveOne<T>(done: set<T>, todo: set<T>, x: T)
    requires x in todo
    ensures (done + {x}) + (todo - {x}) == done + todo
    ensures done !! todo ==> (done + {x}) !! (todo - {x})
  {
  }

  /** An image is no larger than what it is the image of. */
  lemma {:induction false} ImageCard<T(!new), U>(s: set<T>, f: T -> U, image: set<U>)
    requires forall y | y in image :: exists x | x in s :: y == f(x)
    ensures |image| <= |s|
  {
    if s == {} {
      assert image == {};
    } else {
      var x :| x in s;
      ImageCard(s - {x}, f, image - {f(x)});
      SubsetCard(image, (image - {f(x)}) + {f(x)});
      assert s == (s - {x}) + {x};
    }
  }

  lemma UnionCard<T>(a: set<T>, b: set<T>)
    ensures |a + b| <= |a| + |b|
  {
    assert a + b == a + (b - a);
    SubsetCard(b - a, b);
  }
}
