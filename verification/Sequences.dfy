/** The lexicographic order of number sequences. */
module Sequences {

  predicate SeqLess(a: seq<nat>, b: seq<nat>) {
    b != [] && (a == [] || a[0] < b[0] || (a[0] == b[0] && SeqLess(a[1..], b[1..])))
  }

  /** The two agree before position k, where the first has ended and the second has not, or has a smaller number. */
  predicate SmallerAt(a: seq<nat>, b: seq<nat>, k: nat) {
    && k <= |a| && k < |b| && (forall i | 0 <= i < k :: a[i] == b[i])
    && (k < |a| ==> a[k] < b[k])
  }

  /** One sequence comes before another when, after a common front, it ends first or has the smaller number. */
  lemma {:induction false} SeqLessExactly(a: seq<nat>, b: seq<nat>)
    ensures SeqLess(a, b) <==> exists k: nat :: SmallerAt(a, b, k)
  {
    if a != [] && b != [] && a[0] == b[0] {
      SeqLessExactly(a[1..], b[1..]);
      if k: nat :| SmallerAt(a[1..], b[1..], k) {
        forall i | 0 <= i < k + 1 ensures a[i] == b[i] { if i > 0 { assert a[1..][i - 1] == b[1..][i - 1]; } }
        assert SmallerAt(a, b, k + 1);
      }
      if k: nat :| SmallerAt(a, b, k) {
        assert k > 0;
        assert SmallerAt(a[1..], b[1..], k - 1);
      }
    } else if SeqLess(a, b) {
      assert SmallerAt(a, b, 0);
    }
  }

  lemma {:induction false} SeqLessIrreflexive(a: seq<nat>)
    ensures !SeqLess(a, a)
  {
    if a != [] { SeqLessIrreflexive(a[1..]); }
  }

  lemma {:induction false} SeqLessTotal(a: seq<nat>, b: seq<nat>)
    ensures SeqLess(a, b) || SeqLess(b, a) || a == b
  {
    if a != [] && b != [] && a[0] == b[0] {
      SeqLessTotal(a[1..], b[1..]);
      assert a == [a[0]] + a[1..] && b == [b[0]] + b[1..];
    }
  }

  lemma {:induction false} SeqLessTransitive(a: seq<nat>, b: seq<nat>, c: seq<nat>)
    requires SeqLess(a, b) && SeqLess(b, c)
    ensures SeqLess(a, c)
  {
    if a != [] && a[0] == b[0] && b[0] == c[0] { SeqLessTransitive(a[1..], b[1..], c[1..]); }
  }
}
