/**
 Tables searched from front to back and kept in ascending order of a score. Which entry answers is
 settled by the score up to ties, and a sort may leave ties in any order.
 */
module RouteOrder {
  import opened Wrappers

  ghost predicate SortedBy<T>(xs: seq<T>, score: T -> int) {
    forall i, j :: 0 <= i < j < |xs| ==> score(xs[i]) <= score(xs[j])
  }

  /** A table that a sort may leave when the entries are those of `bag`. */
  ghost predicate Arranged<T>(xs: seq<T>, bag: multiset<T>, score: T -> int) {
    SortedBy(xs, score) && multiset(xs) == bag
  }

  function FirstHit<T>(xs: seq<T>, hits: T -> bool): (r: Option<T>)
    ensures r.Some? ==> r.value in xs && hits(r.value)
    ensures r.None? ==> forall x :: x in xs ==> !hits(x)
  {
    if xs == [] then None else if hits(xs[0]) then Some(xs[0]) else FirstHit(xs[1..], hits)
  }

  /** Among the entries that match, `x` has the least score. */
  ghost predicate Least<T(!new)>(bag: multiset<T>, hits: T -> bool, score: T -> int, x: T) {
    x in bag && hits(x) && forall y :: y in bag && hits(y) ==> score(x) <= score(y)
  }

  /** The first match is at `k` when nothing before matches. */
  lemma {:induction false} FirstHitAt<T>(xs: seq<T>, hits: T -> bool, k: nat)
    requires k < |xs| && hits(xs[k]) && forall i :: 0 <= i < k ==> !hits(xs[i])
    ensures FirstHit(xs, hits) == Some(xs[k])
  {
    if k > 0 {
      FirstHitAt(xs[1..], hits, k - 1);
    }
  }

  lemma {:induction false} FirstIsLeast<T(!new)>(xs: seq<T>, hits: T -> bool, score: T -> int)
    requires SortedBy(xs, score)
    ensures var r := FirstHit(xs, hits); r.Some? ==> Least(multiset(xs), hits, score, r.value)
  {
    if xs != [] {
      if hits(xs[0]) {
        forall y | y in multiset(xs) ensures score(xs[0]) <= score(y) {
          assert y in xs;
        }
      } else {
        FirstIsLeast(xs[1..], hits, score);
        assert xs == [xs[0]] + xs[1..];
      }
    }
  }

  lemma InsertedSorted<T>(xs: seq<T>, x: T, k: nat, score: T -> int)
    requires SortedBy(xs, score) && k <= |xs|
    requires forall i :: 0 <= i < k ==> score(xs[i]) <= score(x)
    requires forall i :: k <= i < |xs| ==> score(xs[i]) >= score(x)
    ensures Arranged(xs[..k] + [x] + xs[k..], multiset(xs) + multiset{x}, score)
  {
    var r := xs[..k] + [x] + xs[k..];
    forall i, j | 0 <= i < j < |r| ensures score(r[i]) <= score(r[j]) {
      assert i != k ==> r[i] == xs[if i < k then i else i - 1];
      assert j != k ==> r[j] == xs[if j < k then j else j - 1];
    }
    assert xs == xs[..k] + xs[k..];
  }

  /** Where `x` goes to stand in front of all entries with the same score. */
  function Front<T>(xs: seq<T>, x: T, score: T -> int): (k: nat)
    ensures k <= |xs| && forall i :: 0 <= i < k ==> score(xs[i]) < score(x)
    ensures k < |xs| ==> score(xs[k]) >= score(x)
  {
    if xs == [] || score(xs[0]) >= score(x) then 0 else Front(xs[1..], x, score) + 1
  }

  /** `xs` with `x` in front of its ties. */
  lemma PutInFront<T>(xs: seq<T>, x: T, score: T -> int) returns (ys: seq<T>)
    requires SortedBy(xs, score)
    ensures Arranged(ys, multiset(xs) + multiset{x}, score)
    ensures exists k :: 0 <= k < |ys| && ys[k] == x && forall i :: 0 <= i < k ==> score(ys[i]) < score(x)
  {
    var k := Front(xs, x, score);
    InsertedSorted(xs, x, k, score);
    ys := xs[..k] + [x] + xs[k..];
    assert ys[k] == x && forall i :: 0 <= i < k ==> ys[i] == xs[i];
  }

  /** Every table can be sorted. */
  lemma {:induction false} Arrange<T>(xs: seq<T>, score: T -> int) returns (ys: seq<T>)
    ensures Arranged(ys, multiset(xs), score)
  {
    if xs == [] {
      ys := [];
    } else {
      var rest := Arrange(xs[1..], score);
      ys := PutInFront(rest, xs[0], score);
      assert xs == [xs[0]] + xs[1..];
    }
  }

  /** Of several matching entries of least score, a sort may put any one first. */
  lemma LeastCanBeFirst<T(!new)>(xs: seq<T>, hits: T -> bool, score: T -> int, x: T) returns (ys: seq<T>)
    requires Least(multiset(xs), hits, score, x)
    ensures Arranged(ys, multiset(xs), score) && FirstHit(ys, hits) == Some(x)
  {
    var k :| 0 <= k < |xs| && xs[k] == x;
    var others := xs[..k] + xs[k + 1..];
    assert xs == xs[..k] + [x] + xs[k + 1..];
    var sorted := Arrange(others, score);
    ys := PutInFront(sorted, x, score);
    var at :| 0 <= at < |ys| && ys[at] == x && forall i :: 0 <= i < at ==> score(ys[i]) < score(x);
    forall i | 0 <= i < at ensures !hits(ys[i]) {
      assert ys[i] in multiset(ys);
    }
    FirstHitAt(ys, hits, at);
  }

  /** The first match yields `m` however ties are arranged, if and only if every least match yields it. */
  lemma AlwaysYieldsIff<T(!new), U(!new)>(xs: seq<T>, hits: T -> bool, score: T -> int, answer: T -> U, m: U)
    requires exists x :: x in xs && hits(x)
    ensures (forall ys :: Arranged(ys, multiset(xs), score) ==>
              FirstHit(ys, hits).Some? && answer(FirstHit(ys, hits).value) == m)
            <==> (forall x :: Least(multiset(xs), hits, score, x) ==> answer(x) == m)
  {
    forall ys | Arranged(ys, multiset(xs), score)
      ensures FirstHit(ys, hits).Some? && Least(multiset(xs), hits, score, FirstHit(ys, hits).value)
    {
      var x :| x in xs && hits(x);
      assert x in multiset(ys);
      FirstIsLeast(ys, hits, score);
    }
    forall x | Least(multiset(xs), hits, score, x)
      ensures exists ys :: Arranged(ys, multiset(xs), score) && FirstHit(ys, hits) == Some(x)
    {
      var ys := LeastCanBeFirst(xs, hits, score, x);
    }
  }
}
