/** Lists of requester addresses, as the reaction and read-receipt tables hold them. */
module IpLists {

  /** No address occurs twice. */
  ghost predicate Distinct(l: seq<string>) {
    forall i, j :: 0 <= i < j < |l| ==> l[i] != l[j]
  }

  /** The position of the first occurrence of `x`. */
  function IndexOf(l: seq<string>, x: string): (k: nat)
    requires x in l
    ensures k < |l| && l[k] == x
    ensures forall j :: 0 <= j < k ==> l[j] != x
  {
    if l[0] == x then 0 else 1 + IndexOf(l[1..], x)
  }

  /** Python's `l.remove(x)`: drops the first occurrence of `x` and keeps the rest in order. */
  function RemoveFirst(l: seq<string>, x: string): (r: seq<string>)
    requires x in l
    ensures |r| == |l| - 1
    ensures multiset(r) == multiset(l) - multiset{x}
    ensures forall y :: y != x ==> (y in r <==> y in l)
  {
    var k := IndexOf(l, x);
    assert l == l[..k] + [x] + l[k + 1..];
    l[..k] + l[k + 1..]
  }

  /** In a list without repeats, removing `x` removes it altogether and keeps the list repeat-free. */
  lemma RemoveFirstDistinct(l: seq<string>, x: string)
    requires x in l && Distinct(l)
    ensures x !in RemoveFirst(l, x) && Distinct(RemoveFirst(l, x))
  {
    var k := IndexOf(l, x);
    var r := RemoveFirst(l, x);
    assert forall j :: 0 <= j < |r| ==> r[j] == l[if j < k then j else j + 1];
  }

  /** Appending a new address keeps the list repeat-free. */
  lemma AppendDistinct(l: seq<string>, x: string)
    requires Distinct(l) && x !in l
    ensures Distinct(l + [x])
  {
    var r := l + [x];
    forall i, j | 0 <= i < j < |r| ensures r[i] != r[j] {
      assert r[i] == l[i];
      if j < |l| { assert r[j] == l[j]; }
    }
  }

  /** In a list without repeats an address present occurs exactly once. */
  lemma DistinctOnce(l: seq<string>, x: string)
    requires Distinct(l) && x in l
    ensures multiset(l)[x] == 1
  {
    var k := IndexOf(l, x);
    assert l == l[..k] + [x] + l[k + 1..];
    assert x !in l[..k];
    var tail := l[k + 1..];
    assert x !in tail by {
      forall j | 0 <= j < |tail| ensures tail[j] != x { assert tail[j] == l[k + 1 + j]; }
    }
    assert multiset(l) == multiset(l[..k]) + multiset{x} + multiset(l[k + 1..]);
  }

  /** The list after `x` toggles its presence: its first occurrence removed, or `x` appended. */
  function Flip(l: seq<string>, x: string): seq<string> {
    if x in l then RemoveFirst(l, x) else l + [x]
  }

  /** On a list without repeats a flip changes whether `x` is present and keeps the list repeat-free. */
  lemma FlipDistinct(l: seq<string>, x: string)
    requires Distinct(l)
    ensures Distinct(Flip(l, x)) && (x in Flip(l, x) <==> x !in l)
  {
    if x in l {
      RemoveFirstDistinct(l, x);
    } else {
      AppendDistinct(l, x);
    }
  }

  /** The list after `n` flips of `x` in a row. */
  function FlipTimes(l: seq<string>, x: string, n: nat): seq<string>
    decreases n
  {
    if n == 0 then l else FlipTimes(Flip(l, x), x, n - 1)
  }

  /** Whether `n` is even, counted down one flip at a time. */
  predicate Even(n: nat)
    decreases n
  {
    if n == 0 then true else !Even(n - 1)
  }

  /**
   * A flip takes one occurrence of `x` away if there is one and adds one
   * otherwise; on a list holding `x` at most once it flips whether `x` is present.
   */
  lemma FlipCount(l: seq<string>, x: string)
    ensures multiset(Flip(l, x))[x] == if x in l then multiset(l)[x] - 1 else multiset(l)[x] + 1
    ensures multiset(l)[x] <= 1 ==> (x in Flip(l, x) <==> x !in l)
  {
    if x in l {
      assert x in multiset(l);
      if multiset(l)[x] <= 1 {
        assert x !in multiset(Flip(l, x));
      }
    } else {
      assert multiset(l + [x]) == multiset(l) + multiset{x};
    }
  }

  /**
   * On a list holding `x` at most once, `n` flips leave `x` present exactly
   * when it was present before with `n` even or absent before with `n` odd.
   */
  lemma {:induction false} FlipParity(l: seq<string>, x: string, n: nat)
    requires multiset(l)[x] <= 1
    ensures multiset(FlipTimes(l, x, n))[x] <= 1
    ensures x in FlipTimes(l, x, n) <==> (x in l <==> Even(n))
    decreases n
  {
    if n > 0 {
      FlipCount(l, x);
      FlipParity(Flip(l, x), x, n - 1);
      assert FlipTimes(l, x, n) == FlipTimes(Flip(l, x), x, n - 1);
      assert Even(n) == !Even(n - 1);
    } else {
      assert FlipTimes(l, x, n) == l;
    }
  }
}
