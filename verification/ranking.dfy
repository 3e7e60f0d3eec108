/**
 * The sort of the annotated entries by margin, largest first (main.js:79).
 * `Array.prototype.sort` is stable, so entries with equal margins keep their
 * `Object.entries` order; the model sorts by insertion and proves that its
 * result is the only stable outcome.
 */
module Ranking {
  import opened Market

  /** Rank order of the output: larger margin first, equal margins by ascending id. */
  predicate Precedes(a: Candidate, b: Candidate)
  {
    a.margin > b.margin || (a.margin == b.margin && a.Id() < b.Id())
  }

  /** Margins never increase along `xs`. */
  predicate MarginOrdered(xs: seq<Candidate>)
  {
    forall i, j :: 0 <= i < j < |xs| ==> xs[i].margin >= xs[j].margin
  }

  /** Every element ranks strictly before every later one. */
  predicate RankOrdered(xs: seq<Candidate>)
  {
    forall i, j :: 0 <= i < j < |xs| ==> Precedes(xs[i], xs[j])
  }

  /** Ids strictly increase along `xs`, as in `Object.entries` of a snapshot. */
  predicate IdsAscending(xs: seq<Candidate>)
  {
    forall i, j :: 0 <= i < j < |xs| ==> xs[i].Id() < xs[j].Id()
  }

  /** The elements of `xs` whose margin is `v`, in their order in `xs`. */
  function WithMargin(xs: seq<Candidate>, v: int): (r: seq<Candidate>)
    ensures |r| <= |xs|
  {
    if xs == [] then []
    else (if xs[0].margin == v then [xs[0]] else []) + WithMargin(xs[1..], v)
  }

  /** Prepending an element no smaller than the rest keeps a sequence margin-ordered. */
  lemma ConsMarginOrdered(h: Candidate, t: seq<Candidate>)
    requires MarginOrdered(t)
    requires forall x :: x in t ==> x.margin <= h.margin
    ensures MarginOrdered([h] + t)
  {
    var r := [h] + t;
    forall i, j | 0 <= i < j < |r|
      ensures r[i].margin >= r[j].margin
    {
      assert r[j] == t[j - 1];
      if i > 0 {
        assert r[i] == t[i - 1];
      }
    }
  }

  /** Inserts `c` in front of the first element whose margin is not larger, so `c` precedes its ties. */
  function Insert(c: Candidate, ys: seq<Candidate>): (r: seq<Candidate>)
    requires MarginOrdered(ys)
    ensures multiset(r) == multiset(ys) + multiset{c}
    ensures forall x :: x in r <==> x in ys || x == c
    ensures MarginOrdered(r)
  {
    if ys == [] || ys[0].margin <= c.margin then
      assert forall x :: x in ys ==> x.margin <= ys[0].margin;
      ConsMarginOrdered(c, ys);
      [c] + ys
    else
      var rest := Insert(c, ys[1..]);
      assert ys == [ys[0]] + ys[1..];
      ConsMarginOrdered(ys[0], rest);
      [ys[0]] + rest
  }

  /** Stable sort by margin, largest first. */
  function SortByMargin(xs: seq<Candidate>): (r: seq<Candidate>)
    ensures multiset(r) == multiset(xs)
    ensures MarginOrdered(r)
  {
    if xs == [] then []
    else
      assert xs == [xs[0]] + xs[1..];
      Insert(xs[0], SortByMargin(xs[1..]))
  }

  lemma WithMarginCons(h: Candidate, t: seq<Candidate>, v: int)
    ensures WithMargin([h] + t, v) == (if h.margin == v then [h] else []) + WithMargin(t, v)
  {
    assert ([h] + t)[1..] == t;
  }

  /** Inserting `c` adds it in front of its own margin class and leaves every class otherwise unchanged. */
  lemma {:induction false} InsertWithMargin(c: Candidate, ys: seq<Candidate>, v: int)
    requires MarginOrdered(ys)
    ensures WithMargin(Insert(c, ys), v) == (if c.margin == v then [c] else []) + WithMargin(ys, v)
  {
    if ys == [] || ys[0].margin <= c.margin {
      WithMarginCons(c, ys, v);
    } else {
      var rest := Insert(c, ys[1..]);
      InsertWithMargin(c, ys[1..], v);
      WithMarginCons(ys[0], rest, v);
      WithMarginCons(ys[0], ys[1..], v);
      assert Insert(c, ys) == [ys[0]] + rest;
      assert ys == [ys[0]] + ys[1..];
      if ys[0].margin == v {
        assert c.margin != v;
        assert WithMargin(Insert(c, ys), v) == [ys[0]] + WithMargin(ys[1..], v) == WithMargin(ys, v);
      } else {
        assert WithMargin(Insert(c, ys), v) == WithMargin(rest, v);
        assert WithMargin(ys, v) == WithMargin(ys[1..], v);
      }
    }
  }

  /** Stability: for every margin, the entries with that margin keep their input order. */
  lemma {:induction false} SortStable(xs: seq<Candidate>, v: int)
    ensures WithMargin(SortByMargin(xs), v) == WithMargin(xs, v)
  {
    if xs != [] {
      SortStable(xs[1..], v);
      InsertWithMargin(xs[0], SortByMargin(xs[1..]), v);
    }
  }

  /** The class of margin `v` holds exactly the elements with that margin. */
  lemma {:induction false} WithMarginMembers(xs: seq<Candidate>, v: int, c: Candidate)
    ensures c in WithMargin(xs, v) <==> c in xs && c.margin == v
  {
    if xs != [] {
      WithMarginMembers(xs[1..], v, c);
      assert xs == [xs[0]] + xs[1..];
    }
  }

  lemma WithMarginUnfold(xs: seq<Candidate>, v: int)
    requires xs != []
    ensures WithMargin(xs, v) == (if xs[0].margin == v then [xs[0]] else []) + WithMargin(xs[1..], v)
  {
  }

  /** Same classes and both margin-ordered: the first elements agree. */
  lemma HeadsAgree(a: seq<Candidate>, b: seq<Candidate>)
    requires a != [] && b != []
    requires MarginOrdered(a) && MarginOrdered(b)
    requires forall v :: WithMargin(a, v) == WithMargin(b, v)
    ensures a[0] == b[0]
  {
    var m, n := a[0].margin, b[0].margin;
    WithMarginUnfold(a, m);
    WithMarginUnfold(b, n);
    assert b[0] in WithMargin(a, n) by {
      assert WithMargin(a, n) == WithMargin(b, n);
    }
    assert a[0] in WithMargin(b, m) by {
      assert WithMargin(a, m) == WithMargin(b, m);
    }
    WithMarginMembers(a, n, b[0]);
    WithMarginMembers(b, m, a[0]);
    var k :| 0 <= k < |a| && a[k] == b[0];
    var l :| 0 <= l < |b| && b[l] == a[0];
    assert n <= m;
    assert m <= n;
    WithMarginUnfold(b, m);
    assert WithMargin(a, m)[0] == a[0];
    assert WithMargin(b, m)[0] == b[0];
    assert WithMargin(a, m) == WithMargin(b, m);
  }

  /** A non-empty sequence has a non-empty class: the one of its first element. */
  lemma FirstClassNonEmpty(xs: seq<Candidate>)
    requires xs != []
    ensures WithMargin(xs, xs[0].margin) != []
  {
    WithMarginUnfold(xs, xs[0].margin);
  }

  /** Equal first elements and equal classes: the tails have equal classes. */
  lemma TailClasses(a: seq<Candidate>, b: seq<Candidate>)
    requires a != [] && b != [] && a[0] == b[0]
    requires forall v :: WithMargin(a, v) == WithMargin(b, v)
    ensures forall v :: WithMargin(a[1..], v) == WithMargin(b[1..], v)
  {
    forall v
      ensures WithMargin(a[1..], v) == WithMargin(b[1..], v)
    {
      WithMarginUnfold(a, v);
      WithMarginUnfold(b, v);
      var h := if a[0].margin == v then [a[0]] else [];
      assert h + WithMargin(a[1..], v) == h + WithMargin(b[1..], v);
      assert WithMargin(a[1..], v) == (h + WithMargin(a[1..], v))[|h|..];
      assert WithMargin(b[1..], v) == (h + WithMargin(b[1..], v))[|h|..];
    }
  }

  /** Two margin-ordered sequences with the same elements per margin, in the same order, are equal. */
  lemma {:induction false} SameClassesEqual(a: seq<Candidate>, b: seq<Candidate>)
    requires MarginOrdered(a) && MarginOrdered(b)
    requires forall v :: WithMargin(a, v) == WithMargin(b, v)
    ensures a == b
    decreases |a| + |b|
  {
    if a == [] {
      if b != [] {
        FirstClassNonEmpty(b);
        assert false;
      }
    } else if b == [] {
      FirstClassNonEmpty(a);
      assert false;
    } else {
      HeadsAgree(a, b);
      TailClasses(a, b);
      assert MarginOrdered(a[1..]) && MarginOrdered(b[1..]);
      SameClassesEqual(a[1..], b[1..]);
      assert a == [a[0]] + a[1..] && b == [b[0]] + b[1..];
    }
  }

  /**
   * Any stable sort by margin gives the model's result: a margin-ordered
   * sequence that keeps, for every margin, the input order of the entries with
   * that margin is exactly SortByMargin.
   */
  lemma StableSortUnique(xs: seq<Candidate>, ys: seq<Candidate>)
    requires MarginOrdered(ys)
    requires forall v :: WithMargin(ys, v) == WithMargin(xs, v)
    ensures ys == SortByMargin(xs)
  {
    forall v
      ensures WithMargin(ys, v) == WithMargin(SortByMargin(xs), v)
    {
      SortStable(xs, v);
    }
    SameClassesEqual(ys, SortByMargin(xs));
  }

  lemma {:induction false} InsertRankOrdered(c: Candidate, ys: seq<Candidate>)
    requires RankOrdered(ys)
    requires forall y :: y in ys ==> c.Id() < y.Id()
    ensures RankOrdered(Insert(c, ys))
  {
    if ys == [] || ys[0].margin <= c.margin {
    } else {
      var rest := Insert(c, ys[1..]);
      InsertRankOrdered(c, ys[1..]);
      forall x | x in rest
        ensures Precedes(ys[0], x)
      {
        assert x in multiset(rest);
        if x != c {
          assert x in ys[1..];
        }
      }
    }
  }

  /** Sorting entries whose ids ascend orders them by margin, ties by ascending id. */
  lemma {:induction false} SortRankOrdered(xs: seq<Candidate>)
    requires IdsAscending(xs)
    ensures RankOrdered(SortByMargin(xs))
  {
    if xs != [] {
      var sorted := SortByMargin(xs[1..]);
      SortRankOrdered(xs[1..]);
      forall y | y in sorted
        ensures xs[0].Id() < y.Id()
      {
        assert y in multiset(sorted);
        assert y in xs[1..];
      }
      InsertRankOrdered(xs[0], sorted);
    }
  }
}
