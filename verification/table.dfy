/**
 * The output pass of the table refresh (main.js:84-111): walk the sorted
 * entries, skip those that are not worth flipping, emit one row per
 * survivor, and stop after one page; plus the whole refresh as one function.
 */
module Table {
  import opened Optional
  import opened Market
  import opened Ranking

  /** One rendered table row: item name, low price, high price, margin. */
  datatype Row = Row(name: string, low: nat, high: nat, margin: int)

  /** An entry the output loop keeps: both prices present and non-zero, positive margin, affordable. */
  predicate Viable(c: Candidate)
  {
    && Truthy(c.price.avgLowPrice)
    && Truthy(c.price.avgHighPrice)
    && c.margin > 0
    && c.maxQuantity != Units(0)
  }

  /** `a` is `b` with some elements left out, order kept. */
  predicate SubsequenceOf(a: seq<Candidate>, b: seq<Candidate>)
    decreases |b|
  {
    if a == [] then true
    else if b == [] then false
    else (a[0] == b[0] && SubsequenceOf(a[1..], b[1..])) || SubsequenceOf(a, b[1..])
  }

  /** The entries of `xs` that survive the three skip tests, in order. */
  function Survivors(xs: seq<Candidate>): (r: seq<Candidate>)
    ensures forall c :: c in r <==> c in xs && Viable(c)
  {
    if xs == [] then []
    else (if Viable(xs[0]) then [xs[0]] else []) + Survivors(xs[1..])
  }

  /** Skipping entries keeps a rank-ordered list rank-ordered. */
  lemma {:induction false} SurvivorsRankOrdered(xs: seq<Candidate>)
    requires RankOrdered(xs)
    ensures RankOrdered(Survivors(xs))
  {
    if xs != [] {
      var rest := Survivors(xs[1..]);
      SurvivorsRankOrdered(xs[1..]);
      if Viable(xs[0]) {
        forall x | x in rest
          ensures Precedes(xs[0], x)
        {
          var k :| 1 <= k < |xs| && xs[k] == x;
        }
        var r := [xs[0]] + rest;
        assert Survivors(xs) == r;
        forall i, j | 0 <= i < j < |r|
          ensures Precedes(r[i], r[j])
        {
          assert r[j] == rest[j - 1];
          if i > 0 {
            assert r[i] == rest[i - 1];
          }
        }
      } else {
        assert Survivors(xs) == rest;
      }
    }
  }

  /** The survivors are a subsequence of the entries: nothing is invented, duplicated or reordered. */
  lemma {:induction false} SurvivorsSubsequence(xs: seq<Candidate>)
    ensures SubsequenceOf(Survivors(xs), xs)
  {
    if xs != [] {
      var rest := Survivors(xs[1..]);
      SurvivorsSubsequence(xs[1..]);
      if Viable(xs[0]) {
        assert Survivors(xs) == [xs[0]] + rest;
        assert ([xs[0]] + rest)[1..] == rest;
      } else {
        assert Survivors(xs) == rest;
        SubsequenceSkip(rest, xs);
      }
    }
  }

  lemma SubsequenceSkip(a: seq<Candidate>, b: seq<Candidate>)
    requires b != []
    requires SubsequenceOf(a, b[1..])
    ensures SubsequenceOf(a, b)
  {
  }

  lemma {:induction false} SurvivorsAppend(xs: seq<Candidate>, ys: seq<Candidate>)
    ensures Survivors(xs + ys) == Survivors(xs) + Survivors(ys)
  {
    if xs == [] {
      assert xs + ys == ys;
    } else {
      var head := if Viable(xs[0]) then [xs[0]] else [];
      var zs := xs + ys;
      assert zs[0] == xs[0] && zs[1..] == xs[1..] + ys;
      SurvivorsAppend(xs[1..], ys);
      calc {
        Survivors(zs);
        head + Survivors(xs[1..] + ys);
        head + (Survivors(xs[1..]) + Survivors(ys));
        (head + Survivors(xs[1..])) + Survivors(ys);
        Survivors(xs) + Survivors(ys);
      }
    }
  }

  lemma SurvivorsSnoc(xs: seq<Candidate>, c: Candidate)
    ensures Survivors(xs + [c]) == Survivors(xs) + (if Viable(c) then [c] else [])
  {
    SurvivorsAppend(xs, [c]);
    assert Survivors([c]) == (if Viable(c) then [c] else []) + Survivors([]);
  }

  /** The leading part of `xs` that fits on one page. */
  function FirstPage(xs: seq<Candidate>): (r: seq<Candidate>)
    ensures |r| <= PageLimit
    ensures |r| == PageLimit || r == xs
    ensures r <= xs
  {
    if |xs| <= PageLimit then xs else xs[..PageLimit]
  }

  /** In a ranked list, an entry the page leaves off comes after a full page of entries that all rank before it. */
  lemma FirstPageMissed(xs: seq<Candidate>, c: Candidate)
    requires RankOrdered(xs)
    requires c in xs && c !in FirstPage(xs)
    ensures |FirstPage(xs)| == PageLimit
    ensures forall i :: 0 <= i < PageLimit ==> Precedes(FirstPage(xs)[i], c)
  {
    var k :| 0 <= k < |xs| && xs[k] == c;
    assert |xs| > PageLimit && FirstPage(xs) == xs[..PageLimit];
    assert k >= PageLimit;
  }

  /** The cells the source writes for an entry that reached the output. */
  function RowOf(c: Candidate): (row: Row)
    requires Viable(c)
    ensures row.name == c.item.name
    ensures row.low > 0 && c.price.avgLowPrice == Some(row.low)
    ensures row.high > 0 && c.price.avgHighPrice == Some(row.high)
    ensures row.margin == c.margin
  {
    Row(c.item.name, c.price.avgLowPrice.value, c.price.avgHighPrice.value, c.margin)
  }

  function Render(cs: seq<Candidate>): (rows: seq<Row>)
    requires forall c :: c in cs ==> Viable(c)
    ensures |rows| == |cs|
    ensures forall i :: 0 <= i < |cs| ==> rows[i] == RowOf(cs[i])
  {
    seq(|cs|, i requires 0 <= i < |cs| => RowOf(cs[i]))
  }

  lemma RenderSnoc(cs: seq<Candidate>, c: Candidate)
    requires forall x :: x in cs ==> Viable(x)
    requires Viable(c)
    ensures Render(cs + [c]) == Render(cs) + [RowOf(c)]
  {
  }

  /**
   * The output loop as the source writes it: skip, append a row, count,
   * break once a page is full. Its rows are those of the first page of
   * survivors.
   */
  method EmitRows(sorted: seq<Candidate>) returns (rows: seq<Row>)
    ensures |rows| <= PageLimit
    ensures rows == Render(FirstPage(Survivors(sorted)))
  {
    rows := [];
    var rowsAdded := 0;
    var i := 0;
    ghost var kept: seq<Candidate> := [];
    while i < |sorted|
      invariant 0 <= i <= |sorted|
      invariant kept == Survivors(sorted[..i])
      invariant forall x :: x in kept ==> Viable(x)
      invariant rows == Render(kept)
      invariant rowsAdded == |rows| < PageLimit
    {
      var c := sorted[i];
      SurvivorsSnoc(sorted[..i], c);
      assert sorted[..i + 1] == sorted[..i] + [c];
      i := i + 1;
      if !Truthy(c.price.avgLowPrice) || !Truthy(c.price.avgHighPrice) {
        continue;
      }
      if c.margin <= 0 {
        continue;
      }
      if c.maxQuantity == Units(0) {
        continue;
      }
      RenderSnoc(kept, c);
      kept := kept + [c];
      rows := rows + [RowOf(c)];
      rowsAdded := rowsAdded + 1;
      if rowsAdded >= PageLimit {
        break;
      }
    }
    LoopExit(sorted, i, kept);
  }

  /**
   * When the output loop stops, either at the end of the list or with a full
   * page, the rows kept so far are the first page of survivors.
   */
  lemma LoopExit(sorted: seq<Candidate>, i: nat, kept: seq<Candidate>)
    requires i <= |sorted|
    requires kept == Survivors(sorted[..i])
    requires (i == |sorted| && |kept| < PageLimit) || |kept| == PageLimit
    ensures FirstPage(Survivors(sorted)) == kept
  {
    SurvivorsAppend(sorted[..i], sorted[i..]);
    assert sorted == sorted[..i] + sorted[i..];
  }
}
