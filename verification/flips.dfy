/**
 * What one table refresh promises about the rows it shows, stated over the
 * inputs: the catalog, the price snapshot and the user's budget.
 */
module Flips {
  import opened Optional
  import opened Market
  import opened Join
  import opened Ranking
  import opened Table

  /** The values derived for a joined item: margin, floor quotient of the budget, catalog record. */
  lemma JoinedValues(catalog: seq<CatalogEntry>, prices: PriceSnapshot, userCash: Option<nat>, c: Candidate)
    requires Joined(catalog, prices, CashStack(userCash), c)
    ensures c.price == prices[c.Id()]
    ensures c.item == catalog[LastIndexOf(catalog, c.Id())]
    ensures c.margin == ToNumber(c.price.avgHighPrice) - ToNumber(c.price.avgLowPrice)
    ensures Truthy(c.price.avgLowPrice) ==>
              var low := c.price.avgLowPrice.value;
              var cash := CashStack(userCash);
              c.maxQuantity.Units? && c.maxQuantity.n * low <= cash < (c.maxQuantity.n + 1) * low
  {
  }

  /** A prefix of a subsequence is a subsequence. */
  lemma {:induction false} PrefixSubsequence(a: seq<Candidate>, b: seq<Candidate>, n: nat)
    requires n <= |a|
    requires SubsequenceOf(a, b)
    ensures SubsequenceOf(a[..n], b)
    decreases |b|
  {
    if n > 0 {
      assert a != [] && b != [];
      if a[0] == b[0] && SubsequenceOf(a[1..], b[1..]) {
        PrefixSubsequence(a[1..], b[1..], n - 1);
        assert a[..n][1..] == a[1..][..n - 1];
      } else {
        PrefixSubsequence(a, b[1..], n);
      }
    }
  }

  /** What a refresh does to the table: nothing, or replace its rows. */
  datatype TableUpdate = Untouched | Replaced(rows: seq<Row>)

  /** Sort by margin, skip, first page. */
  function Page(es: seq<Candidate>): (r: seq<Candidate>)
  {
    FirstPage(Survivors(SortByMargin(es)))
  }

  /**
   * The ranked candidates one refresh shows, before rendering: the page cut
   * from the joined entries under the effective budget.
   */
  function RankFlips(catalog: seq<CatalogEntry>, prices: PriceSnapshot, userCash: Option<nat>): (r: seq<Candidate>)
    requires prices.Keys <= CatalogIds(catalog)
    ensures |r| <= PageLimit
    ensures RankOrdered(r)
    ensures forall c :: c in r ==> Viable(c) && c in Entries(catalog, prices, CashStack(userCash))
  {
    var es := Entries(catalog, prices, CashStack(userCash));
    PageSound(es);
    Page(es)
  }

  lemma PageSound(es: seq<Candidate>)
    requires IdsAscending(es)
    ensures |Page(es)| <= PageLimit
    ensures RankOrdered(Page(es))
    ensures forall c :: c in Page(es) ==> Viable(c) && c in es
  {
    var sorted := SortByMargin(es);
    var s := Survivors(sorted);
    var r := FirstPage(s);
    SortRankOrdered(es);
    SurvivorsRankOrdered(sorted);
    forall c | c in r
      ensures Viable(c) && c in es
    {
      assert c in s;
      assert c in multiset(sorted);
    }
    assert forall i, j :: 0 <= i < j < |r| ==> r[i] == s[i] && r[j] == s[j];
  }

  lemma PageComplete(es: seq<Candidate>, c: Candidate)
    requires IdsAscending(es)
    requires c in es && Viable(c) && c !in Page(es)
    ensures |Page(es)| == PageLimit
    ensures forall i :: 0 <= i < |Page(es)| ==> Precedes(Page(es)[i], c)
  {
    var sorted := SortByMargin(es);
    var s := Survivors(sorted);
    assert c in multiset(es);
    assert c in sorted;
    assert c in s;
    SortRankOrdered(es);
    SurvivorsRankOrdered(sorted);
    FirstPageMissed(s, c);
  }

  lemma PageSubsequence(es: seq<Candidate>)
    ensures SubsequenceOf(Page(es), SortByMargin(es))
  {
    var sorted := SortByMargin(es);
    var s := Survivors(sorted);
    SurvivorsSubsequence(sorted);
    PrefixSubsequence(s, sorted, |FirstPage(s)|);
    assert FirstPage(s) == s[..|FirstPage(s)|];
  }

  /**
   * Every shown entry is a real, priced catalog item that passes the skip
   * tests; at most one page is shown; entries are ordered by margin, largest
   * first, equal margins by ascending id (so no item is shown twice).
   */
  lemma RankFlipsSound(catalog: seq<CatalogEntry>, prices: PriceSnapshot, userCash: Option<nat>)
    requires prices.Keys <= CatalogIds(catalog)
    ensures var r := RankFlips(catalog, prices, userCash);
      && |r| <= PageLimit
      && RankOrdered(r)
      && forall i :: 0 <= i < |r| ==> Viable(r[i]) && Joined(catalog, prices, CashStack(userCash), r[i])
  {
    var cash := CashStack(userCash);
    var es := Entries(catalog, prices, cash);
    PageSound(es);
    var r := Page(es);
    assert r == RankFlips(catalog, prices, userCash);
    forall i | 0 <= i < |r|
      ensures Joined(catalog, prices, cash, r[i])
    {
      EntriesComplete(catalog, prices, cash, r[i]);
    }
  }

  /**
   * Nothing viable is left out unless the page is full: a viable joined item
   * that is not shown ranks after every shown row, and the page holds
   * PageLimit rows.
   */
  lemma RankFlipsComplete(catalog: seq<CatalogEntry>, prices: PriceSnapshot, userCash: Option<nat>, c: Candidate)
    requires prices.Keys <= CatalogIds(catalog)
    requires Joined(catalog, prices, CashStack(userCash), c) && Viable(c)
    ensures var r := RankFlips(catalog, prices, userCash);
      c !in r ==> |r| == PageLimit && forall i :: 0 <= i < |r| ==> Precedes(r[i], c)
  {
    var cash := CashStack(userCash);
    var es := Entries(catalog, prices, cash);
    EntriesComplete(catalog, prices, cash, c);
    assert RankFlips(catalog, prices, userCash) == Page(es);
    if c !in Page(es) {
      PageComplete(es, c);
    }
  }

  /** The shown entries are a subsequence of the entries sorted by margin. */
  lemma RankFlipsSubsequence(catalog: seq<CatalogEntry>, prices: PriceSnapshot, userCash: Option<nat>)
    requires prices.Keys <= CatalogIds(catalog)
    ensures SubsequenceOf(RankFlips(catalog, prices, userCash),
                          SortByMargin(Entries(catalog, prices, CashStack(userCash))))
  {
    PageSubsequence(Entries(catalog, prices, CashStack(userCash)));
  }

  /**
   * A single Widget bought at 100 and sold at 150: margin 50, and a budget
   * of 10000 buys 100 units; with a budget of 0 nothing is affordable and
   * the page is empty; an unpriced catalog item is skipped.
   */
  lemma {:induction false} WidgetScenario()
    ensures var widget := CatalogEntry(1, "Widget");
      var price := PriceEntry(Some(100), Some(150));
      var catalog := [widget, CatalogEntry(2, "Gizmo")];
      && RankFlips(catalog, map[1 := price], Some(10000)) == [Candidate(widget, price, 50, Units(100))]
      && RankFlips(catalog, map[1 := price], Some(0)) == []
  {
    var widget := CatalogEntry(1, "Widget");
    var price := PriceEntry(Some(100), Some(150));
    WidgetEntries(10000);
    WidgetEntries(0);
    var c := Derive(widget, price, 10000);
    assert c == Candidate(widget, price, 50, Units(100));
    assert Viable(c);
    assert SortByMargin([c]) == [c];
    assert Survivors([c]) == [c];
    var d := Derive(widget, price, 0);
    assert !Viable(d);
    assert SortByMargin([d]) == [d];
    assert Survivors([d]) == [];
  }

  /** The Widget example joins to a single entry whatever the budget; the unpriced Gizmo is skipped. */
  lemma WidgetEntries(cash: nat)
    ensures var widget := CatalogEntry(1, "Widget");
      var price := PriceEntry(Some(100), Some(150));
      var catalog := [widget, CatalogEntry(2, "Gizmo")];
      && map[1 := price].Keys <= CatalogIds(catalog)
      && Entries(catalog, map[1 := price], cash) == [Derive(widget, price, cash)]
  {
    var widget := CatalogEntry(1, "Widget");
    var price := PriceEntry(Some(100), Some(150));
    var catalog := [widget, CatalogEntry(2, "Gizmo")];
    var prices := map[1 := price];
    assert catalog[..1] == [widget];
    assert 1 in CatalogIds(catalog);
    assert LastIndexOf(catalog, 1) == 0;
    var es := Entries(catalog, prices, cash);
    assert |es| == 1 && es[0].Id() in prices;
  }

  /** Every rendered row has a non-zero low price, a larger high price, and their difference as margin. */
  lemma RankFlipsRows(catalog: seq<CatalogEntry>, prices: PriceSnapshot, userCash: Option<nat>)
    requires prices.Keys <= CatalogIds(catalog)
    ensures var r := RankFlips(catalog, prices, userCash);
      (forall c :: c in r ==> Viable(c)) &&
      forall row :: row in Render(r) ==> 0 < row.low < row.high && row.margin == row.high - row.low
  {
    RankFlipsSound(catalog, prices, userCash);
    RenderedRows(catalog, prices, CashStack(userCash), RankFlips(catalog, prices, userCash));
  }

  lemma RenderedRows(catalog: seq<CatalogEntry>, prices: PriceSnapshot, cash: nat, r: seq<Candidate>)
    requires forall i :: 0 <= i < |r| ==> Viable(r[i]) && Joined(catalog, prices, cash, r[i])
    ensures forall c :: c in r ==> Viable(c)
    ensures forall row :: row in Render(r) ==> 0 < row.low < row.high && row.margin == row.high - row.low
  {
    var rows := Render(r);
    forall row | row in rows
      ensures 0 < row.low < row.high && row.margin == row.high - row.low
    {
      var i :| 0 <= i < |rows| && rows[i] == row;
      JoinedRow(catalog, prices, cash, r[i]);
    }
  }

  lemma JoinedRow(catalog: seq<CatalogEntry>, prices: PriceSnapshot, cash: nat, c: Candidate)
    requires Joined(catalog, prices, cash, c) && Viable(c)
    ensures var row := RowOf(c); 0 < row.low < row.high && row.margin == row.high - row.low
  {
    assert c.margin == ToNumber(c.price.avgHighPrice) - ToNumber(c.price.avgLowPrice);
  }

  /**
   * One table refresh. With no price snapshot the table is left alone;
   * otherwise its rows are replaced by the rendered page of ranked flips:
   * at most one page, each row with a non-zero low price, a larger high
   * price and their difference as margin.
   */
  method PopulateTable(catalog: seq<CatalogEntry>, prices: Option<PriceSnapshot>, userCash: Option<nat>)
    returns (update: TableUpdate)
    requires prices.Some? ==> prices.value.Keys <= CatalogIds(catalog)
    ensures prices.None? <==> update == Untouched
    ensures prices.Some? ==> update.Replaced? && update.rows == Render(RankFlips(catalog, prices.value, userCash))
    ensures prices.Some? ==> |update.rows| <= PageLimit
    ensures prices.Some? ==> forall row :: row in update.rows ==>
              0 < row.low < row.high && row.margin == row.high - row.low
  {
    if prices.None? {
      return Untouched;
    }
    var cash := CashStack(userCash);
    var sorted := SortByMargin(Entries(catalog, prices.value, cash));
    var rows := EmitRows(sorted);
    RankFlipsRows(catalog, prices.value, userCash);
    return Replaced(rows);
  }
}
