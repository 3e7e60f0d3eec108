/**
 * The join of the catalog with the price snapshot (main.js:66-76) and the
 * enumeration of the annotated snapshot in `Object.entries` order (main.js:78).
 */
module Join {
  import opened Market

  /** The ids the catalog lists. */
  function CatalogIds(catalog: seq<CatalogEntry>): (ids: set<nat>)
    ensures forall i :: 0 <= i < |catalog| ==> catalog[i].id in ids
    ensures forall id :: id in ids ==> exists i :: 0 <= i < |catalog| && catalog[i].id == id
  {
    if |catalog| == 0 then {}
    else CatalogIds(catalog[..|catalog| - 1]) + {catalog[|catalog| - 1].id}
  }

  /** Index of the last catalog entry with the given id: the one the join loop attaches last. */
  function LastIndexOf(catalog: seq<CatalogEntry>, id: nat): (j: nat)
    requires id in CatalogIds(catalog)
    ensures j < |catalog| && catalog[j].id == id
    ensures forall k :: j < k < |catalog| ==> catalog[k].id != id
  {
    var last := |catalog| - 1;
    if catalog[last].id == id then last
    else LastIndexOf(catalog[..last], id)
  }

  /** The candidate the source derives for a priced catalog id. */
  function JoinedCandidate(catalog: seq<CatalogEntry>, prices: PriceSnapshot, cash: nat, id: nat): (c: Candidate)
    requires id in prices && id in CatalogIds(catalog)
    ensures c.Id() == id && c.item in catalog && c.price == prices[id]
  {
    Derive(catalog[LastIndexOf(catalog, id)], prices[id], cash)
  }

  /** True when `c` is what the pass derives for one of the snapshot's items. */
  predicate Joined(catalog: seq<CatalogEntry>, prices: PriceSnapshot, cash: nat, c: Candidate)
  {
    && c.Id() in prices
    && c.Id() in CatalogIds(catalog)
    && c == JoinedCandidate(catalog, prices, cash, c.Id())
  }

  /**
   * The join loop: every catalog item that has a price entry gets its derived
   * values; items without one are skipped; a later catalog entry with the same
   * id overwrites an earlier one.
   */
  function Annotate(catalog: seq<CatalogEntry>, prices: PriceSnapshot, cash: nat): (m: map<nat, Candidate>)
    ensures m.Keys == prices.Keys * CatalogIds(catalog)
    ensures forall id :: id in m ==> m[id] == JoinedCandidate(catalog, prices, cash, id)
  {
    if |catalog| == 0 then map[]
    else
      var last := |catalog| - 1;
      var item := catalog[last];
      var m := Annotate(catalog[..last], prices, cash);
      if item.id in prices then m[item.id := Derive(item, prices[item.id], cash)] else m
  }

  /** Every non-empty set of naturals has a least element: descend from any member `y`. */
  lemma {:induction false} LeastExists(s: set<nat>, y: nat)
    requires y in s
    ensures exists k :: k in s && forall x :: x in s ==> k <= x
    decreases y
  {
    if !forall x :: x in s ==> y <= x {
      var x :| x in s && x < y;
      LeastExists(s, x);
    }
  }

  function Least(s: set<nat>): (k: nat)
    requires s != {}
    ensures k in s && forall x :: x in s ==> k <= x
  {
    var y :| y in s;
    LeastExists(s, y);
    var k :| k in s && forall x :: x in s ==> k <= x; k
  }

  /** The keys of a snapshot in `Object.entries` order: integer keys ascending. */
  function AscendingKeys(s: set<nat>): (ks: seq<nat>)
    ensures forall i, j :: 0 <= i < j < |ks| ==> ks[i] < ks[j]
    ensures forall k :: k in ks <==> k in s
    ensures |ks| == |s|
    decreases s
  {
    if s == {} then []
    else
      var k := Least(s);
      [k] + AscendingKeys(s - {k})
  }

  /**
   * `Object.entries` of the annotated snapshot: the derivation for each priced
   * id, integer keys ascending (EntriesEnumerateAnnotation shows this is the
   * annotated map read in that order). Every price key is required to be a
   * catalog id: an unmatched entry would reach the sort with an undefined
   * margin and the output loop with an undefined catalog record.
   */
  function Entries(catalog: seq<CatalogEntry>, prices: PriceSnapshot, cash: nat): (es: seq<Candidate>)
    requires prices.Keys <= CatalogIds(catalog)
    ensures |es| == |prices|
    ensures forall i, j :: 0 <= i < j < |es| ==> es[i].Id() < es[j].Id()
    ensures forall i :: 0 <= i < |es| ==> Joined(catalog, prices, cash, es[i])
  {
    var ks := AscendingKeys(prices.Keys);
    var es := JoinAt(catalog, prices, cash, ks);
    EntriesShape(catalog, prices, cash, ks, es);
    es
  }

  /** The derivation for each of the keys `ks`, in order. */
  function JoinAt(catalog: seq<CatalogEntry>, prices: PriceSnapshot, cash: nat, ks: seq<nat>): (es: seq<Candidate>)
    requires forall k :: k in ks ==> k in prices && k in CatalogIds(catalog)
    ensures |es| == |ks|
    ensures forall i :: 0 <= i < |ks| ==> es[i] == JoinedCandidate(catalog, prices, cash, ks[i])
  {
    seq(|ks|, i requires 0 <= i < |ks| => JoinedCandidate(catalog, prices, cash, ks[i]))
  }

  /** Deriving at the ascending snapshot keys gives one joined candidate per key, in ascending id order. */
  lemma EntriesShape(catalog: seq<CatalogEntry>, prices: PriceSnapshot, cash: nat, ks: seq<nat>, es: seq<Candidate>)
    requires prices.Keys <= CatalogIds(catalog)
    requires ks == AscendingKeys(prices.Keys)
    requires |es| == |ks|
    requires forall i :: 0 <= i < |ks| ==> es[i] == JoinedCandidate(catalog, prices, cash, ks[i])
    ensures |es| == |prices|
    ensures forall i, j :: 0 <= i < j < |es| ==> es[i].Id() < es[j].Id()
    ensures forall i :: 0 <= i < |es| ==> Joined(catalog, prices, cash, es[i])
  {
    assert |ks| == |prices.Keys| == |prices|;
  }

  /** Every price key is annotated when every price key is a catalog id. */
  lemma AnnotatedKeys(catalog: seq<CatalogEntry>, prices: PriceSnapshot, cash: nat, ks: seq<nat>)
    requires prices.Keys <= CatalogIds(catalog)
    requires forall k :: k in ks ==> k in prices
    ensures forall k :: k in ks ==> k in Annotate(catalog, prices, cash)
  {
  }

  /** The values of `m` at the keys `ks`, in that order. */
  function Lookup<K, V>(m: map<K, V>, ks: seq<K>): (vs: seq<V>)
    requires forall k :: k in ks ==> k in m
    ensures |vs| == |ks|
    ensures forall i :: 0 <= i < |ks| ==> vs[i] == m[ks[i]]
  {
    seq(|ks|, i requires 0 <= i < |ks| => m[ks[i]])
  }

  /** The entries are the annotated snapshot read at its keys in ascending order. */
  lemma EntriesEnumerateAnnotation(catalog: seq<CatalogEntry>, prices: PriceSnapshot, cash: nat)
    requires prices.Keys <= CatalogIds(catalog)
    ensures var ks := AscendingKeys(prices.Keys);
      && (forall k :: k in ks ==> k in Annotate(catalog, prices, cash))
      && Entries(catalog, prices, cash) == Lookup(Annotate(catalog, prices, cash), ks)
  {
    var ks := AscendingKeys(prices.Keys);
    AnnotatedKeys(catalog, prices, cash, ks);
    LookupAnnotation(catalog, prices, cash, ks);
  }

  /** Reading the annotated snapshot at priced keys gives the derivations for those keys. */
  lemma LookupAnnotation(catalog: seq<CatalogEntry>, prices: PriceSnapshot, cash: nat, ks: seq<nat>)
    requires prices.Keys <= CatalogIds(catalog)
    requires forall k :: k in ks ==> k in prices
    ensures forall k :: k in ks ==> k in Annotate(catalog, prices, cash)
    ensures Lookup(Annotate(catalog, prices, cash), ks) == JoinAt(catalog, prices, cash, ks)
  {
    var m := Annotate(catalog, prices, cash);
    AnnotatedKeys(catalog, prices, cash, ks);
    var vs := Lookup(m, ks);
    var es := JoinAt(catalog, prices, cash, ks);
    forall i | 0 <= i < |ks|
      ensures vs[i] == es[i]
    {
      assert ks[i] in m;
    }
  }

  /** The entries are exactly the joined candidates: none is skipped, none is invented. */
  lemma EntriesComplete(catalog: seq<CatalogEntry>, prices: PriceSnapshot, cash: nat, c: Candidate)
    requires prices.Keys <= CatalogIds(catalog)
    ensures c in Entries(catalog, prices, cash) <==> Joined(catalog, prices, cash, c)
  {
    if c in Entries(catalog, prices, cash) {
      EntryIsJoined(catalog, prices, cash, c);
    }
    if Joined(catalog, prices, cash, c) {
      JoinedIsEntry(catalog, prices, cash, c);
    }
  }

  lemma EntryIsJoined(catalog: seq<CatalogEntry>, prices: PriceSnapshot, cash: nat, c: Candidate)
    requires prices.Keys <= CatalogIds(catalog)
    requires c in Entries(catalog, prices, cash)
    ensures Joined(catalog, prices, cash, c)
  {
    var es := Entries(catalog, prices, cash);
    var i :| 0 <= i < |es| && es[i] == c;
  }

  lemma JoinedIsEntry(catalog: seq<CatalogEntry>, prices: PriceSnapshot, cash: nat, c: Candidate)
    requires prices.Keys <= CatalogIds(catalog)
    requires Joined(catalog, prices, cash, c)
    ensures c in Entries(catalog, prices, cash)
  {
    var ks := AscendingKeys(prices.Keys);
    var es := Entries(catalog, prices, cash);
    assert c.Id() in ks;
    var i :| 0 <= i < |ks| && ks[i] == c.Id();
    assert es[i] == c;
  }


}
