/**
 * The `tv_products` table as the importer writes it through Eloquent's `updateOrCreate`:
 * one row per external id, where a null id is a key of its own (Eloquent turns
 * `where('external_id', null)` into `whereNull`, so all null-id products share one row).
 *
 * `ApplyAll` and `TouchedSlots` specify a whole import batch: the table after applying the
 * DTOs in order, and the `$touched` slots of the DTOs that created or changed a row.
 */
module ProductTable {
  import opened Wrappers
  import opened ValueObjects
  import opened Dto

  /** The `external_id` column, nullable. */
  type Key = Option<string>

  /** The eight attributes the importer writes, as stored columns. */
  datatype Row = Row(
    title: string,
    brand: Option<string>,
    shop: Option<string>,
    productUrl: string,
    imageUrl: Option<string>,
    priceCents: Option<nat>,
    currency: string,
    category: Option<string>)

  /** The attribute array built from a DTO: no price stores a null amount and the currency "EUR". */
  function RowOf(dto: TvProductData): Row {
    Row(dto.title, dto.brand, dto.shop, dto.productUrl, dto.imageUrl,
        if dto.price.Some? then Some(dto.price.value.amountInCents) else None,
        if dto.price.Some? then dto.price.value.currency else "EUR",
        dto.category)
  }

  /**
   * The stored columns: the six plain attributes are copied from the DTO; the price columns hold
   * a null amount with "EUR" exactly when there is no price, else the price's cents and currency.
   */
  lemma RowOfColumns(dto: TvProductData)
    ensures RowOf(dto).title == dto.title && RowOf(dto).brand == dto.brand && RowOf(dto).shop == dto.shop
    ensures RowOf(dto).productUrl == dto.productUrl && RowOf(dto).imageUrl == dto.imageUrl
    ensures RowOf(dto).category == dto.category
    ensures RowOf(dto).priceCents.None? <==> dto.price.None?
    ensures dto.price.None? ==> RowOf(dto).currency == "EUR"
    ensures dto.price.Some? ==> RowOf(dto).priceCents == Some(dto.price.value.amountInCents)
    ensures dto.price.Some? ==> RowOf(dto).currency == dto.price.value.currency
  {
  }

  /** The stored row determines every DTO field except the external id, so `wasChanged()` means some field differs. */
  lemma RowOfInjective(a: TvProductData, b: TvProductData)
    ensures RowOf(a) == RowOf(b) <==> a.(externalId := b.externalId) == b
  {
    if RowOf(a) == RowOf(b) && a.price.Some? && b.price.Some? {
      assert a.price.value == Money(RowOf(a).priceCents.value, RowOf(a).currency);
    }
  }

  /** PHP turns a null array key into "", so a null id and the id "" share one `$touched` slot. */
  function Slot(k: Key): string {
    if k.Some? then k.value else ""
  }

  /** Two ids share a `$touched` slot exactly when they are equal or are null and "". */
  lemma SlotsCollide(k: Key, k': Key)
    ensures Slot(k) == Slot(k') <==> k == k' || ((k.None? || k == Some("")) && (k'.None? || k' == Some("")))
  {
  }

  /** The database table. */
  class TvProductTable {
    var rows: map<Key, Row>

    constructor(initial: map<Key, Row>)
      ensures rows == initial
    {
      rows := initial;
    }

    /**
     * `TvProduct::updateOrCreate(['external_id' => key], attributes)`: the row for `key` is
     * created or overwritten; the model reports whether it was just created and whether an
     * existing row's attributes changed.
     */
    method UpdateOrCreate(key: Key, attributes: Row) returns (wasRecentlyCreated: bool, wasChanged: bool)
      modifies this
      ensures rows == old(rows)[key := attributes]
      ensures wasRecentlyCreated <==> key !in old(rows)
      ensures wasChanged <==> key in old(rows) && old(rows)[key] != attributes
    {
      wasRecentlyCreated := key !in rows;
      wasChanged := !wasRecentlyCreated && rows[key] != attributes;
      rows := rows[key := attributes];
    }
  }

  // ---------------------------------------------------------------------------
  // A batch of DTOs, applied in order

  /** The table after one `updateOrCreate` for `dto`. */
  function Apply(t: map<Key, Row>, dto: TvProductData): map<Key, Row> {
    t[dto.externalId := RowOf(dto)]
  }

  /** Whether `updateOrCreate` for `dto` creates a row or changes one. */
  predicate Touches(t: map<Key, Row>, dto: TvProductData) {
    dto.externalId !in t || t[dto.externalId] != RowOf(dto)
  }

  /** The table after applying every DTO of the batch in order. */
  function ApplyAll(t: map<Key, Row>, ds: seq<TvProductData>): map<Key, Row>
    decreases |ds|
  {
    if ds == [] then t else Apply(ApplyAll(t, ds[..|ds| - 1]), ds[|ds| - 1])
  }

  /** The `$touched` slots after the batch: one per DTO that created or changed its row when it was applied. */
  function TouchedSlots(t: map<Key, Row>, ds: seq<TvProductData>): set<string>
    decreases |ds|
  {
    if ds == [] then {}
    else
      var init := ds[..|ds| - 1];
      TouchedSlots(t, init) + (if Touches(ApplyAll(t, init), ds[|ds| - 1]) then {Slot(ds[|ds| - 1].externalId)} else {})
  }

  /** The external ids of a batch. */
  function KeysOf(ds: seq<TvProductData>): (keys: set<Key>)
    ensures forall i :: 0 <= i < |ds| ==> ds[i].externalId in keys
    ensures forall k :: k in keys ==> exists i :: 0 <= i < |ds| && ds[i].externalId == k
    decreases |ds|
  {
    if ds == [] then {} else KeysOf(ds[..|ds| - 1]) + {ds[|ds| - 1].externalId}
  }

  /** The `$touched` slots a batch can reach. */
  function SlotsOf(ds: seq<TvProductData>): (slots: set<string>)
    ensures forall i :: 0 <= i < |ds| ==> Slot(ds[i].externalId) in slots
    decreases |ds|
  {
    if ds == [] then {} else SlotsOf(ds[..|ds| - 1]) + {Slot(ds[|ds| - 1].externalId)}
  }

  predicate DistinctKeys(ds: seq<TvProductData>) {
    forall i, j :: 0 <= i < j < |ds| ==> ds[i].externalId != ds[j].externalId
  }

  // ---------------------------------------------------------------------------
  // Properties of a batch

  /** Applying one more DTO: the last `updateOrCreate`, and its slot when it creates or changes the row. */
  lemma BatchSnoc(t: map<Key, Row>, ds: seq<TvProductData>, dto: TvProductData)
    ensures ApplyAll(t, ds + [dto]) == Apply(ApplyAll(t, ds), dto)
    ensures TouchedSlots(t, ds + [dto])
         == TouchedSlots(t, ds) + (if Touches(ApplyAll(t, ds), dto) then {Slot(dto.externalId)} else {})
  {
    assert (ds + [dto])[..|ds|] == ds;
  }

  /** After the batch the table holds its old keys and the batch's keys, and no others. */
  lemma {:induction false} ApplyAllKeys(t: map<Key, Row>, ds: seq<TvProductData>)
    ensures ApplyAll(t, ds).Keys == t.Keys + KeysOf(ds)
    decreases |ds|
  {
    if ds != [] {
      ApplyAllKeys(t, ds[..|ds| - 1]);
    }
  }

  /** A row whose key does not occur in the batch is left as it was, and no such row appears. */
  lemma {:induction false} OutsideBatchUnchanged(t: map<Key, Row>, ds: seq<TvProductData>, k: Key)
    requires k !in KeysOf(ds)
    ensures k in ApplyAll(t, ds) <==> k in t
    ensures k in t ==> ApplyAll(t, ds)[k] == t[k]
    decreases |ds|
  {
    if ds != [] {
      OutsideBatchUnchanged(t, ds[..|ds| - 1], k);
    }
  }

  /** Each key ends up with the attributes of the last DTO of the batch carrying it. */
  lemma {:induction false} LastWins(t: map<Key, Row>, ds: seq<TvProductData>, i: nat)
    requires i < |ds|
    requires forall j :: i < j < |ds| ==> ds[j].externalId != ds[i].externalId
    ensures ds[i].externalId in ApplyAll(t, ds)
    ensures ApplyAll(t, ds)[ds[i].externalId] == RowOf(ds[i])
    decreases |ds|
  {
    if i < |ds| - 1 {
      var init := ds[..|ds| - 1];
      assert init[i] == ds[i];
      LastWins(t, init, i);
    }
  }

  /** The `i`-th DTO created or changed its row when it was applied. */
  predicate TouchedAt(t: map<Key, Row>, ds: seq<TvProductData>, i: nat)
    requires i < |ds|
  {
    Touches(ApplyAll(t, ds[..i]), ds[i])
  }

  /** Whether a DTO touches its row does not depend on what follows it in the batch. */
  lemma TouchedAtPrefix(t: map<Key, Row>, ds: seq<TvProductData>, n: nat, i: nat)
    requires i < n <= |ds|
    ensures TouchedAt(t, ds[..n], i) == TouchedAt(t, ds, i)
  {
    assert ds[..n][..i] == ds[..i];
  }

  lemma {:induction false} TouchedSlotsSound(t: map<Key, Row>, ds: seq<TvProductData>, s: string)
    requires s in TouchedSlots(t, ds)
    ensures exists i :: 0 <= i < |ds| && Slot(ds[i].externalId) == s && TouchedAt(t, ds, i)
    decreases |ds|
  {
    var n := |ds| - 1;
    var init := ds[..n];
    if s in TouchedSlots(t, init) {
      TouchedSlotsSound(t, init, s);
      var i :| 0 <= i < |init| && Slot(init[i].externalId) == s && TouchedAt(t, init, i);
      TouchedAtPrefix(t, ds, n, i);
      assert init[i] == ds[i];
    } else {
      assert TouchedAt(t, ds, n);
    }
  }

  lemma {:induction false} TouchedSlotsComplete(t: map<Key, Row>, ds: seq<TvProductData>, i: nat)
    requires i < |ds| && TouchedAt(t, ds, i)
    ensures Slot(ds[i].externalId) in TouchedSlots(t, ds)
    decreases |ds|
  {
    var n := |ds| - 1;
    if i < n {
      var init := ds[..n];
      TouchedAtPrefix(t, ds, n, i);
      assert init[i] == ds[i];
      TouchedSlotsComplete(t, init, i);
    }
  }

  /**
   * A slot is touched exactly when some DTO carrying it created or changed its row at the
   * moment it was applied.
   */
  lemma TouchedSlotsMeaning(t: map<Key, Row>, ds: seq<TvProductData>, s: string)
    ensures s in TouchedSlots(t, ds) <==> exists i :: 0 <= i < |ds| && Slot(ds[i].externalId) == s && TouchedAt(t, ds, i)
  {
    if s in TouchedSlots(t, ds) {
      TouchedSlotsSound(t, ds, s);
    }
    if exists i :: 0 <= i < |ds| && Slot(ds[i].externalId) == s && TouchedAt(t, ds, i) {
      var i :| 0 <= i < |ds| && Slot(ds[i].externalId) == s && TouchedAt(t, ds, i);
      TouchedSlotsComplete(t, ds, i);
    }
  }

  /** Only slots of the batch can be touched. */
  lemma {:induction false} TouchedWithinBatch(t: map<Key, Row>, ds: seq<TvProductData>)
    ensures TouchedSlots(t, ds) <= SlotsOf(ds)
    decreases |ds|
  {
    if ds != [] {
      TouchedWithinBatch(t, ds[..|ds| - 1]);
    }
  }

  /** A batch has at most one distinct id per DTO. */
  lemma {:induction false} KeysBound(ds: seq<TvProductData>)
    ensures |KeysOf(ds)| <= |ds|
    decreases |ds|
  {
    if ds != [] {
      KeysBound(ds[..|ds| - 1]);
    }
  }

  /** A batch reaches at most as many slots as it has distinct ids. */
  lemma {:induction false} SlotsBound(ds: seq<TvProductData>)
    ensures |SlotsOf(ds)| <= |KeysOf(ds)|
    decreases |ds|
  {
    if ds != [] {
      var init, last := ds[..|ds| - 1], ds[|ds| - 1];
      SlotsBound(init);
      var slots, keys := SlotsOf(init), KeysOf(init);
      AddOne(slots, Slot(last.externalId));
      AddOne(keys, last.externalId);
      if last.externalId in keys {
        var i :| 0 <= i < |init| && init[i].externalId == last.externalId;
        assert Slot(last.externalId) in slots;
      }
    }
  }

  /** Adding one element grows a set by at most one, and not at all when it is already there. */
  lemma AddOne<T>(a: set<T>, x: T)
    ensures |a + {x}| == if x in a then |a| else |a| + 1
  {
    if x in a {
      assert a + {x} == a;
    }
  }

  lemma {:induction false} SubsetCardinality<T>(a: set<T>, b: set<T>)
    requires a <= b
    ensures |a| <= |b|
    decreases a
  {
    if a != {} {
      var x :| x in a;
      SubsetCardinality(a - {x}, b - {x});
    }
  }

  /** The count the importer returns is at most the number of distinct ids in the batch, hence at most its length. */
  lemma TouchedCountBound(t: map<Key, Row>, ds: seq<TvProductData>)
    ensures |TouchedSlots(t, ds)| <= |KeysOf(ds)| <= |ds|
  {
    TouchedWithinBatch(t, ds);
    SubsetCardinality(TouchedSlots(t, ds), SlotsOf(ds));
    SlotsBound(ds);
    KeysBound(ds);
  }

  /** The slots of the DTOs that differ from the table `t`. */
  function DifferingSlots(t: map<Key, Row>, ds: seq<TvProductData>): set<string> {
    set i | 0 <= i < |ds| && Touches(t, ds[i]) :: Slot(ds[i].externalId)
  }

  lemma DifferingSlotsSnoc(t: map<Key, Row>, ds: seq<TvProductData>)
    requires ds != []
    ensures DifferingSlots(t, ds)
         == DifferingSlots(t, ds[..|ds| - 1]) + (if Touches(t, ds[|ds| - 1]) then {Slot(ds[|ds| - 1].externalId)} else {})
  {
    var n := |ds| - 1;
    var init := ds[..n];
    forall s | s in DifferingSlots(t, ds)
      ensures s in DifferingSlots(t, init) + (if Touches(t, ds[n]) then {Slot(ds[n].externalId)} else {})
    {
      var i :| 0 <= i < |ds| && Touches(t, ds[i]) && Slot(ds[i].externalId) == s;
      if i < n {
        assert init[i] == ds[i];
      }
    }
    forall s | s in DifferingSlots(t, init) ensures s in DifferingSlots(t, ds) {
      var i :| 0 <= i < |init| && Touches(t, init[i]) && Slot(init[i].externalId) == s;
      assert ds[i] == init[i];
    }
  }

  /** With distinct ids the last DTO's id does not occur earlier in the batch. */
  lemma LastKeyFresh(ds: seq<TvProductData>)
    requires ds != [] && DistinctKeys(ds)
    ensures ds[|ds| - 1].externalId !in KeysOf(ds[..|ds| - 1])
  {
    var n := |ds| - 1;
    assert forall i :: 0 <= i < n ==> ds[..n][i] == ds[i];
  }

  /**
   * With pairwise distinct ids every DTO meets the row as it was before the batch, so the
   * touched slots are those of the DTOs that differ from the table they started from.
   */
  lemma {:induction false} DistinctBatchTouches(t: map<Key, Row>, ds: seq<TvProductData>)
    requires DistinctKeys(ds)
    ensures TouchedSlots(t, ds) == DifferingSlots(t, ds)
    decreases |ds|
  {
    if ds != [] {
      var n := |ds| - 1;
      var init, last := ds[..n], ds[n];
      assert DistinctKeys(init);
      DistinctBatchTouches(t, init);
      LastKeyFresh(ds);
      OutsideBatchUnchanged(t, init, last.externalId);
      DifferingSlotsSnoc(t, ds);
    }
  }

  /** Re-importing a batch with distinct ids right after importing it touches nothing, so the count is 0. */
  lemma ReimportTouchesNothing(t: map<Key, Row>, ds: seq<TvProductData>)
    requires DistinctKeys(ds)
    ensures TouchedSlots(ApplyAll(t, ds), ds) == {}
    ensures |TouchedSlots(ApplyAll(t, ds), ds)| == 0
  {
    var t' := ApplyAll(t, ds);
    DistinctBatchTouches(t', ds);
    forall i | 0 <= i < |ds| ensures !Touches(t', ds[i]) {
      LastWins(t, ds, i);
    }
  }

  /**
   * Without distinct ids a re-import is not idempotent: two DTOs with the same id (two products
   * without an external id, say) and different attributes overwrite each other's row on every
   * run, so an immediate second run counts their shared slot again.
   */
  lemma RepeatedIdReimportTouches(t: map<Key, Row>, a: TvProductData, b: TvProductData)
    requires a.externalId == b.externalId && RowOf(a) != RowOf(b)
    ensures TouchedSlots(ApplyAll(t, [a, b]), [a, b]) == {Slot(a.externalId)}
    ensures |TouchedSlots(ApplyAll(t, [a, b]), [a, b])| == 1
  {
    var k := a.externalId;
    PairBatch(t, a, b);
    var t' := ApplyAll(t, [a, b]);
    assert t' == t[k := RowOf(a)][k := RowOf(b)];
    PairBatch(t', a, b);
    assert Touches(t', a);
    assert Touches(Apply(t', a), b);
  }

  /** A batch of two DTOs, unfolded. */
  lemma PairBatch(t: map<Key, Row>, a: TvProductData, b: TvProductData)
    ensures ApplyAll(t, [a, b]) == Apply(Apply(t, a), b)
    ensures TouchedSlots(t, [a, b]) == (if Touches(t, a) then {Slot(a.externalId)} else {})
                                     + (if Touches(Apply(t, a), b) then {Slot(b.externalId)} else {})
  {
    assert [a, b][..1] == [a] && [a][..0] == [];
    assert ApplyAll(t, [a]) == Apply(t, a);
    assert TouchedSlots(t, [a]) == if Touches(t, a) then {Slot(a.externalId)} else {};
  }

  /** A batch that agrees with `ds` except for one DTO's price. */
  function WithPrice(ds: seq<TvProductData>, j: nat, p: Money): (r: seq<TvProductData>)
    requires j < |ds|
    ensures |r| == |ds| && r[j].price == Some(p)
    ensures forall i :: 0 <= i < |ds| && i != j ==> r[i] == ds[i]
    ensures forall i :: 0 <= i < |ds| ==> r[i].externalId == ds[i].externalId
  {
    ds[j := ds[j].(price := Some(p))]
  }

  /**
   * Re-importing a batch with distinct ids in which only one product's price changed touches
   * exactly that product's slot, so the count is 1, and its row then holds the new price.
   */
  lemma OnePriceChanged(t: map<Key, Row>, ds: seq<TvProductData>, j: nat, p: Money)
    requires DistinctKeys(ds) && j < |ds|
    requires ds[j].price != Some(p)
    ensures TouchedSlots(ApplyAll(t, ds), WithPrice(ds, j, p)) == {Slot(ds[j].externalId)}
    ensures |TouchedSlots(ApplyAll(t, ds), WithPrice(ds, j, p))| == 1
    ensures ds[j].externalId in ApplyAll(ApplyAll(t, ds), WithPrice(ds, j, p))
    ensures ApplyAll(ApplyAll(t, ds), WithPrice(ds, j, p))[ds[j].externalId].priceCents == Some(p.amountInCents)
  {
    var t' := ApplyAll(t, ds);
    var ds' := WithPrice(ds, j, p);
    assert DistinctKeys(ds');
    DistinctBatchTouches(t', ds');
    forall i | 0 <= i < |ds| ensures Touches(t', ds'[i]) <==> i == j {
      LastWins(t, ds, i);
      RowOfInjective(ds'[i], ds[i]);
    }
    LastWins(t', ds', j);
  }

  /**
   * Without distinct ids one changed price is not one touched slot: when the first two DTOs share
   * an id and store different rows, they overwrite each other again, so re-importing the batch
   * with only the third DTO's price changed counts the third slot and their shared one.
   */
  lemma RepeatedIdOnePriceCountsTwo(t: map<Key, Row>, ds: seq<TvProductData>, p: Money)
    requires |ds| == 3
    requires ds[0].externalId == ds[1].externalId && RowOf(ds[0]) != RowOf(ds[1])
    requires Slot(ds[2].externalId) != Slot(ds[0].externalId)
    requires ds[2].price != Some(p)
    ensures TouchedSlots(ApplyAll(t, ds), WithPrice(ds, 2, p)) == {Slot(ds[0].externalId), Slot(ds[2].externalId)}
    ensures |TouchedSlots(ApplyAll(t, ds), WithPrice(ds, 2, p))| == 2
  {
    var ds' := WithPrice(ds, 2, p);
    RowOfInjective(ds'[2], ds[2]);
    SharedIdFirstRun(t, ds);
    SharedIdSecondRun(ApplyAll(t, ds), ds');
  }

  /** The first run over a batch whose first two DTOs share an id: the second one's row stays. */
  lemma SharedIdFirstRun(t: map<Key, Row>, ds: seq<TvProductData>)
    requires |ds| == 3 && ds[0].externalId == ds[1].externalId
    ensures ApplyAll(t, ds) == t[ds[0].externalId := RowOf(ds[1])][ds[2].externalId := RowOf(ds[2])]
  {
    TripleBatch(t, ds);
  }

  /**
   * A run over a table holding the second DTO's row at the shared id and a different row at the
   * third DTO's id touches both slots.
   */
  lemma SharedIdSecondRun(t: map<Key, Row>, ds: seq<TvProductData>)
    requires |ds| == 3
    requires ds[0].externalId == ds[1].externalId && RowOf(ds[0]) != RowOf(ds[1])
    requires Slot(ds[2].externalId) != Slot(ds[0].externalId)
    requires ds[0].externalId in t && t[ds[0].externalId] == RowOf(ds[1])
    requires ds[2].externalId in t && t[ds[2].externalId] != RowOf(ds[2])
    ensures TouchedSlots(t, ds) == {Slot(ds[0].externalId), Slot(ds[2].externalId)}
    ensures |TouchedSlots(t, ds)| == 2
  {
    TripleBatch(t, ds);
    var x, y := Slot(ds[0].externalId), Slot(ds[2].externalId);
    assert ds[2].externalId != ds[0].externalId;
    assert Touches(Apply(Apply(t, ds[0]), ds[1]), ds[2]);
    assert TouchedSlots(t, ds) == {x} + {x} + {y};
    assert |{x, y}| == 2 by {
      assert {x, y} == {x} + {y} && x !in {y};
    }
  }

  /** A batch of three DTOs, unfolded. */
  lemma TripleBatch(t: map<Key, Row>, ds: seq<TvProductData>)
    requires |ds| == 3
    ensures ApplyAll(t, ds) == Apply(Apply(Apply(t, ds[0]), ds[1]), ds[2])
    ensures TouchedSlots(t, ds) == (if Touches(t, ds[0]) then {Slot(ds[0].externalId)} else {})
                                 + (if Touches(Apply(t, ds[0]), ds[1]) then {Slot(ds[1].externalId)} else {})
                                 + (if Touches(Apply(Apply(t, ds[0]), ds[1]), ds[2]) then {Slot(ds[2].externalId)} else {})
  {
    assert ds[..2] == [ds[0], ds[1]];
    PairBatch(t, ds[0], ds[1]);
  }

  /**
   * Without distinct ids the new price need not be stored: when `a` and `b` share an id, the
   * later `b` overwrites the row, so changing `a`'s price leaves `b`'s row in the table.
   */
  lemma RepeatedIdPriceOverwritten(t: map<Key, Row>, a: TvProductData, b: TvProductData, p: Money)
    requires a.externalId == b.externalId
    requires RowOf(b).priceCents != Some(p.amountInCents)
    ensures ApplyAll(ApplyAll(t, [a, b]), WithPrice([a, b], 0, p))[a.externalId] == RowOf(b)
    ensures ApplyAll(ApplyAll(t, [a, b]), WithPrice([a, b], 0, p))[a.externalId].priceCents != Some(p.amountInCents)
  {
    var a' := a.(price := Some(p));
    assert WithPrice([a, b], 0, p) == [a', b];
    PairBatch(ApplyAll(t, [a, b]), a', b);
  }
}
