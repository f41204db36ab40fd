/** The batch page's item cache: the list of items shown for one batch, the
    search filter over it, and the three ways it changes (load, refresh and
    a single-item status override). */
module BatchView {
  import opened Wrappers
  import opened Text
  import opened Seqs

  /** One tracked mail piece as the server reports it. `status` is the raw
      status code (`PENDING`, `IN_TRANSIT`, ...), not its display label. */
  datatype Item = Item(id: string, imb: string, status: string, updatedAt: string)

  /** The batch record of a load response. */
  datatype BatchInfo = BatchInfo(id: string, createdAt: string)

  // ---------------------------------------------------------------------------
  // Search filter

  /** The search box value as the filter uses it: trimmed and lower-cased. */
  function Query(rawQuery: string): (q: string)
    ensures q == [] <==> Trim(rawQuery) == []
  {
    ToLower(Trim(rawQuery))
  }

  /** A non-empty query selects an item when it occurs in the lower-cased IMB
      or in the lower-cased raw status code. */
  predicate Matches(item: Item, query: string) {
    Contains(ToLower(item.imb), query) || Contains(ToLower(item.status), query)
  }

  /** The test the filter callback applies: a blank query passes every
      item, any other passes the items it matches. */
  predicate Shows(query: string, item: Item) {
    query == [] || Matches(item, query)
  }

  /** The rows the batch table shows for the search box value `rawQuery`. */
  function Visible(items: seq<Item>, rawQuery: string): seq<Item> {
    var q := Query(rawQuery);
    Select(items, item => Shows(q, item))
  }

  /** A blank search box shows every item, in order. */
  lemma {:induction false} FilterBlankQuery(items: seq<Item>, rawQuery: string)
    requires Trim(rawQuery) == []
    ensures Visible(items, rawQuery) == items
  {
    var q := Query(rawQuery);
    SelectAll(items, item => Shows(q, item));
  }

  /** The filter keeps exactly the selected items, each where it was relative
      to the others: the result is `items` at increasing positions, and those
      are exactly the positions whose item the query selects. */
  lemma {:induction false} FilterIsSubsequence(items: seq<Item>, rawQuery: string)
    ensures var q, r := Query(rawQuery), Visible(items, rawQuery);
      exists ps: seq<nat> ::
        |ps| == |r| &&
        (forall i, j :: 0 <= i < j < |ps| ==> ps[i] < ps[j]) &&
        (forall i :: 0 <= i < |ps| ==> ps[i] < |items| && r[i] == items[ps[i]]) &&
        (forall k :: 0 <= k < |items| ==> (k in ps <==> Shows(q, items[k])))
  {
    var q := Query(rawQuery);
    var keep := item => Shows(q, item);
    SelectSubsequence(items, keep);
  }

  /** An item is shown exactly when it is in the cache and the query selects it. */
  lemma {:induction false} FilterMembership(items: seq<Item>, rawQuery: string, x: Item)
    ensures x in Visible(items, rawQuery) <==> x in items && Shows(Query(rawQuery), x)
  {
    var q := Query(rawQuery);
    SelectMembership(items, item => Shows(q, item), x);
  }

  /** Filtering what is already filtered by the same query changes nothing. */
  lemma {:induction false} FilterIdempotent(items: seq<Item>, rawQuery: string)
    ensures Visible(Visible(items, rawQuery), rawQuery) == Visible(items, rawQuery)
  {
    var q := Query(rawQuery);
    SelectIdempotent(items, item => Shows(q, item));
  }

  // ---------------------------------------------------------------------------
  // Single-item override

  /** `items.findIndex((item) => item.id === itemId)`. */
  function FindIndex(items: seq<Item>, itemId: string): (r: int)
    ensures -1 <= r < |items|
    ensures r >= 0 ==> items[r].id == itemId
    ensures forall k :: 0 <= k < |items| && (r == -1 || k < r) ==> items[k].id != itemId
  {
    if items == [] then -1
    else if items[0].id == itemId then 0
    else
      var r := FindIndex(items[1..], itemId);
      if r == -1 then -1 else r + 1
  }

  /** `k` is the first position holding an item with id `itemId`. */
  predicate IsFirstWithId(items: seq<Item>, itemId: string, k: int) {
    0 <= k < |items| && items[k].id == itemId && forall j :: 0 <= j < k ==> items[j].id != itemId
  }

  /** The cache after the server answered a status override of `itemId` with
      `updated`. */
  function Overridden(items: seq<Item>, itemId: string, updated: Item): seq<Item> {
    var idx := FindIndex(items, itemId);
    if idx >= 0 then items[idx := updated] else items
  }

  /** The override replaces the item at the first position with the requested
      id and nothing else; with no such position it changes nothing and, in
      particular, does not append. */
  lemma {:induction false} OverrideReplacesFirstOnly(items: seq<Item>, itemId: string, updated: Item)
    ensures |Overridden(items, itemId, updated)| == |items|
    ensures forall k :: 0 <= k < |items| ==>
      Overridden(items, itemId, updated)[k] == if IsFirstWithId(items, itemId, k) then updated else items[k]
    ensures (forall k :: 0 <= k < |items| ==> items[k].id != itemId) ==> Overridden(items, itemId, updated) == items
  {
    var idx := FindIndex(items, itemId);
    assert forall k :: 0 <= k < |items| ==> (IsFirstWithId(items, itemId, k) <==> k == idx);
  }

  /** The ids of a list of items, in order. */
  function Ids(items: seq<Item>): seq<string> {
    seq(|items|, k requires 0 <= k < |items| => items[k].id)
  }

  /** When the server returns the item under the id it was asked about, the
      list of ids is unchanged, so ids that were unique stay unique. */
  lemma {:induction false} OverrideKeepsIds(items: seq<Item>, itemId: string, updated: Item)
    requires updated.id == itemId
    ensures Ids(Overridden(items, itemId, updated)) == Ids(items)
  {
    OverrideReplacesFirstOnly(items, itemId, updated);
  }

  /** Overriding `a` does not move the first position of a different id `b`
      when the returned item keeps id `a`. */
  lemma {:induction false} FindIndexAfterOverride(items: seq<Item>, a: string, itemA: Item, b: string)
    requires itemA.id == a && a != b
    ensures FindIndex(Overridden(items, a, itemA), b) == FindIndex(items, b)
  {
    OverrideKeepsIds(items, a, itemA);
    var after := Overridden(items, a, itemA);
    assert forall k :: 0 <= k < |items| ==> after[k].id == items[k].id by {
      forall k | 0 <= k < |items| ensures after[k].id == items[k].id {
        assert Ids(after)[k] == Ids(items)[k];
      }
    }
    SameIdsSameIndex(items, after, b);
  }

  lemma {:induction false} SameIdsSameIndex(xs: seq<Item>, ys: seq<Item>, b: string)
    requires |xs| == |ys|
    requires forall k :: 0 <= k < |xs| ==> xs[k].id == ys[k].id
    ensures FindIndex(xs, b) == FindIndex(ys, b)
  {
    if xs != [] {
      SameIdsSameIndex(xs[1..], ys[1..], b);
    }
  }

  /** Two overrides of different ids, each answered with an item under its
      own id, give the same cache in either order. */
  lemma {:induction false} OverridesCommute(items: seq<Item>, a: string, itemA: Item, b: string, itemB: Item)
    requires itemA.id == a && itemB.id == b && a != b
    ensures Overridden(Overridden(items, a, itemA), b, itemB) == Overridden(Overridden(items, b, itemB), a, itemA)
  {
    FindIndexAfterOverride(items, a, itemA, b);
    FindIndexAfterOverride(items, b, itemB, a);
  }

  /** Applying the same answered override twice is the same as once. */
  lemma {:induction false} OverrideIdempotent(items: seq<Item>, itemId: string, updated: Item)
    requires updated.id == itemId
    ensures Overridden(Overridden(items, itemId, updated), itemId, updated) == Overridden(items, itemId, updated)
  {
    var once := Overridden(items, itemId, updated);
    OverrideKeepsIds(items, itemId, updated);
    forall k | 0 <= k < |items| ensures once[k].id == items[k].id {
      assert Ids(once)[k] == Ids(items)[k];
    }
    SameIdsSameIndex(items, once, itemId);
  }

  // ---------------------------------------------------------------------------
  // The page state

  /** The outcome of fetching the batch: an error message, or the batch record
      and the item list, either of which the server may omit. */
  datatype LoadResponse = LoadFailed(message: string) | Loaded(batch: Option<BatchInfo>, items: Option<seq<Item>>)

  /** The outcome of a refresh: an error message or the item list, which the
      server may omit. */
  datatype RefreshResponse = RefreshFailed(message: string) | Refreshed(items: Option<seq<Item>>)

  /** The outcome of a status override: an error message or the updated item. */
  datatype OverrideResponse = OverrideFailed(message: string) | Updated(item: Item)

  /** The line under the batch title. */
  datatype MetaLine =
    | Pending
      /** Created-at stamp and item count of a loaded batch. */
    | Created(createdAt: string, count: nat)
      /** The message of a failed load. */
    | LoadError(message: string)
      /** Reading `created_at` of an absent batch record threw. */
    | MissingBatch

  /** `data.items || []`. */
  function ItemsOrEmpty(items: Option<seq<Item>>): seq<Item> {
    if items.Some? then items.value else []
  }

  const RefreshingMessage := "Refreshing..."
  const RefreshedMessage := "Refresh complete."
  const UpdatedMessage := "Status updated."

  /** The state the batch page keeps between events. */
  class BatchPage {
    var batch: Option<BatchInfo>
    var items: seq<Item>
    var meta: MetaLine
    var statusMessage: string

    constructor ()
      ensures batch == None && items == [] && meta == Pending && statusMessage == ""
    {
      batch := None;
      items := [];
      meta := Pending;
      statusMessage := "";
    }

    /** `loadBatch`: on success the cache becomes the server's list, or empty
        when it sent none; on failure nothing but the meta line changes. */
    method Load(resp: LoadResponse)
      modifies this
      ensures statusMessage == ""
      ensures resp.LoadFailed? ==>
        batch == old(batch) && items == old(items) && meta == LoadError(resp.message)
      ensures resp.Loaded? ==> batch == resp.batch && items == ItemsOrEmpty(resp.items)
      ensures resp.Loaded? && resp.batch.Some? ==> meta == Created(resp.batch.value.createdAt, |items|)
      ensures resp.Loaded? && resp.batch.None? ==> meta == MissingBatch
    {
      statusMessage := "";
      match resp
      case LoadFailed(message) =>
        meta := LoadError(message);
      case Loaded(b, list) =>
        batch := b;
        items := ItemsOrEmpty(list);
        if b.Some? {
          meta := Created(b.value.createdAt, |items|);
        } else {
          meta := MissingBatch;
        }
    }

    /** The refresh button: on success the cache becomes the server's list, or
        empty when it sent none; the batch record and meta line are kept. */
    method Refresh(resp: RefreshResponse)
      modifies this
      ensures batch == old(batch) && meta == old(meta)
      ensures resp.RefreshFailed? ==> items == old(items) && statusMessage == resp.message
      ensures resp.Refreshed? ==> items == ItemsOrEmpty(resp.items) && statusMessage == RefreshedMessage
    {
      statusMessage := RefreshingMessage;
      match resp
      case RefreshFailed(message) =>
        statusMessage := message;
      case Refreshed(list) =>
        items := ItemsOrEmpty(list);
        statusMessage := RefreshedMessage;
    }

    /** An override's answer: the updated item takes the place of the first
        cached item with the requested id; a failure changes only the status
        message. */
    method ApplyOverride(itemId: string, resp: OverrideResponse)
      modifies this
      ensures batch == old(batch) && meta == old(meta)
      ensures resp.OverrideFailed? ==> items == old(items) && statusMessage == resp.message
      ensures resp.Updated? ==>
        items == Overridden(old(items), itemId, resp.item) && statusMessage == UpdatedMessage
    {
      match resp
      case OverrideFailed(message) =>
        statusMessage := message;
      case Updated(item) =>
        var idx := FindIndex(items, itemId);
        if idx >= 0 {
          items := items[idx := item];
        }
        statusMessage := UpdatedMessage;
    }
  }
}
