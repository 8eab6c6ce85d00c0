/** The library page (client/src/pages/Saved.tsx): saved items with their
    progress, grouped by source, and the merge rule its buttons go through. */
module LibraryPage {
  import opened Wrappers
  import opened Records

  // ---------------------------------------------------------------------------
  // The merge rule of `update`
  // ---------------------------------------------------------------------------

  /** The next row `update` sends: the partial percent or the current one; `done`
      when `done` is asked for or the percent reaches 100; otherwise the partial
      status or the current one. The timestamp is the time of the call. */
  function Merge(current: Row, partial: Partial, now: string): (next: Row)
    ensures next.percent == partial.percent.GetOr(current.percent)
    ensures next.updatedAt == now
    ensures next.percent >= 100 ==> next.status == Done
    ensures partial.status == Some(Done) ==> next.status == Done
  {
    var nextPercent := partial.percent.GetOr(current.percent);
    var nextStatus :=
      if partial.status == Some(Done) then Done
      else if nextPercent >= 100 then Done
      else partial.status.GetOr(current.status);
    Row(nextStatus, nextPercent, now)
  }

  /** Below 100 and without an explicit `done`, the status is the one asked for,
      or the current one when none is asked for. */
  lemma MergeStatusOtherwise(current: Row, partial: Partial, now: string)
    requires partial.status != Some(Done)
    requires partial.percent.GetOr(current.percent) < 100
    ensures Merge(current, partial, now).status == partial.status.GetOr(current.status)
  {
  }

  /** The merged row is `done` exactly when `done` was asked for, the percent
      reached 100, or the row was already `done` and no status was asked for. */
  lemma MergeDoneIff(current: Row, partial: Partial, now: string)
    ensures Merge(current, partial, now).status == Done <==>
      (partial.status == Some(Done)
       || partial.percent.GetOr(current.percent) >= 100
       || (partial.status == None && current.status == Done))
  {
  }

  /** A row leaves `done` only when a status other than `done` is asked for
      explicitly and the percent is below 100: it is never inferred. */
  lemma MergeLeavesDoneOnlyOnRequest(current: Row, partial: Partial, now: string)
    requires current.status == Done
    requires Merge(current, partial, now).status != Done
    ensures partial.status.Some? && partial.status.value != Done
    ensures Merge(current, partial, now).percent < 100
  {
  }

  /** Applying the same partial twice gives the status and percent of applying it once. */
  lemma MergeIdempotent(current: Row, partial: Partial, t1: string, t2: string)
    ensures var once := Merge(current, partial, t1);
            var twice := Merge(once, partial, t2);
            twice.status == once.status && twice.percent == once.percent
  {
  }

  // ---------------------------------------------------------------------------
  // The buttons
  // ---------------------------------------------------------------------------

  /** The Complete/Reset button: reset from `done`, complete from anything else. */
  function TogglePartial(shown: Status): (p: Partial)
    ensures shown == Done ==> p == Partial(Some(InProgress), Some(0), None)
    ensures shown != Done ==> p == Partial(Some(Done), Some(100), None)
  {
    if shown == Done then Partial(Some(InProgress), Some(0), None)
    else Partial(Some(Done), Some(100), None)
  }

  /** From `done` the toggle yields `{in_progress, 0}`, from any other status
      `{done, 100}`, whatever the current row held. */
  lemma ToggleOutcome(current: Row, shown: Status, now: string)
    ensures shown == Done ==> Merge(current, TogglePartial(shown), now) == Row(InProgress, 0, now)
    ensures shown != Done ==> Merge(current, TogglePartial(shown), now) == Row(Done, 100, now)
  {
  }

  /** The "+25%" button's partial, from the percent on screen. */
  function AdvancePartial(shown: int): (p: Partial)
    ensures p.status == None && p.updatedAt == None
    ensures p.percent.Some? && p.percent.value <= 100
  {
    Partial(None, Some(Advanced(shown)), None)
  }

  /** "+25%" never sends more than 100, and from 75% on it completes the row. */
  lemma AdvanceCompletesFrom75(current: Row, shown: int, now: string)
    ensures Merge(current, AdvancePartial(shown), now).percent <= 100
    ensures shown >= 75 ==> Merge(current, AdvancePartial(shown), now) == Row(Done, 100, now)
    ensures shown < 75 ==> Merge(current, AdvancePartial(shown), now).percent == shown + 25
  {
  }

  /** The walk-through of an unseen item: +25 gives `{in_progress, 25}`, jumping
      to 100 gives `{done, 100}`, Reset gives `{in_progress, 0}`. */
  lemma UnseenItemScenario(id: string, t0: string, t1: string, t2: string, t3: string)
    ensures var rows: map<string, Row> := map[];
            var r1 := Merge(CurrentForUpdate(rows, id, t0), AdvancePartial(DisplayRow(rows, id, t0).percent), t1);
            var r2 := Merge(r1, Partial(None, Some(100), None), t2);
            var r3 := Merge(r2, TogglePartial(r2.status), t3);
            && DisplayRow(rows, id, t0).status == NotStarted
            && r1 == Row(InProgress, 25, t1)
            && r2 == Row(Done, 100, t2)
            && r3 == Row(InProgress, 0, t3)
  {
  }

  // ---------------------------------------------------------------------------
  // Loading: the id-to-item map and the saved set
  // ---------------------------------------------------------------------------

  /** Every item of the map sits under its own id. */
  predicate KeyedById(items: map<string, Item>) {
    forall id :: id in items ==> items[id].id == id
  }

  /** No later fetched item carries the id of `fetched[i]`. */
  predicate LastWithId(fetched: seq<Item>, i: int)
    requires 0 <= i < |fetched|
  {
    forall j :: i < j < |fetched| ==> fetched[j].id != fetched[i].id
  }

  /** What the loop of `load` builds: each fetched item stored under its id in
      fetch order, so a later item with the same id replaces an earlier one. */
  function IndexById(fetched: seq<Item>): (byId: map<string, Item>)
    ensures fetched != [] ==> fetched[|fetched| - 1].id in byId && byId[fetched[|fetched| - 1].id] == fetched[|fetched| - 1]
  {
    if fetched == [] then map[]
    else
      var last := fetched[|fetched| - 1];
      IndexById(fetched[..|fetched| - 1])[last.id := last]
  }

  /** The saved set `load` builds: the fetched ids, added in fetch order. */
  function IdsOf(fetched: seq<Item>): (ids: set<string>)
    ensures forall i :: 0 <= i < |fetched| ==> fetched[i].id in ids
  {
    if fetched == [] then {}
    else IdsOf(fetched[..|fetched| - 1]) + {fetched[|fetched| - 1].id}
  }

  /** `byId` and `ids` describe `fetched`: the ids are exactly the fetched ids,
      the map has exactly those keys, every item sits under its own id, and each
      id maps to the last fetched item that carries it. */
  ghost predicate IndexedFrom(fetched: seq<Item>, byId: map<string, Item>, ids: set<string>) {
    && (forall id :: id in ids <==> exists i :: 0 <= i < |fetched| && fetched[i].id == id)
    && byId.Keys == ids
    && KeyedById(byId)
    && (forall i :: 0 <= i < |fetched| && LastWithId(fetched, i) ==> byId[fetched[i].id] == fetched[i])
  }

  /** The saved set holds exactly the fetched ids. */
  lemma {:induction false} IdsOfExactly(fetched: seq<Item>)
    ensures forall id :: id in IdsOf(fetched) <==> exists i :: 0 <= i < |fetched| && fetched[i].id == id
  {
    if fetched != [] {
      var n := |fetched|;
      var init := fetched[..n - 1];
      IdsOfExactly(init);
      forall id ensures id in IdsOf(fetched) <==> exists i :: 0 <= i < n && fetched[i].id == id {
        if id in IdsOf(init) {
          var i :| 0 <= i < n - 1 && init[i].id == id;
          assert fetched[i].id == id;
        } else if id != fetched[n - 1].id {
          forall i | 0 <= i < n ensures fetched[i].id != id {
            if i < n - 1 { assert init[i] == fetched[i]; }
          }
        }
      }
    }
  }

  /** The id map has the saved set as its keys and files every item under its own id. */
  lemma {:induction false} IndexByIdKeyed(fetched: seq<Item>)
    ensures IndexById(fetched).Keys == IdsOf(fetched)
    ensures KeyedById(IndexById(fetched))
  {
    if fetched != [] {
      IndexByIdKeyed(fetched[..|fetched| - 1]);
    }
  }

  /** An id maps to the last fetched item carrying it. */
  lemma {:induction false} IndexByIdLastWins(fetched: seq<Item>, i: int)
    requires 0 <= i < |fetched| && LastWithId(fetched, i)
    ensures fetched[i].id in IndexById(fetched)
    ensures IndexById(fetched)[fetched[i].id] == fetched[i]
  {
    var n := |fetched|;
    if i < n - 1 {
      var init := fetched[..n - 1];
      assert init[i] == fetched[i];
      assert fetched[n - 1].id != fetched[i].id;
      assert LastWithId(init, i) by {
        forall j | i < j < n - 1 ensures init[j].id != init[i].id {
          assert init[j] == fetched[j];
        }
      }
      IndexByIdLastWins(init, i);
    }
  }

  /** Every item of the id map is one of the fetched items. */
  lemma {:induction false} IndexByIdFromFetch(fetched: seq<Item>, id: string)
    requires id in IndexById(fetched)
    ensures exists i :: 0 <= i < |fetched| && fetched[i] == IndexById(fetched)[id]
  {
    var n := |fetched|;
    var init := fetched[..n - 1];
    if id != fetched[n - 1].id {
      IndexByIdFromFetch(init, id);
      var i :| 0 <= i < n - 1 && init[i] == IndexById(init)[id];
      assert fetched[i] == init[i];
    } else {
      assert fetched[n - 1] == IndexById(fetched)[id];
    }
  }

  /** The map and the set `load` builds describe the fetched list. */
  lemma IndexByIdDescribesFetch(fetched: seq<Item>)
    ensures IndexedFrom(fetched, IndexById(fetched), IdsOf(fetched))
  {
    IdsOfExactly(fetched);
    IndexByIdKeyed(fetched);
    forall i | 0 <= i < |fetched| && LastWithId(fetched, i)
      ensures IndexById(fetched)[fetched[i].id] == fetched[i]
    {
      IndexByIdLastWins(fetched, i);
    }
  }

  /** The loop of `load` over the fetched saved items. */
  method IndexFetched(fetched: seq<Item>) returns (byId: map<string, Item>, ids: set<string>)
    ensures byId == IndexById(fetched) && ids == IdsOf(fetched)
    ensures IndexedFrom(fetched, byId, ids)
  {
    byId, ids := map[], {};
    for k := 0 to |fetched|
      invariant byId == IndexById(fetched[..k])
      invariant ids == IdsOf(fetched[..k])
    {
      assert fetched[..k + 1][..k] == fetched[..k];
      byId := byId[fetched[k].id := fetched[k]];
      ids := ids + {fetched[k].id};
    }
    assert fetched[..|fetched|] == fetched;
    IndexByIdDescribesFetch(fetched);
  }

  // ---------------------------------------------------------------------------
  // Grouping by source
  // ---------------------------------------------------------------------------

  /** `item.source || 'other'`. */
  function GroupKey(item: Item): (g: string)
    ensures g != ""
    ensures item.source.Some? && item.source.value != "" ==> g == item.source.value
    ensures item.source == None || item.source == Some("") ==> g == "other"
  {
    if item.source.Some? && item.source.value != "" then item.source.value else "other"
  }

  /** `e` is the entry for one item of `items` in group `g`: the item itself,
      filed under its own source key, with its displayed row. */
  ghost predicate EntryOf(items: map<string, Item>, rows: map<string, Row>, now: string,
                          g: string, e: (Item, Row)) {
    && e.0.id in items
    && items[e.0.id] == e.0
    && GroupKey(e.0) == g
    && e.1 == DisplayRow(rows, e.0.id, now)
  }

  /** `grouped` partitions `items` by source: no group is empty, every entry is
      an item of `items` in the group of its own key with its displayed row,
      every item has an entry, and no group lists an id twice. */
  ghost predicate IsGrouping(items: map<string, Item>, rows: map<string, Row>, now: string,
                             grouped: map<string, seq<(Item, Row)>>) {
    && (forall g :: g in grouped ==> grouped[g] != [])
    && (forall g, i :: g in grouped && 0 <= i < |grouped[g]| ==> EntryOf(items, rows, now, g, grouped[g][i]))
    && (forall id :: id in items ==> Listed(grouped, GroupKey(items[id]), id))
    && (forall g, i, j :: g in grouped && 0 <= i < j < |grouped[g]| ==> grouped[g][i].0.id != grouped[g][j].0.id)
  }

  /** Group `g` holds an entry for `id`. */
  ghost predicate Listed(grouped: map<string, seq<(Item, Row)>>, g: string, id: string) {
    g in grouped && exists i :: 0 <= i < |grouped[g]| && grouped[g][i].0.id == id
  }

  /** `grouped` after `e` is pushed onto the list of group `g`, creating it if needed. */
  function Pushed(grouped: map<string, seq<(Item, Row)>>, g: string, e: (Item, Row)): (r: map<string, seq<(Item, Row)>>)
    ensures r.Keys == grouped.Keys + {g}
    ensures r[g] == (if g in grouped then grouped[g] else []) + [e]
    ensures forall h :: h in grouped && h != g ==> r[h] == grouped[h]
  {
    grouped[g := (if g in grouped then grouped[g] else []) + [e]]
  }

  /** The grouping loop's invariant: the items not in `remaining` are grouped
      as `IsGrouping` demands, and nothing in `remaining` has an entry yet. */
  ghost predicate GroupedSoFar(items: map<string, Item>, rows: map<string, Row>, now: string,
                               grouped: map<string, seq<(Item, Row)>>, remaining: set<string>) {
    && remaining <= items.Keys
    && (forall g :: g in grouped ==> grouped[g] != [])
    && (forall g, i :: g in grouped && 0 <= i < |grouped[g]| ==>
          EntryOf(items, rows, now, g, grouped[g][i]) && grouped[g][i].0.id !in remaining)
    && (forall id :: id in items && id !in remaining ==> Listed(grouped, GroupKey(items[id]), id))
    && (forall g, i, j :: g in grouped && 0 <= i < j < |grouped[g]| ==> grouped[g][i].0.id != grouped[g][j].0.id)
  }

  /** Filing one more item keeps the loop's invariant. */
  lemma GroupingStep(items: map<string, Item>, rows: map<string, Row>, now: string,
                     grouped: map<string, seq<(Item, Row)>>, remaining: set<string>, id: string)
    requires KeyedById(items)
    requires GroupedSoFar(items, rows, now, grouped, remaining)
    requires id in remaining
    ensures GroupedSoFar(items, rows, now,
                         Pushed(grouped, GroupKey(items[id]), (items[id], DisplayRow(rows, id, now))),
                         remaining - {id})
  {
    var g := GroupKey(items[id]);
    var e := (items[id], DisplayRow(rows, id, now));
    var grouped' := Pushed(grouped, g, e);
    var remaining' := remaining - {id};
    forall h, i | h in grouped' && 0 <= i < |grouped'[h]|
      ensures EntryOf(items, rows, now, h, grouped'[h][i]) && grouped'[h][i].0.id !in remaining'
    {
      if h != g || i < |grouped'[h]| - 1 {
        assert grouped'[h][i] == grouped[h][i];
      }
    }
    forall id' | id' in items && id' !in remaining'
      ensures Listed(grouped', GroupKey(items[id']), id')
    {
      var h := GroupKey(items[id']);
      if id' == id {
        assert grouped'[g][|grouped'[g]| - 1].0.id == id;
      } else {
        var i :| 0 <= i < |grouped[h]| && grouped[h][i].0.id == id';
        assert grouped'[h][i] == grouped[h][i];
      }
    }
    forall h, i, j | h in grouped' && 0 <= i < j < |grouped'[h]|
      ensures grouped'[h][i].0.id != grouped'[h][j].0.id
    {
      assert grouped'[h][i] == grouped[h][i];
      if h != g || j < |grouped'[h]| - 1 {
        assert grouped'[h][j] == grouped[h][j];
      }
    }
  }

  /** The grouping loop of the render: each item, with its displayed row, is
      appended to the list of its source key. The items are visited in an
      order the runtime chooses. */
  method GroupBySource(items: map<string, Item>, rows: map<string, Row>, now: string)
    returns (grouped: map<string, seq<(Item, Row)>>)
    requires KeyedById(items)
    ensures IsGrouping(items, rows, now, grouped)
  {
    grouped := map[];
    var remaining := items.Keys;
    while remaining != {}
      invariant GroupedSoFar(items, rows, now, grouped, remaining)
      decreases remaining
    {
      var id :| id in remaining;
      var item := items[id];
      GroupingStep(items, rows, now, grouped, remaining, id);
      grouped := Pushed(grouped, GroupKey(item), (item, DisplayRow(rows, id, now)));
      remaining := remaining - {id};
    }
  }

  /** Every item of the library appears exactly once: in the group of its own
      source key, at a single position there, as itself. */
  lemma GroupingIsPartition(items: map<string, Item>, rows: map<string, Row>, now: string,
                            grouped: map<string, seq<(Item, Row)>>, id: string)
    requires IsGrouping(items, rows, now, grouped)
    requires id in items
    ensures Listed(grouped, GroupKey(items[id]), id)
    ensures forall g, i :: g in grouped && 0 <= i < |grouped[g]| && grouped[g][i].0.id == id ==>
              g == GroupKey(items[id]) && grouped[g][i].0 == items[id]
    ensures forall g, i, j ::
              (g in grouped && 0 <= i < |grouped[g]| && 0 <= j < |grouped[g]| &&
               grouped[g][i].0.id == id && grouped[g][j].0.id == id) ==> i == j
  {
  }

  // ---------------------------------------------------------------------------
  // The page's state
  // ---------------------------------------------------------------------------

  /** The page's state: progress rows, saved items by id, and the saved set. */
  class LibraryView {
    var rows: map<string, Row>
    var items: map<string, Item>
    var saved: set<string>

    ghost predicate Valid()
      reads this
    {
      KeyedById(items)
    }

    constructor ()
      ensures Valid()
      ensures rows == map[] && items == map[] && saved == {}
    {
      rows, items, saved := map[], map[], {};
    }

    /** `load`: two requests in turn. When the progress request fails nothing
        changes; otherwise the rows become its map (or `{}`). When the saved
        request then fails, the rows are replaced but the items and the saved
        set stay as they were; otherwise they are rebuilt from its items (or
        `[]`). */
    method Load(progress: Response<map<string, Row>>, fetched: Response<seq<Item>>)
      requires Valid()
      modifies this
      ensures Valid()
      ensures progress.NoResponse? ==> rows == old(rows) && items == old(items) && saved == old(saved)
      ensures progress.Response? ==> rows == progress.field.GetOr(map[])
      ensures progress.Response? && fetched.NoResponse? ==> items == old(items) && saved == old(saved)
      ensures progress.Response? && fetched.Response? ==>
                items == IndexById(fetched.field.GetOr([])) && saved == IdsOf(fetched.field.GetOr([]))
    {
      if progress.NoResponse? {
        return;
      }
      rows := progress.field.GetOr(map[]);
      if fetched.Response? {
        items, saved := IndexFetched(fetched.field.GetOr([]));
      }
    }

    /** `update`: the row sent to the progress route. The page's own state is
        refreshed afterwards by `Load`, not here. */
    method Update(id: string, partial: Partial, now: string) returns (body: Row)
      ensures body == Merge(CurrentForUpdate(rows, id, now), partial, now)
    {
      body := Merge(CurrentForUpdate(rows, id, now), partial, now);
    }

    /** The "+25%" button on the row shown for `id`. */
    method Advance(id: string, now: string) returns (body: Row)
      ensures body == Merge(CurrentForUpdate(rows, id, now), AdvancePartial(DisplayRow(rows, id, now).percent), now)
      ensures body.percent <= 100
    {
      body := Update(id, AdvancePartial(DisplayRow(rows, id, now).percent), now);
    }

    /** The Complete/Reset button on the row shown for `id`. */
    method Toggle(id: string, now: string) returns (body: Row)
      ensures DisplayRow(rows, id, now).status == Done ==> body == Row(InProgress, 0, now)
      ensures DisplayRow(rows, id, now).status != Done ==> body == Row(Done, 100, now)
    {
      body := Update(id, TogglePartial(DisplayRow(rows, id, now).status), now);
      ToggleOutcome(CurrentForUpdate(rows, id, now), DisplayRow(rows, id, now).status, now);
    }

    /** `saveItem`: once the request has come back (whatever its status), the id
        joins the saved set; if the request failed nothing changes. */
    method SaveItem(item: Item, delivered: bool)
      requires Valid()
      modifies this
      ensures Valid()
      ensures saved == if delivered then old(saved) + {item.id} else old(saved)
      ensures rows == old(rows) && items == old(items)
    {
      if delivered {
        saved := saved + {item.id};
      }
    }

    /** `unsaveItem`: once the request has come back, the id leaves the saved set. */
    method UnsaveItem(id: string, delivered: bool)
      requires Valid()
      modifies this
      ensures Valid()
      ensures saved == if delivered then old(saved) - {id} else old(saved)
      ensures rows == old(rows) && items == old(items)
    {
      if delivered {
        saved := saved - {id};
      }
    }

    /** The groups the page renders. */
    method Grouped(now: string) returns (grouped: map<string, seq<(Item, Row)>>)
      requires Valid()
      ensures IsGrouping(items, rows, now, grouped)
    {
      grouped := GroupBySource(items, rows, now);
    }
  }

  /** Saving then unsaving an item leaves it out of the saved set. */
  method SaveThenUnsave(view: LibraryView, item: Item)
    requires view.Valid()
    modifies view
    ensures view.Valid()
    ensures item.id !in view.saved
    ensures view.saved == old(view.saved) - {item.id}
  {
    view.SaveItem(item, true);
    view.UnsaveItem(item.id, true);
  }
}
