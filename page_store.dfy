/**
 * Model of PageStore.kt. `PageTable` stands for the generated `PageQueries`
 * over the page table, `HistoryTable` for `HistoryQueries`; `PageStore`
 * drives them. Each query method behaves as its SQL statement is assumed to:
 * `updatePage` sets the markdown of the rows with the given key, `changes()`
 * counts the rows the last statement matched, `insertPage` takes the next id,
 * and `(name, platform)` is unique.
 */
module Store {
  import opened Wrappers
  import opened PageModel

  class PageTable {
    var rows: Rows
    /** The id the next `insertPage` assigns; no row has an id this large. */
    var nextId: nat
    /** What `changes()` reports: the number of rows the last statement matched. */
    var changes: nat

    ghost predicate Valid()
      reads this
    {
      UniqueKeys(rows) && IdsBelow(rows, nextId)
    }

    constructor ()
      ensures rows == map[] && nextId == 0 && changes == 0 && Valid()
    {
      rows, nextId, changes := map[], 0, 0;
    }

    /** `findAllPageIds().executeAsList().toMutableSet()`: every row id, once. */
    method FindAllPageIds() returns (ids: seq<nat>)
      ensures Distinct(ids)
      ensures forall id :: id in ids <==> id in rows
    {
      ids := [];
      var remaining := rows.Keys;
      while remaining != {}
        invariant remaining <= rows.Keys
        invariant Distinct(ids)
        invariant forall id :: id in ids <==> id in rows && id !in remaining
        decreases |remaining|
      {
        var id :| id in remaining;
        ids := ids + [id];
        remaining := remaining - {id};
      }
    }

    /** `updatePage(name, platform, markdown)` */
    method UpdatePage(name: string, platform: string, markdown: string)
      modifies this
      ensures rows == Updated(old(rows), Page(name, platform, markdown))
      ensures changes == |Matching(old(rows), Key(name, platform))|
      ensures nextId == old(nextId)
    {
      var page := Page(name, platform, markdown);
      changes := |Matching(rows, KeyOf(page))|;
      rows := Updated(rows, page);
    }

    /** `findPageId(name, platform).executeAsOne()`, which needs the row to exist. */
    method FindPageId(name: string, platform: string) returns (id: nat)
      requires Key(name, platform) in TableKeys(rows)
      ensures id in rows && KeyOf(rows[id]) == Key(name, platform)
    {
      id :| id in rows && KeyOf(rows[id]) == Key(name, platform);
    }

    /** `insertPage(name, platform, markdown)`; the key must be new, as the table keeps it unique. */
    method InsertPage(name: string, platform: string, markdown: string)
      requires Valid() && Key(name, platform) !in TableKeys(rows)
      modifies this
      ensures Valid()
      ensures rows == old(rows)[old(nextId) := Page(name, platform, markdown)]
      ensures nextId == old(nextId) + 1 && changes == 1
    {
      InsertOne(rows, nextId, Page(name, platform, markdown));
      rows := rows[nextId := Page(name, platform, markdown)];
      nextId := nextId + 1;
      changes := 1;
    }

    /** `deletePageIds(ids)`, one statement with at most `MaxBatch` bound ids. */
    method DeletePageIds(ids: seq<nat>)
      requires |ids| <= MaxBatch
      modifies this
      ensures rows == Minus(old(rows), ids)
      ensures nextId == old(nextId)
      ensures changes == |old(rows).Keys - Minus(old(rows), ids).Keys|
    {
      var kept := Minus(rows, ids);
      changes := |rows.Keys - kept.Keys|;
      rows := kept;
    }

    /** `findPageById(id).executeAsOne()`: the row, or `None` where the call would throw. */
    method FindPageById(id: nat) returns (r: Option<Page>)
      ensures r.Some? <==> id in rows
      ensures r.Some? ==> r.value == rows[id]
    {
      if id in rows {
        r := Some(rows[id]);
      } else {
        r := None;
      }
    }

    /** `count().executeAsOne()` */
    method Count() returns (n: nat)
      ensures n == |rows|
    {
      n := |rows|;
    }
  }

  /** The history table, as the ids inserted into it in order. */
  class HistoryTable {
    var entries: seq<nat>

    constructor ()
      ensures entries == []
    {
      entries := [];
    }

    /** `history.insert(id)` */
    method Insert(id: nat)
      modifies this
      ensures entries == old(entries) + [id]
    {
      entries := entries + [id];
    }
  }

  class PageStore {
    const db: PageTable
    const history: HistoryTable

    constructor (db: PageTable, history: HistoryTable)
      ensures this.db == db && this.history == history
    {
      this.db := db;
      this.history := history;
    }

    /**
     * `updatePages(pages)`, the whole transaction as one step: update or insert
     * each page in order, striking the id of every updated row from the
     * snapshot of old ids, then delete the ids left over, `MaxBatch` at a time.
     */
    method UpdatePages(pages: seq<Page>)
      requires db.Valid()
      modifies db
      ensures db.Valid()
      ensures Synced(old(db.rows), old(db.nextId), pages, db.rows, db.nextId)
    {
      ghost var rows0, next0 := db.rows, db.nextId;
      var ids := db.FindAllPageIds();
      ProgressStart(rows0, next0, ids);
      for k := 0 to |pages|
        invariant Progress(rows0, next0, pages[..k], db.rows, db.nextId, ids)
      {
        ids := PutPage(rows0, next0, pages[..k], pages[k], ids);
        assert pages[..k + 1] == pages[..k] + [pages[k]];
      }
      assert pages[..|pages|] == pages;
      ghost var kept := db.rows;
      DeleteChunked(ids);
      ProgressSynced(rows0, next0, pages, kept, db.nextId, ids);
    }

    /**
     * One turn of the loop in `updatePages`: update the row with the page's
     * key and strike its id, or, when the update matched nothing, insert it.
     */
    method PutPage(ghost rows0: Rows, ghost next0: nat, ghost done: seq<Page>, page: Page, ids: seq<nat>)
      returns (ids': seq<nat>)
      requires Progress(rows0, next0, done, db.rows, db.nextId, ids)
      modifies db
      ensures Progress(rows0, next0, done + [page], db.rows, db.nextId, ids')
    {
      ghost var before := db.rows;
      UpdatedKeys(before, page);
      MatchingCount(before, KeyOf(page));
      db.UpdatePage(page.name, page.platform, page.markdown);
      if db.changes != 0 {
        var id := db.FindPageId(page.name, page.platform);
        ids' := Without(ids, id);
        ProgressUpdate(rows0, next0, done, before, db.nextId, ids, page, id);
      } else {
        db.InsertPage(page.name, page.platform, page.markdown);
        ids' := ids;
        ProgressInsert(rows0, next0, done, before, db.nextId - 1, ids, page);
      }
    }

    /** The tail of `updatePages`: delete `ids` in statements of at most `MaxBatch` ids each. */
    method DeleteChunked(ids: seq<nat>)
      modifies db
      ensures db.rows == Minus(old(db.rows), ids) && db.nextId == old(db.nextId)
    {
      ghost var kept := db.rows;
      var chunks := Chunked(ids, MaxBatch);
      ChunksBounded(ids, MaxBatch);
      for c := 0 to |chunks|
        invariant db.rows == Minus(kept, Flatten(chunks[..c]))
        invariant db.nextId == old(db.nextId)
      {
        assert chunks[c] in chunks;
        db.DeletePageIds(chunks[c]);
        MinusTwice(kept, Flatten(chunks[..c]), chunks[c]);
        FlattenSnoc(chunks, c);
      }
      assert chunks[..|chunks|] == chunks;
      FlattenChunked(ids, MaxBatch);
    }

    /** `queryPage(id)`: the row, and its id appended to the history; `None` where the lookup throws. */
    method QueryPage(id: nat) returns (r: Option<Page>)
      modifies history
      ensures r.Some? <==> id in db.rows
      ensures r.Some? ==> r.value == db.rows[id]
      ensures history.entries == if r.Some? then old(history.entries) + [id] else old(history.entries)
      ensures db.rows == old(db.rows)
    {
      r := db.FindPageById(id);
      if r.Some? {
        history.Insert(id);
      }
    }

    /** `count()` */
    method Count() returns (n: nat)
      ensures n == |db.rows|
    {
      n := db.Count();
    }
  }
}
