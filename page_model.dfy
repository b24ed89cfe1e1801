/**
 * The page table behind PageStore.kt, as values: rows keyed by id, the
 * (name, platform) key that identifies a page, and the state that
 * `updatePages` must leave behind.
 */
module PageModel {

  /** `io.ubyte.lethe.model.Page`: one tldr page for one platform. */
  datatype Page = Page(name: string, platform: string, markdown: string)

  /** The pair `(name, platform)` that the table keeps unique. */
  datatype Key = Key(name: string, platform: string)

  function KeyOf(p: Page): Key {
    Key(p.name, p.platform)
  }

  /** The page table: row id to row. */
  type Rows = map<nat, Page>

  /** The largest number of ids one `deletePageIds` statement is given. */
  const MaxBatch: nat := 999

  /** No two rows share a `(name, platform)` key. */
  predicate UniqueKeys(rows: Rows) {
    forall a, b :: a in rows && b in rows && KeyOf(rows[a]) == KeyOf(rows[b]) ==> a == b
  }

  /** Every row id is below the next id the table hands out. */
  predicate IdsBelow(rows: Rows, next: nat) {
    forall id :: id in rows ==> id < next
  }

  function TableKeys(rows: Rows): set<Key> {
    set id | id in rows :: KeyOf(rows[id])
  }

  /** The ids of the rows with key `k`. */
  function Matching(rows: Rows, k: Key): set<nat> {
    set id | id in rows && KeyOf(rows[id]) == k
  }

  /** The keys of a list of pages. */
  function PageKeys(pages: seq<Page>): set<Key>
    decreases |pages|
  {
    if |pages| == 0 then {} else PageKeys(pages[..|pages| - 1]) + {KeyOf(pages[|pages| - 1])}
  }

  /** The last page in `pages` whose key is `k`. */
  function LatestPage(pages: seq<Page>, k: Key): (p: Page)
    requires k in PageKeys(pages)
    ensures KeyOf(p) == k
    decreases |pages|
  {
    var last := pages[|pages| - 1];
    if KeyOf(last) == k then last else LatestPage(pages[..|pages| - 1], k)
  }

  /** `updatePage(name, platform, markdown)`: the markdown of every row with that key replaced. */
  function Updated(rows: Rows, p: Page): Rows {
    map id | id in rows :: if KeyOf(rows[id]) == KeyOf(p) then rows[id].(markdown := p.markdown) else rows[id]
  }

  /** `deletePageIds(ids)`: the rows whose ids are listed removed. */
  function Minus(rows: Rows, ids: seq<nat>): Rows {
    map id | id in rows && id !in ids :: rows[id]
  }

  predicate Distinct(s: seq<nat>) {
    forall i, j :: 0 <= i < j < |s| ==> s[i] != s[j]
  }

  /** `ids -= x` on the mutable id set: `x` removed, the order of the others kept. */
  function Without(s: seq<nat>, x: nat): seq<nat>
    decreases |s|
  {
    if |s| == 0 then [] else (if s[0] == x then [] else [s[0]]) + Without(s[1..], x)
  }

  /** Kotlin `chunked(size)`: consecutive pieces of `size` elements, the last one possibly shorter. */
  function Chunked<T>(s: seq<T>, size: nat): seq<seq<T>>
    requires size > 0
    decreases |s|
  {
    if |s| == 0 then []
    else if |s| <= size then [s]
    else [s[..size]] + Chunked(s[size..], size)
  }

  function Flatten<T>(chunks: seq<seq<T>>): seq<T>
    decreases |chunks|
  {
    if |chunks| == 0 then [] else chunks[0] + Flatten(chunks[1..])
  }

  /**
   * The state `updatePages(pages)` leaves, from rows `rows0` and next id
   * `next0`: the table holds exactly the keys of `pages`, each row is the last
   * page with its key, an old row survives exactly when its key is still
   * wanted and then keeps its id and key, and every other row is a fresh
   * insert, one per key that was missing.
   */
  ghost predicate Synced(rows0: Rows, next0: nat, pages: seq<Page>, rows: Rows, next: nat) {
    && UniqueKeys(rows)
    && IdsBelow(rows, next)
    && TableKeys(rows) == PageKeys(pages)
    && (forall id :: id in rows ==> KeyOf(rows[id]) in PageKeys(pages) && rows[id] == LatestPage(pages, KeyOf(rows[id])))
    && (forall id :: id in rows0 ==> (id in rows <==> KeyOf(rows0[id]) in PageKeys(pages)))
    && (forall id :: id in rows0 && id in rows ==> KeyOf(rows[id]) == KeyOf(rows0[id]))
    && (forall id :: id in rows ==> id in rows0 || next0 <= id < next)
    && next0 <= next
    && FreshKeys(rows0, next0, rows, next)
  }

  /** Every id handed out from `next0` on is a row whose key the old table did not have. */
  ghost predicate FreshKeys(rows0: Rows, next0: nat, rows: Rows, next: nat) {
    forall id :: next0 <= id < next ==> id in rows && KeyOf(rows[id]) !in TableKeys(rows0)
  }

  /** The rows of the table are the old rows and the rows inserted with ids from `next0` on. */
  ghost predicate KeptIds(rows0: Rows, next0: nat, rows: Rows, next: nat) {
    forall id :: id in rows <==> id in rows0 || next0 <= id < next
  }

  /** An old row that is still there has its old key. */
  ghost predicate KeptKeys(rows0: Rows, rows: Rows) {
    forall id :: id in rows0 && id in rows ==> KeyOf(rows[id]) == KeyOf(rows0[id])
  }

  /** Rows whose key some page in `done` has are that key's latest page; the others are untouched old rows. */
  ghost predicate RowsSoFar(rows0: Rows, done: seq<Page>, rows: Rows) {
    forall id :: id in rows ==>
      if KeyOf(rows[id]) in PageKeys(done) then rows[id] == LatestPage(done, KeyOf(rows[id]))
      else id in rows0 && rows[id] == rows0[id]
  }

  /** Every key of a page in `done` is in the table. */
  ghost predicate Claimed(done: seq<Page>, rows: Rows) {
    forall k :: k in PageKeys(done) ==> k in TableKeys(rows)
  }

  /** `ids` lists, once each, the old ids whose keys no page in `done` has. */
  ghost predicate Unclaimed(rows0: Rows, done: seq<Page>, ids: seq<nat>) {
    && Distinct(ids)
    && forall id :: id in ids <==> id in rows0 && KeyOf(rows0[id]) !in PageKeys(done)
  }

  /**
   * The state of `updatePages` after the loop has handled the pages `done`,
   * before any deletion.
   */
  ghost predicate Progress(rows0: Rows, next0: nat, done: seq<Page>, rows: Rows, next: nat, ids: seq<nat>) {
    && UniqueKeys(rows0)
    && IdsBelow(rows0, next0)
    && UniqueKeys(rows)
    && IdsBelow(rows, next)
    && next0 <= next
    && KeptIds(rows0, next0, rows, next)
    && KeptKeys(rows0, rows)
    && RowsSoFar(rows0, done, rows)
    && Claimed(done, rows)
    && FreshKeys(rows0, next0, rows, next)
    && Unclaimed(rows0, done, ids)
  }

  // ---- pages ----

  lemma PageKeysSnoc(done: seq<Page>, p: Page)
    ensures PageKeys(done + [p]) == PageKeys(done) + {KeyOf(p)}
  {
    assert (done + [p])[..|done|] == done;
  }

  lemma LatestSnoc(done: seq<Page>, p: Page, k: Key)
    requires k in PageKeys(done + [p])
    ensures KeyOf(p) != k ==> k in PageKeys(done)
    ensures LatestPage(done + [p], k) == if KeyOf(p) == k then p else LatestPage(done, k)
  {
    PageKeysSnoc(done, p);
    assert (done + [p])[..|done|] == done;
  }

  /** A key belongs to a list of pages exactly when one of its pages has it. */
  lemma {:induction false} PageKeysMembers(pages: seq<Page>, k: Key)
    ensures k in PageKeys(pages) <==> exists i :: 0 <= i < |pages| && KeyOf(pages[i]) == k
    decreases |pages|
  {
    if |pages| > 0 {
      var front := pages[..|pages| - 1];
      PageKeysMembers(front, k);
      assert forall i :: 0 <= i < |front| ==> front[i] == pages[i];
    }
  }

  /** A page that no later page shares its key with is the latest page of its key. */
  lemma {:induction false} LatestAt(pages: seq<Page>, i: nat)
    requires i < |pages|
    requires forall j :: i < j < |pages| ==> KeyOf(pages[j]) != KeyOf(pages[i])
    ensures KeyOf(pages[i]) in PageKeys(pages)
    ensures LatestPage(pages, KeyOf(pages[i])) == pages[i]
    decreases |pages|
  {
    PageKeysMembers(pages, KeyOf(pages[i]));
    if i < |pages| - 1 {
      var front := pages[..|pages| - 1];
      assert front[i] == pages[i];
      LatestAt(front, i);
    }
  }

  // ---- the id set ----

  lemma {:induction false} WithoutMembers(s: seq<nat>, x: nat)
    ensures forall y :: y in Without(s, x) <==> y in s && y != x
    ensures Distinct(s) ==> Distinct(Without(s, x))
    decreases |s|
  {
    if |s| > 0 {
      WithoutMembers(s[1..], x);
      var head := if s[0] == x then [] else [s[0]];
      var w := Without(s, x);
      assert w == head + Without(s[1..], x);
      assert forall y :: y in s <==> y == s[0] || y in s[1..];
      if Distinct(s) {
        assert Distinct(s[1..]) by {
          forall i, j | 0 <= i < j < |s[1..]| ensures s[1..][i] != s[1..][j] {
            assert s[1..][i] == s[i + 1] && s[1..][j] == s[j + 1];
          }
        }
        assert s[0] !in s[1..] by {
          forall j | 0 <= j < |s[1..]| ensures s[1..][j] != s[0] {
            assert s[1..][j] == s[j + 1];
          }
        }
        forall i, j | 0 <= i < j < |w| ensures w[i] != w[j] {
          if head != [] && i == 0 {
            assert w[j] in Without(s[1..], x);
          } else {
            var d := |head|;
            assert w[i] == Without(s[1..], x)[i - d] && w[j] == Without(s[1..], x)[j - d];
          }
        }
      }
    }
  }

  // ---- statements on the table ----

  /** With unique keys, a key matches one row if it is in the table and none otherwise. */
  lemma MatchingCount(rows: Rows, k: Key)
    requires UniqueKeys(rows)
    ensures k in TableKeys(rows) ==> |Matching(rows, k)| == 1
    ensures k !in TableKeys(rows) ==> |Matching(rows, k)| == 0
  {
    if k in TableKeys(rows) {
      var id :| id in rows && KeyOf(rows[id]) == k;
      assert Matching(rows, k) == {id};
    } else {
      assert Matching(rows, k) == {};
    }
  }

  /** `updatePage` changes no id and no key, and changes nothing for a key the table lacks. */
  lemma UpdatedKeys(rows: Rows, p: Page)
    ensures Updated(rows, p).Keys == rows.Keys
    ensures forall id :: id in rows ==> KeyOf(Updated(rows, p)[id]) == KeyOf(rows[id])
    ensures TableKeys(Updated(rows, p)) == TableKeys(rows)
    ensures KeyOf(p) !in TableKeys(rows) ==> Updated(rows, p) == rows
  {
    var u := Updated(rows, p);
    assert forall id :: id in rows ==> KeyOf(u[id]) == KeyOf(rows[id]);
    if KeyOf(p) !in TableKeys(rows) {
      assert forall id :: id in rows ==> KeyOf(rows[id]) in TableKeys(rows);
    }
  }

  // ---- the loop of updatePages ----

  lemma ProgressStart(rows0: Rows, next0: nat, ids: seq<nat>)
    requires UniqueKeys(rows0) && IdsBelow(rows0, next0)
    requires Distinct(ids) && forall id :: id in ids <==> id in rows0
    ensures Progress(rows0, next0, [], rows0, next0, ids)
  {
  }

  /** `updatePage` on a key held by row `id`: that row becomes the page, the others stay. */
  lemma UpdateOne(rows: Rows, p: Page, id: nat)
    requires UniqueKeys(rows) && id in rows && KeyOf(rows[id]) == KeyOf(p)
    ensures Updated(rows, p).Keys == rows.Keys
    ensures Updated(rows, p)[id] == p
    ensures forall x :: x in rows && x != id ==> Updated(rows, p)[x] == rows[x] && KeyOf(rows[x]) != KeyOf(p)
    ensures UniqueKeys(Updated(rows, p))
  {
  }

  lemma UpdateRows(rows0: Rows, done: seq<Page>, rows: Rows, p: Page, id: nat)
    requires RowsSoFar(rows0, done, rows)
    requires UniqueKeys(rows) && id in rows && KeyOf(rows[id]) == KeyOf(p)
    ensures RowsSoFar(rows0, done + [p], Updated(rows, p))
  {
    var u := Updated(rows, p);
    UpdateOne(rows, p, id);
    PageKeysSnoc(done, p);
    forall x | x in u
      ensures if KeyOf(u[x]) in PageKeys(done + [p]) then u[x] == LatestPage(done + [p], KeyOf(u[x]))
              else x in rows0 && u[x] == rows0[x]
    {
      if KeyOf(u[x]) in PageKeys(done + [p]) {
        LatestSnoc(done, p, KeyOf(u[x]));
      }
    }
  }

  lemma UpdateUnclaimed(rows0: Rows, done: seq<Page>, rows: Rows, ids: seq<nat>, p: Page, id: nat)
    requires Unclaimed(rows0, done, ids)
    requires forall y :: y in rows0 ==> y in rows && KeyOf(rows[y]) == KeyOf(rows0[y])
    requires UniqueKeys(rows) && id in rows && KeyOf(rows[id]) == KeyOf(p)
    ensures Unclaimed(rows0, done + [p], Without(ids, id))
  {
    PageKeysSnoc(done, p);
    WithoutMembers(ids, id);
  }

  /** A page whose key is in the table: its row takes the page's markdown and leaves the id set. */
  lemma ProgressUpdate(rows0: Rows, next0: nat, done: seq<Page>, rows: Rows, next: nat, ids: seq<nat>, p: Page, id: nat)
    requires Progress(rows0, next0, done, rows, next, ids)
    requires id in rows && KeyOf(rows[id]) == KeyOf(p)
    ensures Progress(rows0, next0, done + [p], Updated(rows, p), next, Without(ids, id))
  {
    var k := KeyOf(p);
    PageKeysSnoc(done, p);
    UpdatedKeys(rows, p);
    UpdateOne(rows, p, id);
    UpdateRows(rows0, done, rows, p, id);
    UpdateUnclaimed(rows0, done, rows, ids, p, id);
    assert k in TableKeys(rows);
  }

  /** `insertPage` of a key the table lacks adds one row and keeps keys unique. */
  lemma InsertOne(rows: Rows, next: nat, p: Page)
    requires UniqueKeys(rows) && IdsBelow(rows, next) && KeyOf(p) !in TableKeys(rows)
    ensures UniqueKeys(rows[next := p]) && IdsBelow(rows[next := p], next + 1)
    ensures forall x :: x in rows ==> KeyOf(rows[x]) != KeyOf(p)
  {
    assert forall x :: x in rows ==> KeyOf(rows[x]) in TableKeys(rows);
    assert next !in rows;
  }

  lemma InsertClaimed(done: seq<Page>, rows: Rows, next: nat, p: Page)
    requires Claimed(done, rows) && next !in rows
    ensures Claimed(done + [p], rows[next := p])
  {
    var r := rows[next := p];
    PageKeysSnoc(done, p);
    assert KeyOf(r[next]) in TableKeys(r);
    forall k | k in TableKeys(rows) ensures k in TableKeys(r) {
      var x :| x in rows && KeyOf(rows[x]) == k;
      assert r[x] == rows[x];
    }
  }

  /** A key the table lacks is neither an old key nor the key of a page already handled. */
  lemma MissingKey(rows0: Rows, done: seq<Page>, rows: Rows, k: Key)
    requires k !in TableKeys(rows)
    requires forall y :: y in rows0 ==> y in rows && KeyOf(rows[y]) == KeyOf(rows0[y])
    requires Claimed(done, rows)
    ensures k !in TableKeys(rows0) && k !in PageKeys(done)
  {
    forall y | y in rows0 ensures KeyOf(rows0[y]) != k {
      assert KeyOf(rows[y]) in TableKeys(rows);
    }
  }

  lemma InsertRows(rows0: Rows, done: seq<Page>, rows: Rows, next: nat, p: Page)
    requires RowsSoFar(rows0, done, rows)
    requires next !in rows && forall x :: x in rows ==> KeyOf(rows[x]) != KeyOf(p)
    ensures RowsSoFar(rows0, done + [p], rows[next := p])
  {
    var r := rows[next := p];
    PageKeysSnoc(done, p);
    forall x | x in r
      ensures if KeyOf(r[x]) in PageKeys(done + [p]) then r[x] == LatestPage(done + [p], KeyOf(r[x]))
              else x in rows0 && r[x] == rows0[x]
    {
      if KeyOf(r[x]) in PageKeys(done + [p]) {
        LatestSnoc(done, p, KeyOf(r[x]));
      }
    }
  }

  lemma InsertUnclaimed(rows0: Rows, done: seq<Page>, ids: seq<nat>, p: Page)
    requires Unclaimed(rows0, done, ids)
    requires KeyOf(p) !in TableKeys(rows0)
    ensures Unclaimed(rows0, done + [p], ids)
  {
    PageKeysSnoc(done, p);
    forall y | y in rows0 ensures KeyOf(rows0[y]) != KeyOf(p) {
      assert KeyOf(rows0[y]) in TableKeys(rows0);
    }
  }

  /** A page whose key is missing: it becomes a new row under the next id. */
  lemma ProgressInsert(rows0: Rows, next0: nat, done: seq<Page>, rows: Rows, next: nat, ids: seq<nat>, p: Page)
    requires Progress(rows0, next0, done, rows, next, ids)
    requires KeyOf(p) !in TableKeys(rows)
    ensures Progress(rows0, next0, done + [p], rows[next := p], next + 1, ids)
  {
    PageKeysSnoc(done, p);
    InsertOne(rows, next, p);
    InsertRows(rows0, done, rows, next, p);
    InsertClaimed(done, rows, next, p);
    MissingKey(rows0, done, rows, KeyOf(p));
    InsertUnclaimed(rows0, done, ids, p);
    InsertKept(rows0, next0, rows, next, p);
  }

  /** The new row takes the id `next`, which no old row has, and a key no old row has. */
  lemma InsertKept(rows0: Rows, next0: nat, rows: Rows, next: nat, p: Page)
    requires KeptIds(rows0, next0, rows, next) && KeptKeys(rows0, rows) && FreshKeys(rows0, next0, rows, next)
    requires IdsBelow(rows, next) && next0 <= next && KeyOf(p) !in TableKeys(rows0)
    ensures KeptIds(rows0, next0, rows[next := p], next + 1)
    ensures KeptKeys(rows0, rows[next := p])
    ensures FreshKeys(rows0, next0, rows[next := p], next + 1)
  {
  }

  /** Deleting the ids no page claimed completes the reconciliation. */
  lemma ProgressSynced(rows0: Rows, next0: nat, pages: seq<Page>, rows: Rows, next: nat, ids: seq<nat>)
    requires Progress(rows0, next0, pages, rows, next, ids)
    ensures Synced(rows0, next0, pages, Minus(rows, ids), next)
  {
    var r := Minus(rows, ids);
    SurvivorsWanted(rows0, pages, rows, ids);
    forall k | k in PageKeys(pages) ensures k in TableKeys(r) {
      assert k in TableKeys(rows);
      var x :| x in rows && KeyOf(rows[x]) == k;
      assert x in r;
    }
  }

  lemma SurvivorsWanted(rows0: Rows, pages: seq<Page>, rows: Rows, ids: seq<nat>)
    requires RowsSoFar(rows0, pages, rows) && Unclaimed(rows0, pages, ids)
    ensures forall x :: x in Minus(rows, ids) ==> KeyOf(rows[x]) in PageKeys(pages)
  {
  }

  // ---- what updatePages promises ----

  /** With unique keys there are as many keys as rows. */
  lemma {:induction false} KeyCount(rows: Rows)
    requires UniqueKeys(rows)
    ensures |TableKeys(rows)| == |rows|
    decreases |rows|
  {
    if |rows| > 0 {
      var id :| id in rows;
      var rest := map x | x in rows && x != id :: rows[x];
      assert rows.Keys == rest.Keys + {id};
      KeyCount(rest);
      KeyCountStep(rows, id, rest);
    }
  }

  lemma KeyCountStep(rows: Rows, id: nat, rest: Rows)
    requires UniqueKeys(rows) && id in rows && rest == map x | x in rows && x != id :: rows[x]
    ensures TableKeys(rows) == TableKeys(rest) + {KeyOf(rows[id])}
    ensures KeyOf(rows[id]) !in TableKeys(rest)
  {
    forall k | k in TableKeys(rows) ensures k in TableKeys(rest) + {KeyOf(rows[id])} {
      var x :| x in rows && KeyOf(rows[x]) == k;
      assert x != id ==> x in rest;
    }
  }

  /** After a reconciliation the table holds one row per distinct key of the pages. */
  lemma SyncedCount(rows0: Rows, next0: nat, pages: seq<Page>, rows: Rows, next: nat)
    requires Synced(rows0, next0, pages, rows, next)
    ensures |rows| == |PageKeys(pages)|
  {
    KeyCount(rows);
  }

  /** Every page that no later page overrides is stored as a row, markdown included. */
  lemma SyncedStoresLast(rows0: Rows, next0: nat, pages: seq<Page>, rows: Rows, next: nat, i: nat)
    requires Synced(rows0, next0, pages, rows, next)
    requires i < |pages|
    requires forall j :: i < j < |pages| ==> KeyOf(pages[j]) != KeyOf(pages[i])
    ensures exists id :: id in rows && rows[id] == pages[i]
  {
    LatestAt(pages, i);
    var k := KeyOf(pages[i]);
    assert k in TableKeys(rows);
    var id :| id in rows && KeyOf(rows[id]) == k;
    assert rows[id] == pages[i];
  }

  /** Reconciling a table with the same pages again changes nothing, ids included. */
  lemma SyncIdempotent(rows0: Rows, next0: nat, pages: seq<Page>, rows1: Rows, next1: nat, rows2: Rows, next2: nat)
    requires Synced(rows0, next0, pages, rows1, next1)
    requires Synced(rows1, next1, pages, rows2, next2)
    ensures rows2 == rows1 && next2 == next1
  {
    forall id | id in rows2 ensures KeyOf(rows2[id]) in TableKeys(rows1) {
      assert KeyOf(rows2[id]) in PageKeys(pages);
    }
    assert next1 < next2 ==> next1 in rows2 && KeyOf(rows2[next1]) !in TableKeys(rows1);
    forall x | x in rows1 ensures x in rows2 && rows2[x] == rows1[x] {
      assert KeyOf(rows1[x]) in TableKeys(rows1);
    }
    assert rows2.Keys == rows1.Keys;
  }

  // ---- chunked deletion ----

  /** Every chunk is non-empty and holds at most `size` elements. */
  lemma {:induction false} ChunksBounded<T>(s: seq<T>, size: nat)
    requires size > 0
    ensures forall c :: c in Chunked(s, size) ==> 0 < |c| <= size
    decreases |s|
  {
    if |s| > size {
      ChunksBounded(s[size..], size);
    }
  }

  /** The chunks, put back together, are the original sequence. */
  lemma {:induction false} FlattenChunked<T>(s: seq<T>, size: nat)
    requires size > 0
    ensures Flatten(Chunked(s, size)) == s
    decreases |s|
  {
    if 0 < |s| <= size {
      assert Flatten([s]) == s + Flatten([s][1..]);
      assert s + [] == s;
    } else if |s| > size {
      FlattenChunked(s[size..], size);
      var chunks := Chunked(s, size);
      assert chunks[1..] == Chunked(s[size..], size);
      assert s == s[..size] + s[size..];
    }
  }

  lemma FlattenSnoc<T>(chunks: seq<seq<T>>, c: nat)
    requires c < |chunks|
    ensures Flatten(chunks[..c + 1]) == Flatten(chunks[..c]) + chunks[c]
  {
    FlattenAppend(chunks[..c], [chunks[c]]);
    assert chunks[..c + 1] == chunks[..c] + [chunks[c]];
    assert Flatten([chunks[c]]) == chunks[c] + Flatten([chunks[c]][1..]);
    assert chunks[c] + [] == chunks[c];
  }

  lemma {:induction false} FlattenAppend<T>(a: seq<seq<T>>, b: seq<seq<T>>)
    ensures Flatten(a + b) == Flatten(a) + Flatten(b)
    decreases |a|
  {
    if |a| == 0 {
      assert a + b == b;
    } else {
      assert (a + b)[1..] == a[1..] + b;
      FlattenAppend(a[1..], b);
    }
  }

  /** Deleting two batches one after the other deletes their concatenation. */
  lemma MinusTwice(rows: Rows, a: seq<nat>, b: seq<nat>)
    ensures Minus(Minus(rows, a), b) == Minus(rows, a + b)
  {
  }
}
