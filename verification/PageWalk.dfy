/** Walks that follow cursors from page to page, with commits allowed in between. */
module PageWalk {
  import opened Base
  import opened Language
  import opened Semantics
  import opened Store
  import opened ValueQueries
  import opened CurrentScan
  import opened QueryRpc
  import opened Lifecycle
  import opened Runs
  import opened Query

  /** What one request saw: the snapshot, the IDs its query selected there, its limit and its page. */
  datatype Visit = Visit(db: Db, matches: set<nat>, limit: nat, page: Page)

  predicate BelowCursor(id: nat, cursor: Option<nat>) {
    cursor.Some? ==> id < cursor.value
  }

  /** The page is the one QueryEntities returns for the matches below the cursor. */
  ghost predicate Served(v: Visit, size: RowSize, cursor: Option<nat>) {
    v.limit > 0 && v.matches <= v.db.payloads.Keys &&
    exists order :: Descending(order) && (forall id :: id in order <==> id in v.matches && BelowCursor(id, cursor))
                    && IsPage(v.db, size, v.limit, Present(v.db, order), v.page)
  }

  lemma PageIsServed(v: Visit, size: RowSize, cursor: Option<nat>, order: seq<nat>)
    requires v.limit > 0 && v.matches <= v.db.payloads.Keys
    requires Descending(order) && (forall id :: id in order <==> id in v.matches && BelowCursor(id, cursor))
    requires IsPage(v.db, size, v.limit, Present(v.db, order), v.page)
    ensures Served(v, size, cursor)
  {
  }

  /** What the client of one request sees, in numbers: nothing is said here of how the page was cut. */
  ghost predicate PlainPage(db: Db, size: RowSize, answer: set<nat>, cursor: Option<nat>, requested: Option<uint64>,
                            page: Page) {
    var wanted := if requested.Some? && requested.value <= 200 then requested.value else 200;
    && (forall i, j :: 0 <= i < j < |page.rows| ==> page.rows[i] > page.rows[j])
    && (forall id :: id in page.rows ==> id in answer && (cursor.Some? ==> id < cursor.value))
    && |page.rows| <= wanted
    && (|page.rows| > 0 ==> TotalBytes(db, size, page.rows[..|page.rows| - 1]) <= 536_870_912)
    && (page.cursor.Some? ==> |page.rows| > 0 && page.cursor.value == page.rows[|page.rows| - 1])
    && (page.cursor.Some? && TotalBytes(db, size, page.rows) <= 536_870_912 ==> |page.rows| == wanted)
    && (forall id :: id in answer && (cursor.Some? ==> id < cursor.value) && id !in page.rows ==>
          page.cursor.Some? && id < page.cursor.value)
  }

  /** Pages requested one after the other, each with the cursor of the page before; there may be more to come. */
  ghost predicate IsPartialWalk(visits: seq<Visit>, size: RowSize, cursor: Option<nat>) {
    && |visits| > 0
    && Served(visits[0], size, cursor)
    && (|visits| > 1 ==> visits[0].page.cursor.Some? && IsPartialWalk(visits[1..], size, visits[0].page.cursor))
  }

  /** A walk to the end: the last page has no cursor. */
  ghost predicate IsWalk(visits: seq<Visit>, size: RowSize, cursor: Option<nat>) {
    IsPartialWalk(visits, size, cursor) && visits[|visits| - 1].page.cursor.None?
  }

  function AllRows(visits: seq<Visit>): seq<nat> {
    if |visits| == 0 then [] else visits[0].page.rows + AllRows(visits[1..])
  }

  lemma {:induction false} PresentAll(db: Db, ids: seq<nat>)
    requires forall id :: id in ids ==> id in db.payloads
    ensures Present(db, ids) == ids
  {
    if |ids| > 0 {
      PresentAll(db, ids[..|ids| - 1]);
    }
  }

  /** A served page: its rows descend, match, and leave out nothing from the cursor down to the next cursor. */
  lemma PageCovers(v: Visit, size: RowSize, cursor: Option<nat>)
    requires Served(v, size, cursor)
    ensures Descending(v.page.rows)
    ensures forall id :: id in v.page.rows ==> id in v.matches && BelowCursor(id, cursor)
    ensures forall id :: id in v.matches && BelowCursor(id, cursor) && id !in v.page.rows
                         ==> v.page.cursor.Some? && id < v.page.cursor.value
    ensures v.page.cursor.Some? ==> v.page.cursor.value in v.matches && BelowCursor(v.page.cursor.value, cursor)
    ensures v.page.cursor.Some? ==> forall id :: id in v.page.rows ==> id >= v.page.cursor.value
  {
    var order :| Descending(order) && (forall id :: id in order <==> id in v.matches && BelowCursor(id, cursor))
                 && IsPage(v.db, size, v.limit, Present(v.db, order), v.page);
    forall id | id in order
      ensures id in v.db.payloads
    {
    }
    PresentAll(v.db, order);
    PageCutsOrder(v.db, size, v.limit, order, v.page);
  }

  /** Cutting a descending list after n members: all of them are at least the last one, and the others below it. */
  lemma DescendingCut(order: seq<nat>, n: nat)
    requires Descending(order) && 0 < n <= |order|
    ensures Descending(order[..n]) && order[n - 1] in order
    ensures forall id :: id in order[..n] <==> id in order && id >= order[n - 1]
  {
    forall id
      ensures id in order[..n] <==> id in order && id >= order[n - 1]
    {
      if id in order && id >= order[n - 1] {
        var j :| 0 <= j < |order| && order[j] == id;
        assert j < n && order[..n][j] == id;
      }
      if id in order[..n] {
        var j :| 0 <= j < n && order[..n][j] == id;
        assert order[j] == id;
      }
    }
  }

  lemma PageCutsOrder(db: Db, size: RowSize, limit: nat, order: seq<nat>, page: Page)
    requires Descending(order) && IsPage(db, size, limit, order, page)
    ensures Descending(page.rows) && forall id :: id in page.rows ==> id in order
    ensures page.cursor.Some? ==> page.cursor.value in order && forall id :: id in page.rows ==> id >= page.cursor.value
    ensures forall id :: id in order && id !in page.rows ==> page.cursor.Some? && id < page.cursor.value
  {
    var n := |page.rows|;
    if page.cursor.Some? {
      assert page.rows == order[..n] && page.cursor.value == order[n - 1];
      DescendingCut(order, n);
    }
  }

  lemma ServedLimits(v: Visit, size: RowSize, cursor: Option<nat>, requested: Option<uint64>)
    requires requested != Some(0) && v.limit == GetResultsPerPage(requested) && Served(v, size, cursor)
    ensures var wanted := if requested.Some? && requested.value <= 200 then requested.value else 200;
            && |v.page.rows| <= wanted
            && (|v.page.rows| > 0 ==> TotalBytes(v.db, size, v.page.rows[..|v.page.rows| - 1]) <= 536_870_912)
            && (v.page.cursor.Some? ==>
                  |v.page.rows| > 0 && v.page.cursor.value == v.page.rows[|v.page.rows| - 1])
            && (v.page.cursor.Some? && TotalBytes(v.db, size, v.page.rows) <= 536_870_912 ==> |v.page.rows| == wanted)
  {
    var order :| Descending(order) && (forall id :: id in order <==> id in v.matches && BelowCursor(id, cursor))
                 && IsPage(v.db, size, v.limit, Present(v.db, order), v.page);
    PageLimits(v.db, size, requested, Present(v.db, order), v.page);
    PageSize(v.db, size, requested, Present(v.db, order), v.page);
  }

  lemma ServedIsPlain(v: Visit, size: RowSize, cursor: Option<nat>, requested: Option<uint64>)
    requires requested != Some(0) && v.limit == GetResultsPerPage(requested) && Served(v, size, cursor)
    ensures PlainPage(v.db, size, v.matches, cursor, requested, v.page)
  {
    PageCovers(v, size, cursor);
    ServedLimits(v, size, cursor, requested);
  }

  /** A request as QueryEntities serves it: answer the query on the snapshot, then cut the page. */
  method Serve(lib: Lib, ghost w: Work, r: Reader, size: RowSize, q: TopLevel,
               cursor: Option<nat>, requested: Option<uint64>)
    returns (page: Option<Page>)
    requires LowerIsIdempotent(lib) && Reached(lib, w, false) && Faithful(r) && r.db == w.db && requested != Some(0)
    ensures page.None? <==> !Answerable(q)
    ensures page.Some? ==>
              Served(Visit(w.db, AnswerIds(lib, w.db, q), GetResultsPerPage(requested), page.value), size, cursor)
    ensures page.Some? ==> PlainPage(w.db, size, AnswerIds(lib, w.db, q), cursor, requested, page.value)
    ensures page.Some? && Faultless(q) ==> AnswerIds(lib, w.db, q) == Matches(lib, w.db, q)
  {
    var bitmap := Answer(lib, w, r, q);
    if bitmap == null {
      return None;
    }
    AnswerIsMatches(lib, w, q);
    var p, order := QueryEntities(r.db, size, bitmap, cursor, requested);
    PageIsServed(Visit(w.db, AnswerIds(lib, w.db, q), GetResultsPerPage(requested), p), size, cursor, order);
    ServedIsPlain(Visit(w.db, AnswerIds(lib, w.db, q), GetResultsPerPage(requested), p), size, cursor, requested);
    page := Some(p);
  }

  /**
   * Whatever commits between the pages of a walk: no ID is returned twice, the
   * rows come newest first, every row matched in the snapshot of its page, and
   * every ID that matches in the snapshot of every page is returned.
   */
  lemma {:induction false} WalkIsExact(visits: seq<Visit>, size: RowSize, cursor: Option<nat>)
    requires IsWalk(visits, size, cursor)
    ensures Descending(AllRows(visits))
    ensures forall id :: id in AllRows(visits) ==>
              BelowCursor(id, cursor) && exists i :: 0 <= i < |visits| && id in visits[i].page.rows &&
                                           id in visits[i].matches
    ensures forall id :: BelowCursor(id, cursor) && (forall i :: 0 <= i < |visits| ==> id in visits[i].matches)
                         ==> id in AllRows(visits)
    decreases visits
  {
    var v := visits[0];
    PageCovers(v, size, cursor);
    var rest := visits[1..];
    if |visits| > 1 {
      WalkIsExact(rest, size, v.page.cursor);
      DescendingJoin(v.page.rows, AllRows(rest), v.page.cursor.value);
      forall id | BelowCursor(id, cursor) && (forall i :: 0 <= i < |visits| ==> id in visits[i].matches)
        ensures id in AllRows(visits)
      {
        assert forall i :: 0 <= i < |rest| ==> rest[i] == visits[i + 1];
      }
      forall id | id in AllRows(visits)
        ensures BelowCursor(id, cursor) && exists i :: 0 <= i < |visits| && id in visits[i].page.rows &&
                                             id in visits[i].matches
      {
        if id in v.page.rows {
          assert id in visits[0].page.rows;
        } else {
          var i :| 0 <= i < |rest| && id in rest[i].page.rows && id in rest[i].matches;
          assert rest[i] == visits[i + 1];
        }
      }
    } else {
      assert AllRows(rest) == [];
      assert AllRows(visits) == v.page.rows;
      forall id | id in v.page.rows
        ensures exists i :: 0 <= i < |visits| && id in visits[i].page.rows && id in visits[i].matches
      {
        assert id in visits[0].page.rows;
      }
    }
  }

  lemma DescendingJoin(a: seq<nat>, b: seq<nat>, mid: nat)
    requires Descending(a) && Descending(b)
    requires (forall x :: x in a ==> x >= mid) && (forall x :: x in b ==> x < mid)
    ensures Descending(a + b)
  {
    assert forall i :: 0 <= i < |a| ==> a[i] in a;
    assert forall i :: 0 <= i < |b| ==> b[i] in b;
  }

  lemma TailMembers(a: seq<nat>)
    requires Descending(a) && |a| > 0
    ensures forall x :: x in a[1..] <==> x in a && x < a[0]
  {
    forall x | x in a && x < a[0]
      ensures x in a[1..]
    {
      var j :| 0 <= j < |a| && a[j] == x;
      assert a[1..][j - 1] == x;
    }
  }

  lemma {:induction false} DescendingIsUnique(a: seq<nat>, b: seq<nat>)
    requires Descending(a) && Descending(b) && forall x :: x in a <==> x in b
    ensures a == b
  {
    assert |a| > 0 ==> a[0] in a;
    assert |b| > 0 ==> b[0] in b;
    if |a| > 0 && |b| > 0 {
      TailMembers(a);
      TailMembers(b);
      DescendingIsUnique(a[1..], b[1..]);
      assert a == [a[0]] + a[1..] && b == [b[0]] + b[1..];
    }
  }

  /** On a fixed snapshot the pages of a walk join to the full match list, newest first. */
  lemma FixedSnapshotWalk(visits: seq<Visit>, size: RowSize, matches: set<nat>, all: seq<nat>)
    requires IsWalk(visits, size, None) && forall i :: 0 <= i < |visits| ==> visits[i].matches == matches
    requires Descending(all) && forall id :: id in all <==> id in matches
    ensures AllRows(visits) == all
  {
    WalkIsExact(visits, size, None);
    assert forall id :: id in matches ==> BelowCursor(id, None);
    DescendingIsUnique(AllRows(visits), all);
  }

  /**
   * Cursors strictly decrease: however far a client follows them, and whatever
   * commits in between, it gets no more pages than the first page's matches
   * allow, so it always arrives at a page without a cursor.
   */
  lemma {:induction false} WalkTerminates(visits: seq<Visit>, size: RowSize, cursor: Option<nat>, top: nat)
    requires IsPartialWalk(visits, size, cursor)
    requires forall id :: id in visits[0].matches && BelowCursor(id, cursor) ==> id < top
    ensures |visits| <= top + 1
    decreases visits
  {
    PageCovers(visits[0], size, cursor);
    if |visits| > 1 {
      var next := visits[0].page.cursor;
      WalkTerminates(visits[1..], size, next, next.value);
    }
  }

  /** The rows so far: the part of the answer the cursor has passed, or all of it when there are no more pages. */
  ghost predicate Collected(rows: seq<nat>, answer: set<nat>, cursor: Option<nat>, more: bool) {
    Descending(rows) && forall id :: id in rows <==> id in answer && (!more || !BelowCursor(id, cursor))
  }

  lemma HasMember(s: seq<nat>)
    ensures s != [] ==> exists x :: x in s
  {
    assert s != [] ==> s[0] in s;
  }

  lemma CollectPage(v: Visit, size: RowSize, cursor: Option<nat>, rows: seq<nat>)
    requires Served(v, size, cursor) && Collected(rows, v.matches, cursor, true)
    ensures Collected(rows + v.page.rows, v.matches, v.page.cursor, v.page.cursor.Some?)
    ensures v.page.cursor.Some? ==> BelowCursor(v.page.cursor.value, cursor)
  {
    PageCovers(v, size, cursor);
    if cursor.Some? {
      DescendingJoin(rows, v.page.rows, cursor.value);
    } else {
      HasMember(rows);
      assert rows + v.page.rows == v.page.rows;
    }
  }

  /**
   * A client that follows cursors on one snapshot until there is none: it
   * stops, and has then been given the whole answer, newest first.
   */
  method FollowCursors(lib: Lib, ghost w: Work, r: Reader, size: RowSize, q: TopLevel, requested: Option<uint64>)
    returns (rows: Option<seq<nat>>)
    requires LowerIsIdempotent(lib) && Reached(lib, w, false) && Faithful(r) && r.db == w.db && requested != Some(0)
    ensures rows.None? <==> !Answerable(q)
    ensures rows.Some? ==> Descending(rows.value) && forall id :: id in rows.value <==> id in AnswerIds(lib, w.db, q)
    ensures rows.Some? && Faultless(q) ==> AnswerIds(lib, w.db, q) == Matches(lib, w.db, q)
  {
    ghost var answer := if Answerable(q) then AnswerIds(lib, w.db, q) else {};
    var all: seq<nat> := [];
    var cursor: Option<nat> := None;
    var more := true;
    while more
      invariant Collected(all, answer, cursor, more)
      invariant !more ==> Answerable(q) && (Faultless(q) ==> answer == Matches(lib, w.db, q))
      decreases more, cursor.None?, if cursor.Some? then cursor.value else 0
    {
      var page := Serve(lib, w, r, size, q, cursor, requested);
      if page.None? {
        return None;
      }
      CollectPage(Visit(w.db, answer, GetResultsPerPage(requested), page.value), size, cursor, all);
      all := all + page.value.rows;
      more := page.value.cursor.Some?;
      cursor := page.value.cursor;
    }
    rows := Some(all);
  }

  /** The store at the time of page n: gaps[i] is what happens between page i and the next. */
  function StateAt(lib: Lib, w: Work, gaps: seq<seq<Event>>, n: nat): Work
    requires n <= |gaps| && forall g :: g in gaps ==> NoEmptyDelivery(g)
  {
    if n == 0 then w else RunEvents(lib, StateAt(lib, w, gaps, n - 1), gaps[n - 1])
  }

  lemma {:induction false} StatesAreReached(lib: Lib, w: Work, gaps: seq<seq<Event>>, n: nat)
    requires LowerIsIdempotent(lib) && Reached(lib, w, false) && n <= |gaps|
    requires forall g :: g in gaps ==> NoEmptyDelivery(g)
    requires forall i :: 0 <= i < |gaps| ==> Feeds(lib, StateAt(lib, w, gaps, i), gaps[i], false)
    ensures Reached(lib, StateAt(lib, w, gaps, n), false)
  {
    if n > 0 {
      StatesAreReached(lib, w, gaps, n - 1);
      RunsStayReached(lib, StateAt(lib, w, gaps, n - 1), gaps[n - 1], false);
    }
  }

  lemma {:induction false} StatesKeepId(lib: Lib, w: Work, gaps: seq<seq<Event>>, key: Key, id: nat, n: nat)
    requires n <= |gaps| && forall g :: g in gaps ==> NoEmptyDelivery(g) && NoDeletion(g, key)
    requires LiveAs(w, key, id)
    ensures LiveAs(StateAt(lib, w, gaps, n), key, id)
  {
    if n > 0 {
      StatesKeepId(lib, w, gaps, key, id, n - 1);
      EventsKeepId(lib, StateAt(lib, w, gaps, n - 1), gaps[n - 1], key, id);
    }
  }

  lemma LiveHasPayload(lib: Lib, w: Work, key: Key, id: nat)
    requires Reached(lib, w, false) && LiveAs(w, key, id)
    ensures id in w.db.payloads
  {
  }

  /** The query, as written, is true of the entity stored under the ID, if there is one. */
  predicate SatisfiedBy(lib: Lib, q: TopLevel, db: Db, id: nat) {
    id in db.payloads && q.Query? ==> Kleene(lib, q.expression, EntityOf(db.payloads[id])) == True
  }

  /** The entity of the key, if the query is true of it, is in the answer. */
  lemma EntityIsAnswered(lib: Lib, w: Work, q: TopLevel, key: Key, id: nat)
    requires LowerIsIdempotent(lib) && Reached(lib, w, false) && Answerable(q) && Faultless(q) && LiveAs(w, key, id)
    requires SatisfiedBy(lib, q, w.db, id)
    ensures id in AnswerIds(lib, w.db, q)
  {
    LiveHasPayload(lib, w, key, id);
    AnswerIsMatches(lib, w, q);
  }

  /** visits[i] is a page of the answer in the store at the time of page i. */
  predicate AnswersAt(lib: Lib, w: Work, gaps: seq<seq<Event>>, visits: seq<Visit>, q: TopLevel)
    requires |gaps| + 1 == |visits| && Answerable(q)
    requires forall g :: g in gaps ==> NoEmptyDelivery(g)
  {
    forall i :: 0 <= i < |visits| ==> visits[i].matches == AnswerIds(lib, StateAt(lib, w, gaps, i).db, q)
  }

  lemma EntityAlwaysMatches(lib: Lib, w: Work, gaps: seq<seq<Event>>, visits: seq<Visit>, q: TopLevel,
                            key: Key, id: nat, i: nat)
    requires LowerIsIdempotent(lib) && Reached(lib, w, false) && Answerable(q) && Faultless(q)
    requires |gaps| + 1 == |visits| && i < |visits|
    requires forall g :: g in gaps ==> NoEmptyDelivery(g) && NoDeletion(g, key)
    requires forall i :: 0 <= i < |gaps| ==> Feeds(lib, StateAt(lib, w, gaps, i), gaps[i], false)
    requires AnswersAt(lib, w, gaps, visits, q)
    requires LiveAs(w, key, id) && SatisfiedBy(lib, q, StateAt(lib, w, gaps, i).db, id)
    ensures id in visits[i].matches
  {
    StatesAreReached(lib, w, gaps, i);
    StatesKeepId(lib, w, gaps, key, id, i);
    EntityIsAnswered(lib, StateAt(lib, w, gaps, i), q, key, id);
  }

  /**
   * Whatever is delivered, fails or restarts between the pages, short of a
   * deletion of its key: an entity of which the query is true at every page is
   * returned exactly once, under the ID it had at the first.
   */
  lemma EntityReturnedOnce(lib: Lib, w: Work, gaps: seq<seq<Event>>, visits: seq<Visit>, size: RowSize, q: TopLevel,
                           key: Key, id: nat)
    requires LowerIsIdempotent(lib) && Reached(lib, w, false) && Answerable(q) && Faultless(q)
    requires |gaps| + 1 == |visits| && IsWalk(visits, size, None)
    requires forall g :: g in gaps ==> NoEmptyDelivery(g) && NoDeletion(g, key)
    requires forall i :: 0 <= i < |gaps| ==> Feeds(lib, StateAt(lib, w, gaps, i), gaps[i], false)
    requires AnswersAt(lib, w, gaps, visits, q)
    requires LiveAs(w, key, id)
    requires forall i :: 0 <= i < |visits| ==> SatisfiedBy(lib, q, StateAt(lib, w, gaps, i).db, id)
    ensures exists n :: 0 <= n < |AllRows(visits)| && AllRows(visits)[n] == id
    ensures forall m, n :: 0 <= m < n < |AllRows(visits)| ==> !(AllRows(visits)[m] == id && AllRows(visits)[n] == id)
  {
    WalkIsExact(visits, size, None);
    assert BelowCursor(id, None);
    forall i | 0 <= i < |visits|
      ensures id in visits[i].matches
    {
      EntityAlwaysMatches(lib, w, gaps, visits, q, key, id, i);
    }
  }
}
