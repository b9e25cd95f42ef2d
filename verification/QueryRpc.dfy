/** Pages of query results: the fill loop, its cursor, and walks that follow cursors. */
module QueryRpc {
  import opened Base
  import opened Store
  import opened CurrentScan
  import opened BitmapCache

  const QUERY_RESULT_COUNT_LIMIT: nat := 200
  const MAX_RESULT_BYTES: nat := 512 * 1024 * 1024
  const PAYLOAD_BATCH: nat := 10

  /** The IDs of the rows of a page, and the cursor for the next one. */
  datatype Page = Page(rows: seq<nat>, cursor: Option<nat>)

  /** Bytes of the encoded response row of an entity. */
  type RowSize = (nat, Row) -> nat

  function GetResultsPerPage(requested: Option<uint64>): (limit: nat)
    ensures limit <= QUERY_RESULT_COUNT_LIMIT
    ensures requested.Some? ==> limit <= requested.value
    ensures limit == 0 <==> requested == Some(0)
    ensures limit == 200 || (requested.Some? && limit == requested.value)
  {
    if requested.None? || requested.value > QUERY_RESULT_COUNT_LIMIT then QUERY_RESULT_COUNT_LIMIT
    else requested.value
  }

  // ----- What a page is -----

  /** The IDs that have a payload, in order. */
  function Present(db: Db, ids: seq<nat>): seq<nat> {
    if |ids| == 0 then []
    else Present(db, ids[..|ids| - 1]) + if ids[|ids| - 1] in db.payloads then [ids[|ids| - 1]] else []
  }

  function TotalBytes(db: Db, size: RowSize, rows: seq<nat>): nat {
    if |rows| == 0 then 0
    else TotalBytes(db, size, rows[..|rows| - 1])
         + if rows[|rows| - 1] in db.payloads then size(rows[|rows| - 1], db.payloads[rows[|rows| - 1]]) else 0
  }

  /** The page is full: it has the rows asked for, or more bytes than allowed. */
  predicate Full(db: Db, size: RowSize, limit: nat, rows: seq<nat>) {
    |rows| >= limit || TotalBytes(db, size, rows) > MAX_RESULT_BYTES
  }

  /**
   * page holds the longest run of the candidates that does not go past the
   * first point where it is full, and a cursor exactly if it is full.
   */
  predicate IsPage(db: Db, size: RowSize, limit: nat, candidates: seq<nat>, page: Page) {
    && page.rows <= candidates
    && (forall n :: 0 < n < |page.rows| ==> !Full(db, size, limit, page.rows[..n]))
    && (page.cursor.None? ==> page.rows == candidates)
    && (page.cursor.Some? ==> |page.rows| > 0 && Full(db, size, limit, page.rows)
                              && page.cursor.value == page.rows[|page.rows| - 1])
    && (page.cursor.None? && |page.rows| > 0 ==> !Full(db, size, limit, page.rows))
  }

  lemma NotFullBefore(db: Db, size: RowSize, limit: nat, candidates: seq<nat>, page: Page, n: nat)
    requires IsPage(db, size, limit, candidates, page) && 0 < n <= |candidates|
    ensures n < |page.rows| ==> !Full(db, size, limit, candidates[..n])
  {
    if n < |page.rows| {
      assert page.rows[..n] == candidates[..n];
    }
  }

  lemma NoShorterPage(db: Db, size: RowSize, limit: nat, candidates: seq<nat>, p: Page, q: Page)
    requires IsPage(db, size, limit, candidates, p) && IsPage(db, size, limit, candidates, q)
    ensures |q.rows| <= |p.rows|
  {
    if p.cursor.Some? {
      assert p.rows == candidates[..|p.rows|];
      NotFullBefore(db, size, limit, candidates, q, |p.rows|);
    }
  }

  /** Candidates determine their page. */
  lemma PageIsUnique(db: Db, size: RowSize, limit: nat, candidates: seq<nat>, p: Page, q: Page)
    requires IsPage(db, size, limit, candidates, p) && IsPage(db, size, limit, candidates, q)
    ensures p == q
  {
    NoShorterPage(db, size, limit, candidates, p, q);
    NoShorterPage(db, size, limit, candidates, q, p);
    assert p.rows == candidates[..|p.rows|] && q.rows == candidates[..|q.rows|];
  }

  /** A page has at most the rows asked for and at most 200, and only its last row can cross the byte limit. */
  lemma PageLimits(db: Db, size: RowSize, requested: Option<uint64>, candidates: seq<nat>, page: Page)
    requires IsPage(db, size, GetResultsPerPage(requested), candidates, page) && requested != Some(0)
    ensures |page.rows| <= QUERY_RESULT_COUNT_LIMIT && (requested.Some? ==> |page.rows| <= requested.value)
    ensures |page.rows| > 0 ==> TotalBytes(db, size, page.rows[..|page.rows| - 1]) <= MAX_RESULT_BYTES
  {
    var limit := GetResultsPerPage(requested);
    if limit <= |candidates| {
      NotFullBefore(db, size, limit, candidates, page, limit);
    }
    if |page.rows| > 1 {
      assert page.rows[..|page.rows| - 1] == candidates[..|page.rows| - 1];
      NotFullBefore(db, size, limit, candidates, page, |page.rows| - 1);
    }
  }

  /**
   * A page that another one follows is full, of as many rows as were asked for
   * and 200 if nothing or more was asked for, unless its last row goes past
   * 512 MiB; a page that none follows holds everything that is left.
   */
  lemma PageSize(db: Db, size: RowSize, requested: Option<uint64>, candidates: seq<nat>, page: Page)
    requires IsPage(db, size, GetResultsPerPage(requested), candidates, page) && requested != Some(0)
    ensures page.cursor.Some? && TotalBytes(db, size, page.rows) <= 536_870_912 ==>
              |page.rows| == if requested.Some? && requested.value <= 200 then requested.value else 200
    ensures page.cursor.None? ==> page.rows == candidates
  {
    PageLimits(db, size, requested, candidates, page);
  }

  /** The bytes of a page are those of its rows, each counted once. */
  lemma BytesAdd(db: Db, size: RowSize, rows: seq<nat>, id: nat)
    requires id in db.payloads
    ensures TotalBytes(db, size, []) == 0
    ensures TotalBytes(db, size, rows + [id]) == TotalBytes(db, size, rows) + size(id, db.payloads[id])
  {
    assert (rows + [id])[..|rows|] == rows;
  }

  // ----- The loops -----

  /** ReverseIterator: the members of a bitmap from the largest down. */
  method ReverseOrder(ids: set<nat>) returns (order: seq<nat>)
    ensures Descending(order) && forall id :: id in order <==> id in ids
  {
    order := [];
    var todo := ids;
    while todo != {}
      invariant todo <= ids && Descending(order) && forall id :: id in order <==> id in ids - todo
      decreases todo
    {
      var x :| x in todo;
      InsertSorts(x, order);
      order := Insert(x, order);
      todo := todo - {x};
    }
  }

  lemma {:induction false} PresentMembers(db: Db, ids: seq<nat>)
    ensures forall id :: id in Present(db, ids) <==> id in ids && id in db.payloads
    ensures Descending(ids) ==> Descending(Present(db, ids))
  {
    if |ids| > 0 {
      var m := |ids| - 1;
      PresentMembers(db, ids[..m]);
      var init := Present(db, ids[..m]);
      assert forall id :: id in ids <==> id in ids[..m] || id == ids[m];
      if Descending(ids) {
        forall i | 0 <= i < |init|
          ensures init[i] > ids[m]
        {
          assert init[i] in ids[..m];
        }
      }
    }
  }

  lemma {:induction false} SortedIsSorted(s: seq<nat>)
    requires Descending(s)
    ensures SortDescending(s) == s
  {
    if |s| > 0 {
      SortedIsSorted(s[1..]);
      assert s == [s[0]] + s[1..];
    }
  }

  /** retrievePayloads: IDs without a payload are passed over, the others are sorted newest first. */
  method RetrievePayloads(db: Db, ids: seq<nat>) returns (rows: seq<nat>)
    ensures rows == SortDescending(Present(db, ids))
    ensures Descending(ids) ==> rows == Present(db, ids)
  {
    rows := [];
    for i := 0 to |ids|
      invariant rows == Present(db, ids[..i])
    {
      assert ids[..i + 1][..i] == ids[..i];
      if ids[i] !in db.payloads {
        continue;
      }
      rows := rows + [ids[i]];
    }
    assert ids[..|ids|] == ids;
    PresentMembers(db, ids);
    if Descending(ids) {
      SortedIsSorted(rows);
    }
    rows := SortDescending(rows);
  }

  lemma {:induction false} PresentSplits(db: Db, a: seq<nat>, b: seq<nat>)
    ensures Present(db, a + b) == Present(db, a) + Present(db, b)
  {
    if |b| == 0 {
      assert a + b == a;
    } else {
      var m := |b| - 1;
      assert (a + b)[..|a + b| - 1] == a + b[..m];
      PresentSplits(db, a, b[..m]);
    }
  }

  /** min(maxResults - len(res.Data), 10), in 64 bits. */
  function NextBatchSize(limit: nat, count: nat): nat {
    var left := (limit - count) % TWO64;
    if left < PAYLOAD_BATCH then left else PAYLOAD_BATCH
  }

  /** No point of the page so far, except possibly its end, is full. */
  predicate Filling(db: Db, size: RowSize, limit: nat, data: seq<nat>) {
    forall n :: 0 < n < |data| ==> !Full(db, size, limit, data[..n])
  }

  /** The variables of the fill loop: how far the iterator is, and res.Data, totalBytes and finished. */
  datatype FillState = FillState(position: nat, data: seq<nat>, bytes: nat, finished: bool)

  const FILL_START := FillState(0, [], 0, true)

  function RowBytes(db: Db, size: RowSize, id: nat): nat {
    if id in db.payloads then size(id, db.payloads[id]) else 0
  }

  /** The inner loop: rows are appended until one makes the page full. */
  function Appended(db: Db, size: RowSize, limit: nat, s: FillState, payloads: seq<nat>): FillState
    decreases payloads
  {
    if |payloads| == 0 then s
    else
      var next := s.(data := s.data + [payloads[0]], bytes := s.bytes + RowBytes(db, size, payloads[0]));
      if next.bytes > MAX_RESULT_BYTES || |next.data| >= limit then next.(finished := false)
      else Appended(db, size, limit, next, payloads[1..])
  }

  lemma {:induction false} AppendedKeepsPosition(db: Db, size: RowSize, limit: nat, s: FillState, payloads: seq<nat>)
    ensures Appended(db, size, limit, s, payloads).position == s.position
    ensures s.finished && |s.data| < limit && Appended(db, size, limit, s, payloads).finished
            ==> |Appended(db, size, limit, s, payloads).data| < limit
    decreases payloads
  {
    if |payloads| > 0 {
      var next := s.(data := s.data + [payloads[0]], bytes := s.bytes + RowBytes(db, size, payloads[0]));
      AppendedKeepsPosition(db, size, limit, next, payloads[1..]);
    }
  }

  /** A row after a page that is not full: only its end may become full. */
  lemma OneMoreRow(db: Db, size: RowSize, limit: nat, data: seq<nat>, id: nat)
    requires !Full(db, size, limit, data) && Filling(db, size, limit, data)
    ensures Filling(db, size, limit, data + [id])
    ensures TotalBytes(db, size, data + [id]) == TotalBytes(db, size, data) + RowBytes(db, size, id)
  {
    var next := data + [id];
    assert next[..|data|] == data;
    assert forall n :: 0 < n < |data| ==> next[..n] == data[..n];
  }

  lemma Between(data: seq<nat>, payloads: seq<nat>, r: seq<nat>)
    requires |payloads| > 0 && data + [payloads[0]] <= r <= data + [payloads[0]] + payloads[1..]
    ensures data <= r <= data + payloads && data + [payloads[0]] + payloads[1..] == data + payloads
  {
    assert data <= data + [payloads[0]];
  }

  /** Appending takes a first part of the payloads, and all of them unless a limit stops it. */
  lemma {:induction false} AppendedTakes(db: Db, size: RowSize, limit: nat, s: FillState, payloads: seq<nat>)
    ensures var r := Appended(db, size, limit, s, payloads);
            s.data <= r.data <= s.data + payloads && (r.finished ==> r.data == s.data + payloads)
    decreases payloads
  {
    if |payloads| > 0 {
      var next := s.(data := s.data + [payloads[0]], bytes := s.bytes + RowBytes(db, size, payloads[0]));
      if next.bytes <= MAX_RESULT_BYTES && |next.data| < limit {
        AppendedTakes(db, size, limit, next, payloads[1..]);
      }
      Between(s.data, payloads, Appended(db, size, limit, s, payloads).data);
    }
  }

  lemma {:induction false} AppendedStops(db: Db, size: RowSize, limit: nat, s: FillState, payloads: seq<nat>)
    requires s.finished && s.bytes == TotalBytes(db, size, s.data)
    requires !Full(db, size, limit, s.data) && Filling(db, size, limit, s.data)
    ensures var r := Appended(db, size, limit, s, payloads);
            && r.bytes == TotalBytes(db, size, r.data) && Filling(db, size, limit, r.data)
            && (r.finished <==> !Full(db, size, limit, r.data)) && (!r.finished ==> |r.data| > 0)
    decreases payloads
  {
    if |payloads| > 0 {
      var next := s.(data := s.data + [payloads[0]], bytes := s.bytes + RowBytes(db, size, payloads[0]));
      OneMoreRow(db, size, limit, s.data, payloads[0]);
      if next.bytes <= MAX_RESULT_BYTES && |next.data| < limit {
        AppendedStops(db, size, limit, next, payloads[1..]);
      }
    }
  }

  /** What appending means for the page: nothing skipped, and only the end may be full. */
  lemma AppendedFills(db: Db, size: RowSize, limit: nat, s: FillState, payloads: seq<nat>)
    requires s.finished && s.bytes == TotalBytes(db, size, s.data)
    requires !Full(db, size, limit, s.data) && Filling(db, size, limit, s.data)
    ensures var r := Appended(db, size, limit, s, payloads);
            && s.data <= r.data <= s.data + payloads && r.bytes == TotalBytes(db, size, r.data)
            && Filling(db, size, limit, r.data)
            && (r.finished ==> r.data == s.data + payloads && !Full(db, size, limit, r.data))
            && (!r.finished ==> |r.data| > 0 && Full(db, size, limit, r.data))
  {
    AppendedTakes(db, size, limit, s, payloads);
    AppendedStops(db, size, limit, s, payloads);
  }

  method AppendRows(db: Db, size: RowSize, limit: nat, s: FillState, payloads: seq<nat>) returns (r: FillState)
    ensures r == Appended(db, size, limit, s, payloads)
  {
    r := s;
    for i := 0 to |payloads|
      invariant Appended(db, size, limit, r, payloads[i..]) == Appended(db, size, limit, s, payloads)
    {
      var payload := payloads[i];
      assert payloads[i..][0] == payload && payloads[i..][1..] == payloads[i + 1..];
      r := r.(data := r.data + [payload], bytes := r.bytes + RowBytes(db, size, payload));
      if r.bytes > MAX_RESULT_BYTES {
        return r.(finished := false);
      }
      if |r.data| >= limit {
        return r.(finished := false);
      }
    }
    assert payloads[|payloads|..] == [];
  }

  // ----- The fill loop, iteration by iteration -----

  /** The loop goes round again: `it.HasNext()` holds and no limit has broken out of it. */
  predicate Going(it: seq<nat>, s: FillState) {
    s.finished && s.position < |it|
  }

  function BatchEnd(it: seq<nat>, limit: nat, s: FillState): (end: nat)
    requires s.position <= |it|
    ensures s.position <= end <= |it|
  {
    var end := s.position + NextBatchSize(limit, |s.data|);
    if end < |it| then end else |it|
  }

  /** One iteration of the fill loop. */
  function Iteration(db: Db, size: RowSize, limit: nat, it: seq<nat>, s: FillState): (r: FillState)
    requires s.position <= |it|
    ensures r.position <= |it|
  {
    var end := BatchEnd(it, limit, s);
    var rows := SortDescending(Present(db, it[s.position..end]));
    Appended(db, size, limit, s, rows).(position := end)
  }

  /** The state after at most n iterations. */
  function AfterIterations(db: Db, size: RowSize, limit: nat, it: seq<nat>, n: nat): (r: FillState)
    ensures r.position <= |it|
  {
    if n == 0 then FILL_START
    else
      var s := AfterIterations(db, size, limit, it, n - 1);
      if Going(it, s) then Iteration(db, size, limit, it, s) else s
  }

  /** An iteration fetches ten IDs, fewer only if fewer rows are missing or fewer IDs are left. */
  lemma BatchesOfTen(it: seq<nat>, limit: uint64, s: FillState)
    requires s.position <= |it| && |s.data| < limit
    ensures var taken := BatchEnd(it, limit, s) - s.position;
            && taken <= 10 && taken <= limit - |s.data| && taken <= |it| - s.position
            && (taken == 10 || taken == limit - |s.data| || taken == |it| - s.position)
  {
  }

  lemma IterationAdvances(db: Db, size: RowSize, limit: uint64, it: seq<nat>, s: FillState)
    requires Going(it, s) && |s.data| < limit
    ensures var r := Iteration(db, size, limit, it, s); r.position > s.position && (r.finished ==> |r.data| < limit)
  {
    AppendedKeepsPosition(db, size, limit, s, SortDescending(Present(db, it[s.position..BatchEnd(it, limit, s)])));
  }

  lemma {:induction false} IterationsAdvance(db: Db, size: RowSize, limit: uint64, it: seq<nat>, n: nat)
    requires limit > 0
    ensures var s := AfterIterations(db, size, limit, it, n); Going(it, s) ==> s.position >= n && |s.data| < limit
  {
    if n > 0 {
      IterationsAdvance(db, size, limit, it, n - 1);
      var s := AfterIterations(db, size, limit, it, n - 1);
      if Going(it, s) {
        IterationAdvances(db, size, limit, it, s);
      }
    }
  }

  lemma {:induction false} IterationsStall(db: Db, size: RowSize, it: seq<nat>, n: nat)
    ensures AfterIterations(db, size, 0, it, n) == FILL_START
  {
    if n > 0 {
      IterationsStall(db, size, it, n - 1);
      assert BatchEnd(it, 0, FILL_START) == 0 && it[0..0] == [];
      assert Present(db, it[0..0]) == [];
    }
  }

  /**
   * The fill loop ends iff the page size is not zero or there is nothing to
   * page through; otherwise every iteration leaves its state as it was.
   */
  lemma FillLoopEnds(db: Db, size: RowSize, requested: Option<uint64>, it: seq<nat>)
    ensures (exists n :: !Going(it, AfterIterations(db, size, GetResultsPerPage(requested), it, n)))
            <==> requested != Some(0) || it == []
    ensures requested == Some(0) ==>
              forall n :: AfterIterations(db, size, GetResultsPerPage(requested), it, n) == FILL_START
  {
    var limit := GetResultsPerPage(requested);
    if requested == Some(0) {
      forall n
        ensures AfterIterations(db, size, limit, it, n) == FILL_START
      {
        IterationsStall(db, size, it, n);
      }
      assert !Going(it, FILL_START) <==> it == [];
      assert AfterIterations(db, size, limit, it, 0) == FILL_START;
    } else {
      IterationsAdvance(db, size, limit, it, |it|);
      assert !Going(it, AfterIterations(db, size, limit, it, |it|));
    }
  }

  /**
   * One page. With a page size of zero and anything to return the fill loop
   * would not terminate, so that is what the caller must not ask.
   */
  method QueryEntities(db: Db, size: RowSize, bitmap: Bitmap, cursor: Option<nat>, requested: Option<uint64>)
    returns (page: Page, ghost order: seq<nat>)
    requires requested != Some(0) || forall id :: id in bitmap.ids ==> cursor.Some? && id >= cursor.value
    modifies bitmap
    ensures Descending(order)
    ensures forall id :: id in order <==> id in old(bitmap.ids) && (cursor.Some? ==> id < cursor.value)
    ensures requested != Some(0) ==> IsPage(db, size, GetResultsPerPage(requested), Present(db, order), page)
    ensures requested == Some(0) ==> page == Page([], None)
  {
    if cursor.Some? {
      var cursorMask := new Bitmap();
      cursorMask.AddRange(0, cursor.value);
      bitmap.And(cursorMask);
    }
    var it := ReverseOrder(bitmap.ids);
    order := it;
    if |it| == 0 {
      return Page([], None), order;
    }
    assert it[0] in it;
    page := Fill(db, size, it, GetResultsPerPage(requested));
  }

  lemma PresentOfPrefix(db: Db, it: seq<nat>, position: nat, end: nat)
    requires position <= end <= |it|
    ensures Present(db, it[..position]) + Present(db, it[position..end]) == Present(db, it[..end])
    ensures Present(db, it[..end]) <= Present(db, it)
  {
    PresentSplits(db, it[..position], it[position..end]);
    assert it[..position] + it[position..end] == it[..end];
    PresentSplits(db, it[..end], it[end..]);
    assert it[..end] + it[end..] == it;
  }

  /** What the loop has done so far. */
  predicate FilledTo(db: Db, size: RowSize, limit: nat, it: seq<nat>, s: FillState) {
    && s.position <= |it| && s.bytes == TotalBytes(db, size, s.data) && Filling(db, size, limit, s.data)
    && (s.finished ==> s.data == Present(db, it[..s.position]) && !Full(db, size, limit, s.data))
    && (!s.finished ==> |s.data| > 0 && s.data <= Present(db, it) && Full(db, size, limit, s.data))
  }

  lemma IterationFills(db: Db, size: RowSize, limit: uint64, it: seq<nat>, s: FillState)
    requires Descending(it) && FilledTo(db, size, limit, it, s) && Going(it, s)
    ensures FilledTo(db, size, limit, it, Iteration(db, size, limit, it, s))
  {
    var end := BatchEnd(it, limit, s);
    PresentMembers(db, it[s.position..end]);
    SortedIsSorted(Present(db, it[s.position..end]));
    PresentOfPrefix(db, it, s.position, end);
    AppendedFills(db, size, limit, s, Present(db, it[s.position..end]));
  }

  /** The fill loop: batches of at most ten IDs until the page is full or the IDs run out. */
  method Fill(db: Db, size: RowSize, it: seq<nat>, maxResults: uint64) returns (page: Page)
    requires Descending(it) && maxResults > 0
    ensures IsPage(db, size, maxResults, Present(db, it), page)
    ensures exists n :: var s := AfterIterations(db, size, maxResults, it, n);
                        !Going(it, s) && page.rows == s.data && (page.cursor.None? <==> s.finished)
  {
    var s := FILL_START;
    ghost var n := 0;
    while Going(it, s)
      invariant FilledTo(db, size, maxResults, it, s) && s == AfterIterations(db, size, maxResults, it, n)
      decreases s.finished, |it| - s.position
    {
      IterationFills(db, size, maxResults, it, s);
      IterationAdvances(db, size, maxResults, it, s);
      var end := BatchEnd(it, maxResults, s);
      var payloads := RetrievePayloads(db, it[s.position..end]);
      s := AppendRows(db, size, maxResults, s, payloads);
      s := s.(position := end);
      n := n + 1;
    }
    assert s.finished ==> it[..s.position] == it;
    page := Page(s.data, if s.finished then None else Some(s.data[|s.data| - 1]));
  }
}
