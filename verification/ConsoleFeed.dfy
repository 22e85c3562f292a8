/**
 * Cursor pagination of the Console change feed
 * (packages/tasq-core/src/console-live.ts:43-176). The bounds query and the row
 * query of one request read the same table.
 */
module ConsoleFeed {
  import opened Common

  datatype Row = Row(sequence: nat, tenant: string, id: string)

  /** Every row ever appended, the first `pruned` of which are gone. */
  datatype Table = Table(full: seq<Row>, pruned: nat)

  predicate Sorted(rows: seq<Row>) {
    && (forall i :: 0 <= i < |rows| ==> rows[i].sequence > 0)
    && (forall i, j :: 0 <= i < j < |rows| ==> rows[i].sequence < rows[j].sequence)
  }

  predicate Valid(t: Table) {
    t.pruned <= |t.full| && Sorted(t.full)
  }

  /** Rows are appended with ever larger sequences and pruned from the front. */
  predicate Evolves(t: Table, t': Table) {
    t.full <= t'.full && t.pruned <= t'.pruned
  }

  function Retained(t: Table): seq<Row>
    requires Valid(t)
  {
    t.full[t.pruned..]
  }

  /** A workspace's rows after `lo` and up to `hi`, in sequence order. */
  function Window(rows: seq<Row>, ws: string, lo: int, hi: int): (w: seq<Row>)
    ensures forall r :: r in w ==> r in rows && r.tenant == ws && lo < r.sequence <= hi
  {
    if rows == [] then []
    else
      var r := rows[0];
      (if r.tenant == ws && lo < r.sequence <= hi then [r] else []) + Window(rows[1..], ws, lo, hi)
  }

  function Minimum(rows: seq<Row>): nat {
    if rows == [] then 0 else rows[0].sequence
  }

  function Maximum(rows: seq<Row>): nat {
    if rows == [] then 0 else rows[|rows| - 1].sequence
  }

  function RowsOf(rows: seq<Row>, ws: string): seq<Row> {
    Window(rows, ws, 0, Maximum(rows))
  }

  // ----- cursors

  datatype Token = Token(v: int, workspaceId: string, sequence: int) | Undecodable

  function Encode(ws: string, sequence: nat): Token {
    Token(1, ws, sequence)
  }

  /** A token decodes for exactly the workspace it was encoded for. */
  function Decode(token: Token, ws: string): (r: Option<nat>)
    ensures forall n: nat :: r == Some(n) <==> n <= MAX_SAFE && token == Encode(ws, n)
  {
    if token.Token? && token.v == 1 && token.workspaceId == ws && IsSafeNat(token.sequence)
    then Some(token.sequence) else None
  }

  // ----- one request

  datatype Batch =
    | Snapshot(nextCursor: Token)
    | Changes(events: seq<Row>, hasMore: bool, nextCursor: Token)
    | BadLimit
    | BadCursor
    | CursorAhead
    | CursorExpired

  function BuildBatch(t: Table, ws: string, cursor: Option<Token>, limit: int): Batch
    requires Valid(t)
  {
    if !(1 <= limit <= 100) then BadLimit
    else
      var mine := RowsOf(Retained(t), ws);
      if cursor.None? then Snapshot(Encode(ws, Maximum(mine)))
      else
        var decoded := Decode(cursor.value, ws);
        if decoded.None? then BadCursor
        else if decoded.value > Maximum(mine) then CursorAhead
        else if decoded.value > 0 && Minimum(mine) > decoded.value then CursorExpired
        else
          var rows := Window(Retained(t), ws, decoded.value, Maximum(mine));
          var page := if |rows| <= limit then rows else rows[..limit];
          Changes(page, |rows| > limit,
                  Encode(ws, if page == [] then decoded.value else Maximum(page)))
  }

  // ----- windows

  lemma SortedTail(rows: seq<Row>)
    requires Sorted(rows) && rows != []
    ensures Sorted(rows[1..])
    ensures forall r :: r in rows[1..] ==> rows[0].sequence < r.sequence
  {
    var rest := rows[1..];
    forall r | r in rest ensures rows[0].sequence < r.sequence {
      var i :| 0 <= i < |rest| && rest[i] == r;
      assert rows[i + 1] == r;
    }
  }

  lemma SortedCons(r: Row, rest: seq<Row>)
    requires Sorted(rest) && r.sequence > 0 && forall x :: x in rest ==> r.sequence < x.sequence
    ensures Sorted([r] + rest)
  {
    var all := [r] + rest;
    forall j | 0 < j < |all| ensures r.sequence < all[j].sequence {
      assert all[j] == rest[j - 1] && rest[j - 1] in rest;
    }
  }

  lemma {:induction false} WindowSorted(rows: seq<Row>, ws: string, lo: int, hi: int)
    requires Sorted(rows)
    ensures Sorted(Window(rows, ws, lo, hi))
  {
    if rows != [] {
      SortedTail(rows);
      WindowSorted(rows[1..], ws, lo, hi);
      SortedCons(rows[0], Window(rows[1..], ws, lo, hi));
    }
  }

  lemma {:induction false} WindowComplete(rows: seq<Row>, ws: string, lo: int, hi: int, r: Row)
    requires r in rows && r.tenant == ws && lo < r.sequence <= hi
    ensures r in Window(rows, ws, lo, hi)
  {
    if rows[0] != r {
      assert r in rows[1..];
      WindowComplete(rows[1..], ws, lo, hi, r);
    }
  }

  lemma {:induction false} WindowConcat(a: seq<Row>, b: seq<Row>, ws: string, lo: int, hi: int)
    ensures Window(a + b, ws, lo, hi) == Window(a, ws, lo, hi) + Window(b, ws, lo, hi)
  {
    if a == [] {
      assert a + b == b;
    } else {
      assert (a + b)[1..] == a[1..] + b;
      WindowConcat(a[1..], b, ws, lo, hi);
    }
  }

  lemma {:induction false} WindowOutside(rows: seq<Row>, ws: string, lo: int, hi: int)
    requires forall r :: r in rows && r.tenant == ws ==> !(lo < r.sequence <= hi)
    ensures Window(rows, ws, lo, hi) == []
  {
    if rows != [] {
      assert rows[0] in rows && forall r :: r in rows[1..] ==> r in rows;
      WindowOutside(rows[1..], ws, lo, hi);
    }
  }

  /** Adjacent windows join: nothing is repeated and nothing falls between them. */
  lemma {:induction false} WindowsJoin(rows: seq<Row>, ws: string, lo: int, mid: int, hi: int)
    requires Sorted(rows) && lo <= mid <= hi
    ensures Window(rows, ws, lo, mid) + Window(rows, ws, mid, hi) == Window(rows, ws, lo, hi)
  {
    if rows != [] {
      SortedTail(rows);
      WindowsJoin(rows[1..], ws, lo, mid, hi);
      if mid < rows[0].sequence {
        WindowOutside(rows[1..], ws, lo, mid);
      }
    }
  }

  /** A page of the first rows of a window is itself a window, ending at its last row. */
  lemma {:induction false} PageIsWindow(rows: seq<Row>, ws: string, lo: int, hi: int, n: nat)
    requires Sorted(rows) && 0 < n <= |Window(rows, ws, lo, hi)|
    ensures var w := Window(rows, ws, lo, hi);
      lo < w[n - 1].sequence <= hi && Window(rows, ws, lo, w[n - 1].sequence) == w[..n]
  {
    var w := Window(rows, ws, lo, hi);
    var last := w[n - 1];
    assert last in w;
    WindowsJoin(rows, ws, lo, last.sequence, hi);
    var low, high := Window(rows, ws, lo, last.sequence), Window(rows, ws, last.sequence, hi);
    WindowSorted(rows, ws, lo, hi);
    SideOf(w, low, high, n - 1);
    if n < |w| {
      SideOf(w, low, high, n);
    }
  }

  lemma SideOf(w: seq<Row>, low: seq<Row>, high: seq<Row>, i: nat)
    requires w == low + high && i < |w|
    ensures w[i] in (if i < |low| then low else high)
  {
  }

  // ----- one accepted request leaves no gap

  lemma LatestIsMaximum(rows: seq<Row>)
    requires Sorted(rows)
    ensures forall r :: r in rows ==> r.sequence <= Maximum(rows)
  {
  }

  /** Nothing after an accepted positive cursor has been pruned. */
  lemma NothingPrunedAfter(t: Table, ws: string, c: nat)
    requires Valid(t)
    requires var mine := RowsOf(Retained(t), ws); 0 < c <= Maximum(mine) && Minimum(mine) <= c
    ensures forall r :: r in t.full[..t.pruned] ==> r.sequence <= c
  {
    var mine := RowsOf(Retained(t), ws);
    assert mine[0] in Retained(t);
    var k :| t.pruned <= k < |t.full| && t.full[k] == mine[0];
    forall r | r in t.full[..t.pruned] ensures r.sequence <= c {
      var i :| 0 <= i < t.pruned && t.full[i] == r;
      assert t.full[i].sequence < t.full[k].sequence;
    }
  }

  lemma RetainedSorted(t: Table)
    requires Valid(t)
    ensures Sorted(Retained(t))
    ensures t.full == t.full[..t.pruned] + Retained(t)
  {
  }

  lemma SkipPrefix(gone: seq<Row>, kept: seq<Row>, ws: string, c: nat, hi: int)
    requires forall r :: r in gone ==> r.sequence <= c
    ensures Window(gone + kept, ws, c, hi) == Window(kept, ws, c, hi)
  {
    WindowOutside(gone, ws, c, hi);
    WindowConcat(gone, kept, ws, c, hi);
  }

  lemma PrunedPartIsEmpty(t: Table, ws: string, c: nat, hi: int)
    requires Valid(t) && forall r :: r in t.full[..t.pruned] ==> r.sequence <= c
    ensures Window(t.full, ws, c, hi) == Window(Retained(t), ws, c, hi)
  {
    SkipPrefix(t.full[..t.pruned], t.full[t.pruned..], ws, c, hi);
    assert t.full[..t.pruned] + t.full[t.pruned..] == t.full;
  }

  /** The workspace's own maximum bounds its rows as well as the table's does. */
  lemma TopIsEnough(t: Table, ws: string, c: nat)
    requires Valid(t) && forall r :: r in t.full[..t.pruned] ==> r.sequence <= c
    requires c <= Maximum(RowsOf(Retained(t), ws))
    ensures Window(t.full, ws, c, Maximum(RowsOf(Retained(t), ws))) == Window(t.full, ws, c, Maximum(t.full))
  {
    var kept := Retained(t);
    var top := Maximum(RowsOf(kept, ws));
    RetainedSorted(t);
    LatestIsMaximum(kept);
    WindowSorted(kept, ws, 0, Maximum(kept));
    LatestIsMaximum(RowsOf(kept, ws));
    forall r | r in t.full && r.tenant == ws ensures !(top < r.sequence <= Maximum(t.full)) {
      if r in kept {
        WindowComplete(kept, ws, 0, Maximum(kept), r);
      } else {
        assert r in t.full[..t.pruned];
      }
    }
    WindowOutside(t.full, ws, top, Maximum(t.full));
    if top <= Maximum(t.full) {
      WindowsJoin(t.full, ws, c, top, Maximum(t.full));
    }
  }

  /** The page taken from a window, the cursor it ends at, and what it leaves. */
  lemma PageOf(rows: seq<Row>, ws: string, c: nat, top: nat, limit: nat)
    requires Sorted(rows) && c <= top && limit > 0
    ensures var w := Window(rows, ws, c, top);
      var page := if |w| <= limit then w else w[..limit];
      var next := if page == [] then c else Maximum(page);
      c <= next <= top && page == Window(rows, ws, c, next) && (|w| > limit <==> page != w)
  {
    var w := Window(rows, ws, c, top);
    var page := if |w| <= limit then w else w[..limit];
    if page == [] {
      WindowOutside(rows, ws, c, c);
    } else {
      PageIsWindow(rows, ws, c, top, |page|);
      assert page == w[..|page|];
    }
  }

  /** What an accepted positive cursor says about the table. */
  lemma AcceptedTop(t: Table, ws: string, c: nat)
    requires Valid(t)
    requires var mine := RowsOf(Retained(t), ws); 0 < c <= Maximum(mine) && Minimum(mine) <= c
    ensures var top := Maximum(RowsOf(Retained(t), ws));
      && top <= Maximum(t.full)
      && Window(Retained(t), ws, c, top) == Window(t.full, ws, c, top) == Window(t.full, ws, c, Maximum(t.full))
  {
    var mine := RowsOf(Retained(t), ws);
    NothingPrunedAfter(t, ws, c);
    PrunedPartIsEmpty(t, ws, c, Maximum(mine));
    TopIsEnough(t, ws, c);
    assert mine[|mine| - 1] in mine;
    LatestIsMaximum(t.full);
    assert mine[|mine| - 1] in t.full;
  }

  /**
   * An accepted request with a positive cursor returns exactly the workspace's
   * events after that cursor up to the next one, pruned or not, and says
   * whether more follow.
   */
  lemma AcceptedBatchHasNoGap(t: Table, ws: string, c: nat, limit: int)
    requires Valid(t) && 0 < c <= MAX_SAFE
    requires BuildBatch(t, ws, Some(Encode(ws, c)), limit).Changes?
    ensures var b := BuildBatch(t, ws, Some(Encode(ws, c)), limit);
      var next := b.nextCursor.sequence;
      && c <= next <= Maximum(t.full)
      && b.nextCursor == Encode(ws, next)
      && b.events == Window(t.full, ws, c, next)
      && (!b.hasMore <==> b.events == Window(t.full, ws, c, Maximum(t.full)))
  {
    AcceptedTop(t, ws, c);
    PageOf(t.full, ws, c, Maximum(RowsOf(Retained(t), ws)), limit);
  }

  /** The retained rows of a workspace are exactly its rows that were not pruned. */
  lemma MineExactly(t: Table, ws: string, r: Row)
    requires Valid(t)
    ensures r in RowsOf(Retained(t), ws) <==> r in Retained(t) && r.tenant == ws
  {
    RetainedSorted(t);
    LatestIsMaximum(Retained(t));
    if r in Retained(t) && r.tenant == ws {
      WindowComplete(Retained(t), ws, 0, Maximum(Retained(t)), r);
    }
  }

  /**
   * A cursor standing on an event of the workspace is accepted exactly while
   * that event is retained; afterwards it is refused as expired, or as ahead
   * when nothing of the workspace is left.
   */
  lemma AcceptedWhileRetained(t: Table, ws: string, k: nat, limit: int)
    requires Valid(t) && k < |t.full| && t.full[k].tenant == ws && t.full[k].sequence <= MAX_SAFE
    requires 1 <= limit <= 100
    ensures var b := BuildBatch(t, ws, Some(Encode(ws, t.full[k].sequence)), limit);
      && (b.Changes? <==> t.pruned <= k)
      && (k < t.pruned ==> b == if RowsOf(Retained(t), ws) == [] then CursorAhead else CursorExpired)
  {
    var c := t.full[k].sequence;
    var mine := RowsOf(Retained(t), ws);
    RetainedSorted(t);
    WindowSorted(Retained(t), ws, 0, Maximum(Retained(t)));
    if t.pruned <= k {
      assert Retained(t)[k - t.pruned] == t.full[k];
      MineExactly(t, ws, t.full[k]);
      LatestIsMaximum(mine);
      EarliestIsMinimum(mine);
    } else if mine != [] {
      assert mine[0] in mine && mine[|mine| - 1] in mine;
      assert t.full[k] in t.full[..t.pruned];
      PrunedIsEarlier(t, t.full[k], mine[0]);
      PrunedIsEarlier(t, t.full[k], mine[|mine| - 1]);
    }
  }

  lemma EarliestIsMinimum(rows: seq<Row>)
    requires Sorted(rows)
    ensures forall r :: r in rows ==> Minimum(rows) <= r.sequence
  {
  }

  // ----- a client that follows nextCursor while the table grows and is pruned

  datatype Poll = Poll(table: Table, limit: int)

  datatype Followed = Followed(received: seq<Row>, cursor: Token) | Interrupted(problem: Batch)

  /** Each poll reads a valid table that evolved from the one before. */
  predicate ValidPolls(polls: seq<Poll>)
    decreases |polls|
  {
    polls == [] ||
    var n := |polls| - 1;
    && ValidPolls(polls[..n])
    && Valid(polls[n].table) && Maximum(polls[n].table.full) <= MAX_SAFE
    && (n > 0 ==> Evolves(polls[n - 1].table, polls[n].table))
  }

  function Continue(f: Followed, ws: string, t: Table, limit: int): Followed
    requires Valid(t)
  {
    match f
    case Interrupted(problem) => f
    case Followed(received, cursor) =>
      var b := BuildBatch(t, ws, Some(cursor), limit);
      if b.Changes? then Followed(received + b.events, b.nextCursor) else Interrupted(b)
  }

  /** Poll with each answer's nextCursor until a request fails. */
  function Follow(ws: string, c: nat, polls: seq<Poll>): Followed
    requires ValidPolls(polls)
    decreases |polls|
  {
    if polls == [] then Followed([], Encode(ws, c))
    else Continue(Follow(ws, c, polls[..|polls| - 1]), ws, polls[|polls| - 1].table, polls[|polls| - 1].limit)
  }

  /** Rows appended later do not reach back into a window that already ended. */
  lemma GrowthKeepsWindow(full: seq<Row>, full': seq<Row>, ws: string, lo: int, hi: int)
    requires full <= full' && Sorted(full') && hi <= Maximum(full)
    ensures Window(full', ws, lo, hi) == Window(full, ws, lo, hi)
  {
    var more := full'[|full|..];
    assert full' == full + more;
    forall r | r in more ensures !(lo < r.sequence <= hi) {
      var i :| |full| <= i < |full'| && full'[i] == r;
      if full != [] {
        assert full'[|full| - 1].sequence < full'[i].sequence;
      }
    }
    WindowOutside(more, ws, lo, hi);
    WindowConcat(full, more, ws, lo, hi);
  }

  /** Unless interrupted, the client holds exactly the events from c to its cursor. */
  ghost predicate CaughtUp(f: Followed, ws: string, c: nat, full: seq<Row>) {
    f.Followed? ==>
      && f.cursor.Token? && f.cursor.sequence >= c
      && f.cursor == Encode(ws, f.cursor.sequence)
      && f.cursor.sequence <= Maximum(full)
      && f.received == Window(full, ws, c, f.cursor.sequence)
  }

  lemma OneMoreBatch(t: Table, full: seq<Row>, ws: string, c: nat, f: Followed, limit: int)
    requires Valid(t) && full <= t.full && 0 < c && Maximum(t.full) <= MAX_SAFE
    requires CaughtUp(f, ws, c, full)
    ensures CaughtUp(Continue(f, ws, t, limit), ws, c, t.full)
  {
    if f.Interrupted? || !BuildBatch(t, ws, Some(f.cursor), limit).Changes? { return; }
    var s := f.cursor.sequence;
    GrowthKeepsMaximum(full, t.full);
    AcceptedBatchHasNoGap(t, ws, s, limit);
    GrowthKeepsWindow(full, t.full, ws, c, s);
    WindowsJoin(t.full, ws, c, s, BuildBatch(t, ws, Some(f.cursor), limit).nextCursor.sequence);
  }

  lemma GrowthKeepsMaximum(full: seq<Row>, full': seq<Row>)
    requires full <= full' && Sorted(full')
    ensures Maximum(full) <= Maximum(full')
  {
    if full != [] {
      assert full'[|full| - 1] == full[|full| - 1];
    }
  }

  /** From a positive cursor the client is always caught up or told of a problem. */
  lemma {:induction false} PositiveCursorLeavesNoGap(ws: string, c: nat, polls: seq<Poll>)
    requires 0 < c <= MAX_SAFE && polls != [] && ValidPolls(polls)
    ensures CaughtUp(Follow(ws, c, polls), ws, c, polls[|polls| - 1].table.full)
    decreases |polls|
  {
    var n := |polls| - 1;
    if n == 0 {
      FirstBatch(polls[n].table, ws, c, polls[n].limit);
    } else {
      PositiveCursorLeavesNoGap(ws, c, polls[..n]);
      OneMoreBatch(polls[n].table, polls[n - 1].table.full, ws, c, Follow(ws, c, polls[..n]), polls[n].limit);
    }
  }

  lemma FirstBatch(t: Table, ws: string, c: nat, limit: int)
    requires Valid(t) && 0 < c <= MAX_SAFE
    ensures CaughtUp(Continue(Followed([], Encode(ws, c)), ws, t, limit), ws, c, t.full)
  {
    var b := BuildBatch(t, ws, Some(Encode(ws, c)), limit);
    if b.Changes? {
      AcceptedBatchHasNoGap(t, ws, c, limit);
      assert [] + b.events == b.events;
    }
  }

  /**
   * Cursor 0 is exempt from the expiry check: a page taken from it is gap-free
   * exactly when no event of the workspace has been pruned.
   */
  lemma ZeroCursorIsGapFreeExactly(t: Table, ws: string, limit: int)
    requires Valid(t) && BuildBatch(t, ws, Some(Encode(ws, 0)), limit).Changes?
    requires BuildBatch(t, ws, Some(Encode(ws, 0)), limit).events != []
    ensures var b := BuildBatch(t, ws, Some(Encode(ws, 0)), limit);
      b.events == Window(t.full, ws, 0, b.nextCursor.sequence) <==> NoneBetween(t.full, ws, 0, t.pruned)
  {
    var b := BuildBatch(t, ws, Some(Encode(ws, 0)), limit);
    ZeroPageIsWindow(t, ws, limit);
    HeldIsLater(t.full, ws, t.pruned, b.nextCursor.sequence);
    InBetween(t.full, ws, 0, t.pruned, b.nextCursor.sequence);
    assert t.full[0..] == t.full;
  }

  lemma ZeroPageIsWindow(t: Table, ws: string, limit: int)
    requires Valid(t) && BuildBatch(t, ws, Some(Encode(ws, 0)), limit).Changes?
    requires BuildBatch(t, ws, Some(Encode(ws, 0)), limit).events != []
    ensures var b := BuildBatch(t, ws, Some(Encode(ws, 0)), limit);
      t.pruned < |t.full| && b.events == Window(t.full[t.pruned..], ws, 0, b.nextCursor.sequence)
  {
    RetainedSorted(t);
    PageOf(Retained(t), ws, 0, Maximum(RowsOf(Retained(t), ws)), limit);
  }

  lemma PrunedIsEarlier(t: Table, r: Row, x: Row)
    requires Valid(t) && r in t.full[..t.pruned] && x in t.full[t.pruned..]
    ensures 0 < r.sequence < x.sequence
  {
    var i :| 0 <= i < t.pruned && t.full[i] == r;
    var j :| t.pruned <= j < |t.full| && t.full[j] == x;
  }

  // ----- following any cursor, and a snapshot's in particular

  /** The first poll that finds a retained event of the workspace. */
  function FirstPage(ws: string, polls: seq<Poll>): (i: Option<nat>)
    requires ValidPolls(polls)
    ensures i.Some? ==> i.value < |polls| && Valid(polls[i.value].table)
    decreases |polls|
  {
    if polls == [] then None
    else
      var n := |polls| - 1;
      var before := FirstPage(ws, polls[..n]);
      if before.Some? then before
      else if RowsOf(Retained(polls[n].table), ws) != [] then Some(n)
      else None
  }

  /** None of the rows lo to hi is the workspace's. */
  predicate NoneBetween(rows: seq<Row>, ws: string, lo: nat, hi: nat)
    requires hi <= |rows|
  {
    forall k :: lo <= k < hi ==> rows[k].tenant != ws
  }

  /** Of the rows from `base` on, none of the workspace's was pruned before the first non-empty page. */
  predicate NothingLost(ws: string, polls: seq<Poll>, base: nat)
    requires ValidPolls(polls)
  {
    var i := FirstPage(ws, polls);
    i.Some? ==>
      NoneBetween(polls[i.value].table.full, ws, base, polls[i.value].table.pruned)
  }

  /** The client holds the events up to its cursor, except that rows before p were gone when it started. */
  ghost predicate HoldsFrom(f: Followed, ws: string, full: seq<Row>, p: nat) {
    f.Followed? ==>
      && p < |full| && f.cursor.Token?
      && 0 < f.cursor.sequence <= Maximum(full)
      && f.cursor == Encode(ws, f.cursor.sequence)
      && f.received != [] && f.received == Window(full[p..], ws, 0, f.cursor.sequence)
  }

  /** An empty workspace answers cursor 0 with an empty page and cursor 0 again. */
  lemma EmptyPage(t: Table, ws: string, limit: int)
    requires Valid(t) && RowsOf(Retained(t), ws) == []
    ensures var f := Continue(Followed([], Encode(ws, 0)), ws, t, limit);
      f.Followed? ==> f == Followed([], Encode(ws, 0))
  {
    WindowOutside(Retained(t), ws, 0, 0);
  }

  lemma SuffixSorted(full: seq<Row>, p: nat)
    requires Sorted(full) && p <= |full|
    ensures Sorted(full[p..]) && (p < |full| ==> Maximum(full[p..]) == Maximum(full))
  {
  }

  lemma TopIsThere(kept: seq<Row>, ws: string)
    requires Sorted(kept) && RowsOf(kept, ws) != []
    ensures var top := Maximum(RowsOf(kept, ws));
      0 < top <= Maximum(kept) && Window(kept, ws, 0, top) != []
  {
    var mine := RowsOf(kept, ws);
    var last := mine[|mine| - 1];
    assert last in mine;
    LatestIsMaximum(kept);
    WindowComplete(kept, ws, 0, last.sequence, last);
  }

  /** A page from cursor 0, as a window over what is retained. */
  lemma ZeroPage(t: Table, ws: string, limit: int)
    requires Valid(t) && RowsOf(Retained(t), ws) != []
    requires BuildBatch(t, ws, Some(Encode(ws, 0)), limit).Changes?
    ensures var b := BuildBatch(t, ws, Some(Encode(ws, 0)), limit);
      var next := b.nextCursor.sequence;
      && b.nextCursor == Encode(ws, next) && 0 < next <= Maximum(Retained(t))
      && b.events != [] && b.events == Window(Retained(t), ws, 0, next)
  {
    var kept := Retained(t);
    RetainedSorted(t);
    TopIsThere(kept, ws);
    PageOf(kept, ws, 0, Maximum(RowsOf(kept, ws)), limit);
    var events := BuildBatch(t, ws, Some(Encode(ws, 0)), limit).events;
    assert events[|events| - 1] in events;
  }

  lemma FirstNonEmptyPage(t: Table, ws: string, limit: int)
    requires Valid(t) && RowsOf(Retained(t), ws) != [] && Maximum(t.full) <= MAX_SAFE
    ensures HoldsFrom(Continue(Followed([], Encode(ws, 0)), ws, t, limit), ws, t.full, t.pruned)
  {
    var b := BuildBatch(t, ws, Some(Encode(ws, 0)), limit);
    if b.Changes? {
      ZeroPage(t, ws, limit);
      SuffixSorted(t.full, t.pruned);
      assert [] + b.events == b.events;
    }
  }

  /** Rows before p precede everything the client already holds. */
  lemma HeldIsLater(full: seq<Row>, ws: string, p: nat, s: int)
    requires Sorted(full) && p < |full| && Window(full[p..], ws, 0, s) != []
    ensures forall k :: 0 <= k < p ==> full[k].sequence < s
  {
    var x := Window(full[p..], ws, 0, s)[0];
    assert x in Window(full[p..], ws, 0, s);
    var i :| p <= i < |full| && full[i] == x;
  }

  lemma JoinHeld(full: seq<Row>, ws: string, p: nat, s: int, next: int)
    requires Sorted(full) && p < |full| && 0 <= s <= next && Window(full[p..], ws, 0, s) != []
    ensures Window(full[p..], ws, 0, s) + Window(full, ws, s, next) == Window(full[p..], ws, 0, next)
  {
    var gone, kept := full[..p], full[p..];
    HeldIsLater(full, ws, p, s);
    assert full == gone + kept;
    SkipPrefix(gone, kept, ws, s, next);
    SuffixSorted(full, p);
    WindowsJoin(kept, ws, 0, s, next);
  }

  lemma GrowHeld(full: seq<Row>, full': seq<Row>, ws: string, p: nat, s: int)
    requires full <= full' && Sorted(full') && p < |full| && s <= Maximum(full)
    ensures Window(full'[p..], ws, 0, s) == Window(full[p..], ws, 0, s)
  {
    assert full[p..] <= full'[p..];
    SuffixSorted(full', p);
    GrowthKeepsWindow(full[p..], full'[p..], ws, 0, s);
  }

  lemma LaterPage(t: Table, full: seq<Row>, p: nat, ws: string, f: Followed, limit: int)
    requires Valid(t) && full <= t.full && Maximum(t.full) <= MAX_SAFE && HoldsFrom(f, ws, full, p)
    ensures HoldsFrom(Continue(f, ws, t, limit), ws, t.full, p)
  {
    if f.Followed? && BuildBatch(t, ws, Some(f.cursor), limit).Changes? {
      var s := f.cursor.sequence;
      GrowthKeepsMaximum(full, t.full);
      AcceptedBatchHasNoGap(t, ws, s, limit);
      GrowHeld(full, t.full, ws, p, s);
      JoinHeld(t.full, ws, p, s, BuildBatch(t, ws, Some(f.cursor), limit).nextCursor.sequence);
    }
  }

  /** What a client that started at cursor 0 holds after any number of polls. */
  lemma {:induction false} FollowingFromZero(ws: string, polls: seq<Poll>)
    requires ValidPolls(polls) && polls != []
    ensures var f, i := Follow(ws, 0, polls), FirstPage(ws, polls);
      if i.None? then f.Followed? ==> f == Followed([], Encode(ws, 0))
      else HoldsFrom(f, ws, polls[|polls| - 1].table.full, polls[i.value].table.pruned)
    decreases |polls|
  {
    var n := |polls| - 1;
    var t := polls[n].table;
    if n > 0 {
      FollowingFromZero(ws, polls[..n]);
    }
    var before := Follow(ws, 0, polls[..n]);
    if FirstPage(ws, polls[..n]).Some? {
      var p := polls[FirstPage(ws, polls[..n]).value].table.pruned;
      LaterPage(t, polls[n - 1].table.full, p, ws, before, polls[n].limit);
    } else if before.Followed? {
      if RowsOf(Retained(t), ws) == [] {
        EmptyPage(t, ws, polls[n].limit);
      } else {
        FirstNonEmptyPage(t, ws, polls[n].limit);
      }
    }
  }

  /** What is held from p on is everything from `base` on exactly when no row of the workspace lies between. */
  lemma HeldExactly(full: seq<Row>, ws: string, base: nat, p: nat, s: int)
    requires Sorted(full) && base <= |full| && p < |full| && Window(full[p..], ws, 0, s) != []
    requires forall k :: p <= k < base ==> full[k].tenant != ws
    ensures Window(full[p..], ws, 0, s) == Window(full[base..], ws, 0, s) <==>
      forall k :: base <= k < p ==> full[k].tenant != ws
  {
    if base <= p {
      HeldIsLater(full, ws, p, s);
      InBetween(full, ws, base, p, s);
    } else {
      InBetween(full, ws, p, base, s);
    }
  }

  /** Rows lo to hi add nothing to the window exactly when none of them is the workspace's. */
  lemma InBetween(full: seq<Row>, ws: string, lo: nat, hi: nat, s: int)
    requires Sorted(full) && lo <= hi <= |full|
    requires forall k :: lo <= k < hi && full[k].tenant == ws ==> full[k].sequence <= s
    ensures Window(full[lo..], ws, 0, s) == Window(full[hi..], ws, 0, s) <==>
      forall k :: lo <= k < hi ==> full[k].tenant != ws
  {
    var between := full[lo..hi];
    assert full[lo..] == between + full[hi..];
    WindowConcat(between, full[hi..], ws, 0, s);
    if forall k :: lo <= k < hi ==> full[k].tenant != ws {
      WindowOutside(between, ws, 0, s);
    } else {
      var k :| lo <= k < hi && full[k].tenant == ws;
      assert between[k - lo] == full[k];
      WindowComplete(between, ws, 0, s, full[k]);
      assert |Window(full[lo..], ws, 0, s)| > |Window(full[hi..], ws, 0, s)|;
    }
  }

  /** Later tables extend earlier ones. */
  lemma {:induction false} PollsGrow(polls: seq<Poll>, i: nat)
    requires ValidPolls(polls) && i < |polls|
    ensures Evolves(polls[i].table, polls[|polls| - 1].table)
    ensures Valid(polls[i].table) && Valid(polls[|polls| - 1].table)
    decreases |polls|
  {
    if i < |polls| - 1 {
      PollsGrow(polls[..|polls| - 1], i);
    }
  }

  /** Unless interrupted, the client holds events in order, and exactly the window's if and only if `exact`. */
  ghost predicate Delivers(f: Followed, ws: string, c: nat, rows: seq<Row>, exact: bool) {
    f.Followed? ==>
      && f.cursor.Token? && c <= f.cursor.sequence && f.cursor == Encode(ws, f.cursor.sequence)
      && Sorted(f.received)
      && (f.received == Window(rows, ws, c, f.cursor.sequence) <==> exact)
  }

  lemma PositiveDelivers(ws: string, c: nat, polls: seq<Poll>)
    requires 0 < c <= MAX_SAFE && polls != [] && ValidPolls(polls)
    ensures Delivers(Follow(ws, c, polls), ws, c, polls[|polls| - 1].table.full, true)
  {
    var f := Follow(ws, c, polls);
    PollsGrow(polls, |polls| - 1);
    PositiveCursorLeavesNoGap(ws, c, polls);
    if f.Followed? { WindowSorted(polls[|polls| - 1].table.full, ws, c, f.cursor.sequence); }
  }

  /** From cursor 0, for any base before which the workspace has no row left at the first page. */
  lemma ZeroDelivers(ws: string, polls: seq<Poll>, base: nat)
    requires polls != [] && ValidPolls(polls) && base <= |polls[|polls| - 1].table.full|
    requires FirstPage(ws, polls).Some? ==>
      NoneBetween(polls[|polls| - 1].table.full, ws, polls[FirstPage(ws, polls).value].table.pruned, base)
    ensures Delivers(Follow(ws, 0, polls), ws, 0, polls[|polls| - 1].table.full[base..], NothingLost(ws, polls, base))
  {
    var f := Follow(ws, 0, polls);
    FollowingFromZero(ws, polls);
    if FirstPage(ws, polls).None? {
      WindowOutside(polls[|polls| - 1].table.full[base..], ws, 0, 0);
    } else if f.Followed? {
      HeldOrLost(ws, polls, base, f);
    }
  }

  /**
   * Following nextCursor from any cursor, across appends and prefix pruning,
   * is interrupted or delivers the workspace's events from that cursor on: in
   * order, once each, and without a gap exactly when the cursor is positive or
   * none of the workspace's events was pruned before the first non-empty page.
   */
  lemma FollowingLeavesNoGap(ws: string, c: nat, polls: seq<Poll>)
    requires c <= MAX_SAFE && polls != [] && ValidPolls(polls)
    ensures GapFreeExactly(ws, c, polls)
  {
    if c > 0 {
      PositiveIsGapFree(ws, c, polls);
    } else {
      ZeroIsGapFreeExactly(ws, polls);
    }
  }

  /** What the client holds at the end, and exactly when nothing is missing from it. */
  ghost predicate GapFreeExactly(ws: string, c: nat, polls: seq<Poll>)
    requires polls != [] && ValidPolls(polls)
  {
    Delivers(Follow(ws, c, polls), ws, c, polls[|polls| - 1].table.full, c > 0 || NothingLost(ws, polls, 0))
  }

  lemma PositiveIsGapFree(ws: string, c: nat, polls: seq<Poll>)
    requires 0 < c <= MAX_SAFE && polls != [] && ValidPolls(polls)
    ensures GapFreeExactly(ws, c, polls)
  {
    PositiveDelivers(ws, c, polls);
  }

  lemma ZeroIsGapFreeExactly(ws: string, polls: seq<Poll>)
    requires polls != [] && ValidPolls(polls)
    ensures GapFreeExactly(ws, 0, polls)
  {
    ZeroDelivers(ws, polls, 0);
    WholeTable(Follow(ws, 0, polls), ws, polls[|polls| - 1].table.full, NothingLost(ws, polls, 0));
  }

  lemma WholeTable(f: Followed, ws: string, full: seq<Row>, exact: bool)
    requires Delivers(f, ws, 0, full[0..], exact)
    ensures Delivers(f, ws, 0, full, exact)
  {
    assert full[0..] == full;
  }

  /** The last step, for any base at which the workspace had no retained row. */
  lemma HeldOrLost(ws: string, polls: seq<Poll>, base: nat, f: Followed)
    requires ValidPolls(polls) && polls != [] && FirstPage(ws, polls).Some? && f.Followed?
    requires var full := polls[|polls| - 1].table.full;
      var p := polls[FirstPage(ws, polls).value].table.pruned;
      && HoldsFrom(f, ws, full, p) && base <= |full|
      && NoneBetween(full, ws, p, base)
    ensures Sorted(f.received)
    ensures f.received == Window(polls[|polls| - 1].table.full[base..], ws, 0, f.cursor.sequence) <==>
      NothingLost(ws, polls, base)
  {
    var full := polls[|polls| - 1].table.full;
    var t := polls[FirstPage(ws, polls).value].table;
    PollsGrow(polls, FirstPage(ws, polls).value);
    assert t.full <= full;
    SuffixSorted(full, t.pruned);
    WindowSorted(full[t.pruned..], ws, 0, f.cursor.sequence);
    HeldExactly(full, ws, base, t.pruned, f.cursor.sequence);
    assert full[0..] == full;
  }

  /** A snapshot cursor is above every row of the workspace at that moment, or nothing of it is retained. */
  lemma SnapshotIsAtTheEnd(t: Table, ws: string)
    requires Valid(t)
    ensures var c := Maximum(RowsOf(Retained(t), ws));
      && c <= Maximum(t.full)
      && (c > 0 ==> forall r :: r in t.full && r.tenant == ws ==> r.sequence <= c)
      && (c == 0 ==> NoneBetween(t.full, ws, t.pruned, |t.full|))
  {
    MineIsSorted(t, ws);
    if RowsOf(Retained(t), ws) == [] {
      NothingOfItIsRetained(t, ws);
    } else {
      SnapshotIsInTheTable(t, ws);
      forall r | r in t.full && r.tenant == ws ensures r.sequence <= Maximum(RowsOf(Retained(t), ws)) {
        RowIsBelowTheSnapshot(t, ws, r);
      }
    }
  }

  lemma MineIsSorted(t: Table, ws: string)
    requires Valid(t)
    ensures Sorted(RowsOf(Retained(t), ws))
  {
    RetainedSorted(t);
    WindowSorted(Retained(t), ws, 0, Maximum(Retained(t)));
  }

  lemma SnapshotIsInTheTable(t: Table, ws: string)
    requires Valid(t) && RowsOf(Retained(t), ws) != []
    ensures Maximum(RowsOf(Retained(t), ws)) <= Maximum(t.full)
  {
    var mine := RowsOf(Retained(t), ws);
    assert mine[|mine| - 1] in mine && mine[|mine| - 1] in t.full;
    LatestIsMaximum(t.full);
  }

  lemma RowIsBelowTheSnapshot(t: Table, ws: string, r: Row)
    requires Valid(t) && RowsOf(Retained(t), ws) != [] && r in t.full && r.tenant == ws
    ensures r.sequence <= Maximum(RowsOf(Retained(t), ws))
  {
    var mine := RowsOf(Retained(t), ws);
    if r in Retained(t) {
      MineExactly(t, ws, r);
      MineIsSorted(t, ws);
      LatestIsMaximum(mine);
    } else {
      assert mine[|mine| - 1] in mine;
      PrunedIsEarlier(t, r, mine[|mine| - 1]);
    }
  }

  lemma NothingOfItIsRetained(t: Table, ws: string)
    requires Valid(t) && RowsOf(Retained(t), ws) == []
    ensures NoneBetween(t.full, ws, t.pruned, |t.full|)
  {
    forall k | t.pruned <= k < |t.full| ensures t.full[k].tenant != ws {
      assert t.full[k] == Retained(t)[k - t.pruned];
      MineExactly(t, ws, t.full[k]);
    }
  }

  /**
   * Following a snapshot's cursor is interrupted or delivers every event of the
   * workspace appended after the snapshot, if and only if the cursor is
   * positive or none of those events was pruned before the first non-empty
   * page.
   */
  lemma SnapshotIsFollowedExactly(t: Table, ws: string, limit: int, polls: seq<Poll>)
    requires Valid(t) && 1 <= limit <= 100 && polls != [] && ValidPolls(polls) && Evolves(t, polls[0].table)
    ensures var c := Maximum(RowsOf(Retained(t), ws));
      && BuildBatch(t, ws, None, limit) == Snapshot(Encode(ws, c))
      && |t.full| <= |polls[|polls| - 1].table.full|
      && Delivers(Follow(ws, c, polls), ws, c, polls[|polls| - 1].table.full[|t.full|..],
                  c > 0 || NothingLost(ws, polls, |t.full|))
  {
    PollsGrow(polls, 0);
    SnapshotIsAtTheEnd(t, ws);
    if Maximum(RowsOf(Retained(t), ws)) > 0 {
      SnapshotFollowedFromPositive(t, ws, Maximum(RowsOf(Retained(t), ws)), polls);
    } else {
      SnapshotFollowedFromZero(t, ws, polls);
    }
  }

  lemma SnapshotFollowedFromPositive(t: Table, ws: string, c: nat, polls: seq<Poll>)
    requires polls != [] && ValidPolls(polls) && t.full <= polls[|polls| - 1].table.full
    requires 0 < c <= Maximum(t.full) && forall r :: r in t.full && r.tenant == ws ==> r.sequence <= c
    ensures Delivers(Follow(ws, c, polls), ws, c, polls[|polls| - 1].table.full[|t.full|..], true)
  {
    var full, f := polls[|polls| - 1].table.full, Follow(ws, c, polls);
    LastIsSafe(polls, t.full);
    PositiveDelivers(ws, c, polls);
    if f.Followed? {
      assert full == t.full + full[|t.full|..];
      SkipWorkspace(t.full, full[|t.full|..], ws, c, f.cursor.sequence);
    }
  }

  lemma LastIsSafe(polls: seq<Poll>, front: seq<Row>)
    requires polls != [] && ValidPolls(polls) && front <= polls[|polls| - 1].table.full
    ensures Maximum(front) <= MAX_SAFE
  {
    PollsGrow(polls, |polls| - 1);
    GrowthKeepsMaximum(front, polls[|polls| - 1].table.full);
  }

  lemma SkipWorkspace(front: seq<Row>, back: seq<Row>, ws: string, c: nat, hi: int)
    requires forall r :: r in front && r.tenant == ws ==> r.sequence <= c
    ensures Window(front + back, ws, c, hi) == Window(back, ws, c, hi)
  {
    WindowOutside(front, ws, c, hi);
    WindowConcat(front, back, ws, c, hi);
  }

  lemma SnapshotFollowedFromZero(t: Table, ws: string, polls: seq<Poll>)
    requires Valid(t) && polls != [] && ValidPolls(polls) && Evolves(t, polls[0].table)
    requires t.full <= polls[|polls| - 1].table.full
    requires forall k :: t.pruned <= k < |t.full| ==> t.full[k].tenant != ws
    ensures Delivers(Follow(ws, 0, polls), ws, 0, polls[|polls| - 1].table.full[|t.full|..],
                     NothingLost(ws, polls, |t.full|))
  {
    if FirstPage(ws, polls).Some? {
      PrunedSince(polls, FirstPage(ws, polls).value);
    }
    ZeroDelivers(ws, polls, |t.full|);
  }

  lemma {:induction false} PrunedSince(polls: seq<Poll>, i: nat)
    requires ValidPolls(polls) && i < |polls|
    ensures polls[0].table.pruned <= polls[i].table.pruned
    decreases |polls|
  {
    PrefixIsValid(polls, i + 1);
    PollsGrow(polls[..i + 1], 0);
  }

  lemma {:induction false} PrefixIsValid(polls: seq<Poll>, n: nat)
    requires ValidPolls(polls) && n <= |polls|
    ensures ValidPolls(polls[..n])
    decreases |polls|
  {
    if n < |polls| {
      PrefixIsValid(polls[..|polls| - 1], n);
      assert polls[..|polls| - 1][..n] == polls[..n];
    } else {
      assert polls[..n] == polls;
    }
  }

  const LOST := Row(1, "w", "a")
  const KEPT := Row(2, "w", "b")

  /** Two events of one workspace, the first of them pruned. */
  const HALF_PRUNED := Table([LOST, KEPT], 1)

  /** A page from cursor 0 that leaves out an event and reports nothing. */
  lemma ZeroCursorSkipsAPrunedEvent()
    ensures Valid(HALF_PRUNED)
    ensures BuildBatch(HALF_PRUNED, "w", Some(Encode("w", 0)), 10) == Changes([KEPT], false, Encode("w", 2))
    ensures LOST in Window(HALF_PRUNED.full, "w", 0, 2)
  {
    assert Retained(HALF_PRUNED) == [KEPT] && [KEPT][1..] == [];
    assert Window([KEPT], "w", 0, 2) == [KEPT] + Window([], "w", 0, 2);
    WindowComplete(HALF_PRUNED.full, "w", 0, 2, LOST);
  }

  lemma OnePoll(t: Table, limit: int, ws: string, c: nat)
    requires Valid(t) && Maximum(t.full) <= MAX_SAFE
    ensures ValidPolls([Poll(t, limit)])
    ensures Follow(ws, c, [Poll(t, limit)]) == Continue(Followed([], Encode(ws, c)), ws, t, limit)
  {
    var polls := [Poll(t, limit)];
    assert ValidPolls([]) && polls[..|polls| - 1] == [];
    assert ValidPolls(polls);
  }

  /** A snapshot of an empty workspace hands out cursor 0, and following it loses a pruned event silently. */
  lemma SnapshotCanLoseAnEvent()
    ensures BuildBatch(Table([], 0), "w", None, 10) == Snapshot(Encode("w", 0))
    ensures Evolves(Table([], 0), HALF_PRUNED) && ValidPolls([Poll(HALF_PRUNED, 10)])
    ensures Follow("w", 0, [Poll(HALF_PRUNED, 10)]) == Followed([KEPT], Encode("w", 2))
  {
    ZeroCursorSkipsAPrunedEvent();
    OnePoll(HALF_PRUNED, 10, "w", 0);
    assert [] + [KEPT] == [KEPT];
  }

  // ----- pages

  /** The retained events of the workspace after c. */
  function Ahead(t: Table, ws: string, c: nat): seq<Row>
    requires Valid(t)
  {
    Window(Retained(t), ws, c, Maximum(t.full))
  }

  lemma MineBoundsAhead(t: Table, ws: string, c: nat)
    requires Valid(t)
    ensures Window(Retained(t), ws, c, Maximum(RowsOf(Retained(t), ws))) == Ahead(t, ws, c)
  {
    var kept, top := Retained(t), Maximum(RowsOf(Retained(t), ws));
    RetainedSorted(t);
    SnapshotIsAtTheEnd(t, ws);
    NothingAbove(t, ws, top);
    if c <= top {
      WindowsJoin(kept, ws, c, top, Maximum(t.full));
    } else {
      WindowOutside(kept, ws, c, top);
      AboveTheTop(kept, ws, c, top, Maximum(t.full));
    }
  }

  /** No retained row of the workspace is above its maximum. */
  lemma NothingAbove(t: Table, ws: string, top: nat)
    requires Valid(t) && top == Maximum(RowsOf(Retained(t), ws))
    ensures Window(Retained(t), ws, top, Maximum(t.full)) == []
  {
    MineIsSorted(t, ws);
    LatestIsMaximum(RowsOf(Retained(t), ws));
    forall r | r in Retained(t) && r.tenant == ws ensures r.sequence <= top {
      MineExactly(t, ws, r);
    }
    WindowOutside(Retained(t), ws, top, Maximum(t.full));
  }

  lemma AboveTheTop(rows: seq<Row>, ws: string, c: nat, top: nat, hi: int)
    requires top < c && Window(rows, ws, top, hi) == []
    ensures Window(rows, ws, c, hi) == []
  {
    if Window(rows, ws, c, hi) != [] {
      var r := Window(rows, ws, c, hi)[0];
      assert r in Window(rows, ws, c, hi);
      WindowComplete(rows, ws, top, hi, r);
    }
  }

  /**
   * For every accepted cursor, 0 included, the page is the first `limit` of the
   * retained events ahead, hasMore says whether there are more than that, and
   * the next cursor stands on the last event of the page or stays.
   */
  lemma PageExactly(t: Table, ws: string, c: nat, limit: int)
    requires Valid(t) && c <= MAX_SAFE && BuildBatch(t, ws, Some(Encode(ws, c)), limit).Changes?
    ensures 1 <= limit <= 100
    ensures var b := BuildBatch(t, ws, Some(Encode(ws, c)), limit);
      var ahead := Ahead(t, ws, c);
      && |b.events| <= limit && b.events <= ahead
      && (b.hasMore <==> |ahead| > limit)
      && (b.hasMore ==> |b.events| == limit) && (!b.hasMore ==> b.events == ahead)
      && b.nextCursor == Token(1, ws, if b.events == [] then c else b.events[|b.events| - 1].sequence)
  {
    MineBoundsAhead(t, ws, c);
  }

  /**
   * Which cursors are accepted: 0 always, and a positive one exactly when the
   * workspace has a retained event at or before it and one at or after it.
   */
  lemma AcceptedExactly(t: Table, ws: string, c: nat, limit: int)
    requires Valid(t) && c <= MAX_SAFE
    ensures BuildBatch(t, ws, Some(Encode(ws, c)), limit).Changes? <==>
      && 1 <= limit <= 100
      && (c > 0 ==>
            && (exists r :: r in Retained(t) && r.tenant == ws && r.sequence <= c)
            && (exists r :: r in Retained(t) && r.tenant == ws && c <= r.sequence))
  {
    var mine := RowsOf(Retained(t), ws);
    MineIsSorted(t, ws);
    LatestIsMaximum(mine);
    EarliestIsMinimum(mine);
    forall r ensures r in mine <==> r in Retained(t) && r.tenant == ws {
      MineExactly(t, ws, r);
    }
    if mine != [] {
      assert mine[0] in mine && mine[|mine| - 1] in mine;
    }
  }

  // ----- how many polls it takes

  /** The same request again and again over a table that does not change. */
  function Same(t: Table, limit: int, n: nat): seq<Poll> {
    if n == 0 then [] else Same(t, limit, n - 1) + [Poll(t, limit)]
  }

  lemma {:induction false} SameIsValid(t: Table, limit: int, n: nat)
    requires Valid(t) && Maximum(t.full) <= MAX_SAFE
    ensures |Same(t, limit, n)| == n && ValidPolls(Same(t, limit, n))
    ensures forall i :: 0 <= i < n ==> Same(t, limit, n)[i] == Poll(t, limit)
  {
    if n > 0 {
      SameIsValid(t, limit, n - 1);
      assert Same(t, limit, n)[..n - 1] == Same(t, limit, n - 1);
    }
  }

  function Least(a: int, b: int): int {
    if a <= b then a else b
  }

  /** After n polls the client holds the first n pages and stands on the last event it got. */
  ghost predicate Holds(f: Followed, t: Table, ws: string, c: nat, got: nat)
    requires Valid(t) && got <= |Ahead(t, ws, c)|
  {
    var ahead := Ahead(t, ws, c);
    f == Followed(ahead[..got], Encode(ws, if got == 0 then c else ahead[got - 1].sequence))
  }

  /** Standing on the k-th event ahead, what is ahead is the rest. */
  lemma RestIsAhead(t: Table, ws: string, c: nat, k: nat)
    requires Valid(t) && 0 < k <= |Ahead(t, ws, c)|
    ensures var s := Ahead(t, ws, c)[k - 1].sequence;
      c < s && Ahead(t, ws, s) == Ahead(t, ws, c)[k..]
  {
    var kept, ahead, hi := Retained(t), Ahead(t, ws, c), Maximum(t.full);
    var s := ahead[k - 1].sequence;
    RetainedSorted(t);
    PageIsWindow(kept, ws, c, hi, k);
    WindowsJoin(kept, ws, c, s, hi);
    assert ahead == ahead[..k] + ahead[k..];
  }

  lemma StandingIsAccepted(t: Table, ws: string, c: nat, k: nat, limit: int)
    requires Valid(t) && 0 < k <= |Ahead(t, ws, c)| && 1 <= limit <= 100 && Maximum(t.full) <= MAX_SAFE
    ensures var s := Ahead(t, ws, c)[k - 1].sequence;
      s <= MAX_SAFE && BuildBatch(t, ws, Some(Encode(ws, s)), limit).Changes?
  {
    var r := Ahead(t, ws, c)[k - 1];
    assert r in Ahead(t, ws, c);
    AcceptedExactly(t, ws, r.sequence, limit);
  }

  /** A request that is accepted at first. */
  ghost predicate Starts(t: Table, ws: string, c: nat, limit: int) {
    && Valid(t) && c <= MAX_SAFE && Maximum(t.full) <= MAX_SAFE && limit >= 1
    && BuildBatch(t, ws, Some(Encode(ws, c)), limit).Changes?
  }

  /** One more poll of what is left. */
  lemma OneMorePage(t: Table, ws: string, c: nat, f: Followed, got: nat, next: nat, limit: int)
    requires Starts(t, ws, c, limit) && got <= |Ahead(t, ws, c)| && next == Least(got + limit, |Ahead(t, ws, c)|)
    requires Holds(f, t, ws, c, got)
    ensures Holds(Continue(f, ws, t, limit), t, ws, c, next)
  {
    var ahead := Ahead(t, ws, c);
    PageExactly(t, ws, c, limit);
    if got > 0 {
      StandingIsAccepted(t, ws, c, got, limit);
      RestIsAhead(t, ws, c, got);
      PageExactly(t, ws, ahead[got - 1].sequence, limit);
    }
    NextPage(t, ws, c, f, got, limit, if got == 0 then c else ahead[got - 1].sequence);
  }

  lemma NextPage(t: Table, ws: string, c: nat, f: Followed, got: nat, limit: int, s: nat)
    requires Valid(t) && s <= MAX_SAFE && got <= |Ahead(t, ws, c)| && 1 <= limit
    requires s == (if got == 0 then c else Ahead(t, ws, c)[got - 1].sequence)
    requires Holds(f, t, ws, c, got) && Ahead(t, ws, s) == Ahead(t, ws, c)[got..]
    requires BuildBatch(t, ws, Some(Encode(ws, s)), limit).Changes?
    ensures Holds(Continue(f, ws, t, limit), t, ws, c, Least(got + limit, |Ahead(t, ws, c)|))
  {
    var page := ContinuesWith(f, t, ws, s, limit);
    PageJoins(Ahead(t, ws, c), got, limit, page);
  }

  /** What one accepted poll adds to what the client holds. */
  lemma ContinuesWith(f: Followed, t: Table, ws: string, s: nat, limit: int) returns (page: seq<Row>)
    requires Valid(t) && s <= MAX_SAFE && f.Followed? && f.cursor == Encode(ws, s)
    requires BuildBatch(t, ws, Some(Encode(ws, s)), limit).Changes?
    ensures page <= Ahead(t, ws, s) && |page| == Least(limit, |Ahead(t, ws, s)|)
    ensures Continue(f, ws, t, limit) ==
      Followed(f.received + page, Encode(ws, if page == [] then s else page[|page| - 1].sequence))
  {
    PageExactly(t, ws, s, limit);
    page := BuildBatch(t, ws, Some(Encode(ws, s)), limit).events;
  }

  lemma PageJoins(ahead: seq<Row>, got: nat, limit: int, page: seq<Row>)
    requires got <= |ahead| && 1 <= limit && page <= ahead[got..] && |page| == Least(limit, |ahead| - got)
    ensures var next := Least(got + limit, |ahead|);
      && ahead[..got] + page == ahead[..next] && |page| == next - got
      && (page != [] ==> page[|page| - 1] == ahead[next - 1])
  {
    assert page == ahead[got..][..|page|];
  }

  /** How many events n polls have delivered when there are `total`. */
  function Delivered(n: nat, limit: int, total: nat): (got: nat)
    requires limit >= 1
    ensures got <= total
  {
    if n == 0 then 0 else Least(Delivered(n - 1, limit, total) + limit, total)
  }

  lemma {:induction false} DeliveredExactly(n: nat, limit: int, total: nat)
    requires limit >= 1
    ensures Delivered(n, limit, total) == Least(n * limit, total)
  {
    if n > 0 {
      DeliveredExactly(n - 1, limit, total);
      assert n * limit == (n - 1) * limit + limit;
    }
  }

  /** The client holds what n polls deliver. */
  ghost predicate HoldsAfter(f: Followed, t: Table, ws: string, c: nat, limit: int, n: nat)
    requires Valid(t) && limit >= 1
  {
    Holds(f, t, ws, c, Delivered(n, limit, |Ahead(t, ws, c)|))
  }

  lemma OneMoreDelivery(f: Followed, t: Table, ws: string, c: nat, limit: int, n: nat)
    requires Starts(t, ws, c, limit) && HoldsAfter(f, t, ws, c, limit, n)
    ensures HoldsAfter(Continue(f, ws, t, limit), t, ws, c, limit, n + 1)
  {
    var total := |Ahead(t, ws, c)|;
    OneMorePage(t, ws, c, f, Delivered(n, limit, total), Delivered(n + 1, limit, total), limit);
  }

  lemma {:induction false} PollsDeliver(t: Table, ws: string, c: nat, limit: int, n: nat)
    requires Starts(t, ws, c, limit) && ValidPolls(Same(t, limit, n))
    ensures HoldsAfter(Follow(ws, c, Same(t, limit, n)), t, ws, c, limit, n)
  {
    if n == 0 {
      NothingYet(t, ws, c, limit);
    } else {
      SameIsValid(t, limit, n - 1);
      PollsDeliver(t, ws, c, limit, n - 1);
      FollowOneMore(ws, c, Same(t, limit, n - 1), Poll(t, limit));
      OneMoreDelivery(Follow(ws, c, Same(t, limit, n - 1)), t, ws, c, limit, n - 1);
    }
  }

  lemma NothingYet(t: Table, ws: string, c: nat, limit: int)
    requires Valid(t) && limit >= 1
    ensures HoldsAfter(Follow(ws, c, []), t, ws, c, limit, 0)
  {
    assert Ahead(t, ws, c)[..0] == [];
  }

  lemma FollowOneMore(ws: string, c: nat, polls: seq<Poll>, poll: Poll)
    requires ValidPolls(polls) && ValidPolls(polls + [poll])
    ensures Valid(poll.table)
    ensures Follow(ws, c, polls + [poll]) == Continue(Follow(ws, c, polls), ws, poll.table, poll.limit)
  {
    var all := polls + [poll];
    assert all[..|all| - 1] == polls && all[|all| - 1] == poll;
  }

  /**
   * Over a table that does not change, n polls with the same limit deliver
   * exactly the first n times `limit` events, so the client is caught up after
   * exactly as many polls as its limit requires.
   */
  lemma PollsDeliverExactly(t: Table, ws: string, c: nat, limit: int, n: nat)
    requires Valid(t) && c <= MAX_SAFE && Maximum(t.full) <= MAX_SAFE
    requires BuildBatch(t, ws, Some(Encode(ws, c)), limit).Changes?
    ensures ValidPolls(Same(t, limit, n)) && Follow(ws, c, Same(t, limit, n)).Followed?
    ensures var received := Follow(ws, c, Same(t, limit, n)).received;
      && received <= Ahead(t, ws, c) && |received| == Least(n * limit, |Ahead(t, ws, c)|)
      && (received == Ahead(t, ws, c) <==> n * limit >= |Ahead(t, ws, c)|)
  {
    SameIsValid(t, limit, n);
    PageExactly(t, ws, c, limit);
    PollsDeliver(t, ws, c, limit, n);
    DeliveredExactly(n, limit, |Ahead(t, ws, c)|);
  }
}
