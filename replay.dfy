/**
 * Offline replay on registration (node.go, Register): the ids of the user's
 * unacknowledged messages are consumed in consecutive batches of at most five;
 * each batch is fetched from the message table and, when the fetch returns
 * rows, pushed to the new connection as one `m` frame. The loop stops at the
 * end of the id list, on a fetch error or on a fetch that returns no rows.
 */
module Replay {
  import opened Store
  import opened Wire

  /** Ids fetched per query. */
  const BatchSize: nat := 5

  /** Outcome of one batch query against the message table. */
  datatype Fetch = Rows(rows: seq<MessageRow>) | Failed

  /** The batch starting at `skip`: `mids[skip:end]` with `end` clamped to
      the length of the list. */
  function Batch(mids: seq<string>, skip: nat): (r: seq<string>)
    requires skip < |mids|
    ensures 1 <= |r| <= BatchSize && skip + |r| <= |mids|
    ensures |r| == BatchSize || skip + |r| == |mids|
    ensures forall j :: 0 <= j < |r| ==> r[j] == mids[skip + j]
  {
    mids[skip..if skip + BatchSize > |mids| then |mids| else skip + BatchSize]
  }

  /** The messages of a push frame, one per fetched row, in row order; the
      timestamp is the row's creation time. */
  function Items(rows: seq<MessageRow>): (r: seq<PushItem>)
    ensures |r| == |rows|
    ensures forall j :: 0 <= j < |rows| ==>
      r[j].id == rows[j].id && r[j].ts == rows[j].createdAt && r[j].data == rows[j].data
  {
    seq(|rows|, j requires 0 <= j < |rows| => PushItem(rows[j].id, rows[j].createdAt, rows[j].data))
  }

  /** The frames the replay loop pushes, starting from offset `skip`. */
  function Frames(mids: seq<string>, fetch: seq<string> -> Fetch, skip: nat): (r: seq<Out>)
    ensures forall k :: 0 <= k < |r| ==> r[k].Push?
    decreases |mids| - skip
  {
    if skip >= |mids| then []
    else match fetch(Batch(mids, skip))
      case Failed => []
      case Rows(rows) => if rows == [] then [] else [Push(Items(rows))] + Frames(mids, fetch, skip + BatchSize)
  }

  /** Each batch is sent at most once, so the frame count is bounded by the
      number of batches left. */
  lemma {:induction false} FramesBound(mids: seq<string>, fetch: seq<string> -> Fetch, skip: nat)
    ensures skip >= |mids| ==> Frames(mids, fetch, skip) == []
    ensures skip < |mids| ==> 5 * |Frames(mids, fetch, skip)| <= |mids| - skip + 4
    decreases |mids| - skip
  {
    if skip < |mids| {
      FramesBound(mids, fetch, skip + BatchSize);
    }
  }

  /** A registration sends at most ceil(n/5) frames for n pending ids, and none
      when there are none. */
  lemma ReplayBound(mids: seq<string>, fetch: seq<string> -> Fetch)
    ensures |Frames(mids, fetch, 0)| <= (|mids| + 4) / 5
    ensures mids == [] ==> Frames(mids, fetch, 0) == []
  {
    FramesBound(mids, fetch, 0);
  }

  /** Frame k of the replay is the push of the k-th batch, and every batch up
      to it returned rows. */
  lemma {:induction false} FramesAt(mids: seq<string>, fetch: seq<string> -> Fetch, skip: nat, k: nat)
    requires k < |Frames(mids, fetch, skip)|
    ensures skip + 5 * k < |mids|
    ensures fetch(Batch(mids, skip + 5 * k)).Rows? && fetch(Batch(mids, skip + 5 * k)).rows != []
    ensures Frames(mids, fetch, skip)[k] == Push(Items(fetch(Batch(mids, skip + 5 * k)).rows))
    decreases k
  {
    var r := Frames(mids, fetch, skip);
    var rest := Frames(mids, fetch, skip + BatchSize);
    assert skip < |mids| && fetch(Batch(mids, skip)).Rows? && fetch(Batch(mids, skip)).rows != [];
    assert r == [Push(Items(fetch(Batch(mids, skip)).rows))] + rest;
    if k > 0 {
      FramesAt(mids, fetch, skip + BatchSize, k - 1);
      assert skip + 5 * k == (skip + BatchSize) + 5 * (k - 1);
      assert r[k] == rest[k - 1];
    }
  }

  /** The replay stops exactly where a batch failed or came back empty, or at
      the end of the list. */
  lemma {:induction false} FramesStop(mids: seq<string>, fetch: seq<string> -> Fetch, skip: nat)
    ensures var n := |Frames(mids, fetch, skip)|;
      skip + 5 * n < |mids| ==>
        fetch(Batch(mids, skip + 5 * n)) == Failed || fetch(Batch(mids, skip + 5 * n)) == Rows([])
    decreases |mids| - skip
  {
    if skip < |mids| && fetch(Batch(mids, skip)).Rows? && fetch(Batch(mids, skip)).rows != [] {
      var rest := Frames(mids, fetch, skip + BatchSize);
      FramesStop(mids, fetch, skip + BatchSize);
      assert |Frames(mids, fetch, skip)| == 1 + |rest|;
      assert skip + 5 * (1 + |rest|) == (skip + BatchSize) + 5 * |rest|;
    }
  }

  /** The batch query of the message table, which never fails: the rows
      whose id is in the batch, in creation order (see `FetchRows` and
      `FetchPositions`). */
  function TableFetch(messages: seq<MessageRow>): (f: seq<string> -> Fetch)
    ensures forall ids :: f(ids) == Rows(FetchRows(messages, ids))
  {
    ids => Rows(FetchRows(messages, ids))
  }

  /** Replayed from the tables, every pushed message is a stored message that
      the user has not acknowledged. */
  lemma ReplayedArePending(messages: seq<MessageRow>, userMessages: seq<UserMessage>, user: string)
    ensures var r := Frames(PendingIds(userMessages, user), TableFetch(messages), 0);
      forall k, j :: 0 <= k < |r| && 0 <= j < |r[k].ms| ==>
        UserMessage(r[k].ms[j].id, user, false) in userMessages &&
        (exists row :: row in messages && row.id == r[k].ms[j].id)
  {
    var mids := PendingIds(userMessages, user);
    var r := Frames(mids, TableFetch(messages), 0);
    forall k, j | 0 <= k < |r| && 0 <= j < |r[k].ms|
      ensures UserMessage(r[k].ms[j].id, user, false) in userMessages
      ensures exists row :: row in messages && row.id == r[k].ms[j].id
    {
      FramesAt(mids, TableFetch(messages), 0, k);
      var batch := Batch(mids, 5 * k);
      var rows := FetchRows(messages, batch);
      assert TableFetch(messages)(batch) == Rows(rows);
      assert r[k] == Push(Items(rows));
      var row := rows[j];
      assert r[k].ms[j].id == row.id;
      assert row.id in batch;
      var b :| 0 <= b < |batch| && batch[b] == row.id;
      assert row.id == mids[5 * k + b];
      assert row.id in mids;
      var w :| 0 <= w < |userMessages| && userMessages[w] == UserMessage(row.id, user, false);
    }
  }

  /** When every batch from `skip` on returns rows, the replay runs to the end
      of the list: the frames cover every remaining id. */
  lemma {:induction false} FramesReachEnd(mids: seq<string>, fetch: seq<string> -> Fetch, skip: nat)
    requires forall s :: skip <= s < |mids| ==> fetch(Batch(mids, s)).Rows? && fetch(Batch(mids, s)).rows != []
    ensures skip < |mids| ==> |mids| - skip <= 5 * |Frames(mids, fetch, skip)|
    decreases |mids| - skip
  {
    if skip < |mids| {
      FramesReachEnd(mids, fetch, skip + BatchSize);
      assert |Frames(mids, fetch, skip)| == 1 + |Frames(mids, fetch, skip + BatchSize)|;
    }
  }

  /** Conversely, when every pending id has a stored message, the replay
      sends one frame per batch of five, and pending id number p goes out in
      frame p / 5: every pending message is pushed, batch by batch, in
      order. */
  lemma ReplayCoversPending(messages: seq<MessageRow>, userMessages: seq<UserMessage>, user: string)
    requires forall x :: x in PendingIds(userMessages, user) ==> exists row :: row in messages && row.id == x
    ensures var mids := PendingIds(userMessages, user);
      var r := Frames(mids, TableFetch(messages), 0);
      && |r| == (|mids| + 4) / 5
      && forall p :: 0 <= p < |mids| ==>
        p / 5 < |r| && exists j :: 0 <= j < |r[p / 5].ms| && r[p / 5].ms[j].id == mids[p]
  {
    var mids := PendingIds(userMessages, user);
    var fetch := TableFetch(messages);
    var r := Frames(mids, fetch, 0);
    forall s | 0 <= s < |mids|
      ensures fetch(Batch(mids, s)).Rows? && fetch(Batch(mids, s)).rows != []
    {
      var batch := Batch(mids, s);
      assert batch[0] == mids[s];
      assert mids[s] in mids;
      var row :| row in messages && row.id == mids[s];
      assert row in FetchRows(messages, batch);
    }
    FramesReachEnd(mids, fetch, 0);
    ReplayBound(mids, fetch);
    forall p | 0 <= p < |mids|
      ensures p / 5 < |r| && exists j :: 0 <= j < |r[p / 5].ms| && r[p / 5].ms[j].id == mids[p]
    {
      assert p / 5 < |r|;
      assert mids[p] in mids;
      StoredIdPushed(messages, mids, p / 5, p);
    }
  }

  /** A stored id of the k-th batch goes out in the k-th frame. */
  lemma StoredIdPushed(messages: seq<MessageRow>, mids: seq<string>, k: nat, p: nat)
    requires k < |Frames(mids, TableFetch(messages), 0)| && 5 * k <= p < 5 * k + 5 && p < |mids|
    requires exists row :: row in messages && row.id == mids[p]
    ensures var r := Frames(mids, TableFetch(messages), 0);
      exists j :: 0 <= j < |r[k].ms| && r[k].ms[j].id == mids[p]
  {
    var fetch := TableFetch(messages);
    var r := Frames(mids, fetch, 0);
    FramesAt(mids, fetch, 0, k);
    var batch := Batch(mids, 5 * k);
    var rows := FetchRows(messages, batch);
    assert fetch(batch) == Rows(rows);
    assert batch[p - 5 * k] == mids[p];
    var row :| row in messages && row.id == mids[p];
    assert row in rows;
    var j :| 0 <= j < |rows| && rows[j] == row;
    assert r[k].ms[j].id == mids[p];
  }
}
