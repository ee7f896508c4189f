/**
 * The three storage tables of model.go, held in memory as sequences of rows in
 * insertion order (which is creation order), and the queries and bulk updates
 * the hub runs against them. Also the message as the admin gateway and the
 * cluster bus carry it.
 */
module Store {

  /** One (user, tag) membership row. */
  datatype UserTag = UserTag(user: string, tag: string)

  /** A stored message body; `createdAt` is the row's creation time in Unix
      seconds. */
  datatype MessageRow = MessageRow(id: string, data: string, createdAt: int)

  /** A delivery record: one per (message, recipient user). */
  datatype UserMessage = UserMessage(messageId: string, userId: string, ack: bool)

  /** A message to publish: its id, explicit recipients, target tags and the
      opaque payload. */
  datatype AdminPush = AdminPush(messageId: string, userIds: seq<string>, tags: seq<string>, data: string)

  /** The replication wrapper carried on the cluster bus. */
  datatype Envelope = Envelope(nodeName: string, timestamp: int, message: AdminPush)

  // ---------------------------------------------------------------------
  // Queries

  /** `select userid from user_tags where tag in (tags)`, in table order. */
  function TaggedUsers(rows: seq<UserTag>, tags: seq<string>): (r: seq<string>)
    ensures forall u :: u in r ==> exists j :: 0 <= j < |rows| && rows[j].user == u && rows[j].tag in tags
    ensures forall j :: 0 <= j < |rows| && rows[j].tag in tags ==> rows[j].user in r
    decreases |rows|
  {
    if rows == [] then []
    else
      var last := rows[|rows| - 1];
      TaggedUsers(rows[..|rows| - 1], tags) + (if last.tag in tags then [last.user] else [])
  }

  /** `select messageid from user_messages where userid = user and ack =
      false`, in creation order: what a new registration replays. */
  function PendingIds(rows: seq<UserMessage>, user: string): (r: seq<string>)
    ensures |r| <= |rows|
    ensures forall x :: x in r <==>
      exists j :: 0 <= j < |rows| && rows[j] == UserMessage(x, user, false)
    decreases |rows|
  {
    if rows == [] then []
    else
      var last := rows[|rows| - 1];
      PendingIds(rows[..|rows| - 1], user) + (if last.userId == user && !last.ack then [last.messageId] else [])
  }

  /** `select * from messages where messageid in (ids)`, in creation order. */
  function FetchRows(rows: seq<MessageRow>, ids: seq<string>): (r: seq<MessageRow>)
    ensures forall j :: 0 <= j < |r| ==> r[j] in rows && r[j].id in ids
    ensures forall x :: x in rows && x.id in ids ==> x in r
    decreases |rows|
  {
    if rows == [] then []
    else
      var last := rows[|rows| - 1];
      assert forall x :: x in rows ==> x in rows[..|rows| - 1] || x == last;
      FetchRows(rows[..|rows| - 1], ids) + (if last.id in ids then [last] else [])
  }

  /** The table positions of the fetched rows: strictly increasing, so the
      fetch returns its rows in table (creation) order. */
  function FetchPositions(rows: seq<MessageRow>, ids: seq<string>): (pos: seq<nat>)
    ensures |pos| == |FetchRows(rows, ids)|
    ensures forall j :: 0 <= j < |pos| ==> pos[j] < |rows| && rows[pos[j]] == FetchRows(rows, ids)[j]
    ensures forall j, j' :: 0 <= j < j' < |pos| ==> pos[j] < pos[j']
    decreases |rows|
  {
    if rows == [] then []
    else
      var init := rows[..|rows| - 1];
      var last := rows[|rows| - 1];
      FetchPositions(init, ids) + (if last.id in ids then [|rows| - 1] else [])
  }

  // ---------------------------------------------------------------------
  // Updates

  /** `update user_messages set ack = true where userid = user and messageid
      in (ids)`. */
  function AckRows(rows: seq<UserMessage>, user: string, ids: seq<string>): (r: seq<UserMessage>)
    ensures |r| == |rows|
    ensures forall j :: 0 <= j < |rows| ==>
      r[j] == rows[j].(ack := rows[j].ack || (rows[j].userId == user && rows[j].messageId in ids))
  {
    seq(|rows|, j requires 0 <= j < |rows| =>
      rows[j].(ack := rows[j].ack || (rows[j].userId == user && rows[j].messageId in ids)))
  }

  /** `delete from user_tags where userid = user and tag in (tags)`. */
  function DropTags(rows: seq<UserTag>, user: string, tags: set<string>): (r: seq<UserTag>)
    ensures forall x :: x in r ==> x in rows && !(x.user == user && x.tag in tags)
    decreases |rows|
  {
    if rows == [] then []
    else
      var last := rows[|rows| - 1];
      DropTags(rows[..|rows| - 1], user, tags) + (if last.user == user && last.tag in tags then [] else [last])
  }

  // ---------------------------------------------------------------------
  // Properties of the updates

  /** Acknowledging is idempotent: repeating the same ack changes nothing. */
  lemma AckIdempotent(rows: seq<UserMessage>, user: string, ids: seq<string>)
    ensures AckRows(AckRows(rows, user, ids), user, ids) == AckRows(rows, user, ids)
  {
  }

  /** The ids of `s` that are not in `ids`, in order. */
  function Without(s: seq<string>, ids: seq<string>): (r: seq<string>)
    ensures forall x :: x in r <==> x in s && x !in ids
    decreases |s|
  {
    if s == [] then []
    else Without(s[..|s| - 1], ids) + (if s[|s| - 1] in ids then [] else [s[|s| - 1]])
  }

  /** After an ack, the acking user's pending list loses exactly the acked ids
      (unknown ids change nothing), in the same order; every other user's
      pending list is untouched. */
  lemma {:induction false} PendingAfterAck(rows: seq<UserMessage>, user: string, ids: seq<string>, other: string)
    ensures PendingIds(AckRows(rows, user, ids), user) == Without(PendingIds(rows, user), ids)
    ensures other != user ==> PendingIds(AckRows(rows, user, ids), other) == PendingIds(rows, other)
    decreases |rows|
  {
    if rows != [] {
      var init := rows[..|rows| - 1];
      var last := rows[|rows| - 1];
      var acked := AckRows(rows, user, ids);
      PendingAfterAck(init, user, ids, other);
      assert acked[..|rows| - 1] == AckRows(init, user, ids);
      assert acked[|rows| - 1] == last.(ack := last.ack || (last.userId == user && last.messageId in ids));
      var tail := if last.userId == user && !last.ack then [last.messageId] else [];
      assert PendingIds(rows, user) == PendingIds(init, user) + tail;
      WithoutAppend(PendingIds(init, user), tail, ids);
    }
  }

  /** Filtering distributes over an appended tail of at most one id. */
  lemma WithoutAppend(s: seq<string>, tail: seq<string>, ids: seq<string>)
    requires |tail| <= 1
    ensures Without(s + tail, ids) == Without(s, ids) + Without(tail, ids)
  {
    if |tail| == 1 {
      assert (s + tail)[..|s + tail| - 1] == s;
    } else {
      assert s + tail == s;
    }
  }

  /** The rows kept by a tag deletion, counted: none left for the user and
      the deleted tags, every other row kept as often as before. */
  lemma {:induction false} DropTagsCount(rows: seq<UserTag>, user: string, tags: set<string>, x: UserTag)
    ensures multiset(DropTags(rows, user, tags))[x] ==
      if x.user == user && x.tag in tags then 0 else multiset(rows)[x]
    decreases |rows|
  {
    if rows != [] {
      var init := rows[..|rows| - 1];
      DropTagsCount(init, user, tags, x);
      assert rows == init + [rows[|rows| - 1]];
    }
  }

  /** A pending list grows by the id of an appended unacknowledged record for
      that user and by nothing else. */
  lemma PendingAppend(rows: seq<UserMessage>, x: UserMessage, user: string)
    ensures PendingIds(rows + [x], user) ==
      PendingIds(rows, user) + (if x.userId == user && !x.ack then [x.messageId] else [])
  {
    assert (rows + [x])[..|rows|] == rows;
  }
}
