/**
 * The hub of node.go as one sequential node: the connection registry, the
 * three storage tables, the cluster bus, and the operations that change them
 * (registration with offline replay, unregistration, tag updates, publishing
 * with fan-out and replication, acknowledgement, the cluster receive filter
 * and the frame handler). Storage and bus failures are inputs of the
 * operations that can meet them.
 */
module Hub {
  import opened Json
  import opened Wire
  import opened Store
  import opened Replay
  import opened Protocol

  /** No element occurs twice. */
  predicate Distinct(s: seq<string>)
  {
    forall i, j :: 0 <= i < j < |s| ==> s[i] != s[j]
  }

  /** `sm`: the union of some lists of strings, each string once. The order
      is that of a Go map iteration, which is unspecified. */
  method Sm(s: seq<seq<string>>) returns (r: seq<string>)
    ensures Distinct(r)
    ensures forall x :: x in r <==> exists j :: 0 <= j < |s| && x in s[j]
  {
    var seen: set<string> := {};
    for j := 0 to |s|
      invariant forall x :: x in seen <==> exists i :: 0 <= i < j && x in s[i]
    {
      for k := 0 to |s[j]|
        invariant forall x :: x in seen <==> (exists i :: 0 <= i < j && x in s[i]) || x in s[j][..k]
      {
        seen := seen + {s[j][k]};
      }
      assert s[j][..|s[j]|] == s[j];
    }
    r := [];
    var left := seen;
    while left != {}
      invariant left <= seen
      invariant Distinct(r)
      invariant forall x :: x in r <==> x in seen && x !in left
      decreases left
    {
      var x :| x in left;
      r := r + [x];
      left := left - {x};
    }
  }

  /** The tag loop of Tager: keys whose value is `true` go to the first list,
      keys whose value is `false` to the second, every other value is
      ignored. Both lists follow the map's unspecified iteration order. */
  method SplitTags(d: map<string, JVal>) returns (nt: seq<string>, ct: seq<string>)
    ensures Distinct(nt) && Distinct(ct)
    ensures forall k :: k in nt <==> k in d && d[k] == JBool(true)
    ensures forall k :: k in ct <==> k in d && d[k] == JBool(false)
  {
    nt, ct := [], [];
    var left := d.Keys;
    while left != {}
      invariant left <= d.Keys
      invariant Distinct(nt) && Distinct(ct)
      invariant forall k :: k in nt <==> k in d && k !in left && d[k] == JBool(true)
      invariant forall k :: k in ct <==> k in d && k !in left && d[k] == JBool(false)
      decreases left
    {
      var k :| k in left;
      if d[k] == JBool(true) {
        nt := nt + [k];
      } else if d[k] == JBool(false) {
        ct := ct + [k];
      }
      left := left - {k};
    }
  }

  /** Failures a tag update can meet: the lookup of the user's existing tags,
      the insert of a row for some tags, the delete. */
  datatype TagFaults = TagFaults(lookup: bool, insert: set<string>, delete: bool)

  /** How many copies of row `x` the tag table holds after the user's tag
      update `d`. A failed lookup makes every `true` tag look new. */
  function TagRowsAfter(rows: seq<UserTag>, user: string, d: map<string, JVal>, faults: TagFaults, x: UserTag): nat
  {
    var before := multiset(rows)[x];
    if x.user != user || x.tag !in d then before
    else if d[x.tag] == JBool(false) then (if faults.delete then before else 0)
    else if d[x.tag] == JBool(true) then
      (if x.tag in faults.insert || (!faults.lookup && x in rows) then before else before + 1)
    else before
  }

  /** The rules of a tag update: a `true` tag has a row afterwards and one it
      already had is not duplicated; a `false` tag has none; rows of other
      users, of unmentioned tags and of non-boolean values stay as they were. */
  lemma TagRules(rows: seq<UserTag>, user: string, d: map<string, JVal>, faults: TagFaults, x: UserTag)
    ensures x.user == user && x.tag in d && d[x.tag] == JBool(true) && !faults.lookup && x.tag !in faults.insert ==>
      TagRowsAfter(rows, user, d, faults, x) >= 1
    ensures x.user == user && x.tag in d && d[x.tag] == JBool(true) && !faults.lookup && x in rows ==>
      TagRowsAfter(rows, user, d, faults, x) == multiset(rows)[x]
    ensures x.user == user && x.tag in d && d[x.tag] == JBool(false) && !faults.delete ==>
      TagRowsAfter(rows, user, d, faults, x) == 0
    ensures x.user != user || x.tag !in d || !d[x.tag].JBool? ==>
      TagRowsAfter(rows, user, d, faults, x) == multiset(rows)[x]
  {
  }

  /** The two steps of a tag update, the inserts and then the delete,
      compose to `TagRowsAfter`. */
  lemma TagUpdateCounts(rows: seq<UserTag>, added: seq<UserTag>, final: seq<UserTag>, user: string,
                        d: map<string, JVal>, faults: TagFaults,
                        nt: seq<string>, ct: seq<string>, existing: set<string>, drop: set<string>)
    requires forall k :: k in nt <==> k in d && d[k] == JBool(true)
    requires forall k :: k in ct <==> k in d && d[k] == JBool(false)
    requires forall t :: t in nt ==> (t in existing <==> !faults.lookup && UserTag(user, t) in rows)
    requires forall x ::
      multiset(added)[x] == multiset(rows)[x] + (if x.user == user && x.tag in nt && x.tag !in existing && x.tag !in faults.insert then 1 else 0)
    requires drop == set t | t in ct
    requires final == if |ct| > 0 && !faults.delete then DropTags(added, user, drop) else added
    ensures forall x :: multiset(final)[x] == TagRowsAfter(rows, user, d, faults, x)
  {
    forall x
      ensures multiset(final)[x] == TagRowsAfter(rows, user, d, faults, x)
    {
      if |ct| > 0 && !faults.delete {
        DropTagsCount(added, user, drop, x);
      }
    }
  }

  /** The insert loop of Tager: a row for each `true` tag that is neither
      among the tags the user already has nor failing to insert. */
  method InsertTags(rows: seq<UserTag>, user: string, nt: seq<string>, existing: set<string>, insertFails: set<string>)
    returns (r: seq<UserTag>)
    requires Distinct(nt)
    ensures forall x ::
      multiset(r)[x] == multiset(rows)[x] + (if x.user == user && x.tag in nt && x.tag !in existing && x.tag !in insertFails then 1 else 0)
  {
    r := rows;
    for i := 0 to |nt|
      invariant forall x ::
        multiset(r)[x] == multiset(rows)[x] + (if x.user == user && x.tag in nt[..i] && x.tag !in existing && x.tag !in insertFails then 1 else 0)
    {
      assert nt[..i + 1] == nt[..i] + [nt[i]];
      if nt[i] !in existing && nt[i] !in insertFails {
        r := r + [UserTag(user, nt[i])];
      }
    }
    assert nt[..|nt|] == nt;
  }

  /** The table work of Tager on the user tag rows: split the update, insert
      the new `true` tags, then delete the `false` ones. */
  method TagUpdate(rows: seq<UserTag>, user: string, d: map<string, JVal>, faults: TagFaults) returns (r: seq<UserTag>)
    ensures forall x :: multiset(r)[x] == TagRowsAfter(rows, user, d, faults, x)
  {
    var nt, ct := SplitTags(d);
    r := rows;
    var existing: set<string> := {};
    if |nt| > 0 {
      existing := if faults.lookup then {} else set t | t in nt && UserTag(user, t) in rows;
      r := InsertTags(r, user, nt, existing, faults.insert);
    }
    ghost var added := r;
    var drop := set t | t in ct;
    if |ct| > 0 && !faults.delete {
      r := DropTags(r, user, drop);
    }
    TagUpdateCounts(rows, added, r, user, d, faults, nt, ct, existing, drop);
  }

  /** Failures a publish can meet: the tag lookup, the insert of the message
      row, the bus publish, the insert of some users' delivery rows. */
  datatype PublishFaults = PublishFaults(tagLookup: bool, messageInsert: bool, busPublish: bool, rowInsert: set<string>)

  /** The users a message is for: its explicit user ids and, when it has
      tags and the lookup succeeds, every user holding one of its tags. */
  function Recipients(rows: seq<UserTag>, m: AdminPush, tagLookupFails: bool): (r: set<string>)
    ensures forall u :: u in r <==>
      u in m.userIds ||
      (|m.tags| > 0 && !tagLookupFails && exists j :: 0 <= j < |rows| && rows[j].user == u && rows[j].tag in m.tags)
  {
    (set u | u in m.userIds) + (if |m.tags| > 0 && !tagLookupFails then set u | u in TaggedUsers(rows, m.tags) else {})
  }

  /** The recipient lookup of Publish: the tagged users (none when the
      message has no tags or the lookup fails) merged with the explicit ids
      by `sm`. */
  method Resolve(rows: seq<UserTag>, m: AdminPush, tagLookupFails: bool) returns (recipients: seq<string>)
    ensures Distinct(recipients)
    ensures forall u :: u in recipients <==> u in Recipients(rows, m, tagLookupFails)
  {
    var tagged: seq<string> := [];
    if |m.tags| > 0 && !tagLookupFails {
      tagged := TaggedUsers(rows, m.tags);
    }
    recipients := Sm([tagged, m.userIds]);
    assert forall u :: u in [tagged, m.userIds][0] <==> u in tagged;
    assert forall u :: u in [tagged, m.userIds][1] <==> u in m.userIds;
  }

  /** The delivery rows a publish inserts, in recipient order, skipping the
      recipients whose insert fails. */
  function DeliveryRows(recipients: seq<string>, messageId: string, fails: set<string>): seq<UserMessage>
    decreases |recipients|
  {
    if recipients == [] then []
    else
      var u := recipients[|recipients| - 1];
      DeliveryRows(recipients[..|recipients| - 1], messageId, fails) +
        (if u in fails then [] else [UserMessage(messageId, u, false)])
  }

  /** Every delivery row is an unacknowledged row of the message for a
      recipient whose insert succeeded, and each such recipient has exactly
      one. */
  lemma {:induction false} DeliveryRowsShape(recipients: seq<string>, messageId: string, fails: set<string>)
    requires Distinct(recipients)
    ensures var rs := DeliveryRows(recipients, messageId, fails);
      (forall j :: 0 <= j < |rs| ==>
        rs[j].messageId == messageId && !rs[j].ack && rs[j].userId in recipients && rs[j].userId !in fails) &&
      (forall j1, j2 :: 0 <= j1 < j2 < |rs| ==> rs[j1].userId != rs[j2].userId) &&
      (forall u :: u in recipients && u !in fails ==> exists j :: 0 <= j < |rs| && rs[j].userId == u)
    decreases |recipients|
  {
    if recipients != [] {
      var init := recipients[..|recipients| - 1];
      var u := recipients[|recipients| - 1];
      DeliveryRowsShape(init, messageId, fails);
      assert recipients == init + [u];
      var prev := DeliveryRows(init, messageId, fails);
      var rs := DeliveryRows(recipients, messageId, fails);
      assert forall j :: 0 <= j < |prev| ==> rs[j] == prev[j];
      assert u !in init;
      forall j1, j2 | 0 <= j1 < j2 < |rs|
        ensures rs[j1].userId != rs[j2].userId
      {
        if j2 >= |prev| {
          assert rs[j2].userId == u && rs[j1].userId in init;
        }
      }
      forall v | v in recipients && v !in fails
        ensures exists j :: 0 <= j < |rs| && rs[j].userId == v
      {
        if v != u {
          var j :| 0 <= j < |prev| && prev[j].userId == v;
          assert rs[j].userId == v;
        } else {
          assert rs[|prev|].userId == v;
        }
      }
    }
  }

  /** A message from the cluster bus: a payload that does not decode, or an
      envelope. */
  datatype Payload = Undecodable | Decoded(envelope: Envelope)

  /** One connection: the ids it logged in with ("" before login), its
      outbound queue and whether that queue has been closed. */
  datatype Conn = Conn(user: string, clientid: string, send: seq<Out>, closed: bool)

  /** What the storage returns to one frame: the pending ids and batch fetch
      a registration replays from, and the failures of a tag update or an
      acknowledgement. */
  datatype Io = Io(pending: seq<string>, fetch: seq<string> -> Fetch, tagFaults: TagFaults, ackFails: bool)

  /** The clientid slots of a user, empty for a user with none. */
  function Slots(users: map<string, map<string, int>>, u: string): map<string, int>
  {
    if u in users then users[u] else map[]
  }

  /** Connection `c` sits in one of user `u`'s slots of the registry. */
  predicate InSlots(users: map<string, map<string, int>>, c: int, u: string)
  {
    u in users && c in users[u].Values
  }

  /** The queues after a frame went to the connections of the recipients in
      `done`. */
  predicate SentTo(before: map<int, Conn>, after: map<int, Conn>, users: map<string, map<string, int>>,
                   done: seq<string>, frame: Out)
  {
    after.Keys == before.Keys &&
    forall c :: c in after ==>
      after[c] == before[c].(send := before[c].send +
        (if before[c].user in done && InSlots(users, c, before[c].user) then [frame] else []))
  }

  /** Sending to one more recipient extends the queues of exactly its
      subscribed connections, provided the registry only lists each
      connection under its own user. */
  lemma SentToStep(before: map<int, Conn>, mid: map<int, Conn>, after: map<int, Conn>,
                   users: map<string, map<string, int>>, done: seq<string>, id: string, frame: Out)
    requires SentTo(before, mid, users, done, frame) && id !in done
    requires after.Keys == mid.Keys
    requires forall c :: c in after ==>
      after[c] == mid[c].(send := mid[c].send + (if InSlots(users, c, id) then [frame] else []))
    requires forall u, k :: u in users && k in users[u] ==> users[u][k] in before && before[users[u][k]].user == u
    ensures SentTo(before, after, users, done + [id], frame)
  {
    forall c | c in after
      ensures after[c] == before[c].(send := before[c].send +
        (if before[c].user in done + [id] && InSlots(users, c, before[c].user) then [frame] else []))
    {
      if InSlots(users, c, id) {
        var k :| k in users[id] && users[id][k] == c;
      }
    }
  }

  /** The delivery rows of a publish, seen from the whole table: after the
      first `|before|` rows, which are kept, one unacknowledged row of the
      message for each user of `R` whose insert succeeded, and nothing
      else. */
  predicate Delivered(before: seq<UserMessage>, after: seq<UserMessage>, R: set<string>,
                      messageId: string, fails: set<string>)
  {
    var n0 := |before|;
    n0 <= |after| && after[..n0] == before &&
    (forall j :: n0 <= j < |after| ==>
      after[j].messageId == messageId && !after[j].ack &&
      after[j].userId in R && after[j].userId !in fails) &&
    (forall j1, j2 :: n0 <= j1 < j2 < |after| ==> after[j1].userId != after[j2].userId) &&
    (forall u :: u in R && u !in fails ==>
      exists j :: n0 <= j < |after| && after[j].userId == u)
  }

  /** Appending the delivery rows of a duplicate-free recipient list
      delivers to exactly the users of the list. */
  lemma AppendedDeliveries(before: seq<UserMessage>, after: seq<UserMessage>, recipients: seq<string>,
                           R: set<string>, messageId: string, fails: set<string>)
    requires Distinct(recipients) && after == before + DeliveryRows(recipients, messageId, fails)
    requires forall u :: u in recipients <==> u in R
    ensures Delivered(before, after, R, messageId, fails)
  {
    var rs := DeliveryRows(recipients, messageId, fails);
    var n0 := |before|;
    DeliveryRowsShape(recipients, messageId, fails);
    assert after[..n0] == before;
    assert forall j :: n0 <= j < |after| ==> after[j] == rs[j - n0];
    forall u | u in R && u !in fails
      ensures exists j :: n0 <= j < |after| && after[j].userId == u
    {
      var j :| 0 <= j < |rs| && rs[j].userId == u;
      assert after[n0 + j] == rs[j];
    }
  }

  /** The queues after a frame went to every subscribed connection of the
      users of `R`, and to no other. */
  predicate Queued(before: map<int, Conn>, after: map<int, Conn>, users: map<string, map<string, int>>,
                   R: set<string>, frame: Out)
  {
    after.Keys == before.Keys &&
    forall c :: c in after ==>
      after[c] == before[c].(send := before[c].send +
        (if before[c].user in R && InSlots(users, c, before[c].user) then [frame] else []))
  }

  /** A frame sent to a list of recipients is queued for the users of any
      set with the same members. */
  lemma SentToSet(before: map<int, Conn>, after: map<int, Conn>, users: map<string, map<string, int>>,
                  done: seq<string>, R: set<string>, frame: Out)
    requires SentTo(before, after, users, done, frame)
    requires forall u :: u in done <==> u in R
    ensures Queued(before, after, users, R, frame)
  {
  }

  class Node {
    /** This node's name on the cluster bus. */
    const name: string
    /** Whether the cluster bus is enabled. */
    const clustered: bool
    const secret: string
    const digest: string -> string

    /** The id given to the last accepted connection. */
    var lastId: int
    var conns: map<int, Conn>
    /** Registered connections. */
    var clients: set<int>
    /** user -> clientid -> connection. */
    var users: map<string, map<string, int>>
    var userTags: seq<UserTag>
    var messages: seq<MessageRow>
    var userMessages: seq<UserMessage>
    /** Envelopes this node has published on the cluster bus. */
    var bus: seq<Envelope>

    /** Connection ids are issued in increasing order; registered
        connections are logged in and open; every registry slot holds a
        registered connection logged in with that user and clientid. */
    ghost predicate Valid()
      reads this
    {
      lastId >= 0 && (forall c :: c in conns ==> 0 < c <= lastId) &&
      (forall c :: c in clients ==> c in conns && !conns[c].closed && conns[c].user != "") &&
      (forall u, k :: u in users && k in users[u] ==>
        users[u][k] in clients && conns[users[u][k]].user == u && conns[users[u][k]].clientid == k)
    }

    /** Connection `c` sits in one of user `u`'s slots. */
    predicate Subscribed(c: int, u: string)
      reads this
    {
      InSlots(users, c, u)
    }

    /** Only a connection logged in as `u` sits in `u`'s slots. */
    lemma SubscribedUser(c: int, u: string)
      requires Valid() && Subscribed(c, u)
      ensures c in conns && conns[c].user == u
    {
      var k :| k in users[u] && users[u][k] == c;
    }

    constructor(name: string, clustered: bool, secret: string, digest: string -> string)
      ensures Valid()
      ensures this.name == name && this.clustered == clustered && this.secret == secret && this.digest == digest
      ensures lastId == 0 && conns == map[] && clients == {} && users == map[]
      ensures userTags == [] && messages == [] && userMessages == [] && bus == []
    {
      this.name := name;
      this.clustered := clustered;
      this.secret := secret;
      this.digest := digest;
      lastId := 0;
      conns := map[];
      clients := {};
      users := map[];
      userTags := [];
      messages := [];
      userMessages := [];
      bus := [];
    }

    /** A new websocket connection: the next id, not logged in, an empty open
        queue. */
    method Accept() returns (cid: int)
      requires Valid()
      modifies this
      ensures Valid()
      ensures cid == old(lastId) + 1 && lastId == cid && cid !in old(conns)
      ensures conns == old(conns)[cid := Conn("", "", [], false)]
      ensures clients == old(clients) && users == old(users)
      ensures userTags == old(userTags) && messages == old(messages) && userMessages == old(userMessages) && bus == old(bus)
    {
      lastId := lastId + 1;
      cid := lastId;
      conns := conns[cid := Conn("", "", [], false)];
      assert forall c :: c in conns ==> 0 < c <= lastId;
    }

    /** Appends a frame to an open connection's queue. */
    method Send(cid: int, o: Out)
      requires Valid() && cid in conns && !conns[cid].closed
      modifies this
      ensures Valid()
      ensures conns == old(conns)[cid := old(conns[cid]).(send := old(conns[cid].send) + [o])]
      ensures lastId == old(lastId) && clients == old(clients) && users == old(users)
      ensures userTags == old(userTags) && messages == old(messages) && userMessages == old(userMessages) && bus == old(bus)
    {
      var c := conns[cid];
      conns := conns[cid := c.(send := c.send + [o])];
    }

    /** Registers a logged-in connection under its user and clientid, keeping
        the user's other clientids (a connection already in the slot is
        displaced), then replays the user's pending messages to it. */
    method Register(cid: int, mids: seq<string>, fetch: seq<string> -> Fetch)
      requires Valid() && cid in conns && !conns[cid].closed && conns[cid].user != ""
      modifies this
      ensures Valid()
      ensures clients == old(clients) + {cid}
      ensures users == old(users)[old(conns[cid].user) := Slots(old(users), old(conns[cid].user))[old(conns[cid].clientid) := cid]]
      ensures conns == old(conns)[cid := old(conns[cid]).(send := old(conns[cid].send) + Frames(mids, fetch, 0))]
      ensures lastId == old(lastId)
      ensures userTags == old(userTags) && messages == old(messages) && userMessages == old(userMessages) && bus == old(bus)
    {
      var c := conns[cid];
      clients := clients + {cid};
      users := users[c.user := Slots(users, c.user)[c.clientid := cid]];
      ReplayTo(cid, mids, fetch);
    }

    /** The offline replay loop of Register: batches of at most five pending
        ids, one `m` frame per batch that returns rows, stopping at the end
        of the list, on a failed fetch or on an empty one. */
    method ReplayTo(cid: int, mids: seq<string>, fetch: seq<string> -> Fetch)
      requires Valid() && cid in conns && !conns[cid].closed
      modifies this
      ensures Valid()
      ensures conns == old(conns)[cid := old(conns[cid]).(send := old(conns[cid].send) + Frames(mids, fetch, 0))]
      ensures lastId == old(lastId) && clients == old(clients) && users == old(users)
      ensures userTags == old(userTags) && messages == old(messages) && userMessages == old(userMessages) && bus == old(bus)
    {
      var c := conns[cid];
      if |mids| > 0 {
        var skip: nat := 0;
        while true
          invariant Valid() && cid in conns && !conns[cid].closed
          invariant skip < |mids|
          invariant c.send + Frames(mids, fetch, 0) == conns[cid].send + Frames(mids, fetch, skip)
          invariant conns == old(conns)[cid := c.(send := conns[cid].send)]
          invariant lastId == old(lastId) && clients == old(clients) && users == old(users)
          invariant userTags == old(userTags) && messages == old(messages) && userMessages == old(userMessages) && bus == old(bus)
          decreases |mids| - skip
        {
          match fetch(Batch(mids, skip))
          case Failed =>
            assert Frames(mids, fetch, skip) == [];
            assert conns[cid].send == c.send + Frames(mids, fetch, 0);
            break;
          case Rows(rows) =>
            if rows == [] {
              assert Frames(mids, fetch, skip) == [];
              assert conns[cid].send == c.send + Frames(mids, fetch, 0);
              break;
            }
            Send(cid, Push(Items(rows)));
            skip := skip + BatchSize;
            if skip >= |mids| {
              assert Frames(mids, fetch, skip) == [];
              assert conns[cid].send == c.send + Frames(mids, fetch, 0);
              break;
            }
        }
      } else {
        assert Frames(mids, fetch, 0) == [] && c.send + [] == c.send;
        assert conns == old(conns)[cid := c.(send := c.send + Frames(mids, fetch, 0))];
      }
    }

    /** Unregisters a connection: a connection that is not registered is left
        alone; otherwise it leaves the registered set, the slot of its user and
        clientid is deleted whichever connection now holds it, and its queue,
        open until now, is closed. */
    method UnRegister(cid: int)
      requires Valid() && cid in conns
      modifies this
      ensures Valid()
      ensures cid !in old(clients) ==> conns == old(conns) && clients == old(clients) && users == old(users)
      ensures cid in old(clients) ==>
        !old(conns[cid].closed) &&
        clients == old(clients) - {cid} &&
        conns == old(conns)[cid := old(conns[cid]).(closed := true)] &&
        users == (if old(conns[cid].user) in old(users)
                  then old(users)[old(conns[cid].user) := old(users)[old(conns[cid].user)] - {old(conns[cid].clientid)}]
                  else old(users))
      ensures lastId == old(lastId)
      ensures userTags == old(userTags) && messages == old(messages) && userMessages == old(userMessages) && bus == old(bus)
    {
      if cid in clients {
        var c := conns[cid];
        clients := clients - {cid};
        if c.user in users {
          users := users[c.user := users[c.user] - {c.clientid}];
        }
        conns := conns[cid := c.(closed := true)];
      }
    }

    /** Tager: adds a row for each `true` tag the user does not have yet and
        deletes the user's rows of the `false` tags. */
    method Tager(user: string, d: map<string, JVal>, faults: TagFaults)
      requires Valid()
      modifies this
      ensures Valid()
      ensures forall x :: multiset(userTags)[x] == TagRowsAfter(old(userTags), user, d, faults, x)
      ensures lastId == old(lastId) && conns == old(conns) && clients == old(clients) && users == old(users)
      ensures messages == old(messages) && userMessages == old(userMessages) && bus == old(bus)
    {
      userTags := TagUpdate(userTags, user, d, faults);
    }

    /** Pushes a frame to every connection in the user's slots. */
    method Deliver(u: string, o: Out)
      requires Valid()
      modifies this
      ensures Valid()
      ensures conns.Keys == old(conns).Keys
      ensures forall c :: c in conns ==>
        conns[c] == old(conns)[c].(send := old(conns)[c].send + (if Subscribed(c, u) then [o] else []))
      ensures lastId == old(lastId) && clients == old(clients) && users == old(users)
      ensures userTags == old(userTags) && messages == old(messages) && userMessages == old(userMessages) && bus == old(bus)
    {
      if u in users {
        var slots := users[u];
        var left := slots.Keys;
        while left != {}
          invariant left <= slots.Keys
          invariant Valid()
          invariant conns.Keys == old(conns).Keys
          invariant forall c :: c in conns ==>
            conns[c] == old(conns)[c].(send := old(conns)[c].send +
              (if c in slots.Values && old(conns)[c].clientid !in left then [o] else []))
          invariant lastId == old(lastId) && clients == old(clients) && users == old(users)
          invariant userTags == old(userTags) && messages == old(messages) && userMessages == old(userMessages) && bus == old(bus)
          decreases left
        {
          var k :| k in left;
          var c := slots[k];
          forall c' | c' in slots.Values && old(conns)[c'].clientid == k
            ensures c' == c
          {
            var k' :| k' in slots && slots[k'] == c';
          }
          Send(c, o);
          left := left - {k};
        }
      }
    }

    /** Publish: resolves the recipients, stores the message and replicates it
        unless it came from the bus (`r`), then records one delivery row per
        recipient and pushes one `m` frame to each of their connections. */
    method Publish(m: AdminPush, r: bool, ts: int, now: int, faults: PublishFaults)
      requires Valid()
      modifies this
      ensures Valid()
      ensures Published(m, r, ts, now, faults)
    {
      var recipients := Resolve(userTags, m, faults.tagLookup);
      ghost var R := Recipients(userTags, m, faults.tagLookup);
      var stamp := ts;
      if !r {
        StoreAndReplicate(m, now, faults);
        stamp := now;
      }
      var frame := Push([PushItem(m.messageId, stamp, m.data)]);
      FanOut(recipients, m.messageId, frame, faults.rowInsert);
      AppendedDeliveries(old(userMessages), userMessages, recipients, R, m.messageId, faults.rowInsert);
      SentToSet(old(conns), conns, users, recipients, R, frame);
    }

    /** The storing half of Publish for a message that did not come from the
        bus: the message row (unless its insert fails) and its replication
        on the bus (when clustered, unless the publish fails). */
    method StoreAndReplicate(m: AdminPush, now: int, faults: PublishFaults)
      requires Valid()
      modifies this
      ensures Valid()
      ensures messages == old(messages) + (if faults.messageInsert then [] else [MessageRow(m.messageId, m.data, now)])
      ensures bus == old(bus) + (if !clustered || faults.busPublish then [] else [Envelope(name, now, m)])
      ensures lastId == old(lastId) && clients == old(clients) && users == old(users) && conns == old(conns)
      ensures userTags == old(userTags) && userMessages == old(userMessages)
    {
      if !faults.messageInsert {
        messages := messages + [MessageRow(m.messageId, m.data, now)];
      }
      if clustered && !faults.busPublish {
        bus := bus + [Envelope(name, now, m)];
      }
    }

    /** The delivery loop of Publish: for each recipient, a delivery row
        (unless its insert fails) and the frame on each of its connections. */
    method FanOut(recipients: seq<string>, messageId: string, frame: Out, rowInsertFails: set<string>)
      requires Valid() && Distinct(recipients)
      modifies this
      ensures Valid()
      ensures userMessages == old(userMessages) + DeliveryRows(recipients, messageId, rowInsertFails)
      ensures SentTo(old(conns), conns, users, recipients, frame)
      ensures lastId == old(lastId) && clients == old(clients) && users == old(users)
      ensures userTags == old(userTags) && messages == old(messages) && bus == old(bus)
    {
      forall u, k | u in users && k in users[u]
        ensures users[u][k] in conns && conns[users[u][k]].user == u
      {
        var c := users[u][k];
        assert c in clients;
        assert c in conns;
        assert conns[c].user == u;
      }
      for i := 0 to |recipients|
        invariant Valid()
        invariant lastId == old(lastId) && clients == old(clients) && users == old(users)
        invariant userTags == old(userTags) && messages == old(messages) && bus == old(bus)
        invariant userMessages == old(userMessages) + DeliveryRows(recipients[..i], messageId, rowInsertFails)
        invariant SentTo(old(conns), conns, users, recipients[..i], frame)
        invariant forall u, k :: u in users && k in users[u] ==>
          users[u][k] in old(conns) && old(conns)[users[u][k]].user == u
      {
        var id := recipients[i];
        assert recipients[..i + 1] == recipients[..i] + [id];
        if id !in rowInsertFails {
          userMessages := userMessages + [UserMessage(messageId, id, false)];
        }
        ghost var mid := conns;
        Deliver(id, frame);
        SentToStep(old(conns), mid, conns, users, recipients[..i], id, frame);
      }
      assert recipients[..|recipients|] == recipients;
    }

    /** The effect of a publish: the tables, the bus and the queues as the
        publish leaves them. */
    twostate predicate Published(m: AdminPush, r: bool, ts: int, now: int, faults: PublishFaults)
      reads this
    {
      var R := Recipients(old(userTags), m, faults.tagLookup);
      var stamp := if r then ts else now;
      lastId == old(lastId) && clients == old(clients) && users == old(users) && userTags == old(userTags) &&
      messages == old(messages) + (if r || faults.messageInsert then [] else [MessageRow(m.messageId, m.data, now)]) &&
      bus == old(bus) + (if r || !clustered || faults.busPublish then [] else [Envelope(name, now, m)]) &&
      Delivered(old(userMessages), userMessages, R, m.messageId, faults.rowInsert) &&
      Queued(old(conns), conns, users, R, Push([PushItem(m.messageId, stamp, m.data)]))
    }

    /** Acker: marks acknowledged the user's delivery rows of the listed
        message ids. */
    method Acker(user: string, ids: seq<string>, fails: bool)
      requires Valid()
      modifies this
      ensures Valid()
      ensures userMessages == if fails then old(userMessages) else AckRows(old(userMessages), user, ids)
      ensures lastId == old(lastId) && conns == old(conns) && clients == old(clients) && users == old(users)
      ensures userTags == old(userTags) && messages == old(messages) && bus == old(bus)
    {
      if !fails {
        userMessages := AckRows(userMessages, user, ids);
      }
    }

    /** The cluster receive filter: a payload that does not decode and an
        envelope this node published itself are skipped; any other envelope
        is published here as a replica, stamped with the envelope's time. */
    method ClusterReceive(payload: Payload, now: int, faults: PublishFaults)
      requires Valid()
      modifies this
      ensures Valid()
      ensures payload.Undecodable? || payload.envelope.nodeName == name ==>
        lastId == old(lastId) && conns == old(conns) && clients == old(clients) && users == old(users) &&
        userTags == old(userTags) && messages == old(messages) && userMessages == old(userMessages) && bus == old(bus)
      ensures payload.Decoded? && payload.envelope.nodeName != name ==>
        Published(payload.envelope.message, true, payload.envelope.timestamp, now, faults)
    {
      match payload
      case Undecodable =>
      case Decoded(env) =>
        if env.nodeName != name {
          Publish(env.message, true, env.timestamp, now, faults);
        }
    }

    /** ClientHandler: handles one inbound frame on an open connection as
        `Decide` says, a frame that does not decode being dropped. */
    method ClientHandler(cid: int, frame: Inbound, io: Io)
      requires Valid() && cid in conns && !conns[cid].closed
      modifies this
      ensures Valid()
      ensures frame.Malformed? ==>
        lastId == old(lastId) && conns == old(conns) && clients == old(clients) && users == old(users) &&
        userTags == old(userTags) && messages == old(messages) && userMessages == old(userMessages) && bus == old(bus)
      ensures frame.Frame? ==> Handled(cid, Decide(old(conns[cid].user) != "", frame.fields, secret, digest), io)
    {
      if frame.Malformed? {
        return;
      }
      var step := Decide(conns[cid].user != "", frame.fields, secret, digest);
      BindsOnlyOnAcceptedLogin(conns[cid].user != "", frame.fields, secret, digest);
      Apply(cid, step, io);
    }

    /** Carries out a handler decision on connection `cid`. */
    method Apply(cid: int, step: Step, io: Io)
      requires Valid() && cid in conns && !conns[cid].closed
      requires step.Bind? ==> conns[cid].user == "" && step.user != ""
      modifies this
      ensures Valid()
      ensures Handled(cid, step, io)
    {
      match step
      case Silent =>
      case Answer(o) =>
        Send(cid, o);
      case Bind(user, clientid, o, registers) =>
        var c := conns[cid];
        conns := conns[cid := c.(user := user, clientid := clientid)];
        Send(cid, o);
        if registers {
          Register(cid, io.pending, io.fetch);
        } else {
          assert c.send + [o] + [] == c.send + [o];
        }
      case Ack(v) =>
        var ids := Istoss(v);
        assert ids == IdStrings(v);
        Acker(conns[cid].user, ids, io.ackFails);
      case Tag(d, o) =>
        Tager(conns[cid].user, d, io.tagFaults);
        Send(cid, o);
    }

    /** The effect of handling a decoded frame on connection `cid`. */
    twostate predicate Handled(cid: int, step: Step, io: Io)
      reads this
    {
      old(cid in conns) &&
      var c0 := old(conns[cid]);
      lastId == old(lastId) && messages == old(messages) && bus == old(bus) &&
      match step
      case Silent =>
        conns == old(conns) && clients == old(clients) && users == old(users) &&
        userTags == old(userTags) && userMessages == old(userMessages)
      case Answer(o) =>
        conns == old(conns)[cid := c0.(send := c0.send + [o])] && clients == old(clients) && users == old(users) &&
        userTags == old(userTags) && userMessages == old(userMessages)
      case Bind(user, clientid, o, registers) =>
        conns == old(conns)[cid := c0.(user := user, clientid := clientid,
          send := c0.send + [o] + (if registers then Frames(io.pending, io.fetch, 0) else []))] &&
        clients == old(clients) + (if registers then {cid} else {}) &&
        users == (if registers then old(users)[user := Slots(old(users), user)[clientid := cid]] else old(users)) &&
        userTags == old(userTags) && userMessages == old(userMessages)
      case Ack(v) =>
        conns == old(conns) && clients == old(clients) && users == old(users) && userTags == old(userTags) &&
        userMessages == (if io.ackFails then old(userMessages) else AckRows(old(userMessages), c0.user, IdStrings(v)))
      case Tag(d, o) =>
        conns == old(conns)[cid := c0.(send := c0.send + [o])] && clients == old(clients) && users == old(users) &&
        userMessages == old(userMessages) &&
        (forall x :: multiset(userTags)[x] == TagRowsAfter(old(userTags), c0.user, d, io.tagFaults, x))
    }
  }
}
