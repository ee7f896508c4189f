/**
 * The test client of client/client.go: the `-tags` flag parser that builds
 * a tag-update frame, and the read loop that acknowledges every pushed
 * message it receives. JSON decoding of what it reads is a parameter.
 */
module TestClient {
  import opened Json
  import opened Wire
  import opened Store
  import opened Hub

  // ---------------------------------------------------------------------
  // Splitting

  /** `strings.Split(s, sep)` (and `bytes.Split`) for a one-character
      separator: the pieces between separators, one more than there are
      separators, so the empty string gives one empty piece. */
  function Split(s: string, sep: char): (r: seq<string>)
    ensures |r| >= 1
    ensures forall k :: 0 <= k < |r| ==> sep !in r[k]
    decreases |s|
  {
    match TakeUntil(s, sep)
    case None => [s]
    case Some((a, b)) => [a] + Split(b, sep)
  }

  /** Joining the pieces with the separator gives back the input. */
  lemma {:induction false} SplitJoin(s: string, sep: char)
    ensures Join([sep], Split(s, sep)) == s
    decreases |s|
  {
    match TakeUntil(s, sep)
    case None =>
    case Some((a, b)) =>
      SplitJoin(b, sep);
      var rest := Split(b, sep);
      assert Split(s, sep) == [a] + rest;
      assert ([a] + rest)[1..] == rest;
  }

  // ---------------------------------------------------------------------
  // The tag flag

  /** One entry of the flag: `-x` untags `x`, anything else tags the whole
      entry. Writing the result back as an entry gives the entry again. */
  function Entry(v: string): (e: (string, bool))
    ensures |v| >= 1 && v[0] == '-' ==> e == (v[1..], false)
    ensures !(|v| >= 1 && v[0] == '-') ==> e == (v, true)
    ensures EntryText(e.0, e.1) == v
  {
    if |v| >= 1 && v[0] == '-' then (v[1..], false) else (v, true)
  }

  /** How a tag and its wanted state are written in the flag. */
  function EntryText(tag: string, on: bool): string
  {
    if on then tag else "-" + tag
  }

  /** Any tag can be untagged, and any tag not starting with '-' can be
      tagged, by writing its entry: the parser reads back that tag and
      state. */
  lemma EntryOfText(tag: string, on: bool)
    requires on ==> tag == [] || tag[0] != '-'
    ensures Entry(EntryText(tag, on)) == (tag, on)
  {
    if !on {
      assert ("-" + tag)[1..] == tag;
    }
  }

  /** The map the parser builds from a list of entries, applied left to
      right. */
  function ApplyEntries(entries: seq<string>): (m: map<string, bool>)
    ensures forall k :: k in m <==> exists j :: 0 <= j < |entries| && Entry(entries[j]).0 == k
    decreases |entries|
  {
    if entries == [] then map[]
    else
      var init := entries[..|entries| - 1];
      var e := Entry(entries[|entries| - 1]);
      assert forall j :: 0 <= j < |init| ==> init[j] == entries[j];
      ApplyEntries(init)[e.0 := e.1]
  }

  /** Each tag of the flag gets the value of the last entry that names it. */
  lemma {:induction false} LastEntryWins(entries: seq<string>, k: string)
    ensures forall j :: (0 <= j < |entries| && Entry(entries[j]).0 == k &&
        (forall j' :: j < j' < |entries| ==> Entry(entries[j']).0 != k)) ==>
      k in ApplyEntries(entries) && ApplyEntries(entries)[k] == Entry(entries[j]).1
    decreases |entries|
  {
    if entries != [] {
      var init := entries[..|entries| - 1];
      LastEntryWins(init, k);
      assert forall j :: 0 <= j < |init| ==> init[j] == entries[j];
    }
  }

  /** The tag-flag parser: no frame for an empty flag; otherwise the map of
      tag to wanted state that the tag-update frame carries. */
  method TagSpec(tags: string) returns (send: bool, m: map<string, bool>)
    ensures send <==> tags != ""
    ensures send ==> m == ApplyEntries(Split(tags, ','))
  {
    send := tags != "";
    m := map[];
    if send {
      var ts := Split(tags, ',');
      for i := 0 to |ts|
        invariant m == ApplyEntries(ts[..i])
      {
        var v := ts[i];
        if |v| >= 1 && v[0] == '-' {
          m := m[v[1..] := false];
        } else {
          m := m[v := true];
        }
        assert ts[..i + 1][..i] == ts[..i];
      }
      assert ts[..|ts|] == ts;
    }
  }

  /** The flag's documented example: "a,-b" tags "a" and untags "b". */
  lemma TagSpecExample()
    ensures ApplyEntries(Split("a,-b", ',')) == map["a" := true, "b" := false]
  {
    assert TakeUntil("-b", ',') == None;
    assert "a,-b" == "a" + [','] + "-b";
    TakeUntilFirst("a", ',', "-b");
    assert Split("a,-b", ',') == ["a", "-b"];
    assert ["a", "-b"][..1] == ["a"];
  }

  /** The tag map as the node decodes it from the frame. */
  function AsTagFrame(m: map<string, bool>): (d: map<string, JVal>)
    ensures d.Keys == m.Keys
    ensures forall k :: k in m ==> d[k] == JBool(m[k])
  {
    map k | k in m :: JBool(m[k])
  }

  /** End to end, with no storage failure: after the node applies the
      client's tag frame, the user holds at least one row for every tag the
      flag last set, and none for a tag it last cleared. */
  lemma FlagReachesTags(rows: seq<UserTag>, user: string, m: map<string, bool>, k: string)
    requires k in m
    ensures m[k] ==> TagRowsAfter(rows, user, AsTagFrame(m), TagFaults(false, {}, false), UserTag(user, k)) >= 1
    ensures !m[k] ==> TagRowsAfter(rows, user, AsTagFrame(m), TagFaults(false, {}, false), UserTag(user, k)) == 0
  {
  }

  // ---------------------------------------------------------------------
  // Acknowledgements

  /** The reused decode target of the read loop: the last frame type and
      message ids decoded into it. */
  datatype NodeMessage = NodeMessage(t: string, ids: seq<string>)

  /** One newline-separated piece as JSON decoding sees it: undecodable, or
      an object in which the type and the message list may each be
      absent. */
  datatype Piece = Unparsable | Parsed(t: Option<string>, ids: Option<seq<string>>)

  /** Decoding a piece into the reused target: fields the piece carries
      replace the old ones, absent fields keep them. */
  function Merge(nm: NodeMessage, p: Piece): (r: NodeMessage)
    requires p.Parsed?
    ensures p.t.Some? ==> r.t == p.t.value
    ensures p.t.None? ==> r.t == nm.t
    ensures p.ids.Some? ==> r.ids == p.ids.value
    ensures p.ids.None? ==> r.ids == nm.ids
  {
    NodeMessage(if p.t.Some? then p.t.value else nm.t, if p.ids.Some? then p.ids.value else nm.ids)
  }

  /** The ack id lists the loop sends for a sequence of pieces, and the
      decode target it ends with: each decodable piece is merged into the
      target, and an ack is sent whenever the target then has type "m". */
  function Acks(nm0: NodeMessage, pieces: seq<Piece>): (r: (seq<seq<string>>, NodeMessage))
    ensures |r.0| <= |pieces|
    decreases |pieces|
  {
    if pieces == [] then ([], nm0)
    else
      var before := Acks(nm0, pieces[..|pieces| - 1]);
      var p := pieces[|pieces| - 1];
      if p.Unparsable? then before
      else
        var nm := Merge(before.1, p);
        (before.0 + (if nm.t == "m" then [nm.ids] else []), nm)
  }

  /** Only push pieces are acknowledged: pieces that do not decode leave the
      target as it was, and while the target's type is not "m" no decodable
      piece with a type other than "m" leads to an ack. */
  lemma {:induction false} OnlyPushesAcked(nm0: NodeMessage, pieces: seq<Piece>)
    ensures (forall k :: 0 <= k < |pieces| ==> pieces[k].Unparsable?) ==> Acks(nm0, pieces) == ([], nm0)
    ensures (nm0.t != "m" &&
        forall k :: 0 <= k < |pieces| && pieces[k].Parsed? ==> pieces[k].t.Some? && pieces[k].t.value != "m") ==>
      Acks(nm0, pieces).0 == [] && Acks(nm0, pieces).1.t != "m"
    decreases |pieces|
  {
    if pieces != [] {
      var init := pieces[..|pieces| - 1];
      OnlyPushesAcked(nm0, init);
      assert forall k :: 0 <= k < |init| ==> init[k] == pieces[k];
    }
  }

  /** The pieces of one websocket message as decoding sees them. */
  function Pieces(message: string, decode: string -> Piece): (r: seq<Piece>)
    ensures |r| == |Split(message, '\n')|
    ensures forall k :: 0 <= k < |r| ==> r[k] == decode(Split(message, '\n')[k])
  {
    var ms := Split(message, '\n');
    seq(|ms|, k requires 0 <= k < |ms| => decode(ms[k]))
  }

  /** The read loop's handling of one websocket message: split at newlines,
      decode each piece into the reused target, and for each piece that
      leaves the target's type "m" send an ack listing the target's message
      ids in order. */
  method AckReplies(message: string, decode: string -> Piece, nm0: NodeMessage)
    returns (acks: seq<seq<string>>, nm: NodeMessage)
    ensures (acks, nm) == Acks(nm0, Pieces(message, decode))
  {
    var ms := Split(message, '\n');
    ghost var pieces := Pieces(message, decode);
    acks := [];
    nm := nm0;
    for i := 0 to |ms|
      invariant (acks, nm) == Acks(nm0, pieces[..i])
    {
      var p := decode(ms[i]);
      assert pieces[i] == p;
      AcksStep(nm0, pieces, i);
      assert acks + [] == acks;
      if p.Parsed? {
        nm := Merge(nm, p);
        if nm.t == "m" {
          acks := acks + [nm.ids];
        }
      }
    }
    assert pieces[..|ms|] == pieces;
  }

  /** One more piece, as the read loop takes it. */
  lemma AcksStep(nm0: NodeMessage, pieces: seq<Piece>, i: nat)
    requires i < |pieces|
    ensures var before := Acks(nm0, pieces[..i]);
      var p := pieces[i];
      Acks(nm0, pieces[..i + 1]) ==
        if p.Unparsable? then before
        else
          var nm := Merge(before.1, p);
          (before.0 + (if nm.t == "m" then [nm.ids] else []), nm)
  {
    assert pieces[..i + 1][..i] == pieces[..i];
  }

  /** A push piece carrying its ids is acknowledged with exactly those ids,
      in received order, after the acks already sent. */
  lemma PushAcked(nm0: NodeMessage, pieces: seq<Piece>, ids: seq<string>)
    ensures Acks(nm0, pieces + [Parsed(Some("m"), Some(ids))]) ==
      (Acks(nm0, pieces).0 + [ids], NodeMessage("m", ids))
  {
    assert (pieces + [Parsed(Some("m"), Some(ids))])[..|pieces|] == pieces;
  }

  /** A piece of any other type, and a piece that does not decode, is not
      acknowledged. */
  lemma OthersNotAcked(nm0: NodeMessage, pieces: seq<Piece>, p: Piece)
    requires p.Unparsable? || (p.t.Some? && p.t.value != "m")
    ensures Acks(nm0, pieces + [p]).0 == Acks(nm0, pieces).0
  {
    assert (pieces + [p])[..|pieces|] == pieces;
  }

  /** The reused target: a push piece without a message list acknowledges
      the ids of an earlier frame again. */
  lemma StaleIdsAcked(nm0: NodeMessage, pieces: seq<Piece>)
    ensures Acks(nm0, pieces + [Parsed(Some("m"), None)]).0 ==
      Acks(nm0, pieces).0 + [Acks(nm0, pieces).1.ids]
  {
    assert (pieces + [Parsed(Some("m"), None)])[..|pieces|] == pieces;
  }

  /** The id lists of the push pieces, in order. */
  function PushIds(pieces: seq<Piece>): (r: seq<seq<string>>)
    ensures |r| <= |pieces|
    decreases |pieces|
  {
    if pieces == [] then []
    else
      var p := pieces[|pieces| - 1];
      PushIds(pieces[..|pieces| - 1]) +
        (if p.Parsed? && p.t == Some("m") && p.ids.Some? then [p.ids.value] else [])
  }

  /** When every decodable piece carries both fields, the loop acknowledges
      exactly the push pieces, each with its own ids, in received order,
      whatever the target held before. */
  lemma {:induction false} CompletePiecesAcked(nm0: NodeMessage, pieces: seq<Piece>)
    requires forall k :: 0 <= k < |pieces| && pieces[k].Parsed? ==> pieces[k].t.Some? && pieces[k].ids.Some?
    ensures Acks(nm0, pieces).0 == PushIds(pieces)
    decreases |pieces|
  {
    if pieces != [] {
      CompletePiecesAcked(nm0, pieces[..|pieces| - 1]);
    }
  }

  /** The ids of the ack frame reach the node unchanged: as JSON strings
      they come back from `istoss` as the same strings. */
  lemma AckIdsRoundTrip(ids: seq<string>)
    ensures IdStrings(seq(|ids|, k requires 0 <= k < |ids| => JStr(ids[k]))) == ids
  {
  }
}
