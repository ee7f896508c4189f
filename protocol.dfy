/**
 * The frame dispatcher of node.go (ClientHandler) as a decision: given whether
 * the connection is already logged in and the decoded frame, what the handler
 * does. Every type assertion the handler makes is evaluated in the order the
 * handler makes it; a failed assertion panics, and the deferred recovery
 * answers with the fault reply.
 */
module Protocol {
  import opened Json
  import opened Wire
  import opened Auth

  /** An inbound frame after normalisation: text that does not decode into a
      JSON object, or the decoded object. */
  datatype Inbound = Malformed | Frame(fields: map<string, JVal>)

  /** What handling one decoded frame amounts to. */
  datatype Step =
    | Silent                                    // no reply, no change
    | Answer(reply: Out)                        // one reply, no other change
    | Bind(user: string, clientid: string, reply: Out, registers: bool)
                                                // log in, reply, then register
    | Ack(ids: seq<JVal>)                       // acknowledge, no reply
    | Tag(tags: map<string, JVal>, reply: Out)  // update tags, then reply

  /** The reply of the deferred recovery: `rt` "e", the correlation id as
      `fmt.Sprint` prints it, FAIL and the panic text. */
  function FaultReply(m: map<string, JVal>, text: string): (o: Out)
    ensures o.Reply? && o.rt == "e" && o.i == Sprint(Field(m, "i")) && o.c == FAIL && o.m == text
  {
    Reply("e", Sprint(Field(m, "i")), FAIL, text)
  }

  /** `resp(rt, m["i"].(string), c, text)`: a reply carrying the frame's
      correlation id, or the fault reply when that id is not a string. Either
      way the reply echoes the correlation id as `fmt.Sprint` prints it. */
  function RespondTo(m: map<string, JVal>, rt: string, c: Code, text: string): (o: Out)
    ensures o.Reply? && o.i == Sprint(Field(m, "i"))
    ensures Field(m, "i").JStr? ==> o == Reply(rt, Field(m, "i").s, c, text)
    ensures !Field(m, "i").JStr? ==> o == FaultReply(m, AssertionFailure(Field(m, "i"), "string"))
  {
    match AsString(Field(m, "i"))
    case Value(i) => Reply(rt, i, c, text)
    case Panic(e) => FaultReply(m, e)
  }

  /** The handler's decision for a decoded frame on a connection that is
      (`bound`) or is not yet logged in. The login check hashes the node's
      secret with the trimmed user and client id and the decimal timestamp.
      Only a connection that is not yet logged in is bound, and never to a
      blank user or client id; every reply the handler sends echoes the
      frame's correlation id; and a frame is ignored exactly when the
      connection is logged in and its type is none of "l", "a" and "t". */
  function Decide(bound: bool, m: map<string, JVal>, secret: string, digest: string -> string): (s: Step)
    ensures s.Bind? ==> !bound && s.user != [] && s.clientid != []
    ensures (s.Answer? || s.Bind? || s.Tag?) ==> s.reply.Reply? && s.reply.i == Sprint(Field(m, "i"))
    ensures s.Silent? <==> bound && Field(m, "t") != JStr("l") && Field(m, "t") != JStr("a") && Field(m, "t") != JStr("t")
  {
    var t := Field(m, "t");
    if t == JStr("l") then
      if bound then Answer(RespondTo(m, "l", FAIL, ""))
      else match AsString(Field(m, "u"))
        case Panic(e) => Answer(FaultReply(m, e))
        case Value(u) => match AsString(Field(m, "m"))
          case Panic(e) => Answer(FaultReply(m, e))
          case Value(k) =>
            var user := TrimSpace(u);
            var clientid := TrimSpace(k);
            if user == [] || clientid == [] then Answer(RespondTo(m, "l", FAIL, "no user or clientid"))
            else match AsString(Field(m, "tk"))
              case Panic(e) => Answer(FaultReply(m, e))
              case Value(tk) => match AsNumber(Field(m, "ts"))
                case Panic(e) => Answer(FaultReply(m, e))
                case Value(ts) =>
                  if !CheckTokenMD5(digest, secret, user, clientid, IntText(ts), tk) then
                    Answer(RespondTo(m, "l", AUTH, ""))
                  else
                    Bind(user, clientid, RespondTo(m, "l", OK, clientid), Field(m, "i").JStr?)
    else if !bound then Answer(RespondTo(m, "a", AUTH, ""))
    else if t == JStr("a") then
      match AsArray(Field(m, "id"))
      case Panic(e) => Answer(FaultReply(m, e))
      case Value(ids) => Ack(ids)
    else if t == JStr("t") then
      match AsObject(Field(m, "d"))
      case Panic(e) => Answer(FaultReply(m, e))
      case Value(d) => Tag(d, RespondTo(m, "a", OK, ""))
    else Silent
  }

  /** A login frame whose fields all have the right types, whose trimmed user
      and client id are not blank and whose token the check accepts. */
  predicate LoginAccepted(m: map<string, JVal>, secret: string, digest: string -> string)
  {
    Field(m, "u").JStr? && Field(m, "m").JStr? && Field(m, "tk").JStr? && Field(m, "ts").JNum? &&
    TrimSpace(Field(m, "u").s) != [] && TrimSpace(Field(m, "m").s) != [] &&
    CheckTokenMD5(digest, secret, TrimSpace(Field(m, "u").s), TrimSpace(Field(m, "m").s),
      IntText(Field(m, "ts").n), Field(m, "tk").s)
  }

  /** A connection is bound only by an accepted login on a connection that is
      not yet bound; it is bound to the trimmed ids and answered OK with the
      client id, and it is registered unless the correlation id fails its
      assertion after binding. */
  lemma BindsOnlyOnAcceptedLogin(bound: bool, m: map<string, JVal>, secret: string, digest: string -> string)
    ensures Decide(bound, m, secret, digest).Bind? <==>
      !bound && Field(m, "t") == JStr("l") && LoginAccepted(m, secret, digest)
    ensures Decide(bound, m, secret, digest).Bind? ==>
      var s := Decide(bound, m, secret, digest);
      s.user == TrimSpace(Field(m, "u").s) && s.clientid == TrimSpace(Field(m, "m").s) &&
      s.reply == RespondTo(m, "l", OK, s.clientid) && (s.registers <==> Field(m, "i").JStr?)
  {
  }

  /** A login on a connection that is already bound is refused with FAIL. */
  lemma SecondLoginRefused(m: map<string, JVal>, secret: string, digest: string -> string)
    requires Field(m, "t") == JStr("l")
    ensures Decide(true, m, secret, digest) == Answer(RespondTo(m, "l", FAIL, ""))
  {
  }

  /** Blank credentials are refused with FAIL and a reason; a token the check
      rejects is refused with AUTH (either reply being the fault reply if the
      correlation id is not a string). */
  lemma LoginRefusals(m: map<string, JVal>, secret: string, digest: string -> string)
    requires Field(m, "t") == JStr("l") && Field(m, "u").JStr? && Field(m, "m").JStr?
    ensures TrimSpace(Field(m, "u").s) == [] || TrimSpace(Field(m, "m").s) == [] ==>
      Decide(false, m, secret, digest) == Answer(RespondTo(m, "l", FAIL, "no user or clientid"))
    ensures (TrimSpace(Field(m, "u").s) != [] && TrimSpace(Field(m, "m").s) != [] &&
      Field(m, "tk").JStr? && Field(m, "ts").JNum? && !LoginAccepted(m, secret, digest)) ==>
      Decide(false, m, secret, digest) == Answer(RespondTo(m, "l", AUTH, ""))
  {
  }

  /** Before login every other frame, whatever its type, gets exactly one
      AUTH reply with `rt` "a" (or the fault reply if its correlation id is
      not a string) and does nothing else. */
  lemma UnboundRejected(m: map<string, JVal>, secret: string, digest: string -> string)
    requires Field(m, "t") != JStr("l")
    ensures Decide(false, m, secret, digest) == Answer(RespondTo(m, "a", AUTH, ""))
    ensures Field(m, "i").JStr? ==>
      Decide(false, m, secret, digest) == Answer(Reply("a", Field(m, "i").s, AUTH, ""))
  {
  }

  /** After login: an `a` frame acknowledges with no reply, a `t` frame
      updates tags and replies OK with `rt` "a", and any other type is
      ignored; a field of the wrong type, or a correlation id that is not a
      string, turns the reply into the fault reply. */
  lemma BoundDispatch(m: map<string, JVal>, secret: string, digest: string -> string)
    requires Field(m, "t") != JStr("l")
    ensures var s := Decide(true, m, secret, digest);
      (Field(m, "t") == JStr("a") && Field(m, "id").JArr? ==> s == Ack(Field(m, "id").items)) &&
      (Field(m, "t") == JStr("t") && Field(m, "d").JObj? ==> s == Tag(Field(m, "d").fields, RespondTo(m, "a", OK, ""))) &&
      (Field(m, "t") != JStr("a") && Field(m, "t") != JStr("t") ==> s == Silent) &&
      (Field(m, "t") == JStr("a") && !Field(m, "id").JArr? ==>
        s == Answer(FaultReply(m, AssertionFailure(Field(m, "id"), "[]interface {}")))) &&
      (Field(m, "t") == JStr("t") && !Field(m, "d").JObj? ==>
        s == Answer(FaultReply(m, AssertionFailure(Field(m, "d"), "map[string]interface {}"))))
  {
  }
}
