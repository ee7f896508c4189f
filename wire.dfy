/**
 * The connection-side helpers of client.go: the keepalive constants, the
 * normalisation every inbound frame goes through before the hub sees it, the
 * hand-built response frame `resp`, and `istoss`, which stringifies the ids of
 * an acknowledgement. Also the outbound frames a connection's queue holds.
 */
module Wire {
  import opened Json

  // ---------------------------------------------------------------------
  // Keepalive constants (time.Duration, in nanoseconds)

  const Second: int := 1_000_000_000
  /** Time allowed to write a frame to the peer. */
  const WriteWait: int := 10 * Second
  /** Time allowed to read the next pong from the peer. */
  const PongWait: int := 60 * Second
  /** Period of the keepalive pings. */
  const PingPeriod: int := (PongWait * 9) / 10

  /** A ping is always sent before the peer's pong deadline runs out, and a
      write that uses its whole deadline still ends before the next ping is
      due. */
  lemma PingBeforePongDeadline()
    ensures 0 < WriteWait < PingPeriod < PongWait
    ensures PongWait - PingPeriod == 6 * Second
  {
  }

  // ---------------------------------------------------------------------
  // Outbound frames

  /** Status codes of a response frame. Their textual values are defined
      outside the files modelled here, so they are kept symbolic. */
  datatype Code = OK | FAIL | AUTH

  /** One message of a push frame. */
  datatype PushItem = PushItem(id: string, ts: int, data: string)

  /** A frame on a connection's outbound queue. */
  datatype Out =
    | Reply(rt: string, i: string, c: Code, m: string)  // a frame built by `resp`
    | Push(ms: seq<PushItem>)                           // {"t":"m","ms":[...]}

  /** The text of a Reply frame, given the text of each status code. */
  function ReplyText(o: Out, codeText: Code -> string): (r: string)
    requires o.Reply?
    ensures |r| >= RespHead && r[..RespHead] == RespPrefix
  {
    Resp(o.rt, o.i, codeText(o.c), o.m)
  }

  // ---------------------------------------------------------------------
  // resp

  const RespPrefix: string := "{\"t\":\"r\",\"rt\":\""
  const RespHead: nat := 15
  const AfterRt: string := "\",\"i\":\""
  const AfterI: string := "\",\"c\":"
  const AfterC: string := ",\"m\":\""
  const RespTail: string := "\"}"
  /** Characters `resp` adds around its four arguments. */
  const RespOverhead: nat := 36

  /** The response frame, concatenated by hand: `c` is not quoted and no
      argument is escaped. */
  function Resp(rt: string, i: string, c: string, m: string): (r: string)
    ensures |RespPrefix| == RespHead
    ensures |r| == RespOverhead + |rt| + |i| + |c| + |m|
    ensures r[..RespHead] == RespPrefix && r[..8] == "{\"t\":\"r\""
  {
    RespPrefix + (rt + (AfterRt + (i + (AfterI + (c + (AfterC + (m + RespTail)))))))
  }

  /** The four fields of a response frame. */
  datatype RespFields = RespFields(rt: string, i: string, c: string, m: string)

  datatype Option<+T> = None | Some(value: T)

  /** Splits `s` at the first `ch`: what comes before it and what comes after. */
  function TakeUntil(s: string, ch: char): (r: Option<(string, string)>)
    ensures r.Some? ==> ch !in r.value.0 && s == r.value.0 + [ch] + r.value.1
    ensures r.None? <==> ch !in s
    decreases |s|
  {
    if s == [] then None
    else if s[0] == ch then Some(([], s[1..]))
    else match TakeUntil(s[1..], ch)
      case None => None
      case Some((a, b)) => Some(([s[0]] + a, b))
  }

  function DropPrefix(s: string, p: string): Option<string>
  {
    if |p| <= |s| && s[..|p|] == p then Some(s[|p|..]) else None
  }

  /** Reads the four fields back out of a response frame, the way a JSON
      reader would when no field holds a quote. */
  function ParseResp(s: string): Option<RespFields>
  {
    match DropPrefix(s, RespPrefix)
    case None => None
    case Some(s1) =>
      match TakeUntil(s1, '"')
      case None => None
      case Some((rt, s2)) =>
        match DropPrefix(s2, AfterRt[1..])
        case None => None
        case Some(s3) =>
          match ParseI(s3)
          case None => None
          case Some(f) => Some(f.(rt := rt))
  }

  /** The part after the `i` key: the id, the code and the text. */
  function ParseI(s3: string): Option<RespFields>
  {
    match TakeUntil(s3, '"')
    case None => None
    case Some((i, s4)) =>
      match DropPrefix(s4, AfterI[1..])
      case None => None
      case Some(s5) =>
        match ParseC(s5)
        case None => None
        case Some(f) => Some(f.(i := i))
  }

  /** The part after the `c` key: the code and the text. */
  function ParseC(s5: string): Option<RespFields>
  {
    match TakeUntil(s5, ',')
    case None => None
    case Some((c, s6)) =>
      match DropPrefix(s6, AfterC[1..])
      case None => None
      case Some(s7) =>
        match TakeUntil(s7, '"')
        case None => None
        case Some((m, s8)) =>
          if s8 == RespTail[1..] then Some(RespFields("", "", c, m)) else None
  }

  lemma {:induction false} TakeUntilFirst(a: string, ch: char, b: string)
    requires ch !in a
    ensures TakeUntil(a + [ch] + b, ch) == Some((a, b))
    decreases |a|
  {
    if a == [] {
      assert (a + [ch] + b)[1..] == b;
    } else {
      assert (a + [ch] + b)[1..] == a[1..] + [ch] + b;
      TakeUntilFirst(a[1..], ch, b);
      assert [a[0]] + a[1..] == a;
    }
  }

  lemma DropPrefixOf(p: string, s: string)
    ensures DropPrefix(p + s, p) == Some(s)
  {
    assert (p + s)[..|p|] == p;
    assert (p + s)[|p|..] == s;
  }

  /** Splits off the delimiter that opens a separator constant. */
  lemma Unglue(x: string, sep: string, rest: string)
    requires |sep| >= 1
    ensures x + (sep + rest) == x + [sep[0]] + (sep[1..] + rest)
  {
    assert sep == [sep[0]] + sep[1..];
  }

  lemma ParseCOf(c: string, m: string)
    requires ',' !in c && '"' !in m
    ensures ParseC(c + (AfterC + (m + RespTail))) == Some(RespFields("", "", c, m))
  {
    Unglue(c, AfterC, m + RespTail);
    TakeUntilFirst(c, ',', AfterC[1..] + (m + RespTail));
    DropPrefixOf(AfterC[1..], m + RespTail);
    Unglue(m, RespTail, []);
    assert m + RespTail == m + (RespTail + []);
    TakeUntilFirst(m, '"', RespTail[1..] + []);
  }

  lemma ParseIOf(i: string, c: string, m: string)
    requires '"' !in i && ',' !in c && '"' !in m
    ensures ParseI(i + (AfterI + (c + (AfterC + (m + RespTail))))) == Some(RespFields("", i, c, m))
  {
    var rest := c + (AfterC + (m + RespTail));
    Unglue(i, AfterI, rest);
    TakeUntilFirst(i, '"', AfterI[1..] + rest);
    DropPrefixOf(AfterI[1..], rest);
    ParseCOf(c, m);
  }

  /** A response frame reads back as the fields it was built from, as long as
      no quoted field holds a quote and the code holds no comma: `resp`
      escapes nothing, so these are exactly the arguments it cannot carry. */
  lemma RespRoundTrip(rt: string, i: string, c: string, m: string)
    requires '"' !in rt && '"' !in i && ',' !in c && '"' !in m
    ensures ParseResp(Resp(rt, i, c, m)) == Some(RespFields(rt, i, c, m))
  {
    var rest := i + (AfterI + (c + (AfterC + (m + RespTail))));
    var s1 := rt + (AfterRt + rest);
    DropPrefixOf(RespPrefix, s1);
    Unglue(rt, AfterRt, rest);
    TakeUntilFirst(rt, '"', AfterRt[1..] + rest);
    DropPrefixOf(AfterRt[1..], rest);
    ParseIOf(i, c, m);
  }

  // ---------------------------------------------------------------------
  // istoss

  /** The strings `istoss` makes of acknowledged ids. */
  function IdStrings(v: seq<JVal>): seq<string>
  {
    seq(|v|, j requires 0 <= j < |v| => Sprint(v[j]))
  }

  /** Stringifies each element of an acknowledgement's id list. */
  method Istoss(v: seq<JVal>) returns (ss: seq<string>)
    ensures |ss| == |v|
    ensures forall k :: 0 <= k < |v| ==> ss[k] == Sprint(v[k])
    ensures ss == IdStrings(v)
  {
    ss := [];
    for n := 0 to |v|
      invariant |ss| == n
      invariant forall k :: 0 <= k < n ==> ss[k] == Sprint(v[k])
    {
      ss := ss + [Sprint(v[n])];
    }
  }

  // ---------------------------------------------------------------------
  // Inbound frame normalisation

  /** White space as Unicode defines it (Go's unicode.IsSpace). */
  predicate IsSpace(c: char)
  {
    c == '\t' || c == '\n' || c == '\U{000B}' || c == '\U{000C}' || c == '\r' || c == ' '
    || c == '\U{0085}' || c == '\U{00A0}' || c == '\U{1680}'
    || ('\U{2000}' <= c <= '\U{200A}')
    || c == '\U{2028}' || c == '\U{2029}' || c == '\U{202F}' || c == '\U{205F}' || c == '\U{3000}'
  }

  /** Every newline replaced by a space. */
  function NewlinesToSpaces(s: string): (r: string)
    ensures |r| == |s|
    ensures forall k :: 0 <= k < |s| ==> r[k] == (if s[k] == '\n' then ' ' else s[k])
    ensures '\n' !in r
  {
    seq(|s|, k requires 0 <= k < |s| => if s[k] == '\n' then ' ' else s[k])
  }

  /** How many white-space characters open `s`. */
  function LeadCount(s: string): (n: nat)
    ensures n <= |s|
    ensures forall k :: 0 <= k < n ==> IsSpace(s[k])
    ensures n < |s| ==> !IsSpace(s[n])
    decreases |s|
  {
    if s != [] && IsSpace(s[0]) then 1 + LeadCount(s[1..]) else 0
  }

  /** How many white-space characters close `s`. */
  function TrailCount(s: string): (n: nat)
    ensures n <= |s|
    ensures forall k :: |s| - n <= k < |s| ==> IsSpace(s[k])
    ensures n < |s| ==> !IsSpace(s[|s| - 1 - n])
    decreases |s|
  {
    if s != [] && IsSpace(s[|s| - 1]) then 1 + TrailCount(s[..|s| - 1]) else 0
  }

  /** Leading and trailing white space cut off (a frame of white space
      only becomes empty). */
  function TrimSpace(t: string): (r: string)
    ensures var a := LeadCount(t);
      a < |t| ==> TrailCount(t) < |t| - a && r == t[a..|t| - TrailCount(t)]
    ensures LeadCount(t) == |t| ==> r == []
  {
    var a := LeadCount(t);
    if a == |t| then []
    else
      assert !IsSpace(t[a]);
      t[a..|t| - TrailCount(t)]
  }

  /** Trimming keeps a slice of `t` that neither starts nor ends with white
      space, and cuts only white space from either end. */
  lemma TrimShape(t: string)
    ensures var r := TrimSpace(t);
      var a := LeadCount(t);
      && a + |r| <= |t|
      && r == t[a..a + |r|]
      && (forall k :: 0 <= k < a ==> IsSpace(t[k]))
      && (forall k :: a + |r| <= k < |t| ==> IsSpace(t[k]))
      && (r != [] ==> !IsSpace(r[0]) && !IsSpace(r[|r| - 1]))
      && ('\n' !in t ==> '\n' !in r)
  {
    var r := TrimSpace(t);
    var a := LeadCount(t);
    if a < |t| {
      var b := |t| - TrailCount(t);
      assert r == t[a..b];
      assert r[0] == t[a] && r[|r| - 1] == t[b - 1];
      if '\n' !in t {
        forall k | 0 <= k < |r|
          ensures r[k] != '\n'
        {
          assert r[k] == t[a + k];
        }
      }
    }
  }

  /** What the reader does to every inbound frame before handing it on: the
      newline-free frame with white space cut from both ends only. Everything
      cut off is white space, what is kept neither starts nor ends with white
      space, and no newline is left in it. */
  function Normalize(s: string): (r: string)
    ensures var t := NewlinesToSpaces(s);
      var a := LeadCount(t);
      && a + |r| <= |t|
      && r == t[a..a + |r|]
      && (forall k :: 0 <= k < a ==> IsSpace(t[k]))
      && (forall k :: a + |r| <= k < |t| ==> IsSpace(t[k]))
      && (r != [] ==> !IsSpace(r[0]) && !IsSpace(r[|r| - 1]))
      && '\n' !in r
  {
    var t := NewlinesToSpaces(s);
    TrimShape(t);
    TrimSpace(t)
  }

  /** Normalising twice is the same as normalising once. */
  lemma NormalizeIdempotent(s: string)
    ensures Normalize(Normalize(s)) == Normalize(s)
  {
    var r := Normalize(s);
    assert NewlinesToSpaces(r) == r;
    assert LeadCount(r) == 0;
    assert TrailCount(r) == 0;
  }
}
