/**
 * The signalling client: the frames it sends to the STOMP broker, the
 * filtering of received frames, the extraction of an offer's direction,
 * client and camera, and the routing of an offer to the peer-session
 * registry with the answer published back to the requesting client.
 *
 * Frames are records as the STOMP library unpacks them; serialising and
 * unpacking frame text, and JSON decoding, are parameters of the model.
 */
module Signaling {

  import opened Optional
  import opened JsonValue
  import opened Registry

  /** A STOMP frame after unpacking: command, headers and body text. */
  datatype Frame = Frame(cmd: string, headers: map<string, string>, body: string)

  /** The only topic the gateway subscribes to and acts on. */
  const OfferTopic: string := "/topic/offer"

  /** Prefix of every answer destination. */
  const AnswerPrefix: string := "/app/answer/"

  /** The literal text of the CONNECT frame sent when the socket opens. */
  const ConnectLiteral: string := "CONNECT\n" + "accept-version:1.0,1.1,2.0\n" + "\n\0\n"

  /**
   * A frame in the text form of section "Frames and Headers" of STOMP 1.2:
   * the command, one `name:value` line per header, a blank line, the body and
   * a NUL octet.
   */
  function FrameText(cmd: string, headers: seq<(string, string)>, body: string): string
  {
    cmd + "\n" + HeaderLines(headers) + "\n" + body + "\0"
  }

  function HeaderLines(headers: seq<(string, string)>): string
  {
    if headers == [] then ""
    else headers[0].0 + ":" + headers[0].1 + "\n" + HeaderLines(headers[1..])
  }

  /**
   * The CONNECT literal is a STOMP 1.2 CONNECT frame with the single header
   * `accept-version:1.0,1.1,2.0` and an empty body, followed by one end-of-line
   * (which the frame grammar allows after the NUL).
   */
  lemma ConnectIsStompFrame()
    ensures ConnectLiteral == FrameText("CONNECT", [("accept-version", "1.0,1.1,2.0")], "") + "\n"
  {
    var h := [("accept-version", "1.0,1.1,2.0")];
    assert h[1..] == [];
    assert HeaderLines(h) == "accept-version" + ":" + "1.0,1.1,2.0" + "\n" + "";
    var line := "accept-version:1.0,1.1,2.0\n";
    assert FrameText("CONNECT", h, "") + "\n" == ("CONNECT" + "\n") + line + ("\n" + "" + "\0" + "\n");
  }

  /**
   * `parse_message` after unpacking: only `MESSAGE` frames pass; the
   * destination defaults to the empty string; a body that does not decode
   * yields nothing.  `decode` is `json.loads`, partial.
   */
  function ParseMessage(f: Frame, decode: string -> Option<Json>): (r: Option<(string, Json)>)
    ensures r.Some? <==> f.cmd == "MESSAGE" && decode(f.body).Some?
    ensures r.Some? ==> r.value.1 == decode(f.body).value
    ensures r.Some? && "destination" in f.headers ==> r.value.0 == f.headers["destination"]
    ensures r.Some? && "destination" !in f.headers ==> r.value.0 == ""
  {
    if f.cmd != "MESSAGE" then None
    else
      var endpoint := if "destination" in f.headers then f.headers["destination"] else "";
      match decode(f.body)
      case None => None
      case Some(body) => Some((endpoint, body))
  }

  /**
   * What `parse_offer` returns: the direction and client (`JNull` for
   * Python's `None`) and the camera id when the direction names a camera.
   * `ParseRaised` is the `TypeError` of testing an unhashable direction
   * against the enumeration's member names.
   */
  datatype ParsedOffer = ParseRaised | Parsed(direction: Json, client: Json, camera: Option<int>)

  /** `parse_offer(body)` against the camera enumeration `directions` (name to id). */
  function ParseOffer(body: Json, directions: map<string, int>): (r: ParsedOffer)
    // nothing is extracted unless the body is a dict holding both keys
    ensures !(body.JObj? && "direction" in body.fields && "client_id" in body.fields) ==>
      r == Parsed(JNull, JNull, None)
    ensures body.JObj? && "direction" in body.fields && "client_id" in body.fields ==>
      (r.ParseRaised? <==> !body.fields["direction"].Hashable())
    ensures r.Parsed? && body.JObj? && "direction" in body.fields && "client_id" in body.fields ==>
      r.direction == body.fields["direction"] && r.client == body.fields["client_id"]
    // a camera id exactly for a direction that is a member name, and then its value
    ensures r.Parsed? ==> (r.camera.Some? <==> r.direction.JStr? && r.direction.s in directions)
    ensures r.Parsed? && r.camera.Some? ==> r.camera.value == directions[r.direction.s]
  {
    var (direction, client) :=
      if body.JObj? && "direction" in body.fields && "client_id" in body.fields
      then (body.fields["direction"], body.fields["client_id"])
      else (JNull, JNull);
    if direction == JNull then Parsed(direction, client, None)
    else if !direction.Hashable() then ParseRaised
    else if direction.JStr? && direction.s in directions then Parsed(direction, client, Some(directions[direction.s]))
    else Parsed(direction, client, None)
  }

  /** A well-formed offer for a known camera yields that camera's id. */
  lemma {:induction false} OfferForKnownCamera(d: string, client: Json, rest: map<string, Json>,
                                              directions: map<string, int>)
    requires d in directions
    ensures ParseOffer(JObj(rest["direction" := JStr(d)]["client_id" := client]), directions)
         == Parsed(JStr(d), client, Some(directions[d]))
  {
    var fields := rest["direction" := JStr(d)]["client_id" := client];
    assert fields["direction"] == JStr(d);
  }

  /** Python's `str()` of a hashable JSON value, as used in an f-string. */
  function Str(j: Json): (s: string)
    requires j.Hashable()
    ensures j.JStr? ==> s == j.s
    ensures j.JNull? ==> s == "None"
    ensures j.JBool? ==> s == (if j.b then "True" else "False")
    // a number prints as an optional sign and decimal digits
    ensures j.JNum? ==> |s| > 0 && (j.n < 0 <==> s[0] == '-') && forall i :: (if j.n < 0 then 1 else 0) <= i < |s| ==> '0' <= s[i] <= '9'
    // so only a string id can put a `/` into a destination
    ensures !j.JStr? ==> '/' !in s
  {
    match j
    case JNull => "None"
    case JBool(b) => if b then "True" else "False"
    case JNum(n) => if n < 0 then "-" + Decimal(-n) else Decimal(n)
    case JStr(s) => s
  }

  /** The decimal digits of `n`, most significant first, without leading zeros. */
  function Decimal(n: nat): (s: string)
    ensures |s| > 0 && forall i :: 0 <= i < |s| ==> '0' <= s[i] <= '9'
    ensures |s| > 1 ==> s[0] != '0'
    decreases n
  {
    if n < 10 then [Digit(n)] else Decimal(n / 10) + [Digit(n % 10)]
  }

  function Digit(d: nat): (c: char)
    requires d < 10
    ensures '0' <= c <= '9'
  {
    "0123456789"[d]
  }

  /** Where the answer to `client` for camera `direction` is published. */
  function AnswerDestination(client: Json, direction: string): (dest: string)
    requires client.Hashable()
    ensures AnswerPrefix <= dest
    ensures dest[|AnswerPrefix|..] == Str(client) + "/" + direction
  {
    AnswerPrefix + Str(client) + "/" + direction
  }

  /**
   * Answer destinations never collide: for string client ids without `/`,
   * the destination determines both the client and the direction.
   */
  lemma {:induction false} AnswerDestinationInjective(c1: string, d1: string, c2: string, d2: string)
    requires '/' !in c1 && '/' !in c2
    requires AnswerDestination(JStr(c1), d1) == AnswerDestination(JStr(c2), d2)
    ensures c1 == c2 && d1 == d2
  {
    var p := |AnswerPrefix|;
    var t1, t2 := AnswerDestination(JStr(c1), d1), AnswerDestination(JStr(c2), d2);
    assert t1 == AnswerPrefix + (c1 + "/" + d1);
    assert t2 == AnswerPrefix + (c2 + "/" + d2);
    assert t1[p..] == c1 + "/" + d1;
    assert t2[p..] == c2 + "/" + d2;
    SlashSplit(c1, d1, c2, d2);
  }

  /** The position of the first `/` in `s`, or `|s|` when there is none. */
  function FirstSlash(s: string): (k: nat)
    ensures k <= |s|
  {
    if s == [] || s[0] == '/' then 0 else 1 + FirstSlash(s[1..])
  }

  lemma {:induction false} FirstSlashAfter(c: string, d: string)
    requires '/' !in c
    ensures FirstSlash(c + "/" + d) == |c|
  {
    if c != [] {
      assert (c + "/" + d)[1..] == c[1..] + "/" + d;
      assert c[0] in c;
      FirstSlashAfter(c[1..], d);
    }
  }

  /** A string without `/` followed by `/` and a rest is determined by the whole. */
  lemma SlashSplit(c1: string, d1: string, c2: string, d2: string)
    requires '/' !in c1 && '/' !in c2
    requires c1 + "/" + d1 == c2 + "/" + d2
    ensures c1 == c2 && d1 == d2
  {
    var u := c1 + "/" + d1;
    FirstSlashAfter(c1, d1);
    FirstSlashAfter(c2, d2);
    assert |c1| == |c2|;
    assert c1 == u[..|c1|] == c2;
    assert d1 == u[|c1| + 1..] == d2;
  }

  /** How one received frame ends. */
  datatype Outcome =
    | Dropped                                   // not an offer to act on, or no answer
    | Caught                                    // an exception, logged by `process_message`
    | Published(destination: string, payload: Json)

  /**
   * `process_message(message, websocket)`: act on offers on the offer topic
   * for a known camera, publish the answer when there is one, and catch every
   * exception raised on the way.
   */
  function ProcessMessage(reg: Registry, f: Frame, decode: string -> Option<Json>,
                          directions: map<string, int>, engine: Engine): (r: (Registry, Outcome))
    // frames that are not decodable MESSAGEs to the offer topic change nothing
    ensures (ParseMessage(f, decode).None? || ParseMessage(f, decode).value.0 != OfferTopic) ==> r == (reg, Dropped)
    // an offer without a known camera changes nothing
    ensures (&& ParseMessage(f, decode).Some?
             && ParseOffer(ParseMessage(f, decode).value.1, directions).Parsed?
             && ParseOffer(ParseMessage(f, decode).value.1, directions).camera.None?) ==> r == (reg, Dropped)
    // an unhashable direction raises inside `parse_offer`; the exception is caught and nothing changes
    ensures (&& ParseMessage(f, decode).Some? && ParseMessage(f, decode).value.0 == OfferTopic
             && ParseOffer(ParseMessage(f, decode).value.1, directions).ParseRaised?) ==> r == (reg, Caught)
    // a publication answers an offer on the offer topic, for the camera the direction names
    ensures r.1.Published? ==>
      && ParseMessage(f, decode).Some? && ParseMessage(f, decode).value.0 == OfferTopic
      && var body := ParseMessage(f, decode).value.1;
         var p := ParseOffer(body, directions);
         && p.Parsed? && p.direction.JStr? && p.direction.s in directions
         && p.client.Hashable()
         && r.1.destination == AnswerDestination(p.client, p.direction.s)
         && ProcessOffer(reg, p.direction.s, directions[p.direction.s], p.client, body, directions, engine)
            == (r.0, Answer(r.1.payload))
    // an answered offer is always published
    ensures (&& ParseMessage(f, decode).Some? && ParseMessage(f, decode).value.0 == OfferTopic
             && ParseOffer(ParseMessage(f, decode).value.1, directions).Parsed?
             && ParseOffer(ParseMessage(f, decode).value.1, directions).camera.Some?) ==>
      var body := ParseMessage(f, decode).value.1;
      var p := ParseOffer(body, directions);
      var o := ProcessOffer(reg, p.direction.s, p.camera.value, p.client, body, directions, engine);
      && r.0 == o.0
      && (o.1.Answer? <==> r.1.Published?)
      && (o.1.OfferRaised? <==> r.1.Caught?)
    ensures r.1.Published? ==> AnswerPrefix <= r.1.destination
  {
    match ParseMessage(f, decode)
    case None => (reg, Dropped)
    case Some((endpoint, body)) =>
      if endpoint != OfferTopic then (reg, Dropped)
      else
        match ParseOffer(body, directions)
        case ParseRaised => (reg, Caught)
        case Parsed(direction, client, camera) =>
          if camera.None? then (reg, Dropped)
          else
            var (r, answer) := ProcessOffer(reg, direction.s, camera.value, client, body, directions, engine);
            match answer
            case Answer(payload) => (r, Published(AnswerDestination(client, direction.s), payload))
            case NoAnswer => (r, Dropped)
            case OfferRaised => (r, Caught)
  }

  /**
   * Handling a frame keeps the registry invariant, and keeps every session on
   * a camera of the enumeration with that camera's id.
   */
  lemma ProcessMessageKeepsInvariants(reg: Registry, f: Frame, decode: string -> Option<Json>,
                                      directions: map<string, int>, engine: Engine)
    ensures Valid(reg) ==> Valid(ProcessMessage(reg, f, decode, directions, engine).0)
    ensures Directed(reg, directions) ==> Directed(ProcessMessage(reg, f, decode, directions, engine).0, directions)
  {
    match ParseMessage(f, decode)
    case None =>
    case Some((endpoint, body)) =>
      if endpoint == OfferTopic {
        var p := ParseOffer(body, directions);
        if p.Parsed? && p.camera.Some? {
          ProcessOfferKeepsInvariants(reg, p.direction.s, p.camera.value, p.client, body, directions, engine);
        }
      }
  }

  /** The published answer carries the camera id of the direction it is addressed to. */
  lemma PublishedAnswerNamesCamera(reg: Registry, f: Frame, decode: string -> Option<Json>,
                                   directions: map<string, int>, engine: Engine)
    ensures var out := ProcessMessage(reg, f, decode, directions, engine).1;
      out.Published? ==>
      exists client: Json, d: string :: client.Hashable() && d in directions &&
        out.destination == AnswerDestination(client, d) &&
        out.payload.JObj? && "key" in out.payload.fields && out.payload.fields["key"] == JNum(directions[d])
  {
    if !ProcessMessage(reg, f, decode, directions, engine).1.Published? {
      return;
    }
    var body := ParseMessage(f, decode).value.1;
    var p := ParseOffer(body, directions);
    var out := ProcessMessage(reg, f, decode, directions, engine).1;
    var d := p.direction.s;
    var o := ProcessOffer(reg, d, directions[d], p.client, body, directions, engine);
    assert o.1.Answer?;
    var s := o.0.sessions[reg.nextId];
    assert out.payload == AnswerJson(directions[d], s.local.value);
  }

  /** What arrives on the socket: a frame (with the engine's behaviour while it is handled), or a broken connection. */
  datatype Inbound = Message(frame: Frame, engine: Engine) | ConnectionLost

  /** What the gateway writes to the socket. */
  datatype Outbound = Raw(text: string) | Subscribe(destination: string) | Send(destination: string, payload: Json)

  /**
   * `process_message` as the receive loop calls it; the loop relies only on
   * answers going to answer destinations.
   */
  function Receive(reg: Registry, m: Inbound, decode: string -> Option<Json>, directions: map<string, int>)
    : (r: (Registry, Outcome))
    requires m.Message?
    ensures r.1.Published? ==> AnswerPrefix <= r.1.destination
  {
    ProcessMessage(reg, m.frame, decode, directions, m.engine)
  }

  /**
   * The receive loop of `execute`: handle frames in order until the
   * connection fails.  Returns the registry, one outcome per handled frame,
   * and the frames sent.
   */
  function Serve(reg: Registry, inbound: seq<Inbound>, decode: string -> Option<Json>, directions: map<string, int>)
    : (r: (Registry, seq<Outcome>, seq<Outbound>))
    // the loop stops exactly at the first connection failure: a caught exception does not stop it
    ensures |r.1| <= |inbound|
    ensures forall i :: 0 <= i < |r.1| ==> inbound[i].Message?
    ensures |r.1| < |inbound| ==> inbound[|r.1|].ConnectionLost?
    // one send per publication, to the published destination, in order
    ensures r.2 == SendsOf(r.1)
    // (so, by `SendsOf`, every frame sent goes to an answer destination)
    ensures forall i :: 0 <= i < |r.1| && r.1[i].Published? ==> AnswerPrefix <= r.1[i].destination
    decreases |inbound|
  {
    if inbound == [] || inbound[0].ConnectionLost? then (reg, [], [])
    else
      var (r1, outcome) := Receive(reg, inbound[0], decode, directions);
      var sent := Sends(outcome);
      var (r2, outcomes, rest) := Serve(r1, inbound[1..], decode, directions);
      OutcomesCons(outcome, outcomes);
      HandledCons(inbound, |outcomes|);
      (r2, [outcome] + outcomes, sent + rest)
  }

  /** The frames written for one outcome: the answer, when one was published. */
  function Sends(outcome: Outcome): (sent: seq<Outbound>)
    ensures |sent| <= 1
    ensures forall i :: 0 <= i < |sent| ==> sent[i].Send?
    ensures outcome.Published? && AnswerPrefix <= outcome.destination ==>
      forall i :: 0 <= i < |sent| ==> AnswerPrefix <= sent[i].destination
    ensures outcome.Published? ==> sent == [Send(outcome.destination, outcome.payload)]
    ensures !outcome.Published? ==> sent == []
  {
    if outcome.Published? then [Send(outcome.destination, outcome.payload)] else []
  }

  /** The frames written for a sequence of outcomes: one send per publication, in order. */
  function SendsOf(outcomes: seq<Outcome>): (sent: seq<Outbound>)
    ensures |sent| <= |outcomes|
    ensures forall i :: 0 <= i < |sent| ==> sent[i].Send?
    ensures (forall i :: 0 <= i < |outcomes| && outcomes[i].Published? ==> AnswerPrefix <= outcomes[i].destination) ==>
      forall i :: 0 <= i < |sent| ==> AnswerPrefix <= sent[i].destination
  {
    if outcomes == [] then [] else Sends(outcomes[0]) + SendsOf(outcomes[1..])
  }

  /** If the loop handled n frames after a first message, it handled n + 1 messages of the whole sequence. */
  lemma HandledCons(inbound: seq<Inbound>, n: nat)
    requires 0 < |inbound| && inbound[0].Message? && n <= |inbound| - 1
    requires forall i :: 0 <= i < n ==> inbound[1..][i].Message?
    requires n < |inbound| - 1 ==> inbound[1..][n].ConnectionLost?
    ensures forall i :: 0 <= i < n + 1 ==> inbound[i].Message?
    ensures n + 1 < |inbound| ==> inbound[n + 1].ConnectionLost?
  {
    forall i | 0 <= i < n + 1
      ensures inbound[i].Message?
    {
      if i > 0 {
        assert inbound[i] == inbound[1..][i - 1];
      }
    }
  }

  /** Putting an outcome in front: its sends come first, and answer destinations are kept. */
  lemma OutcomesCons(outcome: Outcome, outcomes: seq<Outcome>)
    ensures SendsOf([outcome] + outcomes) == Sends(outcome) + SendsOf(outcomes)
    ensures (outcome.Published? ==> AnswerPrefix <= outcome.destination) &&
            (forall i :: 0 <= i < |outcomes| && outcomes[i].Published? ==> AnswerPrefix <= outcomes[i].destination) ==>
      forall i :: 0 <= i < |[outcome] + outcomes| && ([outcome] + outcomes)[i].Published? ==>
        AnswerPrefix <= ([outcome] + outcomes)[i].destination
  {
    assert ([outcome] + outcomes)[1..] == outcomes;
  }

  /**
   * The outcome of the k-th frame is `process_message` applied to the
   * registry that the frames before it left behind.
   */
  lemma {:induction false} ServeHandlesInOrder(reg: Registry, inbound: seq<Inbound>, decode: string -> Option<Json>,
                                              directions: map<string, int>, k: nat)
    requires k < |Serve(reg, inbound, decode, directions).1|
    ensures inbound[k].Message?
    ensures var prior := Serve(reg, inbound[..k], decode, directions).0;
      Serve(reg, inbound, decode, directions).1[k]
        == Receive(prior, inbound[k], decode, directions).1
    decreases k, 1
  {
    if k == 0 {
      ServeHandlesFirst(reg, inbound, decode, directions);
    } else {
      ServeHandlesLater(reg, inbound, decode, directions, k);
    }
  }

  /** The first outcome is the first frame handled on the initial registry. */
  lemma ServeHandlesFirst(reg: Registry, inbound: seq<Inbound>, decode: string -> Option<Json>, directions: map<string, int>)
    requires 0 < |Serve(reg, inbound, decode, directions).1|
    ensures inbound[0].Message?
    ensures Serve(reg, inbound, decode, directions).1[0]
         == Receive(Serve(reg, inbound[..0], decode, directions).0, inbound[0], decode, directions).1
  {
    ServeOutcomeAt(reg, inbound, decode, directions, 0);
    assert inbound[..0] == [];
  }

  /** The inductive step: outcome k is outcome k - 1 of the loop over the frames after the first. */
  lemma {:induction false} ServeHandlesLater(reg: Registry, inbound: seq<Inbound>, decode: string -> Option<Json>,
                                            directions: map<string, int>, k: nat)
    requires 0 < k < |Serve(reg, inbound, decode, directions).1|
    ensures inbound[k].Message?
    ensures Serve(reg, inbound, decode, directions).1[k]
         == Receive(Serve(reg, inbound[..k], decode, directions).0, inbound[k], decode, directions).1
    decreases k, 0
  {
    ServeOutcomeAt(reg, inbound, decode, directions, k);
    var r1 := Receive(reg, inbound[0], decode, directions).0;
    ServeHandlesInOrder(r1, inbound[1..], decode, directions, k - 1);
    ServePrefixAfterHead(reg, inbound, decode, directions, k);
    assert inbound[1..][k - 1] == inbound[k];
  }

  /** Outcome k of the loop is the first frame's outcome, or outcome k - 1 of the loop over the rest. */
  lemma ServeOutcomeAt(reg: Registry, inbound: seq<Inbound>, decode: string -> Option<Json>,
                       directions: map<string, int>, k: nat)
    requires k < |Serve(reg, inbound, decode, directions).1|
    ensures inbound[0].Message?
    ensures k == 0 ==> Serve(reg, inbound, decode, directions).1[0] == Receive(reg, inbound[0], decode, directions).1
    ensures var r1 := Receive(reg, inbound[0], decode, directions).0;
      k > 0 ==>
        && k - 1 < |Serve(r1, inbound[1..], decode, directions).1|
        && Serve(reg, inbound, decode, directions).1[k] == Serve(r1, inbound[1..], decode, directions).1[k - 1]
  {
    var m, rest := inbound[0], inbound[1..];
    assert inbound == [m] + rest;
    ServeStep(reg, m, rest, decode, directions);
  }

  /** The loop over the first k frames is the first frame's turn followed by the loop over the next k - 1. */
  lemma ServePrefixAfterHead(reg: Registry, inbound: seq<Inbound>, decode: string -> Option<Json>,
                             directions: map<string, int>, k: nat)
    requires 0 < k <= |inbound| && inbound[0].Message?
    ensures Serve(reg, inbound[..k], decode, directions).0
         == Serve(Receive(reg, inbound[0], decode, directions).0, inbound[1..][..k - 1], decode, directions).0
  {
    assert inbound[..k] == [inbound[0]] + inbound[1..][..k - 1];
    ServeStep(reg, inbound[0], inbound[1..][..k - 1], decode, directions);
  }

  /** One turn of the receive loop on a frame. */
  lemma ServeStep(reg: Registry, m: Inbound, rest: seq<Inbound>, decode: string -> Option<Json>, directions: map<string, int>)
    requires m.Message?
    ensures Serve(reg, [m] + rest, decode, directions).0 == Serve(Receive(reg, m, decode, directions).0, rest, decode, directions).0
    ensures Serve(reg, [m] + rest, decode, directions).1
         == [Receive(reg, m, decode, directions).1] + Serve(Receive(reg, m, decode, directions).0, rest, decode, directions).1
  {
    assert ([m] + rest)[1..] == rest;
  }

  /** The receive loop keeps the registry invariants. */
  lemma {:induction false} ServeKeepsInvariants(reg: Registry, inbound: seq<Inbound>, decode: string -> Option<Json>,
                                               directions: map<string, int>)
    ensures Valid(reg) ==> Valid(Serve(reg, inbound, decode, directions).0)
    ensures Directed(reg, directions) ==> Directed(Serve(reg, inbound, decode, directions).0, directions)
    decreases |inbound|
  {
    if inbound != [] && inbound[0].Message? {
      ProcessMessageKeepsInvariants(reg, inbound[0].frame, decode, directions, inbound[0].engine);
      var r1 := Receive(reg, inbound[0], decode, directions).0;
      ServeKeepsInvariants(r1, inbound[1..], decode, directions);
    }
  }

  /** Frames after a connection failure are never handled, whatever came before. */
  lemma {:induction false} ServeStopsAtConnectionLoss(reg: Registry, before: seq<Inbound>, after: seq<Inbound>,
                                                     decode: string -> Option<Json>, directions: map<string, int>)
    requires forall i :: 0 <= i < |before| ==> before[i].Message?
    ensures |Serve(reg, before + [ConnectionLost] + after, decode, directions).1| == |before|
    ensures Serve(reg, before + [ConnectionLost] + after, decode, directions) == Serve(reg, before, decode, directions)
    decreases |before|
  {
    if before != [] {
      var r1 := Receive(reg, before[0], decode, directions).0;
      assert (before + [ConnectionLost] + after)[1..] == before[1..] + [ConnectionLost] + after;
      ServeStopsAtConnectionLoss(r1, before[1..], after, decode, directions);
    }
  }

  /**
   * `execute()` once the socket is open: the CONNECT literal, the
   * subscription to the offer topic, then one send per published answer.
   */
  function Execute(reg: Registry, inbound: seq<Inbound>, decode: string -> Option<Json>, directions: map<string, int>)
    : (r: (Registry, seq<Outbound>))
    ensures |r.1| >= 2 && r.1[0] == Raw(ConnectLiteral) && r.1[1] == Subscribe(OfferTopic)
    ensures forall i :: 2 <= i < |r.1| ==> r.1[i].Send?
    // the rest is what the receive loop sends, and the registry is the one it leaves
    ensures r.0 == Serve(reg, inbound, decode, directions).0 && r.1[2..] == Serve(reg, inbound, decode, directions).2
  {
    var (r1, _, sent) := Serve(reg, inbound, decode, directions);
    (r1, [Raw(ConnectLiteral), Subscribe(OfferTopic)] + sent)
  }
}
