/**
 * The peer-session registry of the WebRTC module: the two-level dictionary
 * `client_id -> camera_id -> session`, and the operations that close one
 * session, answer an offer (closing any session already registered for the
 * key first) and close everything at shutdown.
 *
 * Sessions are opaque ids into a session table that remembers whether each
 * session is open, the offer it was given and the local description it
 * produced.  The media engine is an `Engine` value that says which sessions'
 * `close` raises and how negotiation ends; everything it does internally
 * (SDP offer/answer, ICE, DTLS) is outside the model.
 */
module Registry {

  import opened Optional
  import opened JsonValue

  type SessionId = nat

  /** An SDP description as the engine reports it (`sdp`, `type`). */
  datatype Desc = Desc(sdp: string, descType: string)

  /** The remote offer as handed to the engine; its fields are whatever the message carried. */
  datatype Offer = Offer(sdp: Json, offerType: Json)

  datatype Session = Session(
    client: Json,
    cameraId: int,
    direction: string,          // also the key of the shared video track in `direction_to_video`
    open: bool,
    remote: Option<Offer>,
    local: Option<Desc>)

  /** What happened to sessions, in order. */
  datatype Event = Created(id: SessionId) | Closed(id: SessionId) | CloseRaised(id: SessionId)

  datatype Registry = Registry(
    pcs: map<Json, map<int, SessionId>>,
    sessions: map<SessionId, Session>,
    nextId: SessionId,
    log: seq<Event>)

  const Empty: Registry := Registry(map[], map[], 0, [])

  /** How the engine behaves during one operation. */
  datatype Negotiation = NegotiationRaises | Negotiated(local: Desc)
  /**
   * `closeRaises`: sessions whose first `close` in the call raises;
   * `retryRaises`: sessions whose second `close`, in the `except` path, raises.
   */
  datatype Engine = Engine(closeRaises: set<SessionId>, retryRaises: set<SessionId>, negotiation: Negotiation)

  datatype OfferResult = Answer(payload: Json) | NoAnswer | OfferRaised

  /** `pcs[client][camera]`, if registered. */
  function Lookup(pcs: map<Json, map<int, SessionId>>, client: Json, camera: int): Option<SessionId>
  {
    if client in pcs && camera in pcs[client] then Some(pcs[client][camera]) else None
  }

  /** Every registered (client, camera) pair. */
  function Keys(pcs: map<Json, map<int, SessionId>>): (ks: set<(Json, int)>)
    ensures forall c, k :: (c, k) in ks <==> Lookup(pcs, c, k).Some?
  {
    set c, k | c in pcs && k in pcs[c] :: (c, k)
  }

  /**
   * The registry's representation invariant: every registered id names a
   * session created for exactly that key, and ids are handed out in order.
   */
  ghost predicate Valid(reg: Registry)
  {
    && (forall c, k :: Lookup(reg.pcs, c, k).Some? ==>
          var id := Lookup(reg.pcs, c, k).value;
          id in reg.sessions && reg.sessions[id].client == c && reg.sessions[id].cameraId == k && c.Hashable())
    && (forall id :: id in reg.sessions ==> id < reg.nextId)
  }

  /** Every session belongs to a camera of the enumeration and carries that camera's id. */
  ghost predicate Directed(reg: Registry, directions: map<string, int>)
  {
    forall id :: id in reg.sessions ==>
      reg.sessions[id].direction in directions && reg.sessions[id].cameraId == directions[reg.sessions[id].direction]
  }

  ghost predicate Injective(directions: map<string, int>)
  {
    forall d1, d2 :: d1 in directions && d2 in directions && d1 != d2 ==> directions[d1] != directions[d2]
  }

  /** Two different keys never share a session. */
  lemma RegisteredIdsDistinct(reg: Registry, c1: Json, k1: int, c2: Json, k2: int)
    requires Valid(reg)
    requires Lookup(reg.pcs, c1, k1).Some? && Lookup(reg.pcs, c2, k2).Some?
    requires (c1, k1) != (c2, k2)
    ensures Lookup(reg.pcs, c1, k1) != Lookup(reg.pcs, c2, k2)
  {
  }

  /**
   * All sessions watching one camera share that camera's single video track
   * `direction_to_video[direction]`: with an injective direction table the
   * camera id determines the direction.
   */
  lemma SameCameraSameTrack(reg: Registry, directions: map<string, int>, id1: SessionId, id2: SessionId)
    requires Directed(reg, directions) && Injective(directions)
    requires id1 in reg.sessions && id2 in reg.sessions
    requires reg.sessions[id1].cameraId == reg.sessions[id2].cameraId
    ensures reg.sessions[id1].direction == reg.sessions[id2].direction
  {
  }

  /** The two tables hold the same sessions, differing at most in which are open. */
  ghost predicate SameSessionsUpToOpen(before: map<SessionId, Session>, after: map<SessionId, Session>)
  {
    && after.Keys == before.Keys
    && forall id :: id in after ==> after[id] == before[id].(open := after[id].open)
  }

  function MarkClosed(sessions: map<SessionId, Session>, id: SessionId): map<SessionId, Session>
  {
    if id in sessions then sessions[id := sessions[id].(open := false)] else sessions
  }

  /**
   * `close_peer_connection(client, camera)`: the registry afterwards and
   * whether the call raised.  A client that cannot be hashed raises on the
   * membership test; a `close` that raises leaves the entry registered.
   */
  function ClosePeerConnection(reg: Registry, client: Json, camera: int, closeRaises: set<SessionId>): (r: (Registry, bool))
    // absent key: nothing happens
    ensures client.Hashable() && Lookup(reg.pcs, client, camera).None? ==> r == (reg, false)
    // present key: exactly one close attempt, and the entry goes only if it succeeded
    ensures client.Hashable() && Lookup(reg.pcs, client, camera).Some? ==>
      var id := Lookup(reg.pcs, client, camera).value;
      if id in closeRaises then
        r.1 && r.0.pcs == reg.pcs && r.0.sessions == reg.sessions && r.0.log == reg.log + [CloseRaised(id)]
      else
        && !r.1
        && Lookup(r.0.pcs, client, camera).None?
        && r.0.sessions == MarkClosed(reg.sessions, id)
        && r.0.log == reg.log + [Closed(id)]
    ensures !client.Hashable() ==> r == (reg, true)
    // every other key keeps its session
    ensures forall c, k :: (c, k) != (client, camera) ==> Lookup(r.0.pcs, c, k) == Lookup(reg.pcs, c, k)
    ensures r.0.nextId == reg.nextId && r.0.pcs.Keys == reg.pcs.Keys
    // only open flags change in the session table
    ensures SameSessionsUpToOpen(reg.sessions, r.0.sessions)
    ensures Valid(reg) ==> Valid(r.0)
  {
    if !client.Hashable() then (reg, true)
    else match Lookup(reg.pcs, client, camera)
      case None => (reg, false)
      case Some(id) =>
        if id in closeRaises then
          (reg.(log := reg.log + [CloseRaised(id)]), true)
        else
          (reg.(pcs := reg.pcs[client := reg.pcs[client] - {camera}],
                sessions := MarkClosed(reg.sessions, id),
                log := reg.log + [Closed(id)]), false)
  }

  /** `offer_data["body"]` when the message wraps the offer, the message itself otherwise. */
  function OfferBody(offerData: Json): (body: Json)
    ensures offerData.JObj? && "body" in offerData.fields ==> body == offerData.fields["body"]
    ensures !(offerData.JObj? && "body" in offerData.fields) ==> body == offerData
  {
    if offerData.JObj? && "body" in offerData.fields then offerData.fields["body"] else offerData
  }

  /**
   * The offer body survives the logging line: it is a dict (it is read with
   * `.get`) and its `sdp`, when present, has a length.
   */
  predicate Loggable(body: Json)
    ensures Loggable(body) ==> body.JObj?
    // a number, boolean or null `sdp` makes `len` raise
    ensures body.JObj? && "sdp" in body.fields && (body.fields["sdp"].JNum? || body.fields["sdp"].JBool? || body.fields["sdp"].JNull?)
      ==> !Loggable(body)
  {
    body.JObj? && ("sdp" in body.fields ==> body.fields["sdp"].HasLen())
  }

  /** Both `sdp` and `type` are present and truthy. */
  predicate Complete(body: Json)
    requires body.JObj?
    ensures Complete(body) ==> "sdp" in body.fields && "type" in body.fields
    ensures Complete(body) ==> body.fields["sdp"] != JStr("") && body.fields["type"] != JNull
  {
    body.Get("sdp").Truthy() && body.Get("type").Truthy()
  }
  /** The offer ends in the `except` path: the logging line raises, or the negotiation does. */
  predicate Abandoned(body: Json, engine: Engine)
  {
    !Loggable(body) || (Complete(body) && engine.negotiation.NegotiationRaises?)
  }


  /** `json.dumps({"key": camera_id, "body": {"sdp": ..., "type": ...}})`, before serialisation. */
  function AnswerJson(camera: int, local: Desc): Json
  {
    JObj(map["key" := JNum(camera),
             "body" := JObj(map["sdp" := JStr(local.sdp), "type" := JStr(local.descType)])])
  }

  /** The `except` path of `process_offer`: close whatever is registered at the key and return None. */
  function Abandon(reg: Registry, client: Json, camera: int, closeRaises: set<SessionId>): (r: (Registry, OfferResult))
    ensures !r.1.Answer?
    // the call raises exactly when the client cannot be hashed or the close raises
    ensures r.1.OfferRaised? <==>
      !client.Hashable() || (Lookup(reg.pcs, client, camera).Some? && Lookup(reg.pcs, client, camera).value in closeRaises)
    // otherwise the key ends up empty
    ensures r.1.NoAnswer? ==> Lookup(r.0.pcs, client, camera).None?
    // and the session that was there is closed
    ensures client.Hashable() && Lookup(reg.pcs, client, camera).Some? && Lookup(reg.pcs, client, camera).value !in closeRaises ==>
      r.0.sessions == MarkClosed(reg.sessions, Lookup(reg.pcs, client, camera).value)
    // the one close attempt is the only event logged, and no id is used up
    ensures client.Hashable() && Lookup(reg.pcs, client, camera).Some? ==>
      var id := Lookup(reg.pcs, client, camera).value;
      r.0.log == reg.log + [if id in closeRaises then CloseRaised(id) else Closed(id)]
    ensures !client.Hashable() || Lookup(reg.pcs, client, camera).None? ==> r.0.log == reg.log
    ensures r.0.nextId == reg.nextId
  {
    var (r, raised) := ClosePeerConnection(reg, client, camera, closeRaises);
    (r, if raised then OfferRaised else NoAnswer)
  }

  /** `pcs[client][camera] = id` on the default dictionary. */
  function Register(pcs: map<Json, map<int, SessionId>>, client: Json, camera: int, id: SessionId): (p: map<Json, map<int, SessionId>>)
    ensures Lookup(p, client, camera) == Some(id)
    ensures forall c, k :: (c, k) != (client, camera) ==> Lookup(p, c, k) == Lookup(pcs, c, k)
  {
    var inner := if client in pcs then pcs[client] else map[];
    pcs[client := inner[camera := id]]
  }

  /** `create_peer_connection(direction)` followed by `pcs[client][camera] = pc`. */
  function RegisterSession(r1: Registry, direction: string, camera: int, client: Json): (r2: Registry)
    ensures Lookup(r2.pcs, client, camera) == Some(r1.nextId)
    ensures forall c, k :: (c, k) != (client, camera) ==> Lookup(r2.pcs, c, k) == Lookup(r1.pcs, c, k)
    ensures r2.sessions == r1.sessions[r1.nextId := Session(client, camera, direction, true, None, None)]
    ensures r2.nextId == r1.nextId + 1
    ensures r2.log == r1.log + [Created(r1.nextId)]
    ensures Valid(r1) && client.Hashable() ==> Valid(r2)
  {
    var id := r1.nextId;
    r1.(pcs := Register(r1.pcs, client, camera, id),
        sessions := r1.sessions[id := Session(client, camera, direction, true, None, None)],
        nextId := id + 1,
        log := r1.log + [Created(id)])
  }

  /**
   * The part of `process_offer` after registration: pick and check the offer
   * body, then negotiate.  `id` is the session just registered at the key.
   */
  function AnswerOffer(r2: Registry, id: SessionId, camera: int, client: Json, body: Json, engine: Engine): (r: (Registry, OfferResult))
    requires client.Hashable() && Lookup(r2.pcs, client, camera) == Some(id) && id in r2.sessions
    ensures forall c, k :: (c, k) != (client, camera) ==> Lookup(r.0.pcs, c, k) == Lookup(r2.pcs, c, k)
    ensures |r.0.log| >= |r2.log| && r.0.log[..|r2.log|] == r2.log
    ensures forall i :: |r2.log| <= i < |r.0.log| ==> !r.0.log[i].Created? && r.0.log[i].id == id
    ensures r.1.Answer? ==>
      && Lookup(r.0.pcs, client, camera) == Some(id)
      && id in r.0.sessions
      && var s := r.0.sessions[id];
         && s == r2.sessions[id].(remote := s.remote, local := s.local)
         && s.local.Some?
         && r.1.payload == AnswerJson(camera, s.local.value)
         && Loggable(body) && Complete(body)
         && engine.negotiation == Negotiated(s.local.value)
    ensures Loggable(body) && !Complete(body) ==> r == (r2, NoAnswer)
    // a body the logging line cannot print raises there; the `except` path closes and unregisters the new session
    ensures !Loggable(body) && id !in engine.closeRaises ==>
      && r.1 == NoAnswer
      && Lookup(r.0.pcs, client, camera).None?
      && id in r.0.sessions && !r.0.sessions[id].open
    ensures Loggable(body) && Complete(body) && engine.negotiation.NegotiationRaises? && id !in engine.closeRaises ==>
      && r.1 == NoAnswer
      && Lookup(r.0.pcs, client, camera).None?
      && id in r.0.sessions && !r.0.sessions[id].open
    // when the `except` path's close of the new session raises, that exception propagates and the session stays registered
    ensures Abandoned(body, engine) && id in engine.closeRaises ==> r == (r2.(log := r2.log + [CloseRaised(id)]), OfferRaised)
    ensures r.1.OfferRaised? ==> |r.0.log| > |r2.log| && r.0.log[|r.0.log| - 1].CloseRaised?
    ensures SameSessionsUpToOpen(r2.sessions, r.0.sessions) || r.1.Answer?
    ensures r.0.sessions.Keys == r2.sessions.Keys && r.0.nextId == r2.nextId
    ensures forall i :: i in r.0.sessions ==>
      r.0.sessions[i].(open := true, remote := None, local := None) == r2.sessions[i].(open := true, remote := None, local := None)
    ensures Valid(r2) ==> Valid(r.0)
  {
    if !Loggable(body) then
      Abandon(r2, client, camera, engine.closeRaises)
    else if !Complete(body) then
      (r2, NoAnswer)
    else
      match engine.negotiation
      case NegotiationRaises =>
        Abandon(r2, client, camera, engine.closeRaises)
      case Negotiated(local) =>
        var s := r2.sessions[id].(remote := Some(Offer(body.Get("sdp"), body.Get("type"))), local := Some(local));
        (r2.(sessions := r2.sessions[id := s]), Answer(AnswerJson(camera, local)))
  }

  /**
   * The part of `process_offer` after the key has been cleared: create and
   * register the session, pick and check the offer body, negotiate.
   */
  function CreateAndAnswer(r1: Registry, direction: string, camera: int, client: Json, offerData: Json,
                           directions: map<string, int>, engine: Engine): (r: (Registry, OfferResult))
    requires client.Hashable() && Lookup(r1.pcs, client, camera).None?
    ensures forall c, k :: (c, k) != (client, camera) ==> Lookup(r.0.pcs, c, k) == Lookup(r1.pcs, c, k)
    ensures |r.0.log| >= |r1.log| && r.0.log[..|r1.log|] == r1.log
    // the only creation is the first new event, and it uses the next id
    ensures forall i :: |r1.log| <= i < |r.0.log| && r.0.log[i].Created? ==> i == |r1.log|
    // everything that happens concerns the new session
    ensures forall i :: |r1.log| <= i < |r.0.log| ==> r.0.log[i].id == r1.nextId
    ensures r.1.Answer? ==>
      && Lookup(r.0.pcs, client, camera) == Some(r1.nextId)
      && r1.nextId in r.0.sessions
      && var s := r.0.sessions[r1.nextId];
         && s.open && s.local.Some? && s.direction == direction
         && r.1.payload == AnswerJson(camera, s.local.value)
         && Loggable(OfferBody(offerData)) && Complete(OfferBody(offerData))
         && engine.negotiation == Negotiated(s.local.value)
    ensures direction in directions && Loggable(OfferBody(offerData)) && !Complete(OfferBody(offerData)) ==>
      && r.1 == NoAnswer
      && Lookup(r.0.pcs, client, camera) == Some(r1.nextId)
      && r1.nextId in r.0.sessions && r.0.sessions[r1.nextId].open
    ensures && direction in directions
            && Loggable(OfferBody(offerData)) && Complete(OfferBody(offerData))
            && engine.negotiation.NegotiationRaises? && r1.nextId !in engine.closeRaises ==>
      && r.1 == NoAnswer
      && Lookup(r.0.pcs, client, camera).None?
      && r1.nextId in r.0.sessions && !r.0.sessions[r1.nextId].open
    ensures r.1.OfferRaised? ==> |r.0.log| > |r1.log| && r.0.log[|r.0.log| - 1].CloseRaised?
  {
    if direction !in directions then
      // `CameraDirection[direction]` / `addTrack(None)` raise before registration;
      // the `except` path finds nothing to close
      (r1, NoAnswer)
    else
      var r2 := RegisterSession(r1, direction, camera, client);
      AnswerOffer(r2, r1.nextId, camera, client, OfferBody(offerData), engine)
  }

  /**
   * `process_offer(direction, camera_id, client_id, offer_data)`.  Steps, in
   * the source's order: close the session at the key (its failure lands in the
   * `except` path, which tries to close it again); create the session (this
   * raises for a direction outside the enumeration) and register it; pick the
   * offer body; log it; validate `sdp` and `type`; negotiate with the engine.
   */
  function ProcessOffer(reg: Registry, direction: string, camera: int, client: Json, offerData: Json,
                        directions: map<string, int>, engine: Engine): (r: (Registry, OfferResult))
    // every other key keeps its session
    ensures forall c, k :: (c, k) != (client, camera) ==> Lookup(r.0.pcs, c, k) == Lookup(reg.pcs, c, k)
    // the log only grows
    ensures |r.0.log| >= |reg.log| && r.0.log[..|reg.log|] == reg.log
    // a session already at the key is the first thing closed; everything after concerns the new one
    ensures client.Hashable() && Lookup(reg.pcs, client, camera).Some? ==>
      && |r.0.log| > |reg.log|
      && r.0.log[|reg.log|].id == Lookup(reg.pcs, client, camera).value
      && (r.0.log[|reg.log|].Closed? ==> forall i :: |reg.log| < i < |r.0.log| ==> r.0.log[i].id == reg.nextId)
    // a new session is created only once the old one is closed
    ensures forall i :: |reg.log| <= i < |r.0.log| && r.0.log[i].Created? ==>
      && r.0.log[i].id == reg.nextId
      && (Lookup(reg.pcs, client, camera).None? ==> i == |reg.log|)
      && (Lookup(reg.pcs, client, camera).Some? ==>
            i == |reg.log| + 1 && r.0.log[|reg.log|] == Closed(Lookup(reg.pcs, client, camera).value))
    // an answer describes the new session, now registered at the key and open
    ensures r.1.Answer? ==>
      && client.Hashable()
      && Lookup(r.0.pcs, client, camera) == Some(reg.nextId)
      && reg.nextId in r.0.sessions
      && var s := r.0.sessions[reg.nextId];
         && s.open && s.local.Some? && s.direction == direction
         && r.1.payload == AnswerJson(camera, s.local.value)
         && Loggable(OfferBody(offerData)) && Complete(OfferBody(offerData))
         && engine.negotiation == Negotiated(s.local.value)
    // an offer without sdp or type is refused after the new session was registered, which stays
    ensures && client.Hashable()
            && (Lookup(reg.pcs, client, camera).None? || Lookup(reg.pcs, client, camera).value !in engine.closeRaises)
            && direction in directions
            && Loggable(OfferBody(offerData)) && !Complete(OfferBody(offerData)) ==>
      && r.1 == NoAnswer
      && Lookup(r.0.pcs, client, camera) == Some(reg.nextId)
      && reg.nextId in r.0.sessions && r.0.sessions[reg.nextId].open
    // a failed negotiation closes and removes the new session
    ensures && client.Hashable()
            && (Lookup(reg.pcs, client, camera).None? || Lookup(reg.pcs, client, camera).value !in engine.closeRaises)
            && direction in directions
            && Loggable(OfferBody(offerData)) && Complete(OfferBody(offerData))
            && engine.negotiation.NegotiationRaises? && reg.nextId !in engine.closeRaises ==>
      && r.1 == NoAnswer
      && Lookup(r.0.pcs, client, camera).None?
      && reg.nextId in r.0.sessions && !r.0.sessions[reg.nextId].open
    // an unhashable client makes `client_id in pcs` raise, in the `try` and again in the `except` path: nothing changes
    ensures !client.Hashable() ==> r == (reg, OfferRaised)
    // the call raises only for an unhashable client or because a close raised last
    ensures r.1.OfferRaised? ==>
      !client.Hashable() || (|r.0.log| > |reg.log| && r.0.log[|r.0.log| - 1].CloseRaised?)
  {
    var (r1, raised) := ClosePeerConnection(reg, client, camera, engine.closeRaises);
    if raised then
      Abandon(r1, client, camera, engine.retryRaises)
    else
      assert r1.nextId == reg.nextId && Lookup(r1.pcs, client, camera).None?;
      assert Lookup(reg.pcs, client, camera).None? ==> r1.log == reg.log;
      assert Lookup(reg.pcs, client, camera).Some? ==> r1.log == reg.log + [Closed(Lookup(reg.pcs, client, camera).value)];
      CreateAndAnswer(r1, direction, camera, client, offerData, directions, engine)
  }

  /** The new session of an offer is created and registered only in `CreateAndAnswer`, keeping the invariants. */
  lemma CreateAndAnswerKeepsInvariants(r1: Registry, direction: string, camera: int, client: Json, offerData: Json,
                                       directions: map<string, int>, engine: Engine)
    requires client.Hashable() && Lookup(r1.pcs, client, camera).None?
    ensures var r := CreateAndAnswer(r1, direction, camera, client, offerData, directions, engine);
      && (Valid(r1) ==> Valid(r.0))
      && (Directed(r1, directions) && (direction in directions ==> camera == directions[direction]) ==>
            Directed(r.0, directions))
  {
    if direction in directions {
      var r2 := RegisterSession(r1, direction, camera, client);
      var r := AnswerOffer(r2, r1.nextId, camera, client, OfferBody(offerData), engine);
      assert r == CreateAndAnswer(r1, direction, camera, client, offerData, directions, engine);
      if Directed(r1, directions) && camera == directions[direction] {
        assert Directed(r2, directions);
        DirectedKept(r2, r.0, directions);
      }
    }
  }

  /** Directedness depends only on each session's direction and camera id. */
  lemma DirectedKept(a: Registry, b: Registry, directions: map<string, int>)
    requires Directed(a, directions) && b.sessions.Keys == a.sessions.Keys
    requires forall i :: i in b.sessions ==>
      b.sessions[i].(open := true, remote := None, local := None) == a.sessions[i].(open := true, remote := None, local := None)
    ensures Directed(b, directions)
  {
    forall i | i in b.sessions
      ensures b.sessions[i].direction == a.sessions[i].direction && b.sessions[i].cameraId == a.sessions[i].cameraId
    {
      var x, y := b.sessions[i], a.sessions[i];
      assert x.(open := true, remote := None, local := None).direction == x.direction;
      assert y.(open := true, remote := None, local := None).direction == y.direction;
    }
  }

  /**
   * `process_offer` keeps the registry invariant, and keeps every session on a
   * camera of the enumeration when the camera id is the direction's.
   */
  lemma ProcessOfferKeepsInvariants(reg: Registry, direction: string, camera: int, client: Json, offerData: Json,
                                    directions: map<string, int>, engine: Engine)
    ensures var r := ProcessOffer(reg, direction, camera, client, offerData, directions, engine);
      && (Valid(reg) ==> Valid(r.0))
      && (Directed(reg, directions) && (direction in directions ==> camera == directions[direction]) ==>
            Directed(r.0, directions))
  {
    var (r1, raised) := ClosePeerConnection(reg, client, camera, engine.closeRaises);
    assert Directed(reg, directions) ==> Directed(r1, directions);
    if !raised {
      CreateAndAnswerKeepsInvariants(r1, direction, camera, client, offerData, directions, engine);
    }
  }

  /** Answering touches no session but the new one. */
  lemma AnswerOfferOthersUntouched(r2: Registry, id: SessionId, camera: int, client: Json, body: Json, engine: Engine)
    requires client.Hashable() && Lookup(r2.pcs, client, camera) == Some(id) && id in r2.sessions
    ensures var r := AnswerOffer(r2, id, camera, client, body, engine);
      forall i :: i in r2.sessions && i != id ==> i in r.0.sessions && r.0.sessions[i] == r2.sessions[i]
  {
  }

  /**
   * After the key is cleared: an unknown direction raises before anything is
   * created (and the `except` path finds nothing to close); otherwise the
   * creation of the new session is the first thing logged.  No session that
   * existed before is touched.
   */
  lemma CreateAndAnswerLogsCreation(r1: Registry, direction: string, camera: int, client: Json, offerData: Json,
                                    directions: map<string, int>, engine: Engine)
    requires client.Hashable() && Lookup(r1.pcs, client, camera).None?
    ensures var r := CreateAndAnswer(r1, direction, camera, client, offerData, directions, engine);
      && (direction !in directions ==> r == (r1, NoAnswer))
      && (direction in directions ==> |r.0.log| > |r1.log| && r.0.log[|r1.log|] == Created(r1.nextId))
      && (forall i :: i in r1.sessions && i != r1.nextId ==> i in r.0.sessions && r.0.sessions[i] == r1.sessions[i])
  {
    if direction in directions {
      var r2 := RegisterSession(r1, direction, camera, client);
      AnswerOfferOthersUntouched(r2, r1.nextId, camera, client, OfferBody(offerData), engine);
    }
  }

  /**
   * `process_offer` leaves every other session as it was, and the session it
   * replaces at the key ends closed unless both attempts to close it raise.
   */
  lemma ProcessOfferClosesOnlyTheReplaced(reg: Registry, direction: string, camera: int, client: Json, offerData: Json,
                                          directions: map<string, int>, engine: Engine)
    ensures var r := ProcessOffer(reg, direction, camera, client, offerData, directions, engine);
      forall id :: id in reg.sessions && id != reg.nextId && Some(id) != Lookup(reg.pcs, client, camera) ==>
        id in r.0.sessions && r.0.sessions[id] == reg.sessions[id]
    ensures var r := ProcessOffer(reg, direction, camera, client, offerData, directions, engine);
      client.Hashable() && Lookup(reg.pcs, client, camera).Some? ==>
      var prev := Lookup(reg.pcs, client, camera).value;
      prev in reg.sessions && prev != reg.nextId && (prev !in engine.closeRaises || prev !in engine.retryRaises) ==>
        prev in r.0.sessions && !r.0.sessions[prev].open
  {
    var (r1, raised) := ClosePeerConnection(reg, client, camera, engine.closeRaises);
    if !raised && client.Hashable() {
      CreateAndAnswerLogsCreation(r1, direction, camera, client, offerData, directions, engine);
    }
  }

  /**
   * A first close that raises sends `process_offer` to its `except` path,
   * which closes the key again and returns None (or raises, when that close
   * raises too); no session is created.
   */
  lemma ProcessOfferRetriesClose(reg: Registry, direction: string, camera: int, client: Json, offerData: Json,
                                 directions: map<string, int>, engine: Engine)
    requires client.Hashable() && Lookup(reg.pcs, client, camera).Some?
    requires Lookup(reg.pcs, client, camera).value in engine.closeRaises
    ensures var r := ProcessOffer(reg, direction, camera, client, offerData, directions, engine);
      var prev := Lookup(reg.pcs, client, camera).value;
      && r.0.nextId == reg.nextId
      && (prev in engine.retryRaises ==>
            r.1 == OfferRaised && r.0.pcs == reg.pcs && r.0.log == reg.log + [CloseRaised(prev), CloseRaised(prev)])
      && (prev !in engine.retryRaises ==>
            && r.1 == NoAnswer && Lookup(r.0.pcs, client, camera).None?
            && r.0.log == reg.log + [CloseRaised(prev), Closed(prev)]
            && r.0.sessions == MarkClosed(reg.sessions, prev))
  {
  }

  /**
   * A session is created exactly when the client can be hashed, the key was
   * cleared and the direction names a camera.
   */
  lemma ProcessOfferCreates(reg: Registry, direction: string, camera: int, client: Json, offerData: Json,
                            directions: map<string, int>, engine: Engine)
    ensures var r := ProcessOffer(reg, direction, camera, client, offerData, directions, engine);
      (&& client.Hashable() && direction in directions
       && (Lookup(reg.pcs, client, camera).None? || Lookup(reg.pcs, client, camera).value !in engine.closeRaises))
      <==> Created(reg.nextId) in r.0.log[|reg.log|..]
  {
    var r := ProcessOffer(reg, direction, camera, client, offerData, directions, engine);
    var (r1, raised) := ClosePeerConnection(reg, client, camera, engine.closeRaises);
    if !raised && client.Hashable() {
      CreateAndAnswerLogsCreation(r1, direction, camera, client, offerData, directions, engine);
      if direction in directions {
        assert r.0.log[|reg.log|..][|r1.log| - |reg.log|] == Created(reg.nextId);
      }
    }
  }

  /**
   * After the key is cleared, an offer that ends in the `except` path (a body
   * the logging line cannot print, or a failed negotiation) returns None once
   * the new session is closed and unregistered; when that close raises, the
   * exception propagates and the new session stays registered and open.
   */
  lemma CreateAndAnswerAbandoned(r1: Registry, direction: string, camera: int, client: Json, offerData: Json,
                                 directions: map<string, int>, engine: Engine)
    requires client.Hashable() && Lookup(r1.pcs, client, camera).None?
    requires direction in directions && Abandoned(OfferBody(offerData), engine)
    ensures var r := CreateAndAnswer(r1, direction, camera, client, offerData, directions, engine);
      && r1.nextId in r.0.sessions
      && (r1.nextId !in engine.closeRaises ==>
            && r.1 == NoAnswer
            && Lookup(r.0.pcs, client, camera).None?
            && !r.0.sessions[r1.nextId].open)
      && (r1.nextId in engine.closeRaises ==>
            && r.1 == OfferRaised
            && Lookup(r.0.pcs, client, camera) == Some(r1.nextId)
            && r.0.sessions[r1.nextId].open
            && r.0.log == r1.log + [Created(r1.nextId), CloseRaised(r1.nextId)])
  {
    var r2 := RegisterSession(r1, direction, camera, client);
    assert CreateAndAnswer(r1, direction, camera, client, offerData, directions, engine)
        == AnswerOffer(r2, r1.nextId, camera, client, OfferBody(offerData), engine);
  }

  /**
   * An offer that ends in the `except` path (a body the logging line cannot
   * print, or a failed negotiation), once the key was cleared: the new session
   * is closed and unregistered and nothing is returned, or, when that close
   * raises, the call raises with the new session still registered and open.
   */
  lemma ProcessOfferAbandoned(reg: Registry, direction: string, camera: int, client: Json, offerData: Json,
                              directions: map<string, int>, engine: Engine)
    requires client.Hashable() && direction in directions
    requires Lookup(reg.pcs, client, camera).None? || Lookup(reg.pcs, client, camera).value !in engine.closeRaises
    requires Abandoned(OfferBody(offerData), engine)
    ensures var r := ProcessOffer(reg, direction, camera, client, offerData, directions, engine);
      && reg.nextId in r.0.sessions
      && (reg.nextId !in engine.closeRaises ==>
            && r.1 == NoAnswer
            && Lookup(r.0.pcs, client, camera).None?
            && !r.0.sessions[reg.nextId].open)
      && (reg.nextId in engine.closeRaises ==>
            && r.1 == OfferRaised
            && Lookup(r.0.pcs, client, camera) == Some(reg.nextId)
            && r.0.sessions[reg.nextId].open
            && |r.0.log| >= 2
            && r.0.log[|r.0.log| - 2..] == [Created(reg.nextId), CloseRaised(reg.nextId)])
  {
    var (r1, raised) := ClosePeerConnection(reg, client, camera, engine.closeRaises);
    CreateAndAnswerAbandoned(r1, direction, camera, client, offerData, directions, engine);
  }

  /** The session ids held by the given keys, in order. */
  function IdsOf(pcs: map<Json, map<int, SessionId>>, keys: seq<(Json, int)>): (ids: seq<SessionId>)
    requires forall i :: 0 <= i < |keys| ==> Lookup(pcs, keys[i].0, keys[i].1).Some?
    ensures |ids| == |keys|
    ensures forall i :: 0 <= i < |keys| ==> Some(ids[i]) == Lookup(pcs, keys[i].0, keys[i].1)
  {
    if keys == [] then []
    else IdsOf(pcs, keys[..|keys| - 1]) + [Lookup(pcs, keys[|keys| - 1].0, keys[|keys| - 1].1).value]
  }

  /** One close event per id, in order: `Closed` unless that session's close raises. */
  function CloseEvents(ids: seq<SessionId>, closeRaises: set<SessionId>): (events: seq<Event>)
    ensures |events| == |ids|
    ensures forall i :: 0 <= i < |ids| ==> events[i].id == ids[i] && !events[i].Created?
    ensures forall i :: 0 <= i < |ids| ==> (events[i].CloseRaised? <==> ids[i] in closeRaises)
  {
    if ids == [] then []
    else CloseEvents(ids[..|ids| - 1], closeRaises)
         + [if ids[|ids| - 1] in closeRaises then CloseRaised(ids[|ids| - 1]) else Closed(ids[|ids| - 1])]
  }

  /** The session table after closing `ids`, where a close of an id in `closeRaises` fails. */
  function ClosedTable(sessions: map<SessionId, Session>, ids: seq<SessionId>, closeRaises: set<SessionId>)
    : (t: map<SessionId, Session>)
    ensures t.Keys == sessions.Keys
    ensures forall id :: id in t ==>
      t[id] == sessions[id].(open := sessions[id].open && (id !in ids || id in closeRaises))
  {
    map id | id in sessions :: if id in ids && id !in closeRaises then sessions[id].(open := false) else sessions[id]
  }

  /** Every key in `keys` is registered in `pcs`. */
  ghost predicate AllRegistered(pcs: map<Json, map<int, SessionId>>, keys: seq<(Json, int)>)
  {
    forall i :: 0 <= i < |keys| ==> Lookup(pcs, keys[i].0, keys[i].1).Some?
  }

  /**
   * The body of the loop in `cleanup()`, run over `keys` in order: each
   * session is closed, and a close that raises is logged and skipped.
   */
  function CloseAll(reg: Registry, pcs: map<Json, map<int, SessionId>>, keys: seq<(Json, int)>,
                    closeRaises: set<SessionId>): (r: Registry)
    requires AllRegistered(pcs, keys)
    ensures r.pcs == reg.pcs && r.nextId == reg.nextId
    ensures r.sessions.Keys == reg.sessions.Keys
  {
    if keys == [] then reg
    else
      var p := CloseAll(reg, pcs, keys[..|keys| - 1], closeRaises);
      var id := pcs[keys[|keys| - 1].0][keys[|keys| - 1].1];
      if id in closeRaises then p.(log := p.log + [CloseRaised(id)])
      else p.(sessions := MarkClosed(p.sessions, id), log := p.log + [Closed(id)])
  }

  /** `CloseAll` logs one event per key, in order. */
  lemma {:induction false} CloseAllLog(reg: Registry, pcs: map<Json, map<int, SessionId>>,
                                       keys: seq<(Json, int)>, closeRaises: set<SessionId>)
    requires AllRegistered(pcs, keys)
    ensures CloseAll(reg, pcs, keys, closeRaises).log == reg.log + CloseEvents(IdsOf(pcs, keys), closeRaises)
  {
    if keys != [] {
      var init := keys[..|keys| - 1];
      var ids := IdsOf(pcs, init);
      var id := pcs[keys[|keys| - 1].0][keys[|keys| - 1].1];
      CloseAllLog(reg, pcs, init, closeRaises);
      assert IdsOf(pcs, keys) == ids + [id];
      assert (ids + [id])[..|ids|] == ids;
    }
  }

  /** `CloseAll` closes exactly the sessions of `keys` whose close does not raise. */
  lemma {:induction false} CloseAllSessions(reg: Registry, pcs: map<Json, map<int, SessionId>>,
                                            keys: seq<(Json, int)>, closeRaises: set<SessionId>)
    requires AllRegistered(pcs, keys)
    ensures CloseAll(reg, pcs, keys, closeRaises).sessions == ClosedTable(reg.sessions, IdsOf(pcs, keys), closeRaises)
  {
    if keys != [] {
      var init := keys[..|keys| - 1];
      var ids := IdsOf(pcs, init);
      var id := pcs[keys[|keys| - 1].0][keys[|keys| - 1].1];
      CloseAllSessions(reg, pcs, init, closeRaises);
      assert IdsOf(pcs, keys) == ids + [id];
      ClosedTableSnoc(reg.sessions, ids, id, closeRaises);
    }
  }

  /** Closing one more session is one more step on the closed table. */
  lemma ClosedTableSnoc(sessions: map<SessionId, Session>, ids: seq<SessionId>, id: SessionId, closeRaises: set<SessionId>)
    ensures ClosedTable(sessions, ids + [id], closeRaises)
         == if id in closeRaises then ClosedTable(sessions, ids, closeRaises)
            else MarkClosed(ClosedTable(sessions, ids, closeRaises), id)
  {
    var t := ClosedTable(sessions, ids + [id], closeRaises);
    var u := if id in closeRaises then ClosedTable(sessions, ids, closeRaises)
             else MarkClosed(ClosedTable(sessions, ids, closeRaises), id);
    assert t.Keys == u.Keys;
    forall x | x in t ensures t[x] == u[x] {
      assert x in ids + [id] <==> x in ids || x == id;
    }
  }

  /** The registered keys in some order, each once: the iteration order of `pcs.items()`. */
  method OrderKeys(ks: set<(Json, int)>) returns (xs: seq<(Json, int)>)
    ensures forall i, j :: 0 <= i < j < |xs| ==> xs[i] != xs[j]
    ensures forall key :: key in xs <==> key in ks
    ensures |xs| == |ks|
  {
    var remaining := ks;
    xs := [];
    while remaining != {}
      invariant remaining <= ks
      invariant forall i, j :: 0 <= i < j < |xs| ==> xs[i] != xs[j]
      invariant forall key :: key in xs <==> key in ks && key !in remaining
      decreases |remaining|
    {
      var key :| key in remaining;
      xs := xs + [key];
      remaining := remaining - {key};
    }
    DistinctSeqCard(xs, ks);
  }

  /**
   * `cleanup()`: try `close` once for every registered key (a failure is
   * logged and the loop goes on), then clear the dictionary.  `attempted`
   * lists the keys in the order their sessions were closed.
   */
  method Cleanup(reg: Registry, closeRaises: set<SessionId>) returns (r: Registry, attempted: seq<(Json, int)>)
    // every registered key is attempted exactly once
    ensures forall i, j :: 0 <= i < j < |attempted| ==> attempted[i] != attempted[j]
    ensures forall c, k :: (c, k) in attempted <==> Lookup(reg.pcs, c, k).Some?
    ensures |attempted| == |Keys(reg.pcs)|
    ensures AllRegistered(reg.pcs, attempted)
    // each attempt is logged in order, and a raising close does not stop the others
    ensures r.log == reg.log + CloseEvents(IdsOf(reg.pcs, attempted), closeRaises)
    // exactly the registered sessions whose close succeeded are closed
    ensures forall id :: id in IdsOf(reg.pcs, attempted) <==> exists c, k :: Lookup(reg.pcs, c, k) == Some(id)
    ensures r.sessions == ClosedTable(reg.sessions, IdsOf(reg.pcs, attempted), closeRaises)
    ensures r.nextId == reg.nextId
    // in a valid registry no session is closed twice, and validity is kept
    ensures Valid(reg) ==> forall i, j :: 0 <= i < j < |attempted| ==>
      IdsOf(reg.pcs, attempted)[i] != IdsOf(reg.pcs, attempted)[j]
    ensures Valid(reg) ==> Valid(r)
    // the registry is empty afterwards
    ensures r.pcs == map[]
  {
    attempted := OrderKeys(Keys(reg.pcs));
    var closed := CloseAll(reg, reg.pcs, attempted, closeRaises);
    CloseAllLog(reg, reg.pcs, attempted, closeRaises);
    CloseAllSessions(reg, reg.pcs, attempted, closeRaises);
    IdsOfAllKeys(reg.pcs, attempted);
    if Valid(reg) {
      IdsOfDistinctKeys(reg, attempted);
    }
    r := closed.(pcs := map[]);
    ClearedKeepsValid(reg, r);
  }

  /** Emptying the dictionary and closing sessions keeps the registry invariant. */
  lemma ClearedKeepsValid(reg: Registry, r: Registry)
    requires r.pcs == map[] && r.nextId == reg.nextId
    requires r.sessions.Keys == reg.sessions.Keys
    ensures Valid(reg) ==> Valid(r)
  {
  }

  /** The ids held by a list of all registered keys are all the registered ids. */
  lemma IdsOfAllKeys(pcs: map<Json, map<int, SessionId>>, keys: seq<(Json, int)>)
    requires forall c, k :: (c, k) in keys <==> Lookup(pcs, c, k).Some?
    ensures AllRegistered(pcs, keys)
    ensures forall id :: id in IdsOf(pcs, keys) <==> exists c, k :: Lookup(pcs, c, k) == Some(id)
  {
    assert AllRegistered(pcs, keys) by {
      forall i | 0 <= i < |keys| ensures Lookup(pcs, keys[i].0, keys[i].1).Some? {
        assert (keys[i].0, keys[i].1) in keys;
      }
    }
    var ids := IdsOf(pcs, keys);
    forall id ensures (exists c, k :: Lookup(pcs, c, k) == Some(id)) ==> id in ids {
      if exists c, k :: Lookup(pcs, c, k) == Some(id) {
        var c, k :| Lookup(pcs, c, k) == Some(id);
        var i :| 0 <= i < |keys| && keys[i] == (c, k);
        assert ids[i] == id;
      }
    }
  }

  /** In a valid registry, distinct keys hold distinct sessions. */
  lemma IdsOfDistinctKeys(reg: Registry, keys: seq<(Json, int)>)
    requires Valid(reg) && AllRegistered(reg.pcs, keys)
    requires forall i, j :: 0 <= i < j < |keys| ==> keys[i] != keys[j]
    ensures forall i, j :: 0 <= i < j < |keys| ==> IdsOf(reg.pcs, keys)[i] != IdsOf(reg.pcs, keys)[j]
  {
    forall i, j | 0 <= i < j < |keys| ensures IdsOf(reg.pcs, keys)[i] != IdsOf(reg.pcs, keys)[j] {
      RegisteredIdsDistinct(reg, keys[i].0, keys[i].1, keys[j].0, keys[j].1);
    }
  }

  /** A repetition-free sequence has as many elements as the set of its elements. */
  lemma {:induction false} DistinctSeqCard<T>(xs: seq<T>, s: set<T>)
    requires forall i, j :: 0 <= i < j < |xs| ==> xs[i] != xs[j]
    requires forall x :: x in xs <==> x in s
    ensures |xs| == |s|
  {
    if xs != [] {
      var n := |xs| - 1;
      var init := xs[..n];
      assert forall x :: x in init <==> x in s - {xs[n]} by {
        forall x
          ensures x in init <==> x in s - {xs[n]}
        {
          if x in init {
            var i :| 0 <= i < n && init[i] == x;
            assert xs[i] == x;
          }
          if x in s - {xs[n]} {
            var i :| 0 <= i < |xs| && xs[i] == x;
            assert i != n;
            assert init[i] == x;
          }
        }
      }
      DistinctSeqCard(init, s - {xs[n]});
    }
  }

  /**
   * The `connectionstatechange` handler: on "failed" it closes the session
   * but leaves it registered in `pcs`.  A raising close is swallowed by the
   * event emitter.
   */
  function OnConnectionStateChange(reg: Registry, id: SessionId, state: string, closeRaises: set<SessionId>): (r: Registry)
    ensures r.pcs == reg.pcs && r.nextId == reg.nextId
    ensures state == "failed" && id in reg.sessions && id !in closeRaises ==> id in r.sessions && !r.sessions[id].open
    ensures state != "failed" ==> r == reg
    ensures state == "failed" ==> r.log == reg.log + [if id in closeRaises then CloseRaised(id) else Closed(id)]
    ensures SameSessionsUpToOpen(reg.sessions, r.sessions)
    ensures forall other :: other in reg.sessions && other != id ==> r.sessions[other] == reg.sessions[other]
    ensures Valid(reg) ==> Valid(r)
  {
    if state != "failed" then reg
    else if id in closeRaises then reg.(log := reg.log + [CloseRaised(id)])
    else reg.(sessions := MarkClosed(reg.sessions, id), log := reg.log + [Closed(id)])
  }
}
