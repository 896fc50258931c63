/** The life cycle of a connection in listend (lsnd_mesg.c, lsnd_comm.c), as steps on values.  Every
    handler is one atomic step; a connection may be destroyed between any two of them.  Messages to the
    upstream servers and to clients are not part of the state. */
module LsndSteps {
  import opened Options
  import opened ChatTab

  type Time = int

  const KICK_TTL: Time := 5

  datatype Stat = Establish | Online | Kick | Offline | Closed

  datatype Record = Record(sid: Sid, stat: Stat, seq_: int)

  /** `conns` are the connections created and not yet destroyed, `listed` those that asked to go
      online (conn_list), `kickList` says when to kick whom, `kicked` are the kicks given to the access
      layer, `used` the connection ids given out so far; `sessions` and `sid2cids` are tables of the
      chat index. */
  datatype State = State(
    conns: map<Cid, Record>,
    listed: set<Key>,
    kickList: map<Cid, Time>,
    kicked: set<Cid>,
    used: set<Cid>,
    sessions: set<Key>,
    sid2cids: map<Sid, Cid>)

  const START := State(map[], {}, map[], {}, {}, {}, map[])

  /** What a client sends, by the handler that is registered for it. */
  datatype Kind =
    | OnlineReq | OfflineReq | Ping | RoomJoin | RoomQuit(quit: Option<Rid>)
    | Forward        // registered with the default handler
    | Unregistered

  datatype Mesg = Mesg(kind: Kind, sid: Sid, seq_: int)

  function SetStat(s: State, cid: Cid, stat: Stat): State
    requires cid in s.conns
  {
    s.(conns := s.conns[cid := s.conns[cid].(stat := stat)])
  }

  // ----- the steps

  function Create(s: State, cid: Cid): State {
    s.(conns := s.conns[cid := Record(0, Establish, 0)], used := s.used + {cid})
  }

  function Destroy(s: State, cid: Cid): State
    requires cid in s.conns
  {
    var sid := s.conns[cid].sid;
    s.(conns := s.conns - {cid},
       listed := s.listed - {Key(sid, cid)},
       sessions := s.sessions - {Key(sid, cid)},
       sid2cids := if sid in s.sid2cids && s.sid2cids[sid] == cid then s.sid2cids - {sid} else s.sid2cids)
  }

  /** lsnd_kick_add: who is in the list already keeps its time. */
  function KickAdd(s: State, cid: Cid, now: Time): State
    requires cid in s.conns
  {
    var s1 := SetStat(s, cid, Kick);
    if cid in s.kickList then s1 else s1.(kickList := s.kickList[cid := now + KICK_TTL])
  }

  /** lsnd_mesg_online_handler */
  function AskOnline(s: State, cid: Cid, sid: Sid): State
    requires cid in s.conns
  {
    s.(conns := s.conns[cid := s.conns[cid].(sid := sid)], listed := s.listed + {Key(sid, cid)})
  }

  /** lsnd_mesg_offline_handler */
  function GoOffline(s: State, cid: Cid, sid: Sid): State
    requires cid in s.conns
  {
    if Key(sid, cid) in s.listed then SetStat(s, cid, Offline) else s
  }

  function Dispatch(s: State, cid: Cid, m: Mesg): State
    requires cid in s.conns
  {
    match m.kind
    case OnlineReq => AskOnline(s, cid, m.sid)
    case OfflineReq => GoOffline(s, cid, m.sid)
    case _ => s
  }

  /** lsnd_callback_recv_handler: whether a message gets past the checks in front of the handlers. */
  predicate Accepts(r: Record, m: Mesg) {
    r.stat != Kick && r.seq_ < m.seq_
  }

  function Receive(s: State, cid: Cid, m: Mesg): State
    requires cid in s.conns
  {
    if Accepts(s.conns[cid], m)
    then Dispatch(s.(conns := s.conns[cid := s.conns[cid].(seq_ := m.seq_)]), cid, m)
    else s
  }

  /** The old connection of a session goes when a new one comes online. */
  function KickOld(s: State, sid: Sid, cid: Cid, now: Time): State {
    if sid in s.sid2cids && s.sid2cids[sid] != 0 && s.sid2cids[sid] != cid &&
       Key(sid, s.sid2cids[sid]) in s.listed && s.sid2cids[sid] in s.conns
    then KickAdd(s, s.sid2cids[sid], now)
    else s
  }

  /** lsnd_mesg_online_ack_logic */
  function OnlineAck(s: State, sid: Sid, seq_: int, cid: Cid, now: Time): State {
    if Key(sid, cid) !in s.listed || cid !in s.conns then s
    else if s.conns[cid].stat != Establish || sid == 0 then KickAdd(s, cid, now)
    else
      var s1 := s.(conns := s.conns[cid := Record(sid, Online, seq_)]);
      var s2 := KickOld(s1, sid, cid, now);
      s2.(sid2cids := s2.sid2cids[sid := cid])
  }

  function CidOf(s: State, sid: Sid): Cid {
    if sid in s.sid2cids then s.sid2cids[sid] else 0
  }

  /** Whether lsnd_upmesg_room_join_ack_handler puts the session into the room. */
  predicate Joins(s: State, sid: Sid) {
    var cid := CidOf(s, sid);
    Key(sid, cid) in s.listed && cid in s.conns && s.conns[cid].stat == Online
  }

  function JoinAck(s: State, sid: Sid): State {
    if Joins(s, sid) then s.(sessions := s.sessions + {Key(s.conns[CidOf(s, sid)].sid, CidOf(s, sid))}) else s
  }

  /** Whether the connection that a kick order names is listed. */
  predicate Listed(s: State, sid: Sid, cid: Cid) {
    Key(sid, if cid == 0 then CidOf(s, sid) else cid) in s.listed
  }

  /** lsnd_upmesg_kick_handler */
  function KickOrder(s: State, sid: Sid, cid: Cid, now: Time): State {
    var c := if cid == 0 then CidOf(s, sid) else cid;
    if Key(sid, c) in s.listed && c in s.conns
    then KickAdd(s.(listed := s.listed - {Key(sid, c)}), c, now)
    else s
  }

  /** lsnd_timer_kick_handler: everybody whose time has come. */
  function Expired(s: State, now: Time): set<Cid> {
    set c | c in s.kickList && s.kickList[c] <= now
  }

  function KickTimer(s: State, now: Time): State {
    s.(kickList := s.kickList - Expired(s, now), kicked := s.kicked + Expired(s, now))
  }

  // ----- what each step does, field by field

  /** The connections but `c` are there as before. */
  ghost predicate OtherConns(s: State, t: State, c: Cid) {
    t.conns.Keys == s.conns.Keys && forall d :: d in s.conns && d != c ==> t.conns[d] == s.conns[d]
  }

  /** The connection is marked and waits for its kick, at the time that was set first; the other
      connections and all tables but these are as before. */
  ghost predicate Marked(s: State, t: State, c: Cid, now: Time) {
    && c in s.conns && c in t.conns && OtherConns(s, t, c)
    && t.conns[c] == Record(s.conns[c].sid, Kick, s.conns[c].seq_)
    && t.kickList.Keys == s.kickList.Keys + {c}
    && (forall d :: d in s.kickList ==> t.kickList[d] == s.kickList[d])
    && (c !in s.kickList ==> t.kickList[c] == now + KICK_TTL)
    && t.kicked == s.kicked && t.used == s.used && t.sessions == s.sessions && t.sid2cids == s.sid2cids
  }

  lemma CreateDoes(s: State, cid: Cid)
    requires cid !in s.conns
    ensures var t := Create(s, cid);
      && t.conns.Keys == s.conns.Keys + {cid} && t.conns[cid] == Record(0, Establish, 0)
      && (forall d :: d in s.conns ==> t.conns[d] == s.conns[d])
      && t.used == s.used + {cid} && t.listed == s.listed && t.kickList == s.kickList && t.kicked == s.kicked
      && t.sessions == s.sessions && t.sid2cids == s.sid2cids
  {
  }

  /** No table but the kick list names the connection afterwards; everything else is as before. */
  lemma DestroyDoes(s: State, sidOf: Cid -> Sid, cid: Cid)
    requires Inv(s, sidOf) && cid in s.conns
    ensures var t := Destroy(s, cid);
      && t.conns.Keys == s.conns.Keys - {cid} && (forall d :: d in t.conns ==> t.conns[d] == s.conns[d])
      && (forall k :: k in t.listed <==> k in s.listed && k.cid != cid)
      && (forall k :: k in t.sessions <==> k in s.sessions && k.cid != cid)
      && (forall sid :: sid in t.sid2cids <==> sid in s.sid2cids && s.sid2cids[sid] != cid)
      && (forall sid :: sid in t.sid2cids ==> t.sid2cids[sid] == s.sid2cids[sid])
      && t.kickList == s.kickList && t.kicked == s.kicked && t.used == s.used
  {
    assert forall k :: k in s.listed || k in s.sessions ==> Known(s, sidOf, k);
    assert forall sid :: sid in s.sid2cids ==> Known(s, sidOf, Key(sid, s.sid2cids[sid]));
  }

  /** A message is handled exactly if the connection is not marked and the number is a new one; the number
      is stored then.  A request to go online stores the session id and lists the connection; a request to
      go offline makes a listed connection offline; nothing else changes. */
  lemma ReceiveDoes(s: State, cid: Cid, m: Mesg)
    requires cid in s.conns
    ensures var t, r := Receive(s, cid, m), s.conns[cid];
      && OtherConns(s, t, cid)
      && t.kickList == s.kickList && t.kicked == s.kicked && t.used == s.used
      && t.sessions == s.sessions && t.sid2cids == s.sid2cids
      && (r.stat == Kick || m.seq_ <= r.seq_ ==> t == s)
      && (r.stat != Kick && m.seq_ > r.seq_ ==>
            && t.conns[cid].seq_ == m.seq_
            && t.conns[cid].sid == (if m.kind.OnlineReq? then m.sid else r.sid)
            && t.conns[cid].stat ==
                 (if m.kind.OfflineReq? && Key(m.sid, cid) in s.listed then Offline else r.stat)
            && t.listed == s.listed + if m.kind.OnlineReq? then {Key(m.sid, cid)} else {})
  {
  }

  /** The answer to an online request.  For a connection that is not listed nothing happens.  One that is
      not waiting for it, and an answer without a session, have it marked.  Otherwise it is online and the
      session leads to it, and the connection that the session led to before is marked if it is listed. */
  lemma OnlineAckDoes(s: State, sidOf: Cid -> Sid, sid: Sid, seq_: int, cid: Cid, now: Time)
    requires Inv(s, sidOf)
    ensures var t := OnlineAck(s, sid, seq_, cid, now);
      && (Key(sid, cid) !in s.listed ==> t == s)
      && (Key(sid, cid) in s.listed && (s.conns[cid].stat != Establish || sid == 0) ==>
            Marked(s, t, cid, now) && t.listed == s.listed)
      && (Key(sid, cid) in s.listed && s.conns[cid].stat == Establish && sid != 0 ==>
            && t.conns[cid] == Record(sid, Online, seq_) && t.sid2cids == s.sid2cids[sid := cid]
            && t.listed == s.listed
            && var old_ := if sid in s.sid2cids then s.sid2cids[sid] else cid;
            && var t' := t.(conns := t.conns[cid := s.conns[cid]], sid2cids := s.sid2cids);
            && if old_ != cid && Key(sid, old_) in s.listed then Marked(s, t', old_, now) else t' == s)
  {
    if Key(sid, cid) in s.listed {
      assert Known(s, sidOf, Key(sid, cid));
      if sid in s.sid2cids {
        assert Known(s, sidOf, Key(sid, s.sid2cids[sid]));
        assert Proper(s, sidOf, s.sid2cids[sid]);
      }
    }
  }

  /** The answer to a room request: a session gets into the chat index exactly if it leads to a listed
      connection that is online, under the name of that connection; nothing else changes. */
  lemma JoinAckDoes(s: State, sidOf: Cid -> Sid, sid: Sid)
    requires Inv(s, sidOf)
    ensures var t := JoinAck(s, sid);
      && (Joins(s, sid) <==>
            sid in s.sid2cids && Key(sid, s.sid2cids[sid]) in s.listed && s.conns[s.sid2cids[sid]].stat == Online)
      && t.sessions == s.sessions + (if Joins(s, sid) then {Key(sid, s.sid2cids[sid])} else {})
      && t.conns == s.conns && t.listed == s.listed && t.kickList == s.kickList && t.kicked == s.kicked
      && t.used == s.used && t.sid2cids == s.sid2cids
  {
    if Key(sid, CidOf(s, sid)) in s.listed {
      assert Known(s, sidOf, Key(sid, CidOf(s, sid)));
      assert Proper(s, sidOf, CidOf(s, sid));
    }
  }

  /** A kick order for a listed connection, named by its id or by its session, takes it out of the list and
      marks it; any other order changes nothing. */
  lemma KickOrderDoes(s: State, sidOf: Cid -> Sid, sid: Sid, cid: Cid, now: Time)
    requires Inv(s, sidOf)
    ensures var t := KickOrder(s, sid, cid, now);
      var c := if cid != 0 then cid else if sid in s.sid2cids then s.sid2cids[sid] else 0;
      && (Listed(s, sid, cid) <==> Key(sid, c) in s.listed)
      && (if Key(sid, c) in s.listed then Marked(s, t, c, now) && t.listed == s.listed - {Key(sid, c)} else t == s)
  {
    var c := if cid != 0 then cid else if sid in s.sid2cids then s.sid2cids[sid] else 0;
    if Key(sid, c) in s.listed {
      assert Known(s, sidOf, Key(sid, c));
    }
  }

  /** The timer gives exactly the kicks that are due, and no kick before its time. */
  lemma KickTimerDoes(s: State, now: Time)
    ensures var t := KickTimer(s, now);
      && (forall c :: c in t.kicked <==> c in s.kicked || (c in s.kickList && s.kickList[c] <= now))
      && (forall c :: c in t.kickList <==> c in s.kickList && s.kickList[c] > now)
      && (forall c :: c in t.kickList ==> t.kickList[c] == s.kickList[c])
      && t.conns == s.conns && t.listed == s.listed && t.used == s.used
      && t.sessions == s.sessions && t.sid2cids == s.sid2cids
  {
  }

  // ----- the invariant

  /** A connection is known to the tables only by the session id it uses in its online requests. */
  ghost predicate Known(s: State, sidOf: Cid -> Sid, k: Key) {
    k.cid in s.conns && k.sid == s.conns[k.cid].sid == sidOf(k.cid)
  }

  ghost predicate Proper(s: State, sidOf: Cid -> Sid, c: Cid)
    requires c in s.conns
  {
    c != 0 && s.conns[c].stat != Closed && s.conns[c].sid in {0, sidOf(c)}
  }

  /** A connection that is online is listed, and its session id leads to it. */
  ghost predicate Leads(s: State, c: Cid)
    requires c in s.conns
  {
    var sid := s.conns[c].sid;
    s.conns[c].stat == Online ==> Key(sid, c) in s.listed && sid in s.sid2cids && s.sid2cids[sid] == c
  }

  /** Exactly the connections to be kicked wait in the kick list, until the kick was given. */
  ghost predicate Waits(s: State, c: Cid)
    requires c in s.conns
  {
    s.conns[c].stat == Kick <==> c in s.kickList || c in s.kicked
  }

  ghost predicate Inv(s: State, sidOf: Cid -> Sid) {
    && s.conns.Keys <= s.used && s.kickList.Keys <= s.used && s.kicked <= s.used
    && (forall c :: c in s.conns ==> Proper(s, sidOf, c))
    && (forall c :: c in s.conns ==> Leads(s, c))
    && (forall c :: c in s.conns ==> Waits(s, c))
    && (forall k :: k in s.listed ==> Known(s, sidOf, k))
    && (forall k :: k in s.sessions ==> Known(s, sidOf, k))
    && (forall sid :: sid in s.sid2cids ==> Known(s, sidOf, Key(sid, s.sid2cids[sid])))
  }

  // ----- every step keeps it

  lemma CreateKeeps(s: State, sidOf: Cid -> Sid, cid: Cid)
    requires Inv(s, sidOf) && cid != 0 && cid !in s.used
    ensures Inv(Create(s, cid), sidOf)
  {
  }

  lemma DestroyKeeps(s: State, sidOf: Cid -> Sid, cid: Cid)
    requires Inv(s, sidOf) && cid in s.conns
    ensures Inv(Destroy(s, cid), sidOf)
    ensures forall k :: k in s.sessions && k.cid != cid ==> k in Destroy(s, cid).sessions
  {
  }

  lemma KickAddKeeps(s: State, sidOf: Cid -> Sid, cid: Cid, now: Time)
    requires Inv(s, sidOf) && cid in s.conns
    ensures Inv(KickAdd(s, cid, now), sidOf)
  {
  }

  lemma ReceiveKeeps(s: State, sidOf: Cid -> Sid, cid: Cid, m: Mesg)
    requires Inv(s, sidOf) && cid in s.conns
    requires m.kind.OnlineReq? ==> m.sid == sidOf(cid)
    ensures Inv(Receive(s, cid, m), sidOf)
  {
  }

  lemma OnlineAckKeeps(s: State, sidOf: Cid -> Sid, sid: Sid, seq_: int, cid: Cid, now: Time)
    requires Inv(s, sidOf)
    ensures Inv(OnlineAck(s, sid, seq_, cid, now), sidOf)
  {
    if Key(sid, cid) in s.listed {
      assert Known(s, sidOf, Key(sid, cid));
      if s.conns[cid].stat != Establish || sid == 0 {
        KickAddKeeps(s, sidOf, cid, now);
      } else {
        GoesOnline(s, sidOf, sid, seq_, cid, now);
      }
    }
  }

  /** The connection that comes online is the one its session leads to; the one that was online
      before it is to be kicked. */
  lemma GoesOnline(s: State, sidOf: Cid -> Sid, sid: Sid, seq_: int, cid: Cid, now: Time)
    requires Inv(s, sidOf) && sid != 0
    requires Key(sid, cid) in s.listed && cid in s.conns && s.conns[cid].stat == Establish
    ensures Inv(OnlineAck(s, sid, seq_, cid, now), sidOf)
    ensures var t := OnlineAck(s, sid, seq_, cid, now);
      && t.conns.Keys == s.conns.Keys
      && t.conns[cid] == Record(sid, Online, seq_) && t.sid2cids[sid] == cid
      && (forall d :: d in s.conns && d != cid && s.conns[d].stat == Online && s.conns[d].sid == sid ==>
            t.conns[d].stat == Kick && d in t.kickList)
  {
    var t := OnlineAck(s, sid, seq_, cid, now);
    assert Known(s, sidOf, Key(sid, cid));
    assert Proper(s, sidOf, cid) && Waits(s, cid);
    forall c | c in t.conns ensures Proper(t, sidOf, c) && Leads(t, c) && Waits(t, c) {
      assert Proper(s, sidOf, c) && Leads(s, c) && Waits(s, c);
      assert sid in s.sid2cids ==> Known(s, sidOf, Key(sid, s.sid2cids[sid]));
    }
    assert forall k :: Known(s, sidOf, k) ==> Known(t, sidOf, k);
  }

  lemma JoinAckKeeps(s: State, sidOf: Cid -> Sid, sid: Sid)
    requires Inv(s, sidOf)
    ensures Inv(JoinAck(s, sid), sidOf)
  {
  }

  lemma KickOrderKeeps(s: State, sidOf: Cid -> Sid, sid: Sid, cid: Cid, now: Time)
    requires Inv(s, sidOf)
    ensures Inv(KickOrder(s, sid, cid, now), sidOf)
  {
  }

  lemma KickTimerKeeps(s: State, sidOf: Cid -> Sid, now: Time)
    requires Inv(s, sidOf)
    ensures Inv(KickTimer(s, now), sidOf)
  {
  }

  // ----- runs

  datatype Event =
    | Created(cid: Cid)
    | Destroyed(cid: Cid)
    | Received(cid: Cid, m: Mesg)
    | OnlineAcked(sid: Sid, seq_: int, cid: Cid, now: Time)
    | JoinAcked(sid: Sid)
    | KickOrdered(sid: Sid, cid: Cid, now: Time)
    | KickTimed(now: Time)

  /** Connection ids are not zero and never given out again, and a connection uses one session id in
      its online requests. */
  predicate Possible(s: State, sidOf: Cid -> Sid, e: Event) {
    match e
    case Created(cid) => cid != 0 && cid !in s.used
    case Destroyed(cid) => cid in s.conns
    case Received(cid, m) => cid in s.conns && (m.kind.OnlineReq? ==> m.sid == sidOf(cid))
    case _ => true
  }

  function Step(s: State, sidOf: Cid -> Sid, e: Event): State
    requires Possible(s, sidOf, e)
  {
    match e
    case Created(cid) => Create(s, cid)
    case Destroyed(cid) => Destroy(s, cid)
    case Received(cid, m) => Receive(s, cid, m)
    case OnlineAcked(sid, seq_, cid, now) => OnlineAck(s, sid, seq_, cid, now)
    case JoinAcked(sid) => JoinAck(s, sid)
    case KickOrdered(sid, cid, now) => KickOrder(s, sid, cid, now)
    case KickTimed(now) => KickTimer(s, now)
  }

  lemma StepKeeps(s: State, sidOf: Cid -> Sid, e: Event)
    requires Inv(s, sidOf) && Possible(s, sidOf, e)
    ensures Inv(Step(s, sidOf, e), sidOf)
  {
    hide Inv;
    match e
    case Created(cid) => CreateKeeps(s, sidOf, cid);
    case Destroyed(cid) => DestroyKeeps(s, sidOf, cid);
    case Received(cid, m) => ReceiveKeeps(s, sidOf, cid, m);
    case OnlineAcked(sid, seq_, cid, now) => OnlineAckKeeps(s, sidOf, sid, seq_, cid, now);
    case JoinAcked(sid) => JoinAckKeeps(s, sidOf, sid);
    case KickOrdered(sid, cid, now) => KickOrderKeeps(s, sidOf, sid, cid, now);
    case KickTimed(now) => KickTimerKeeps(s, sidOf, now);
  }

  ghost predicate PossibleRun(s: State, sidOf: Cid -> Sid, es: seq<Event>)
    decreases |es|
  {
    es == [] || (Possible(s, sidOf, es[0]) && PossibleRun(Step(s, sidOf, es[0]), sidOf, es[1..]))
  }

  function Run(s: State, sidOf: Cid -> Sid, es: seq<Event>): State
    requires PossibleRun(s, sidOf, es)
    decreases |es|
  {
    if es == [] then s else Run(Step(s, sidOf, es[0]), sidOf, es[1..])
  }

  lemma {:induction false} RunKeeps(s: State, sidOf: Cid -> Sid, es: seq<Event>)
    requires Inv(s, sidOf) && PossibleRun(s, sidOf, es)
    ensures Inv(Run(s, sidOf, es), sidOf)
    decreases |es|
  {
    if es != [] {
      StepKeeps(s, sidOf, es[0]);
      RunKeeps(Step(s, sidOf, es[0]), sidOf, es[1..]);
    }
  }

  /** In every run: an online connection is the one its session id leads to, so a session has at most
      one; a connection waits for its kick exactly if it was marked for it; and the sessions that may
      be in chat rooms belong to connections that were not destroyed. */
  lemma RunSafe(sidOf: Cid -> Sid, es: seq<Event>)
    requires PossibleRun(START, sidOf, es)
    ensures var s := Run(START, sidOf, es);
      && (forall c :: c in s.conns && s.conns[c].stat == Online ==> CidOf(s, s.conns[c].sid) == c)
      && (forall c, d :: c in s.conns && d in s.conns && s.conns[c].stat == s.conns[d].stat == Online ==>
            s.conns[c].sid == s.conns[d].sid ==> c == d)
      && (forall c :: c in s.conns ==> (s.conns[c].stat == Kick <==> c in s.kickList || c in s.kicked))
      && (forall k :: k in s.sessions ==> k.cid in s.conns && s.conns[k.cid].sid == k.sid)
  {
    RunKeeps(START, sidOf, es);
    var s := Run(START, sidOf, es);
    assert forall c :: c in s.conns && s.conns[c].stat == Online ==> Leads(s, c);
    assert forall c :: c in s.conns ==> Waits(s, c);
    assert forall k :: k in s.sessions ==> Known(s, sidOf, k);
  }

  /** Once marked for its kick, a connection stays so until it is destroyed. */
  lemma KickStays(s: State, sidOf: Cid -> Sid, e: Event, c: Cid)
    requires Inv(s, sidOf) && Possible(s, sidOf, e)
    requires c in s.conns && s.conns[c].stat == Kick
    ensures var t := Step(s, sidOf, e);
      if e == Destroyed(c) then c !in t.conns else c in t.conns && t.conns[c].stat == Kick
    ensures e.Received? && e.cid == c ==> !Accepts(s.conns[c], e.m) && Step(s, sidOf, e) == s
  {
    if e.OnlineAcked? && Key(e.sid, e.cid) in s.listed {
      assert Known(s, sidOf, Key(e.sid, e.cid));
    }
    assert c in s.used;
  }

  lemma {:induction false} KickStaysInRuns(s: State, sidOf: Cid -> Sid, es: seq<Event>, c: Cid)
    requires Inv(s, sidOf) && PossibleRun(s, sidOf, es)
    requires c in s.conns && s.conns[c].stat == Kick
    ensures var t := Run(s, sidOf, es); c in t.conns ==> t.conns[c].stat == Kick
    decreases |es|
  {
    if es != [] {
      var t := Step(s, sidOf, es[0]);
      KickStays(s, sidOf, es[0], c);
      StepKeeps(s, sidOf, es[0]);
      if c in t.conns {
        KickStaysInRuns(t, sidOf, es[1..], c);
      } else {
        assert c in t.used;
        GoneForever(t, sidOf, es[1..], c);
      }
    }
  }

  /** A connection id never comes back. */
  lemma {:induction false} GoneForever(s: State, sidOf: Cid -> Sid, es: seq<Event>, c: Cid)
    requires Inv(s, sidOf) && PossibleRun(s, sidOf, es) && c in s.used && c !in s.conns
    ensures c !in Run(s, sidOf, es).conns && c !in Run(s, sidOf, es).sid2cids.Values
    ensures forall k :: k in Run(s, sidOf, es).sessions ==> k.cid != c
    decreases |es|
  {
    if es == [] {
      assert forall sid :: sid in s.sid2cids ==> Known(s, sidOf, Key(sid, s.sid2cids[sid]));
      assert forall k :: k in s.sessions ==> Known(s, sidOf, k);
    } else {
      var t := Step(s, sidOf, es[0]);
      StepKeeps(s, sidOf, es[0]);
      StaysGone(s, sidOf, es[0], c);
      GoneForever(t, sidOf, es[1..], c);
    }
  }

  lemma StaysGone(s: State, sidOf: Cid -> Sid, e: Event, c: Cid)
    requires Inv(s, sidOf) && Possible(s, sidOf, e) && c in s.used && c !in s.conns
    ensures c in Step(s, sidOf, e).used && c !in Step(s, sidOf, e).conns
  {
    if e.OnlineAcked? && Key(e.sid, e.cid) in s.listed {
      assert Known(s, sidOf, Key(e.sid, e.cid));
    }
  }

  /** The timer gives out every kick whose time has come, and only kicks of connections that were
      marked for it (or are gone already). */
  lemma TimerKicks(s: State, sidOf: Cid -> Sid, now: Time)
    requires Inv(s, sidOf)
    ensures var t := KickTimer(s, now);
      && (forall c :: c in s.kickList && s.kickList[c] <= now ==> c in t.kicked)
      && (forall c :: c in t.kickList ==> t.kickList[c] > now)
      && (forall c :: c in t.kicked && c in s.conns ==> s.conns[c].stat == Kick)
  {
    assert forall c :: c in s.conns ==> Waits(s, c);
  }
}
