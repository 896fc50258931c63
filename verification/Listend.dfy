/** The handlers of listend (lsnd_mesg.c, lsnd_comm.c) on connection objects and shared tables.  Each
    is proved to take the step that LsndSteps describes, and what it does to the chat rooms. */
module Listend {
  import opened Options
  import opened ChatTab
  import opened LsndSteps

  class Conn {
    const cid: Cid
    var sid: Sid
    var stat: Stat
    var seq_: int

    constructor (cid: Cid)
      ensures this.cid == cid && sid == 0 && stat == Establish && seq_ == 0
    {
      this.cid := cid;
      sid, stat, seq_ := 0, Establish, 0;
    }
  }

  class Listend {
    /** The session id that a connection uses in its online requests. */
    const sidOf: Cid -> Sid
    const chat: ChatTab

    var conns: map<Cid, Conn>
    var connList: map<Key, Conn>
    var kickList: map<Cid, Time>
    var kicked: set<Cid>
    ghost var used: set<Cid>

    constructor (sidOf: Cid -> Sid)
      ensures Valid() && this.sidOf == sidOf && View() == START && fresh(chat)
    {
      this.sidOf := sidOf;
      conns, connList, kickList, kicked, used := map[], map[], map[], {}, {};
      chat := new ChatTab();
    }

    ghost function Records(): map<Cid, Record>
      reads this`conns, conns.Values
    {
      map c | c in conns :: Record(conns[c].sid, conns[c].stat, conns[c].seq_)
    }

    ghost function View(): State
      reads this, chat, conns.Values
    {
      State(Records(), connList.Keys, kickList, kicked, used, chat.sessions.Keys, chat.sid2cids)
    }

    /** The table entries are the connection objects themselves. */
    ghost predicate Linked()
      reads this, conns.Values
    {
      && (forall c :: c in conns ==> conns[c].cid == c)
      && (forall k :: k in connList ==> k.cid in conns && connList[k] == conns[k.cid])
    }

    ghost predicate Valid()
      reads this, chat, conns.Values
    {
      chat.Valid() && Linked() && Inv(View(), sidOf)
    }

    ghost predicate Has(conn: Conn)
      reads this
    {
      conn.cid in conns && conns[conn.cid] == conn
    }

    /** Whoever is in a chat room has a connection that was not destroyed, under that session id. */
    lemma MembersLive(rid: Rid, gid: Gid, k: Key)
      requires Valid() && chat.In(rid, gid, k)
      ensures k.cid in conns && conns[k.cid].sid == k.sid
    {
      assert Known(View(), sidOf, k);
    }

    lemma Is(conn: Conn)
      requires Has(conn)
      ensures conn.cid in Records() && Records()[conn.cid] == Record(conn.sid, conn.stat, conn.seq_)
    {
    }

    /** What a lookup in conn_list finds. */
    lemma Found(key: Key)
      requires Valid() && key in connList
      ensures Has(connList[key]) && connList[key].cid == key.cid && connList[key].sid == key.sid
      ensures key.sid == sidOf(key.cid)
    {
      assert Known(View(), sidOf, key);
    }

    /** The tables name a connection by one key at most. */
    lemma OwnKey(conn: Conn)
      requires Valid() && Has(conn)
      ensures forall k :: k in connList || k in chat.sessions ==> k.cid == conn.cid ==> k == Key(conn.sid, conn.cid)
    {
      assert forall k :: k in connList || k in chat.sessions ==> Known(View(), sidOf, k);
    }

    // ----- the fields of a connection, and the tables

    method SetStat(conn: Conn, stat: Stat)
      requires Linked() && Has(conn)
      modifies conn`stat
      ensures Linked() && conn.cid in old(Records())
      ensures Records() == old(Records())[conn.cid := old(Records())[conn.cid].(stat := stat)]
      ensures conn.stat == stat
    {
      conn.stat := stat;
      assert forall c :: c in conns && c != conn.cid ==> conns[c] != conn;
    }

    method SetSid(conn: Conn, sid: Sid)
      requires Linked() && Has(conn)
      modifies conn`sid
      ensures Linked() && conn.cid in old(Records())
      ensures Records() == old(Records())[conn.cid := old(Records())[conn.cid].(sid := sid)]
      ensures conn.sid == sid
    {
      conn.sid := sid;
      assert forall c :: c in conns && c != conn.cid ==> conns[c] != conn;
    }

    method SetSeq(conn: Conn, seq_: int)
      requires Linked() && Has(conn)
      modifies conn`seq_
      ensures Linked() && conn.cid in old(Records())
      ensures Records() == old(Records())[conn.cid := old(Records())[conn.cid].(seq_ := seq_)]
      ensures conn.seq_ == seq_
    {
      conn.seq_ := seq_;
      assert forall c :: c in conns && c != conn.cid ==> conns[c] != conn;
    }

    method SetOnline(conn: Conn, sid: Sid, seq_: int)
      requires Linked() && Has(conn)
      modifies conn
      ensures Linked() && Records() == old(Records())[conn.cid := Record(sid, Online, seq_)]
    {
      hide Records;
      ghost var was := Records();
      SetSid(conn, sid);
      SetSeq(conn, seq_);
      SetStat(conn, Online);
      assert Records().Keys == was.Keys + {conn.cid};
    }

    method Unlist(key: Key)
      requires Linked()
      modifies this`connList
      ensures Linked() && connList == old(connList) - {key}
    {
      connList := connList - {key};
    }

    // ----- connections come and go

    method CallbackCreat(cid: Cid)
      requires Valid() && cid != 0 && cid !in used
      modifies this`conns, this`used
      ensures Valid() && View() == Create(old(View()), cid)
    {
      CreateKeeps(View(), sidOf, cid);
      var conn := new Conn(cid);
      Add(conn);
    }

    method Add(conn: Conn)
      requires Linked() && conn.cid !in conns
      modifies this`conns, this`used
      ensures Linked() && used == old(used) + {conn.cid}
      ensures Records() == old(Records())[conn.cid := Record(conn.sid, conn.stat, conn.seq_)]
    {
      conns := conns[conn.cid := conn];
      used := used + {conn.cid};
    }

    method Remove(conn: Conn)
      requires Linked() && Has(conn)
      requires forall k :: k in connList ==> k.cid != conn.cid
      modifies this`conns
      ensures Linked() && Records() == old(Records()) - {conn.cid}
    {
      conns := conns - {conn.cid};
    }

    method CallbackDestroy(conn: Conn)
      requires Valid() && Has(conn)
      modifies this`conns, this`connList, chat, conn
      ensures Valid() && View() == Destroy(old(View()), conn.cid)
      ensures forall r, g, k :: chat.In(r, g, k) <==> old(chat.In(r, g, k)) && k.cid != conn.cid
    {
      hide Records, Inv, InRoom, Counted;
      Is(conn);
      DestroyKeeps(View(), sidOf, conn.cid);
      OwnKey(conn);
      var key := Key(conn.sid, conn.cid);
      Unlist(key);
      SetStat(conn, Closed);
      chat.DelSession(conn.sid, conn.cid);
      Remove(conn);
      assert connList.Keys == old(connList.Keys) - {key} && chat.sessions.Keys == old(chat.sessions.Keys) - {key};
      assert Linked(); assert chat.Valid(); assert View() == Destroy(old(View()), conn.cid);
    }

    // ----- being kicked

    /** lsnd_kick_add */
    method Kick(conn: Conn, now: Time)
      requires Linked() && Has(conn)
      modifies this`kickList, conn`stat
      ensures Linked() && conn.cid in old(Records())
      ensures View() == KickAdd(old(View()), conn.cid, now)
      ensures conn.stat == LsndSteps.Stat.Kick
      ensures conn.cid in kickList && kickList - {conn.cid} == old(kickList) - {conn.cid}
      ensures kickList[conn.cid] == if conn.cid in old(kickList) then old(kickList)[conn.cid] else now + KICK_TTL
    {
      hide Records;
      Is(conn);
      SetStat(conn, LsndSteps.Stat.Kick);
      if conn.cid !in kickList {
        kickList := kickList[conn.cid := now + KICK_TTL];
      }
    }

    /** lsnd_upmesg_kick_handler: the listed connection, named by its id or by its session, leaves the list
        and is marked for its kick, with the time of the first order; other connections are as before. */
    method UpmesgKick(sid: Sid, cid: Cid, now: Time) returns (ret: int)
      requires Valid()
      modifies this`connList, this`kickList, conns.Values
      ensures Valid() && View() == KickOrder(old(View()), sid, cid, now)
      ensures var c := if cid != 0 then cid else if sid in chat.sid2cids then chat.sid2cids[sid] else 0;
        var key := Key(sid, c);
        && (ret == 0 <==> key in old(connList)) && ret in {0, -1}
        && (ret == 0 ==>
              && c in conns && conns[c].stat == LsndSteps.Stat.Kick && connList == old(connList) - {key}
              && c in kickList && kickList[c] == (if c in old(kickList) then old(kickList)[c] else now + KICK_TTL)
              && kickList - {c} == old(kickList) - {c}
              && forall d :: d in conns && d != c ==> unchanged(conns[d]))
        && (ret == -1 ==>
              connList == old(connList) && kickList == old(kickList) && forall d :: d in conns ==> unchanged(conns[d]))
    {
      hide Records, Inv, InRoom, Counted;
      KickOrderKeeps(View(), sidOf, sid, cid, now);
      assert chat.Valid();
      var c := cid;
      if cid == 0 {
        c := chat.GetCidBySid(sid);
      }
      var key := Key(sid, c);
      if key !in connList {
        return -1;
      }
      Found(key);
      KickListed(key, now);
      return 0;
    }

    method KickListed(key: Key, now: Time)
      requires Linked() && key in connList
      modifies this`connList, this`kickList, conns.Values
      ensures Linked() && key.cid in old(View()).conns
      ensures View() == KickAdd(old(View()).(listed := old(View()).listed - {key}), key.cid, now)
      ensures key.cid in conns && conns[key.cid].stat == LsndSteps.Stat.Kick && connList == old(connList) - {key}
      ensures key.cid in kickList && kickList - {key.cid} == old(kickList) - {key.cid}
      ensures kickList[key.cid] == if key.cid in old(kickList) then old(kickList)[key.cid] else now + KICK_TTL
      ensures forall d :: d in conns && d != key.cid ==> unchanged(conns[d])
    {
      hide Records;
      var conn := connList[key];
      Is(conn);
      Unlist(key);
      Kick(conn, now);
    }

    /** lsnd_timer_kick_handler: the ids whose time has come are listed first, then each is taken out
        of the kick list and given to the access layer. */
    method TimerKick(now: Time)
      requires Valid()
      modifies this`kickList, this`kicked
      ensures Valid() && View() == KickTimer(old(View()), now)
    {
      hide Records, Inv, InRoom, Counted;
      KickTimerKeeps(View(), sidOf, now);
      ghost var due := Expired(View(), now);
      var left := set c | c in kickList && kickList[c] <= now;
      while left != {}
        invariant left <= due && due - left <= old(kicked) + due
        invariant kickList == old(kickList) - (due - left) && kicked == old(kicked) + (due - left)
      {
        var cid := Pick(left);
        kickList := kickList - {cid};
        kicked := kicked + {cid};
        left := left - {cid};
      }
      assert due - left == due;
    }

    // ----- messages from the client

    /** lsnd_mesg_online_handler.  The connection is listed under the session id of the request; one
        that is listed already is refused. */
    method MesgOnline(conn: Conn, sid: Sid) returns (ret: int)
      requires Linked() && Has(conn)
      requires forall k :: k in connList && k.cid == conn.cid ==> k.sid == conn.sid == sid
      modifies conn`sid, this`connList
      ensures Linked() && conn.cid in old(Records())
      ensures View() == AskOnline(old(View()), conn.cid, sid)
      ensures ret == if Key(sid, conn.cid) in old(connList) then -1 else 0
    {
      hide Records;
      Is(conn);
      SetSid(conn, sid);
      if Key(conn.sid, conn.cid) in connList {
        return -1;
      }
      connList := connList[Key(conn.sid, conn.cid) := conn];
      assert connList.Keys == old(connList.Keys) + {Key(sid, conn.cid)};
      return 0;
    }

    /** lsnd_mesg_offline_handler; the connection is closed in any case. */
    method MesgOffline(conn: Conn, sid: Sid) returns (ret: int)
      requires Linked() && Has(conn)
      modifies conn`stat
      ensures Linked() && conn.cid in old(Records())
      ensures View() == GoOffline(old(View()), conn.cid, sid) && ret == -1
    {
      hide Records;
      Is(conn);
      if Key(sid, conn.cid) !in connList {
        return -1;
      }
      SetStat(connList[Key(sid, conn.cid)], Offline);
      return -1;
    }

    /** lsnd_mesg_room_quit_handler: the session leaves the room, nothing else changes.  A request that
        cannot be unpacked names no room; the answer then closes the connection. */
    method MesgRoomQuit(conn: Conn, quit: Option<Rid>) returns (ret: int)
      requires Linked() && Has(conn) && chat.Valid()
      modifies chat
      ensures chat.Valid() && View() == old(View()) && ret == if quit.Some? then 0 else -1
      ensures forall r, g, k :: chat.In(r, g, k) <==> (
        old(chat.In(r, g, k)) && !(quit == Some(r) && k == Key(conn.sid, conn.cid)))
    {
      hide Records, Inv, InRoom, Counted;
      if quit.None? {
        return -1;
      }
      chat.RoomDelSession(quit.value, conn.sid, conn.cid);
      return 0;
    }

    /** lsnd_callback_recv_handler: a connection that is to be kicked gets nothing handled, and neither
        does a message whose sequence number is not above the last one. */
    method CallbackRecv(conn: Conn, m: Mesg) returns (ret: int)
      requires Valid() && Has(conn)
      requires m.kind.OnlineReq? ==> m.sid == sidOf(conn.cid)
      modifies this`connList, conns.Values, chat
      ensures Valid() && conn.cid in old(View()).conns && View() == Receive(old(View()), conn.cid, m)
      ensures old(conn.stat) == LsndSteps.Stat.Kick ==> ret == 0 && View() == old(View())
      ensures old(conn.stat) != LsndSteps.Stat.Kick && old(conn.seq_) >= m.seq_ ==> ret == -1 && View() == old(View())
      ensures old(conn.stat) != LsndSteps.Stat.Kick && old(conn.seq_) < m.seq_ ==>
        ret == (if m.kind in {OfflineReq, RoomQuit(None)} then -1
                else if m.kind == OnlineReq && Key(m.sid, conn.cid) in old(connList) then -1 else 0)
      ensures forall r, g, k :: chat.In(r, g, k) <==> (
        old(chat.In(r, g, k)) &&
        !(old(Accepts(Record(conn.sid, conn.stat, conn.seq_), m)) && m.kind == RoomQuit(Some(r))
          && k == old(Key(conn.sid, conn.cid))))
    {
      hide Records, Inv, InRoom, Counted;
      Is(conn);
      OwnKey(conn);
      ReceiveKeeps(View(), sidOf, conn.cid, m);
      if conn.stat == LsndSteps.Stat.Kick {
        return 0;
      } else if conn.seq_ >= m.seq_ {
        return -1;
      }
      ListedProperly(conn);
      SetSeq(conn, m.seq_);
      ret := Proc(conn, m);
    }

    lemma ListedProperly(conn: Conn)
      requires Valid() && Has(conn)
      ensures forall k :: k in connList && k.cid == conn.cid ==> k.sid == conn.sid == sidOf(conn.cid)
    {
      assert forall k :: k in connList ==> Known(View(), sidOf, k);
    }

    /** The handler registered for the kind of message; an unknown kind is forwarded for connections
        that are online and dropped otherwise. */
    method Proc(conn: Conn, m: Mesg) returns (ret: int)
      requires Linked() && Has(conn) && chat.Valid()
      requires m.kind.OnlineReq? ==> m.sid == sidOf(conn.cid)
      requires forall k :: k in connList && k.cid == conn.cid ==> k.sid == conn.sid == sidOf(conn.cid)
      modifies this`connList, conn`sid, conn`stat, chat
      ensures Linked() && chat.Valid()
      ensures conn.cid in old(View()).conns && View() == Dispatch(old(View()), conn.cid, m)
      ensures ret == (if m.kind in {OfflineReq, RoomQuit(None)} then -1
                      else if m.kind == OnlineReq && Key(m.sid, conn.cid) in old(connList) then -1 else 0)
      ensures forall r, g, k :: chat.In(r, g, k) <==> (
        old(chat.In(r, g, k)) && !(m.kind == RoomQuit(Some(r)) && k == old(Key(conn.sid, conn.cid))))
    {
      hide Records, Inv, InRoom, Counted;
      Is(conn);
      match m.kind {
        case OnlineReq => ret := MesgOnline(conn, m.sid);
        case OfflineReq => ret := MesgOffline(conn, m.sid);
        case RoomQuit(quit) => ret := MesgRoomQuit(conn, quit);
        case _ => ret := 0;
      }
    }

    // ----- answers from the upstream servers

    /** lsnd_mesg_online_ack_logic: the connection goes online, and the session's old connection, if it
        has another one, is to be kicked.  Answers that come at the wrong time, or without a session
        id, have the connection itself kicked. */
    method OnlineAckLogic(sid: Sid, seq_: int, cid: Cid, now: Time) returns (ret: int)
      requires Valid()
      modifies conns.Values, this`kickList, chat`sid2cids
      ensures Valid() && View() == OnlineAck(old(View()), sid, seq_, cid, now)
      ensures ret == 0 <==> Key(sid, cid) in connList && cid in conns && old(conns[cid].stat) == Establish && sid != 0
      ensures ret in {0, -1}
    {
      hide Records, Inv, InRoom, Counted;
      OnlineAckKeeps(View(), sidOf, sid, seq_, cid, now);
      var key := Key(sid, cid);
      if key !in connList {
        return -1;
      }
      Found(key);
      var extra := connList[key];
      Is(extra);
      if extra.stat != Establish || sid == 0 {
        Kick(extra, now);
        return -1;
      }
      SetOnline(extra, sid, seq_);
      KickOldest(sid, cid, now);
      chat.SetSidToCid(sid, cid);
      return 0;
    }

    /** The part of lsnd_mesg_online_ack_logic that looks for the old connection. */
    method KickOldest(sid: Sid, cid: Cid, now: Time)
      requires Linked()
      modifies conns.Values, this`kickList
      ensures Linked() && View() == KickOld(old(View()), sid, cid, now)
    {
      hide Records;
      var oldCid := chat.GetCidBySid(sid);
      if oldCid != 0 && oldCid != cid {
        var key := Key(sid, oldCid);
        if key in connList {
          Is(connList[key]);
          Kick(connList[key], now);
        }
      }
    }

    /** lsnd_upmesg_room_join_ack_handler: only a connection that is online gets into the room. */
    method UpmesgRoomJoinAck(sid: Sid, rid: Rid, gid: Gid)
      requires Valid()
      modifies conns.Values, chat
      ensures Valid() && View() == JoinAck(old(View()), sid)
      ensures var key := Key(sid, CidOf(old(View()), sid));
        forall r, g, k :: chat.In(r, g, k) <==> (
          old(chat.In(r, g, k)) ||
          (Joins(old(View()), sid) && key !in old(chat.sessions) && r == rid && g == Cut(gid) && k == key))
    {
      hide Records, Inv, InRoom, Counted;
      JoinAckKeeps(View(), sidOf, sid);
      var cid := chat.GetCidBySid(sid);
      var key := Key(sid, cid);
      if key !in connList {
        return;
      }
      Found(key);
      var extra := connList[key];
      Is(extra);
      if extra.stat != Online {
        return;
      }
      SetStat(extra, Online);
      assert Records() == old(Records());
      var ret := chat.RoomAddSession(rid, gid, extra.sid, extra.cid);
      assert chat.sessions.Keys == old(chat.sessions.Keys) + {key};
      assert View() == JoinAck(old(View()), sid);
    }
  }
}
