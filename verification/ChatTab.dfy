/** The chat-room index (chat.c, chat_tab.c): rooms hold groups of members, sessions remember the rooms
    they joined, and a table tells which connection a session id belongs to.  Hash tables are maps, and
    one call is one step. */
module ChatTab {
  type Sid = int
  type Cid = int
  type Rid = int
  type Gid = int

  /** A session is known by its id together with its connection. */
  datatype Key = Key(sid: Sid, cid: Cid)

  /** What chat_group_t keeps of a group id: 16 bits.  Groups are stored and looked up under it, while
      requests and the sessions' own tables carry 32 bits. */
  function Cut(gid: Gid): (g: Gid)
    ensures 0 <= g < 65536 && (gid - g) % 65536 == 0
  {
    gid % 65536
  }

  datatype Group = Group(members: set<Key>, sidNum: int)
  datatype Room = Room(groups: map<Gid, Group>, sidNum: int, grpNum: int)

  const EMPTY_GROUP := Group({}, 0)
  const EMPTY_ROOM := Room(map[], 0, 0)

  // ----- counting members

  ghost function Any<T>(s: set<T>): (x: T)
    requires s != {}
    ensures x in s
  {
    var x :| x in s; x
  }

  method Pick<T(==)>(s: set<T>) returns (x: T)
    requires s != {}
    ensures x in s
  {
    x :| x in s;
  }

  /** The members of all groups together. */
  ghost function Sum(groups: map<Gid, Group>): nat {
    if groups.Keys == {} then 0
    else var g := Any(groups.Keys); |groups[g].members| + Sum(groups - {g})
  }

  lemma {:induction false} SumSplits(groups: map<Gid, Group>, g: Gid)
    requires g in groups
    ensures Sum(groups) == |groups[g].members| + Sum(groups - {g})
  {
    var h := Any(groups.Keys);
    if g != h {
      SumSplits(groups - {h}, g);
      SumSplits(groups - {g}, h);
      assert groups - {h} - {g} == groups - {g} - {h};
    }
  }

  lemma SumUpdate(groups: map<Gid, Group>, g: Gid, new_: Group)
    ensures Sum(groups[g := new_]) ==
      Sum(groups) + |new_.members| - if g in groups then |groups[g].members| else 0
  {
    SumSplits(groups[g := new_], g);
    assert groups[g := new_] - {g} == groups - {g};
    if g in groups {
      SumSplits(groups, g);
    } else {
      assert groups - {g} == groups;
    }
  }

  /** A room counts nobody exactly if all of its groups are empty. */
  lemma {:induction false} SumZero(groups: map<Gid, Group>)
    ensures Sum(groups) == 0 <==> forall g :: g in groups ==> groups[g].members == {}
  {
    if groups.Keys != {} {
      var g := Any(groups.Keys);
      SumZero(groups - {g});
      assert forall h :: h in groups <==> h == g || h in groups - {g};
    }
  }

  ghost predicate CountedGroup(g: Group) { g.sidNum == |g.members| }

  /** Every counter says what it counts. */
  ghost predicate Counted(r: Room) {
    && (forall g :: g in r.groups ==> CountedGroup(r.groups[g]))
    && r.sidNum == Sum(r.groups) && r.grpNum == |r.groups|
  }

  ghost predicate InRoom(r: Room, gid: Gid, key: Key) {
    gid in r.groups && key in r.groups[gid].members
  }

  ghost predicate Occupied(r: Room) { exists g, k :: InRoom(r, g, k) }

  lemma CountsAnybody(r: Room)
    requires Counted(r)
    ensures r.sidNum != 0 <==> Occupied(r)
  {
    SumZero(r.groups);
    if r.sidNum != 0 {
      var g :| g in r.groups && r.groups[g].members != {};
      var k := Any(r.groups[g].members);
      assert InRoom(r, g, k);
    }
  }

  // ----- changing one room

  /** _chat_group_add_session: a member that is there already is not counted again. */
  function Enter(r: Room, gid: Gid, key: Key): Room
    requires gid in r.groups
  {
    var g := r.groups[gid];
    if key in g.members then r
    else Room(r.groups[gid := Group(g.members + {key}, g.sidNum + 1)], r.sidNum + 1, r.grpNum)
  }

  /** _chat_group_del_session */
  function Leave(r: Room, gid: Gid, key: Key): Room
    requires gid in r.groups
  {
    var g := r.groups[gid];
    if key !in g.members then r
    else Room(r.groups[gid := Group(g.members - {key}, g.sidNum - 1)], r.sidNum - 1, r.grpNum)
  }

  /** chat_group_add_by_gid */
  function Open(r: Room, gid: Gid): Room {
    if gid in r.groups then r else Room(r.groups[gid := EMPTY_GROUP], r.sidNum, r.grpNum + 1)
  }

  lemma EnterCounts(r: Room, gid: Gid, key: Key)
    requires Counted(r) && gid in r.groups
    ensures Counted(Enter(r, gid, key))
    ensures forall g, k :: InRoom(Enter(r, gid, key), g, k) <==> InRoom(r, g, k) || (g == gid && k == key)
  {
    SumUpdate(r.groups, gid, Enter(r, gid, key).groups[gid]);
    assert Enter(r, gid, key).groups.Keys == r.groups.Keys;
  }

  lemma LeaveCounts(r: Room, gid: Gid, key: Key)
    requires Counted(r) && gid in r.groups
    ensures Counted(Leave(r, gid, key))
    ensures forall g, k :: InRoom(Leave(r, gid, key), g, k) <==> InRoom(r, g, k) && !(g == gid && k == key)
  {
    SumUpdate(r.groups, gid, Leave(r, gid, key).groups[gid]);
    assert Leave(r, gid, key).groups.Keys == r.groups.Keys;
  }

  lemma OpenCounts(r: Room, gid: Gid)
    requires Counted(r)
    ensures Counted(Open(r, gid)) && gid in Open(r, gid).groups
    ensures forall g, k :: InRoom(Open(r, gid), g, k) <==> InRoom(r, g, k)
  {
    SumUpdate(r.groups, gid, EMPTY_GROUP);
    assert Open(r, gid).groups.Keys == r.groups.Keys + {gid};
    assert |r.groups| == |r.groups.Keys| && |Open(r, gid).groups| == |Open(r, gid).groups.Keys|;
  }

  predicate NoRepeats<T(==)>(s: seq<T>) { forall i, j :: 0 <= i < j < |s| ==> s[i] != s[j] }

  lemma NoRepeatsTogether<T>(a: seq<T>, b: seq<T>)
    requires NoRepeats(a) && NoRepeats(b) && forall x :: x in b ==> x !in a
    ensures NoRepeats(a + b)
  {
    forall i, j | 0 <= i < j < |a + b| ensures (a + b)[i] != (a + b)[j] {
      if i < |a| <= j {
        assert (a + b)[i] in a && (a + b)[j] in b;
      }
    }
  }

  // ----- the tables

  class ChatTab {
    var rooms: map<Rid, Room>
    var sessions: map<Key, map<Rid, Gid>>
    var sid2cids: map<Sid, Cid>

    ghost predicate In(rid: Rid, gid: Gid, key: Key)
      reads this`rooms
    {
      rid in rooms && InRoom(rooms[rid], gid, key)
    }

    ghost predicate Counts()
      reads this`rooms
    {
      forall rid :: rid in rooms ==> Counted(rooms[rid])
    }

    /** The session side knows every membership, under the id that was asked for. */
    ghost predicate Indexed()
      reads this`rooms, this`sessions
    {
      forall rid, g, key :: In(rid, g, key) ==>
        key in sessions && rid in sessions[key] && Cut(sessions[key][rid]) == g
    }

    ghost predicate Valid()
      reads this
    {
      Counts() && Indexed()
    }

    constructor ()
      ensures Valid() && rooms == map[] && sessions == map[] && sid2cids == map[]
    {
      rooms, sessions, sid2cids := map[], map[], map[];
    }

    // ----- joining

    /** _chat_room_add_session: the room and the group are created when they are missing. */
    method RoomAdd(rid: Rid, gid: Gid, key: Key)
      requires Counts()
      modifies this`rooms
      ensures Counts() && In(rid, Cut(gid), key)
      ensures forall r, g, k :: In(r, g, k) <==> old(In(r, g, k)) || (r == rid && g == Cut(gid) && k == key)
      ensures rooms.Keys == old(rooms.Keys) + {rid}
    {
      SumZero(map[]);
      if rid !in rooms {
        rooms := rooms[rid := EMPTY_ROOM];
      }
      var g := Cut(gid);
      OpenCounts(rooms[rid], g);
      rooms := rooms[rid := Open(rooms[rid], g)];
      EnterCounts(rooms[rid], g, key);
      rooms := rooms[rid := Enter(rooms[rid], g, key)];
    }

    /** chat_room_add_session.  Only a session that is not in the table yet becomes a member of the
        group; for one that is, a further room is recorded on the session's side alone. */
    method RoomAddSession(rid: Rid, gid: Gid, sid: Sid, cid: Cid) returns (ret: Gid)
      requires Valid()
      modifies this`rooms, this`sessions
      ensures Valid()
      ensures var key := Key(sid, cid);
        if key !in old(sessions) then
          && ret == 0
          && sessions == old(sessions)[key := map[rid := gid]]
          && (forall r, g, k :: In(r, g, k) <==> old(In(r, g, k)) || (r == rid && g == Cut(gid) && k == key))
        else
          && rooms == old(rooms)
          && ret == (if rid in old(sessions)[key] then old(sessions)[key][rid] else gid)
          && sessions == old(sessions)[key := old(sessions)[key][rid := ret]]
    {
      var key := Key(sid, cid);
      if key in sessions {
        if rid in sessions[key] {
          ret := sessions[key][rid];
          assert sessions[key][rid := ret] == sessions[key];
          assert sessions[key := sessions[key]] == sessions;
          return;
        }
        sessions := sessions[key := sessions[key][rid := gid]];
        return gid;
      }
      RoomAdd(rid, gid, key);
      sessions := sessions[key := map[rid := gid]];
      return 0;
    }

    // ----- leaving

    /** _chat_room_del_session: a room or a group that is missing is no error. */
    method RoomDel(rid: Rid, gid: Gid, key: Key)
      requires Counts()
      modifies this`rooms
      ensures Counts() && rooms.Keys == old(rooms.Keys)
      ensures forall r, g, k :: In(r, g, k) <==> old(In(r, g, k)) && !(r == rid && g == Cut(gid) && k == key)
    {
      var g := Cut(gid);
      if rid !in rooms || g !in rooms[rid].groups {
        return;
      }
      LeaveCounts(rooms[rid], g, key);
      rooms := rooms[rid := Leave(rooms[rid], g, key)];
    }

    /** chat_room_del_session: afterwards the session is in no group of the room. */
    method RoomDelSession(rid: Rid, sid: Sid, cid: Cid)
      requires Valid()
      modifies this`rooms, this`sessions
      ensures Valid() && rooms.Keys == old(rooms.Keys)
      ensures forall r, g, k :: In(r, g, k) <==> old(In(r, g, k)) && !(r == rid && k == Key(sid, cid))
      ensures sessions.Keys == old(sessions.Keys)
      ensures forall k :: k in sessions ==>
        sessions[k] == if k == Key(sid, cid) then old(sessions)[k] - {rid} else old(sessions)[k]
    {
      var key := Key(sid, cid);
      if key !in sessions || rid !in sessions[key] {
        assert key in sessions ==> sessions[key] - {rid} == sessions[key];
        return;
      }
      var gid := sessions[key][rid];
      sessions := sessions[key := sessions[key] - {rid}];
      RoomDel(rid, gid, key);
    }

    /** chat_del_session: the session goes, out of every group of every room. */
    method DelSession(sid: Sid, cid: Cid)
      requires Valid()
      modifies this
      ensures Valid() && rooms.Keys == old(rooms.Keys)
      ensures forall r, g, k :: In(r, g, k) <==> old(In(r, g, k)) && k != Key(sid, cid)
      ensures sessions == old(sessions) - {Key(sid, cid)}
      ensures sid2cids ==
        if sid in old(sid2cids) && old(sid2cids)[sid] == cid then old(sid2cids) - {sid} else old(sid2cids)
    {
      var key := Key(sid, cid);
      DelSidToCid(sid, cid);
      if key !in sessions {
        assert sessions - {key} == sessions;
        return;
      }
      var joined := sessions[key];
      sessions := sessions - {key};
      var left := joined.Keys;
      ghost var links := sid2cids;
      while left != {}
        invariant left <= joined.Keys && Counts() && rooms.Keys == old(rooms.Keys)
        invariant sessions == old(sessions) - {key} && sid2cids == links
        invariant forall r, g, k :: In(r, g, k) <==> old(In(r, g, k)) && !(k == key && r !in left)
      {
        var rid := Pick(left);
        RoomDel(rid, joined[rid], key);
        left := left - {rid};
      }
    }

    // ----- which connection a session has

    method GetCidBySid(sid: Sid) returns (cid: Cid)
      ensures cid == if sid in sid2cids then sid2cids[sid] else 0
    {
      if sid !in sid2cids {
        return 0;
      }
      cid := sid2cids[sid];
    }

    method SetSidToCid(sid: Sid, cid: Cid)
      modifies this`sid2cids
      ensures sid2cids == old(sid2cids)[sid := cid]
    {
      if sid in sid2cids {
        if sid2cids[sid] == cid {
          return;
        }
        sid2cids := sid2cids - {sid};
      }
      sid2cids := sid2cids[sid := cid];
    }

    /** Only the connection the table names can take its session out of it. */
    method DelSidToCid(sid: Sid, cid: Cid)
      modifies this`sid2cids
      ensures sid2cids ==
        if sid in old(sid2cids) && old(sid2cids)[sid] == cid then old(sid2cids) - {sid} else old(sid2cids)
    {
      if sid in sid2cids && sid2cids[sid] == cid {
        sid2cids := sid2cids - {sid};
      }
    }

    // ----- rooms without members

    /** chat_del_room: a room with members stays. */
    method DelRoom(rid: Rid)
      requires Valid()
      modifies this`rooms
      ensures Valid()
      ensures forall r, g, k :: In(r, g, k) <==> old(In(r, g, k))
      ensures rooms == if rid in old(rooms) && Occupied(old(rooms)[rid]) then old(rooms) else old(rooms) - {rid}
    {
      if rid !in rooms {
        assert rooms - {rid} == rooms;
        return;
      }
      CountsAnybody(rooms[rid]);
      if rooms[rid].sidNum != 0 {
        return;
      }
      rooms := rooms - {rid};
      forall r, g, k ensures In(r, g, k) <==> old(In(r, g, k)) {
        assert !InRoom(old(rooms)[rid], g, k);
      }
    }

    /** chat_room_clean_hdl: the ids of the rooms that count nobody are listed and taken from the list
        one by one.  The list holds bare ids, so room 0 reads as the end of the list, and it is the
        first one listed: if it is empty, no room is dropped, otherwise exactly the empty ones. */
    method CleanRooms()
      requires Valid()
      modifies this`rooms
      ensures Valid()
      ensures forall r, g, k :: In(r, g, k) <==> old(In(r, g, k))
      ensures forall rid :: rid in rooms ==> rid in old(rooms) && rooms[rid] == old(rooms)[rid]
      ensures forall rid :: rid in old(rooms) && Occupied(old(rooms)[rid]) ==> rid in rooms
      ensures 0 in old(rooms) && !Occupied(old(rooms)[0]) ==> rooms == old(rooms)
      ensures (0 in old(rooms) ==> Occupied(old(rooms)[0])) ==> forall rid :: rid in rooms ==> Occupied(rooms[rid])
    {
      var list := Unoccupied();
      ghost var stuck := 0 in list;
      while true
        invariant Valid() && rooms.Keys <= old(rooms.Keys)
        invariant forall r, g, k :: In(r, g, k) <==> old(In(r, g, k))
        invariant forall rid :: rid in rooms ==> rooms[rid] == old(rooms)[rid]
        invariant forall rid :: rid in old(rooms) && rid !in rooms ==> !Occupied(old(rooms)[rid])
        invariant forall rid :: rid in rooms && rid !in list ==> Occupied(rooms[rid])
        invariant forall rid :: rid in list ==> rid in old(rooms) && !Occupied(old(rooms)[rid])
        invariant stuck <==> 0 in old(rooms) && !Occupied(old(rooms)[0])
        invariant if stuck then rooms == old(rooms) && list != [] && list[0] == 0 else 0 !in list
        decreases |list|
      {
        var rid := if list == [] then 0 else list[0];
        list := if list == [] then [] else list[1..];
        if rid == 0 {
          break;
        }
        DelRoom(rid);
      }
    }

    /** chat_room_clean_list_cb over all rooms.  The table is walked slot by slot and in each slot by
        ascending id, so room 0 comes first. */
    method Unoccupied() returns (list: seq<Rid>)
      requires Counts()
      ensures forall rid :: rid in list <==> rid in rooms && !Occupied(rooms[rid])
      ensures 0 in list ==> list[0] == 0
    {
      list := [];
      var left := rooms.Keys;
      while left != {}
        invariant left <= rooms.Keys
        invariant forall rid :: rid in list <==> rid in rooms && rid !in left && !Occupied(rooms[rid])
        invariant 0 in left ==> list == []
        invariant 0 in list ==> list[0] == 0
      {
        var rid;
        if 0 in left {
          rid := 0;
        } else {
          rid := Pick(left);
        }
        CountsAnybody(rooms[rid]);
        if rooms[rid].sidNum == 0 {
          list := list + [rid];
        }
        left := left - {rid};
      }
    }

    // ----- visiting members

    /** Whom a send to the group reaches: every member for an id that is 0 in 16 bits, otherwise
        whoever asked for an id that is the same in 16 bits. */
    ghost predicate Reached(rid: Rid, gid: Gid, key: Key)
      reads this`rooms
    {
      exists g :: In(rid, g, key) && (Cut(gid) == 0 || g == Cut(gid))
    }

    /** chat_room_trav_session.  Nobody is visited twice, not even in a walk over all groups: a session
        is in one group of a room. */
    method TravSession(rid: Rid, gid: Gid) returns (visited: seq<Key>)
      requires Valid()
      ensures forall k :: k in visited <==> Reached(rid, gid, k)
      ensures NoRepeats(visited)
    {
      visited := [];
      if rid !in rooms {
        return;
      }
      var gid16 := Cut(gid);
      var room := rooms[rid];
      if gid16 == 0 {
        var left := room.groups.Keys;
        while left != {}
          invariant left <= room.groups.Keys
          invariant forall k :: k in visited <==> exists g :: g !in left && InRoom(room, g, k)
          invariant NoRepeats(visited)
        {
          var g := Pick(left);
          var more := TravGroup(room.groups[g].members);
          assert forall k :: k in more <==> InRoom(room, g, k);
          forall k | k in more ensures k !in visited {
            assert In(rid, g, k);
            assert forall h :: InRoom(room, h, k) ==> In(rid, h, k);
          }
          NoRepeatsTogether(visited, more);
          visited := visited + more;
          left := left - {g};
        }
        assert forall g, k :: In(rid, g, k) <==> InRoom(room, g, k);
        return;
      }
      if gid16 !in room.groups {
        return;
      }
      visited := TravGroup(room.groups[gid16].members);
      assert forall k :: k in visited <==> In(rid, gid16, k);
    }

    method TravGroup(members: set<Key>) returns (visited: seq<Key>)
      ensures forall k :: k in visited <==> k in members
      ensures NoRepeats(visited)
    {
      visited := [];
      var left := members;
      while left != {}
        invariant left <= members
        invariant forall k :: k in visited <==> k in members && k !in left
        invariant NoRepeats(visited)
      {
        var k := Pick(left);
        NoRepeatsTogether(visited, [k]);
        visited := visited + [k];
        left := left - {k};
      }
    }

    // ----- whom a send should reach

    ghost predicate Member(rid: Rid, key: Key)
      reads this`rooms
    {
      exists g :: In(rid, g, key)
    }

    /** Who joined the room under this id; 0 means everybody. */
    ghost predicate Meant(rid: Rid, gid: Gid, key: Key)
      reads this`rooms, this`sessions
    {
      Member(rid, key) && (gid == 0 || (key in sessions && rid in sessions[key] && sessions[key][rid] == gid))
    }

    /** Some member joined under this id. */
    ghost predicate Used(rid: Rid, gid: Gid)
      reads this`rooms, this`sessions
    {
      exists key :: Joined(rid, gid, key)
    }

    ghost predicate Joined(rid: Rid, gid: Gid, key: Key)
      reads this`rooms, this`sessions
    {
      Member(rid, key) && key in sessions && rid in sessions[key] && sessions[key][rid] == gid
    }

    /** A send reaches exactly those who joined that group, if and only if nobody in the room joined
        another one whose id is the same in 16 bits, or any other one if the id is 0 in 16 bits. */
    lemma SendExact(rid: Rid, gid: Gid)
      requires Valid()
      ensures (forall k :: Reached(rid, gid, k) <==> Meant(rid, gid, k)) <==>
              (gid == 0 || forall h :: Used(rid, h) && h != gid ==> Cut(h) != Cut(gid) && Cut(gid) != 0)
    {
      forall k ensures Reached(rid, gid, k) <==>
        Member(rid, k) && (Cut(gid) == 0 || Cut(sessions[k][rid]) == Cut(gid)) {
        ReachedIs(rid, gid, k);
      }
      if gid != 0 {
        if !(forall h :: Used(rid, h) && h != gid ==> Cut(h) != Cut(gid) && Cut(gid) != 0) {
          var h :| Used(rid, h) && h != gid && (Cut(h) == Cut(gid) || Cut(gid) == 0);
          var k :| Joined(rid, h, k);
          assert Reached(rid, gid, k) && !Meant(rid, gid, k);
        } else {
          forall k ensures Reached(rid, gid, k) <==> Meant(rid, gid, k) {
            ReachedIs(rid, gid, k);
            if Member(rid, k) {
              assert Joined(rid, sessions[k][rid], k);
              assert Used(rid, sessions[k][rid]);
            }
          }
        }
      }
    }

    lemma ReachedIs(rid: Rid, gid: Gid, k: Key)
      requires Valid()
      ensures Member(rid, k) ==> k in sessions && rid in sessions[k]
      ensures Reached(rid, gid, k) <==> Member(rid, k) && (Cut(gid) == 0 || Cut(sessions[k][rid]) == Cut(gid))
    {
      if Member(rid, k) {
        var g :| In(rid, g, k);
        assert g == Cut(sessions[k][rid]);
      }
    }
  }

  /** The session side may know more than the rooms do: the second room a session joins is recorded on
      its side, and nobody is a member of it.  RoomAddSession says when this happens: exactly when the
      session is in the table already. */
  method LaterRoomIsOneSided() returns (chat: ChatTab)
    ensures fresh(chat) && chat.Valid()
    ensures chat.sessions == map[Key(5, 9) := map[1 := 1, 2 := 1]]
    ensures chat.In(1, 1, Key(5, 9)) && forall gid, key :: !chat.In(2, gid, key)
  {
    chat := new ChatTab();
    var gid := chat.RoomAddSession(1, 1, 5, 9);
    gid := chat.RoomAddSession(2, 1, 5, 9);
  }

  /** A send to group 1 reaches a member who joined under 65537: both ids are the same in 16 bits, and
      the two are in one group. */
  method SendReachesBoth() returns (chat: ChatTab, visited: seq<Key>)
    ensures fresh(chat) && chat.Valid()
    ensures Key(5, 9) in chat.sessions && chat.sessions[Key(5, 9)] == map[1 := 65537]
    ensures chat.In(1, 1, Key(5, 9)) && chat.In(1, 1, Key(6, 10)) && Key(5, 9) in visited && Key(6, 10) in visited
    ensures chat.Reached(1, 1, Key(5, 9)) && !chat.Meant(1, 1, Key(5, 9))
  {
    chat := new ChatTab();
    var gid := chat.RoomAddSession(1, 65537, 5, 9);
    gid := chat.RoomAddSession(1, 1, 6, 10);
    assert chat.In(1, 1, Key(5, 9)) && chat.In(1, 1, Key(6, 10));
    visited := chat.TravSession(1, 1);
  }

  /** With room 0 empty, room 1 stays after everybody has left it and the rooms were cleaned. */
  method EmptyRoomStays() returns (chat: ChatTab)
    ensures fresh(chat) && chat.Valid()
    ensures 1 in chat.rooms && !Occupied(chat.rooms[1])
  {
    chat := new ChatTab();
    var gid := chat.RoomAddSession(0, 1, 5, 9);
    gid := chat.RoomAddSession(1, 1, 6, 10);
    assert chat.In(0, 1, Key(5, 9)) && chat.In(1, 1, Key(6, 10));
    chat.DelSession(5, 9);
    chat.DelSession(6, 10);
    assert forall r, g, k :: !chat.In(r, g, k);
    assert forall r :: r in chat.rooms ==> !Occupied(chat.rooms[r]) by {
      forall r | r in chat.rooms ensures !Occupied(chat.rooms[r]) {
        assert forall g, k :: InRoom(chat.rooms[r], g, k) ==> chat.In(r, g, k);
      }
    }
    assert 0 in chat.rooms && 1 in chat.rooms;
    chat.CleanRooms();
  }
}
