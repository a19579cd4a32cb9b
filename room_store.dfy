/** The server's in-memory room store: rooms by code, each stamped when it was last
    set, and per-room sets of subscribers that are handed every new state. */
module ServerRoomStore {
  import opened Types

  datatype RoomData<S> = RoomData(code: string, state: S, lastUpdated: int)

  /** A subscriber callback, known only by its identity. */
  datatype SubscriberId = SubscriberId(n: nat)

  /** Rooms not set for longer than this (24 hours, in milliseconds) are swept. */
  const MaxAge: int := 24 * 60 * 60 * 1000

  predicate Expired<S>(room: RoomData<S>, now: int)
  {
    now - room.lastUpdated > MaxAge
  }

  /** The rooms a sweep at `now` keeps: exactly those set within the last 24 hours. */
  function Survivors<S>(rooms: map<string, RoomData<S>>, now: int): (r: map<string, RoomData<S>>)
    ensures forall c :: c in r <==> c in rooms && now - rooms[c].lastUpdated <= MaxAge
    ensures forall c :: c in r ==> r[c] == rooms[c]
  {
    map c | c in rooms && !Expired(rooms[c], now) :: rooms[c]
  }

  /** The subscriber entries a sweep keeps: all but those of the swept rooms. */
  function SurvivingSubscribers<S>(subscribers: map<string, set<SubscriberId>>, rooms: map<string, RoomData<S>>, now: int): (r: map<string, set<SubscriberId>>)
    ensures forall c :: c in r <==> c in subscribers && (c in rooms ==> now - rooms[c].lastUpdated <= MaxAge)
    ensures forall c :: c in r ==> r[c] == subscribers[c]
  {
    map c | c in subscribers && !(c in rooms && Expired(rooms[c], now)) :: subscribers[c]
  }

  /** A room set exactly 24 hours ago survives; one set a millisecond earlier does not. */
  lemma SweepBoundary<S>(room: RoomData<S>, now: int)
    ensures room.lastUpdated == now - 86400000 ==> !Expired(room, now)
    ensures room.lastUpdated == now - 86400001 ==> Expired(room, now)
  {
  }

  class RoomStore<S> {
    var rooms: map<string, RoomData<S>>
    var subscribers: map<string, set<SubscriberId>>

    /** Each room is filed under its own code, and no room keeps an empty
        subscriber set. */
    ghost predicate Valid()
      reads this
    {
      (forall c :: c in rooms ==> rooms[c].code == c) &&
      (forall c :: c in subscribers ==> subscribers[c] != {})
    }

    constructor()
      ensures Valid() && rooms == map[] && subscribers == map[]
    {
      rooms := map[];
      subscribers := map[];
    }

    /** Stores `state` for `code` stamped with `now`, and hands it to every
        subscriber of `code` registered at this moment (`notified` maps each of
        them to what it received). */
    method SetRoom(code: string, state: S, now: int) returns (notified: map<SubscriberId, S>)
      requires Valid()
      modifies this
      ensures Valid()
      ensures rooms == old(rooms)[code := RoomData(code, state, now)]
      ensures subscribers == old(subscribers)
      ensures GetRoom(code) == Some(state)
      ensures forall c :: c != code ==> GetRoom(c) == old(GetRoom(c))
      ensures notified.Keys == (if code in subscribers then subscribers[code] else {})
      ensures forall id :: id in notified ==> notified[id] == state
    {
      rooms := rooms[code := RoomData(code, state, now)];
      notified := map[];
      if code in subscribers {
        var roomSubscribers := subscribers[code];
        var pending := roomSubscribers;
        while pending != {}
          invariant pending <= roomSubscribers
          invariant notified.Keys == roomSubscribers - pending
          invariant forall id :: id in notified ==> notified[id] == state
          decreases pending
        {
          var callback :| callback in pending;
          notified := notified[callback := state];
          pending := pending - {callback};
        }
      }
    }

    /** The state last set for `code`, or None when it was never set or was deleted. */
    function GetRoom(code: string): (r: Option<S>)
      reads this
      ensures r.Some? <==> code in rooms
      ensures r.Some? ==> r.value == rooms[code].state
    {
      if code in rooms then Some(rooms[code].state) else None
    }

    /** Registers `id` for `code`; the returned unsubscribe is `Unsubscribe(code, id)`. */
    method Subscribe(code: string, id: SubscriberId)
      requires Valid()
      modifies this
      ensures Valid()
      ensures rooms == old(rooms)
      ensures code in subscribers && id in subscribers[code]
      ensures subscribers == old(subscribers)[code := (if code in old(subscribers) then old(subscribers)[code] else {}) + {id}]
    {
      if code !in subscribers {
        subscribers := subscribers[code := {}];
      }
      subscribers := subscribers[code := subscribers[code] + {id}];
    }

    /** Removes `id` from `code`'s subscribers, dropping the entry once it is empty. */
    method Unsubscribe(code: string, id: SubscriberId)
      requires Valid()
      modifies this
      ensures Valid()
      ensures rooms == old(rooms)
      ensures code !in subscribers || id !in subscribers[code]
      ensures code in old(subscribers) && old(subscribers)[code] - {id} != {} ==>
        subscribers == old(subscribers)[code := old(subscribers)[code] - {id}]
      ensures code in old(subscribers) && old(subscribers)[code] - {id} == {} ==>
        subscribers == old(subscribers) - {code}
      ensures code !in old(subscribers) ==> subscribers == old(subscribers)
    {
      if code in subscribers {
        var roomSubscribers := subscribers[code] - {id};
        if roomSubscribers == {} {
          subscribers := subscribers - {code};
        } else {
          subscribers := subscribers[code := roomSubscribers];
        }
      }
    }

    /** The stored codes, each once. */
    method GetRooms() returns (codes: seq<string>)
      ensures forall c :: c in codes <==> c in rooms
      ensures forall i, j :: 0 <= i < j < |codes| ==> codes[i] != codes[j]
    {
      codes := [];
      var pending := rooms.Keys;
      while pending != {}
        invariant pending <= rooms.Keys
        invariant forall c :: c in codes <==> c in rooms && c !in pending
        invariant forall i, j :: 0 <= i < j < |codes| ==> codes[i] != codes[j]
        decreases pending
      {
        var code :| code in pending;
        codes := codes + [code];
        pending := pending - {code};
      }
    }

    /** Forgets the room and all of its subscribers. */
    method DeleteRoom(code: string)
      requires Valid()
      modifies this
      ensures Valid()
      ensures rooms == old(rooms) - {code} && subscribers == old(subscribers) - {code}
      ensures GetRoom(code).None?
    {
      rooms := rooms - {code};
      subscribers := subscribers - {code};
    }

    /** Deletes every room not set within 24 hours of `now`, with its subscribers. */
    method Cleanup(now: int)
      requires Valid()
      modifies this
      ensures Valid()
      ensures rooms == Survivors(old(rooms), now)
      ensures subscribers == SurvivingSubscribers(old(subscribers), old(rooms), now)
    {
      ghost var startRooms := rooms;
      ghost var startSubscribers := subscribers;
      var pending := rooms.Keys;
      while pending != {}
        invariant Valid()
        invariant pending <= startRooms.Keys
        invariant rooms == map c | c in startRooms && (c in pending || !Expired(startRooms[c], now)) :: startRooms[c]
        invariant subscribers == map c | c in startSubscribers && !(c in startRooms && c !in pending && Expired(startRooms[c], now)) :: startSubscribers[c]
        decreases pending
      {
        var code :| code in pending;
        if now - rooms[code].lastUpdated > MaxAge {
          DeleteRoom(code);
        }
        pending := pending - {code};
      }
    }
  }
}
