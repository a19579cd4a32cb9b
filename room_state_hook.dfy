/** The browser-side room store: rooms kept in local storage under "room_" + code,
    and the three read-modify-write mutations the page uses on them. */
module RoomStateHook {
  import opened Types
  import opened StorageKeys
  import opened RoomUpdates

  /** The room entries of local storage, each already parsed back into a room. */
  class LocalRoomStorage {
    var items: map<string, RoomState>

    /** Every entry sits under the key of the room it holds. */
    ghost predicate Valid()
      reads this
    {
      forall k :: k in items ==> k == RoomKey(items[k].code)
    }

    /** The room stored for `code`, if any. */
    function Stored(code: string): Option<RoomState>
      reads this
    {
      if RoomKey(code) in items then Some(items[RoomKey(code)]) else None
    }

    constructor()
      ensures items == map[] && Valid()
    {
      items := map[];
    }

    /** Writes `state` under the key of its own code. */
    method SaveRoomState(state: RoomState)
      requires Valid()
      modifies this
      ensures Valid()
      ensures items == old(items)[RoomKey(state.code) := state]
      ensures Stored(state.code) == Some(state)
      ensures forall c :: c != state.code ==> Stored(c) == old(Stored(c))
    {
      items := items[RoomKey(state.code) := state];
    }

    /** The room last saved with code `code`, or None when there is none. */
    method LoadRoomState(code: string) returns (r: Option<RoomState>)
      requires Valid()
      ensures r == Stored(code)
      ensures r.Some? ==> r.value.code == code
    {
      var key := RoomKey(code);
      if key in items {
        r := Some(items[key]);
        RoomKeyInjective(r.value.code, code);
      } else {
        r := None;
      }
    }

    /** Heartbeat: stamps every entry of `user` with `now`, or appends it when it
        has none, and stores the result. `published` is what the page is handed;
        nothing happens when the room is absent. */
    method UpdateUserInRoom(code: string, user: User, now: int) returns (published: Option<RoomState>)
      requires Valid()
      modifies this
      ensures Valid()
      ensures old(Stored(code)).None? ==> published.None? && items == old(items)
      ensures old(Stored(code)).Some? ==>
        published == Some(WithUser(old(Stored(code)).value, user, now)) &&
        items == old(items)[RoomKey(code) := published.value]
    {
      published := None;
      var stored := LoadRoomState(code);
      if stored.Some? {
        var state := stored.value;
        var updatedUsers := ReplaceMatching(state.users, user, now);
        if !HasUserId(updatedUsers, user.id) {
          updatedUsers := updatedUsers + [Stamp(user, now)];
        }
        var updatedState := state.(users := updatedUsers, lastUpdated := now);
        SaveRoomState(updatedState);
        published := Some(updatedState);
      }
    }

    /** Moves the room to `screen`, clearing the votes when a voting round starts. */
    method UpdateRoomScreen(code: string, screen: Screen, now: int) returns (published: Option<RoomState>)
      requires Valid()
      modifies this
      ensures Valid()
      ensures old(Stored(code)).None? ==> published.None? && items == old(items)
      ensures old(Stored(code)).Some? ==>
        published == Some(WithScreen(old(Stored(code)).value, screen, now)) &&
        items == old(items)[RoomKey(code) := published.value]
    {
      published := None;
      var stored := LoadRoomState(code);
      if stored.Some? {
        var updatedState := stored.value.(currentScreen := screen, lastUpdated := now);
        if screen == Voting {
          updatedState := updatedState.(votes := []);
        }
        SaveRoomState(updatedState);
        published := Some(updatedState);
      }
    }

    /** Replaces every vote of `userId` by `votes`, appended after the others. */
    method SubmitUserVotes(code: string, votes: seq<Vote>, userId: string, now: int) returns (published: Option<RoomState>)
      requires Valid()
      modifies this
      ensures Valid()
      ensures old(Stored(code)).None? ==> published.None? && items == old(items)
      ensures old(Stored(code)).Some? ==>
        published == Some(WithSubmittedVotes(old(Stored(code)).value, votes, userId, now)) &&
        items == old(items)[RoomKey(code) := published.value]
    {
      published := None;
      var stored := LoadRoomState(code);
      if stored.Some? {
        var state := stored.value;
        var filteredVotes := RemoveVotesOf(state.votes, userId);
        var updatedState := state.(votes := filteredVotes + votes, lastUpdated := now);
        SaveRoomState(updatedState);
        published := Some(updatedState);
      }
    }
  }

  /** What a load returns after a sequence of saves: the last saved room with that
      code, or None when no saved room had it. */
  function LastSaved(saves: seq<RoomState>, code: string): (r: Option<RoomState>)
    ensures r.Some? ==> r.value.code == code && r.value in saves
    ensures r.Some? ==> (exists i :: 0 <= i < |saves| && saves[i] == r.value &&
                                     (forall j :: i < j < |saves| ==> saves[j].code != code))
    ensures r.None? <==> forall i :: 0 <= i < |saves| ==> saves[i].code != code
  {
    if saves == [] then None
    else if saves[|saves| - 1].code == code then Some(saves[|saves| - 1])
    else LastSaved(saves[..|saves| - 1], code)
  }

  /** A storage map built by saving `saves`, one after the other, into an empty one. */
  function SavedItems(saves: seq<RoomState>): map<string, RoomState>
  {
    if saves == [] then map[]
    else SavedItems(saves[..|saves| - 1])[RoomKey(saves[|saves| - 1].code) := saves[|saves| - 1]]
  }

  /** Saving a sequence of rooms into empty storage and loading a code gives the
      last room saved with that code, and nothing when none had it. */
  lemma {:induction false} LoadAfterSaves(saves: seq<RoomState>, code: string)
    ensures RoomKey(code) in SavedItems(saves) <==> LastSaved(saves, code).Some?
    ensures RoomKey(code) in SavedItems(saves) ==> SavedItems(saves)[RoomKey(code)] == LastSaved(saves, code).value
  {
    if saves != [] {
      var last := saves[|saves| - 1];
      LoadAfterSaves(saves[..|saves| - 1], code);
      if last.code != code {
        assert RoomKey(last.code) != RoomKey(code) by {
          if RoomKey(last.code) == RoomKey(code) {
            RoomKeyInjective(last.code, code);
          }
        }
      }
    }
  }
}
