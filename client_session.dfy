/** The page controller of the client: the session state it keeps, the poll tick
    that keeps the stored room and the session in step, room creation and joining,
    and the voting handlers. */
module ClientApp {
  import opened Types
  import opened Text
  import opened StorageKeys
  import opened RoomUpdates
  import opened RoomStateHook
  import opened MenuScreen

  // ---------------------------------------------------------------------------
  // The poll tick, as a function of the room read at its start
  // ---------------------------------------------------------------------------

  /** Some user in `users` has not been heard from within the timeout. */
  predicate SomeoneSilent(users: seq<User>, now: int)
  {
    exists i :: 0 <= i < |users| && !IsActive(users[i], now)
  }

  /** What a tick leaves in storage, given the room `snap` read at its start: the
      heartbeat is written first, and when a user is dropped the pruned snapshot
      is written over it. */
  function TickWrite(snap: RoomState, user: User, now: int): (r: RoomState)
    ensures r == snap.(users := r.users, lastUpdated := now)
    ensures |r.users| <= |snap.users| + 1
  {
    if |ActiveUsers(snap.users, now)| != |snap.users| then Pruned(snap, now) else WithUser(snap, user, now)
  }

  /** The room a tick hands to the page: the pruned snapshot, or the snapshot itself. */
  function TickView(snap: RoomState, now: int): (r: RoomState)
    ensures r == snap.(users := r.users, lastUpdated := r.lastUpdated)
    ensures |r.users| <= |snap.users|
  {
    if |ActiveUsers(snap.users, now)| != |snap.users| then Pruned(snap, now) else snap
  }

  /** When some user is silent, the tick stores exactly the active users of the
      snapshot (a user exactly at the timeout is silent); otherwise it stores the
      heartbeat. */
  lemma TickPrunesExactlyWhenSomeoneSilent(snap: RoomState, user: User, now: int)
    ensures SomeoneSilent(snap.users, now) ==> TickWrite(snap, user, now) == Pruned(snap, now)
    ensures SomeoneSilent(snap.users, now) ==>
      forall u :: u in TickWrite(snap, user, now).users <==> u in snap.users && IsActive(u, now)
    ensures !SomeoneSilent(snap.users, now) ==> TickWrite(snap, user, now) == WithUser(snap, user, now)
    ensures !SomeoneSilent(snap.users, now) ==> TickView(snap, now) == snap
  {
    ActiveUsersKeepsLengthIffAllActive(snap.users, now);
    forall u {
      ActiveUsersMembership(snap.users, now, u);
    }
  }

  /** When nobody is silent, the tick records the heartbeat: the user is present
      and every entry with its id carries `lastSeen == now`. */
  lemma TickRecordsHeartbeatWhenNobodySilent(snap: RoomState, user: User, now: int)
    requires !SomeoneSilent(snap.users, now)
    ensures HasUserId(TickWrite(snap, user, now).users, user.id)
    ensures forall i :: 0 <= i < |TickWrite(snap, user, now).users| && TickWrite(snap, user, now).users[i].id == user.id ==>
      TickWrite(snap, user, now).users[i] == user.(lastSeen := now)
  {
    TickPrunesExactlyWhenSomeoneSilent(snap, user, now);
    UpsertMakesUserPresent(snap.users, user, now);
  }

  /** The pruning write is built from the snapshot, so it overwrites the heartbeat:
      a user absent from the snapshot stays absent from storage, even though its
      own heartbeat was written earlier in the same tick. */
  lemma TickLosesHeartbeatWhenPruning(snap: RoomState, user: User, now: int)
    requires SomeoneSilent(snap.users, now)
    requires !HasUserId(snap.users, user.id)
    ensures !HasUserId(TickWrite(snap, user, now).users, user.id)
    ensures HasUserId(WithUser(snap, user, now).users, user.id)
  {
    TickPrunesExactlyWhenSomeoneSilent(snap, user, now);
    UpsertMakesUserPresent(snap.users, user, now);
    var written := TickWrite(snap, user, now).users;
    forall i | 0 <= i < |written|
      ensures written[i].id != user.id
    {
      assert written[i] in snap.users;
    }
  }

  // ---------------------------------------------------------------------------
  // Local vote selections
  // ---------------------------------------------------------------------------

  /** Choosing `v` for `g`: choosing the value already chosen clears it, any other
      choice replaces it; the other groups keep their selections. */
  function ToggleVote(picks: map<Group, FibonacciValue>, g: Group, v: FibonacciValue): (r: map<Group, FibonacciValue>)
    ensures g in r <==> !(g in picks && picks[g] == v)
    ensures g in r ==> r[g] == v
    ensures forall h :: h != g ==> (h in r <==> h in picks) && (h in r ==> r[h] == picks[h])
  {
    if g in picks && picks[g] == v then picks - {g} else picks[g := v]
  }

  /** The reveal screen's edit of one selection: None clears it, Some sets it. */
  function SetSelection(picks: map<Group, FibonacciValue>, g: Group, value: Option<FibonacciValue>): (r: map<Group, FibonacciValue>)
    ensures g in r <==> value.Some?
    ensures value.Some? ==> r[g] == value.value
    ensures forall h :: h != g ==> (h in r <==> h in picks) && (h in r ==> r[h] == picks[h])
  {
    if value.None? then picks - {g} else picks[g := value.value]
  }

  /** Toggling is a selection edit: clear when the value was chosen, set otherwise. */
  lemma ToggleIsSelectionEdit(picks: map<Group, FibonacciValue>, g: Group, v: FibonacciValue)
    ensures ToggleVote(picks, g, v) == SetSelection(picks, g, if g in picks && picks[g] == v then None else Some(v))
  {
    var a := ToggleVote(picks, g, v);
    var b := SetSelection(picks, g, if g in picks && picks[g] == v then None else Some(v));
    assert forall h :: h in a <==> h in b;
  }

  /** Choosing the same value twice restores the selections, except when the
      group first held a different value (which the second click then clears). */
  lemma ToggleTwice(picks: map<Group, FibonacciValue>, g: Group, v: FibonacciValue)
    ensures ToggleVote(ToggleVote(picks, g, v), g, v) == picks <==> !(g in picks && picks[g] != v)
  {
    var twice := ToggleVote(ToggleVote(picks, g, v), g, v);
    if !(g in picks && picks[g] != v) {
      assert forall h :: h in twice <==> h in picks;
    } else {
      assert g !in twice;
    }
  }

  // ---------------------------------------------------------------------------
  // The ballot a submission sends
  // ---------------------------------------------------------------------------

  /** The groups of `groups` that have a selection, in order. */
  function Chosen(groups: seq<Group>, picks: map<Group, FibonacciValue>): (r: seq<Group>)
    ensures |r| <= |groups|
    ensures forall g :: g in r <==> g in groups && g in picks
  {
    if groups == [] then []
    else
      var rest := Chosen(groups[..|groups| - 1], picks);
      var g := groups[|groups| - 1];
      assert forall h :: h in groups <==> h in groups[..|groups| - 1] || h == g by {
        assert groups == groups[..|groups| - 1] + [g];
      }
      if g in picks then rest + [g] else rest
  }

  /** One vote by `user` per group of `groups` that has a selection, in the order
      of `groups`, carrying that selection and the time `now`. */
  function Ballot(user: User, groups: seq<Group>, picks: map<Group, FibonacciValue>, now: int): (r: seq<Vote>)
    ensures |r| == |Chosen(groups, picks)|
    ensures forall i :: 0 <= i < |r| ==>
      Chosen(groups, picks)[i] in picks &&
      r[i] == Vote(user.id, user.name, Chosen(groups, picks)[i], picks[Chosen(groups, picks)[i]], now)
  {
    if groups == [] then []
    else
      var rest := Ballot(user, groups[..|groups| - 1], picks, now);
      var g := groups[|groups| - 1];
      if g in picks then rest + [Vote(user.id, user.name, g, picks[g], now)] else rest
  }

  /** Builds the ballot of `user` from the selections `picks` group by group, and
      counts its votes. */
  method BuildBallot(user: User, picks: map<Group, FibonacciValue>, now: int) returns (votes: seq<Vote>, voteCount: nat)
    ensures votes == Ballot(user, user.groups, picks, now)
    ensures voteCount == |votes|
  {
    votes := [];
    voteCount := 0;
    var groups := user.groups;
    for i := 0 to |groups|
      invariant votes == Ballot(user, groups[..i], picks, now)
      invariant voteCount == |votes|
    {
      var group := groups[i];
      BallotStep(user, groups, i, picks, now);
      if group in picks {
        votes := votes + [Vote(user.id, user.name, group, picks[group], now)];
        voteCount := voteCount + 1;
      }
    }
    assert groups[..|groups|] == groups;
  }

  /** Extending the groups by one extends the ballot by that group's vote, if any. */
  lemma BallotStep(user: User, groups: seq<Group>, i: nat, picks: map<Group, FibonacciValue>, now: int)
    requires i < |groups|
    ensures Ballot(user, groups[..i + 1], picks, now) ==
      Ballot(user, groups[..i], picks, now) + (if groups[i] in picks then [Vote(user.id, user.name, groups[i], picks[groups[i]], now)] else [])
  {
    assert groups[..i + 1][..i] == groups[..i];
  }

  /** A ballot is empty exactly when none of the user's groups has a selection, and
      every vote on it carries the user's id. */
  lemma BallotEmptyIffNothingChosen(user: User, picks: map<Group, FibonacciValue>, now: int)
    ensures Ballot(user, user.groups, picks, now) == [] <==> forall g :: g in user.groups ==> g !in picks
    ensures forall i :: 0 <= i < |Ballot(user, user.groups, picks, now)| ==> Ballot(user, user.groups, picks, now)[i].userId == user.id
  {
    var chosen := Chosen(user.groups, picks);
    if chosen != [] {
      assert chosen[0] in chosen;
    }
  }

  // ---------------------------------------------------------------------------
  // Request validation
  // ---------------------------------------------------------------------------

  datatype RequestOutcome = MissingInformation | RoomNotFound | Accepted

  /** Creating needs a name and at least one group. */
  predicate MissingCreateInfo(user: User)
  {
    user.name == "" || |user.groups| == 0
  }

  /** Joining needs a room code as well. */
  predicate MissingJoinInfo(user: User, joinRoomCode: string)
  {
    joinRoomCode == "" || MissingCreateInfo(user)
  }

  /** While no request is in progress, the menu disables a button exactly when its
      handler would reject the request. */
  lemma ButtonsMatchHandlers(user: User, joinRoomCode: string)
    ensures CreateDisabled(user, false) <==> MissingCreateInfo(user)
    ensures JoinDisabled(user, joinRoomCode, false) <==> MissingJoinInfo(user, joinRoomCode)
  {
  }

  // ---------------------------------------------------------------------------
  // The session
  // ---------------------------------------------------------------------------

  class ClientSession {
    const storage: LocalRoomStorage
    var currentScreen: Screen
    var currentUser: User
    var roomCode: string
    var joinRoomCode: string
    var roomState: Option<RoomState>
    var selectedGroup: Option<Group>
    var userVotes: map<Group, FibonacciValue>
    var isLoading: bool
    var votingComplete: bool

    ghost predicate Valid()
      reads this, storage
    {
      storage.Valid()
    }

    /** A fresh page: on the menu, an anonymous user with the generated id, no room. */
    constructor(storage: LocalRoomStorage, userId: string, now: int)
      requires storage.Valid()
      ensures Valid() && this.storage == storage
      ensures currentScreen == Menu && currentUser == User(userId, "", [], false, true, now)
      ensures roomCode == "" && joinRoomCode == "" && roomState.None? && selectedGroup.None?
      ensures userVotes == map[] && !isLoading && !votingComplete
    {
      this.storage := storage;
      currentScreen := Menu;
      currentUser := User(userId, "", [], false, true, now);
      roomCode := "";
      joinRoomCode := "";
      roomState := None;
      selectedGroup := None;
      userVotes := map[];
      isLoading := false;
      votingComplete := false;
    }

    /** One poll tick: heartbeat, pruning of silent users, and, for a non-admin,
        adopting the room's screen (starting a fresh round when it is voting).
        Nothing happens without a room code or when the room is not stored. */
    method PollTick(now: int)
      requires Valid()
      modifies this, storage
      ensures Valid()
      ensures old(roomCode) == "" || old(storage.Stored(roomCode)).None? ==>
        unchanged(this) && unchanged(storage)
      ensures old(roomCode) != "" && old(storage.Stored(roomCode)).Some? ==>
        var snap := old(storage.Stored(roomCode)).value;
        storage.items == old(storage.items)[RoomKey(roomCode) := TickWrite(snap, currentUser, now)] &&
        roomState == Some(TickView(snap, now)) &&
        roomCode == old(roomCode) && currentUser == old(currentUser) &&
        joinRoomCode == old(joinRoomCode) && isLoading == old(isLoading) &&
        currentScreen == (if currentUser.isAdmin then old(currentScreen) else snap.currentScreen) &&
        (if !currentUser.isAdmin && old(currentScreen) != Voting && snap.currentScreen == Voting
         then userVotes == map[] && selectedGroup.None? && !votingComplete
         else userVotes == old(userVotes) && selectedGroup == old(selectedGroup) && votingComplete == old(votingComplete))
    {
      if roomCode == "" {
        return;
      }
      var state := storage.LoadRoomState(roomCode);
      if state.Some? {
        var snap := state.value;
        var heartbeat := storage.UpdateUserInRoom(roomCode, currentUser, now);
        var activeUsers := ActiveUsers(snap.users, now);
        if |activeUsers| != |snap.users| {
          var updatedState := snap.(users := activeUsers, lastUpdated := now);
          storage.SaveRoomState(updatedState);
          roomState := Some(updatedState);
        } else {
          roomState := Some(snap);
        }
        SyncScreen(snap.currentScreen);
      }
    }

    /** The screen mirroring of a poll tick: a non-admin whose screen differs from
        the room's adopts it, and a new voting round clears the local selections;
        an admin's screen is left alone. */
    method SyncScreen(roomScreen: Screen)
      modifies this`currentScreen, this`userVotes, this`selectedGroup, this`votingComplete
      ensures currentScreen == (if currentUser.isAdmin then old(currentScreen) else roomScreen)
      ensures if !currentUser.isAdmin && old(currentScreen) != Voting && roomScreen == Voting
        then userVotes == map[] && selectedGroup.None? && !votingComplete
        else userVotes == old(userVotes) && selectedGroup == old(selectedGroup) && votingComplete == old(votingComplete)
    {
      if !currentUser.isAdmin && roomScreen != currentScreen {
        currentScreen := roomScreen;
        if roomScreen == Voting {
          userVotes := map[];
          selectedGroup := None;
          votingComplete := false;
        }
      }
    }

    /** Starts a room with code `randomCode` upper-cased: the user becomes its
        admin, and the new room is stored and shown. */
    method GenerateRoomCode(randomCode: string, now: int)
      requires Valid()
      modifies this, storage
      ensures Valid()
      ensures roomCode == ToUpper(randomCode)
      ensures currentUser == old(currentUser).(isAdmin := true, lastSeen := now)
      ensures roomState == Some(InitialRoom(roomCode, currentUser, now))
      ensures storage.items == old(storage.items)[RoomKey(roomCode) := InitialRoom(roomCode, currentUser, now)]
      ensures currentScreen == old(currentScreen) && joinRoomCode == old(joinRoomCode) && isLoading == old(isLoading)
      ensures selectedGroup == old(selectedGroup) && userVotes == old(userVotes) && votingComplete == old(votingComplete)
    {
      var code := ToUpper(randomCode);
      roomCode := code;
      var adminUser := currentUser.(isAdmin := true, lastSeen := now);
      currentUser := adminUser;
      var newRoomState := RoomState(code, Waiting, [adminUser], [], [], adminUser.id, now, now, None);
      storage.SaveRoomState(newRoomState);
      roomState := Some(newRoomState);
    }

    /** Creates a room and moves to the waiting screen, or rejects the request,
        changing nothing, when the name or the groups are missing. */
    method CreateRoom(randomCode: string, now: int) returns (outcome: RequestOutcome)
      requires Valid()
      modifies this, storage
      ensures Valid()
      ensures outcome != RoomNotFound
      ensures outcome == MissingInformation <==> MissingCreateInfo(old(currentUser))
      ensures outcome == MissingInformation ==> unchanged(this) && unchanged(storage)
      ensures outcome == Accepted ==>
        roomCode == ToUpper(randomCode) && currentScreen == Waiting && !isLoading &&
        currentUser == old(currentUser).(isAdmin := true, lastSeen := now) &&
        roomState == Some(InitialRoom(roomCode, currentUser, now)) &&
        storage.items == old(storage.items)[RoomKey(roomCode) := InitialRoom(roomCode, currentUser, now)] &&
        joinRoomCode == old(joinRoomCode) && selectedGroup == old(selectedGroup) &&
        userVotes == old(userVotes) && votingComplete == old(votingComplete)
    {
      if currentUser.name == "" || |currentUser.groups| == 0 {
        return MissingInformation;
      }
      isLoading := true;
      GenerateRoomCode(randomCode, now);
      currentScreen := Waiting;
      isLoading := false;
      outcome := Accepted;
    }

    /** Joins the room whose code was typed: rejected, changing nothing, when
        information is missing; not found, leaving the room code and the screen
        as they were, when the room is not stored; otherwise the user enters the
        room with a heartbeat and adopts the room's screen. */
    method JoinRoom(now: int) returns (outcome: RequestOutcome)
      requires Valid()
      modifies this, storage
      ensures Valid()
      ensures outcome == MissingInformation <==> MissingJoinInfo(old(currentUser), old(joinRoomCode))
      ensures outcome == MissingInformation ==> unchanged(this) && unchanged(storage)
      ensures outcome == RoomNotFound <==>
        !MissingJoinInfo(old(currentUser), old(joinRoomCode)) && old(storage.Stored(joinRoomCode)).None?
      ensures outcome == RoomNotFound ==>
        unchanged(storage) && roomCode == old(roomCode) && currentScreen == old(currentScreen) &&
        currentUser == old(currentUser) && roomState == old(roomState) && !isLoading &&
        joinRoomCode == old(joinRoomCode)
      ensures outcome == Accepted ==>
        var existing := old(storage.Stored(joinRoomCode)).value;
        roomCode == joinRoomCode == old(joinRoomCode) && !isLoading &&
        currentUser == old(currentUser).(isOnline := true, lastSeen := now) &&
        storage.items == old(storage.items)[RoomKey(roomCode) := WithUser(existing, currentUser, now)] &&
        roomState == Some(WithUser(existing, currentUser, now)) &&
        currentScreen == existing.currentScreen
      ensures selectedGroup == old(selectedGroup) && userVotes == old(userVotes) && votingComplete == old(votingComplete)
    {
      if joinRoomCode == "" || currentUser.name == "" || |currentUser.groups| == 0 {
        return MissingInformation;
      }
      isLoading := true;
      var existingRoom := storage.LoadRoomState(joinRoomCode);
      if existingRoom.None? {
        isLoading := false;
        return RoomNotFound;
      }
      roomCode := joinRoomCode;
      var newUser := currentUser.(isOnline := true, lastSeen := now);
      currentUser := newUser;
      var published := storage.UpdateUserInRoom(joinRoomCode, newUser, now);
      if published.Some? {
        roomState := published;
      }
      currentScreen := existingRoom.value.currentScreen;
      isLoading := false;
      outcome := Accepted;
    }

    /** Clicks card `value`: without a selected group nothing changes; otherwise
        the selected group's choice is toggled. */
    method VoteForNumber(value: FibonacciValue)
      modifies this`userVotes
      ensures selectedGroup.None? ==> userVotes == old(userVotes)
      ensures selectedGroup.Some? ==> userVotes == ToggleVote(old(userVotes), selectedGroup.value, value)
    {
      if selectedGroup.None? {
        return;
      }
      var voteKey := selectedGroup.value;
      if voteKey in userVotes && userVotes[voteKey] == value {
        userVotes := userVotes - {voteKey};
        return;
      }
      userVotes := userVotes[voteKey := value];
    }

    /** Sends one vote per group of the user that has a selection, in the order of
        the user's groups; with none, nothing is sent and the round is not marked
        complete. */
    method SubmitVotes(now: int) returns (newVotes: seq<Vote>)
      requires Valid()
      modifies this, storage
      ensures Valid()
      ensures newVotes == Ballot(currentUser, currentUser.groups, userVotes, now)
      ensures newVotes == [] ==> unchanged(this) && unchanged(storage)
      ensures newVotes != [] ==> votingComplete
      ensures newVotes != [] && old(storage.Stored(roomCode)).Some? ==>
        var updated := WithSubmittedVotes(old(storage.Stored(roomCode)).value, newVotes, currentUser.id, now);
        storage.items == old(storage.items)[RoomKey(roomCode) := updated] && roomState == Some(updated)
      ensures newVotes != [] && old(storage.Stored(roomCode)).None? ==>
        storage.items == old(storage.items) && roomState == old(roomState)
      ensures currentScreen == old(currentScreen) && currentUser == old(currentUser) && roomCode == old(roomCode)
      ensures userVotes == old(userVotes) && selectedGroup == old(selectedGroup) && isLoading == old(isLoading)
      ensures joinRoomCode == old(joinRoomCode)
    {
      var voteCount;
      newVotes, voteCount := BuildBallot(currentUser, userVotes, now);
      if |newVotes| == 0 {
        return;
      }
      var published := storage.SubmitUserVotes(roomCode, newVotes, currentUser.id, now);
      if published.Some? {
        roomState := published;
      }
      votingComplete := true;
    }

    /** Starts a new voting round for everybody and clears the local selections. */
    method ProceedToVoting(now: int)
      requires Valid()
      modifies this, storage
      ensures Valid()
      ensures old(storage.Stored(roomCode)).Some? ==>
        storage.items == old(storage.items)[RoomKey(roomCode) := WithScreen(old(storage.Stored(roomCode)).value, Voting, now)] &&
        roomState == Some(WithScreen(old(storage.Stored(roomCode)).value, Voting, now))
      ensures old(storage.Stored(roomCode)).None? ==> storage.items == old(storage.items) && roomState == old(roomState)
      ensures currentScreen == Voting && userVotes == map[] && selectedGroup.None? && !votingComplete
      ensures currentUser == old(currentUser) && roomCode == old(roomCode) && joinRoomCode == old(joinRoomCode)
      ensures isLoading == old(isLoading)
    {
      var published := storage.UpdateRoomScreen(roomCode, Voting, now);
      if published.Some? {
        roomState := published;
      }
      currentScreen := Voting;
      userVotes := map[];
      selectedGroup := None;
      votingComplete := false;
    }

    /** Moves everybody to `screen` (reveal or back to waiting); local selections stay. */
    method MoveRoomTo(screen: Screen, now: int)
      requires Valid()
      requires screen == Reveal || screen == Waiting
      modifies this, storage
      ensures Valid()
      ensures old(storage.Stored(roomCode)).Some? ==>
        storage.items == old(storage.items)[RoomKey(roomCode) := WithScreen(old(storage.Stored(roomCode)).value, screen, now)] &&
        roomState == Some(WithScreen(old(storage.Stored(roomCode)).value, screen, now))
      ensures old(storage.Stored(roomCode)).None? ==> storage.items == old(storage.items) && roomState == old(roomState)
      ensures currentScreen == screen
      ensures userVotes == old(userVotes) && selectedGroup == old(selectedGroup) && votingComplete == old(votingComplete)
      ensures currentUser == old(currentUser) && roomCode == old(roomCode) && joinRoomCode == old(joinRoomCode)
      ensures isLoading == old(isLoading)
    {
      var published := storage.UpdateRoomScreen(roomCode, screen, now);
      if published.Some? {
        roomState := published;
      }
      currentScreen := screen;
    }

    /** Changes one selection from the reveal screen. */
    method HandleVoteUpdate(group: Group, value: Option<FibonacciValue>)
      modifies this`userVotes
      ensures userVotes == SetSelection(old(userVotes), group, value)
    {
      if value.None? {
        userVotes := userVotes - {group};
      } else {
        userVotes := userVotes[group := value.value];
      }
    }

    method SelectGroup(group: Option<Group>)
      modifies this`selectedGroup
      ensures selectedGroup == group
    {
      selectedGroup := group;
    }

    /** The menu's group toggle, applied to the session's user. */
    method ToggleUserGroup(group: Group)
      modifies this`currentUser
      ensures currentUser == ToggleGroup(old(currentUser), group)
    {
      currentUser := ToggleGroup(currentUser, group);
    }

    /** The menu's room code field. */
    method ChangeJoinRoomCode(typed: string)
      modifies this`joinRoomCode
      ensures joinRoomCode == RoomCodeInput(typed)
    {
      joinRoomCode := RoomCodeInput(typed);
    }
  }
}
