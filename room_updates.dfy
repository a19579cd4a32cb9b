/** The new room document each client-side mutation produces from the stored one:
    the heartbeat upsert of a user, a screen change, a vote submission, the
    pruning of silent users, and the document a new room starts with. */
module RoomUpdates {
  import opened Types

  // ---------------------------------------------------------------------------
  // Heartbeat upsert of a user
  // ---------------------------------------------------------------------------

  function Stamp(user: User, now: int): (u: User)
    ensures u.id == user.id && u.lastSeen == now
  {
    user.(lastSeen := now)
  }

  predicate HasUserId(users: seq<User>, id: string)
  {
    exists i :: 0 <= i < |users| && users[i].id == id
  }

  /** Every entry with the user's id replaced by the stamped user, in place. */
  function ReplaceMatching(users: seq<User>, user: User, now: int): (r: seq<User>)
  {
    seq(|users|, i requires 0 <= i < |users| => if users[i].id == user.id then Stamp(user, now) else users[i])
  }

  /** The user list after a heartbeat: matching entries replaced, or the stamped
      user appended when there was none. */
  function UpsertUsers(users: seq<User>, user: User, now: int): (r: seq<User>)
    ensures |users| <= |r| <= |users| + 1
  {
    var replaced := ReplaceMatching(users, user, now);
    if HasUserId(replaced, user.id) then replaced else replaced + [Stamp(user, now)]
  }

  /** Entries with the user's id become the stamped user and keep their position;
      every other entry is untouched. */
  lemma UpsertKeepsPositions(users: seq<User>, user: User, now: int)
    ensures |UpsertUsers(users, user, now)| >= |users|
    ensures forall i :: 0 <= i < |users| ==>
      UpsertUsers(users, user, now)[i] == if users[i].id == user.id then Stamp(user, now) else users[i]
  {
  }

  /** The list grows by exactly one, with the stamped user at the end, exactly when
      no entry had the user's id; otherwise its length is unchanged. */
  lemma {:induction false} UpsertAppendsIffAbsent(users: seq<User>, user: User, now: int)
    ensures |UpsertUsers(users, user, now)| == |users| + (if HasUserId(users, user.id) then 0 else 1)
    ensures !HasUserId(users, user.id) ==> UpsertUsers(users, user, now)[|users|] == Stamp(user, now)
  {
    var replaced := ReplaceMatching(users, user, now);
    if HasUserId(users, user.id) {
      var i :| 0 <= i < |users| && users[i].id == user.id;
      assert replaced[i].id == user.id;
    } else {
      forall i | 0 <= i < |replaced| ensures replaced[i].id != user.id {
        assert replaced[i] == users[i];
      }
    }
  }

  /** Afterwards the user is present, and every entry with its id is the stamped user. */
  lemma UpsertMakesUserPresent(users: seq<User>, user: User, now: int)
    ensures HasUserId(UpsertUsers(users, user, now), user.id)
    ensures forall i :: 0 <= i < |UpsertUsers(users, user, now)| && UpsertUsers(users, user, now)[i].id == user.id ==>
      UpsertUsers(users, user, now)[i] == Stamp(user, now)
  {
    var r := UpsertUsers(users, user, now);
    UpsertAppendsIffAbsent(users, user, now);
    if !HasUserId(users, user.id) {
      assert r[|users|].id == user.id;
    }
  }

  /** A second identical heartbeat changes nothing more. */
  lemma UpsertIdempotent(users: seq<User>, user: User, now: int)
    ensures UpsertUsers(UpsertUsers(users, user, now), user, now) == UpsertUsers(users, user, now)
  {
    var once := UpsertUsers(users, user, now);
    UpsertMakesUserPresent(users, user, now);
    var i :| 0 <= i < |once| && once[i].id == user.id;
    assert ReplaceMatching(once, user, now)[i].id == user.id;
    assert ReplaceMatching(once, user, now) == once;
  }

  /** The stored room after a heartbeat of `user`. */
  function WithUser(state: RoomState, user: User, now: int): (r: RoomState)
    ensures r == state.(users := r.users, lastUpdated := now)
  {
    state.(users := UpsertUsers(state.users, user, now), lastUpdated := now)
  }

  // ---------------------------------------------------------------------------
  // Screen change
  // ---------------------------------------------------------------------------

  /** The stored room after switching every client to `screen`; entering the
      voting screen starts a new round with no votes (submissions are kept). */
  function WithScreen(state: RoomState, screen: Screen, now: int): (r: RoomState)
    ensures r.currentScreen == screen && r.lastUpdated == now
    ensures r.votes == (if screen == Voting then [] else state.votes)
    ensures r == state.(currentScreen := screen, lastUpdated := now, votes := r.votes)
  {
    var moved := state.(currentScreen := screen, lastUpdated := now);
    if screen == Voting then moved.(votes := []) else moved
  }

  // ---------------------------------------------------------------------------
  // Vote submission
  // ---------------------------------------------------------------------------

  /** The votes not cast by `userId`, in their original order. */
  function RemoveVotesOf(votes: seq<Vote>, userId: string): (r: seq<Vote>)
    ensures |r| <= |votes|
    ensures forall i :: 0 <= i < |r| ==> r[i].userId != userId
  {
    if votes == [] then []
    else if votes[0].userId == userId then RemoveVotesOf(votes[1..], userId)
    else [votes[0]] + RemoveVotesOf(votes[1..], userId)
  }

  /** The votes cast by `userId`, in their original order. */
  function VotesOf(votes: seq<Vote>, userId: string): (r: seq<Vote>)
    ensures forall i :: 0 <= i < |r| ==> r[i].userId == userId
  {
    if votes == [] then []
    else if votes[0].userId == userId then [votes[0]] + VotesOf(votes[1..], userId)
    else VotesOf(votes[1..], userId)
  }

  /** The stored room after `userId` submits `votes`. */
  function WithSubmittedVotes(state: RoomState, votes: seq<Vote>, userId: string, now: int): (r: RoomState)
    ensures r == state.(votes := r.votes, lastUpdated := now)
  {
    state.(votes := RemoveVotesOf(state.votes, userId) + votes, lastUpdated := now)
  }

  lemma {:induction false} RemoveVotesOfAppend(a: seq<Vote>, b: seq<Vote>, userId: string)
    ensures RemoveVotesOf(a + b, userId) == RemoveVotesOf(a, userId) + RemoveVotesOf(b, userId)
  {
    if a == [] {
      assert a + b == b;
    } else {
      assert (a + b)[0] == a[0] && (a + b)[1..] == a[1..] + b;
      RemoveVotesOfAppend(a[1..], b, userId);
    }
  }

  lemma {:induction false} VotesOfAppend(a: seq<Vote>, b: seq<Vote>, userId: string)
    ensures VotesOf(a + b, userId) == VotesOf(a, userId) + VotesOf(b, userId)
  {
    if a == [] {
      assert a + b == b;
    } else {
      assert (a + b)[0] == a[0] && (a + b)[1..] == a[1..] + b;
      VotesOfAppend(a[1..], b, userId);
    }
  }

  /** Removing one user's votes keeps every other user's votes, in order. */
  lemma {:induction false} RemoveVotesOfKeepsOthers(votes: seq<Vote>, userId: string, other: string)
    requires other != userId
    ensures VotesOf(RemoveVotesOf(votes, userId), other) == VotesOf(votes, other)
  {
    if votes != [] {
      RemoveVotesOfKeepsOthers(votes[1..], userId, other);
      if votes[0].userId != userId {
        assert ([votes[0]] + RemoveVotesOf(votes[1..], userId))[1..] == RemoveVotesOf(votes[1..], userId);
      }
    }
  }

  lemma {:induction false} RemoveVotesOfNoMatch(votes: seq<Vote>, userId: string)
    requires forall i :: 0 <= i < |votes| ==> votes[i].userId != userId
    ensures RemoveVotesOf(votes, userId) == votes
  {
    if votes != [] {
      RemoveVotesOfNoMatch(votes[1..], userId);
    }
  }

  lemma {:induction false} RemoveVotesOfAllMatch(votes: seq<Vote>, userId: string)
    requires forall i :: 0 <= i < |votes| ==> votes[i].userId == userId
    ensures RemoveVotesOf(votes, userId) == []
  {
    if votes != [] {
      RemoveVotesOfAllMatch(votes[1..], userId);
    }
  }

  lemma {:induction false} VotesOfNoMatch(votes: seq<Vote>, userId: string)
    requires forall i :: 0 <= i < |votes| ==> votes[i].userId != userId
    ensures VotesOf(votes, userId) == []
  {
    if votes != [] {
      VotesOfNoMatch(votes[1..], userId);
    }
  }

  /** After a submission the submitter's votes are exactly the submitted ones that
      carry its id, and every other user's votes are its old ones followed by the
      submitted ones that carry its id. */
  lemma SubmissionReplacesOwnVotes(state: RoomState, votes: seq<Vote>, userId: string, now: int, other: string)
    requires other != userId
    ensures VotesOf(WithSubmittedVotes(state, votes, userId, now).votes, userId) == VotesOf(votes, userId)
    ensures VotesOf(WithSubmittedVotes(state, votes, userId, now).votes, other) == VotesOf(state.votes, other) + VotesOf(votes, other)
  {
    var kept := RemoveVotesOf(state.votes, userId);
    VotesOfAppend(kept, votes, userId);
    VotesOfAppend(kept, votes, other);
    VotesOfNoMatch(kept, userId);
    RemoveVotesOfKeepsOthers(state.votes, userId, other);
  }

  /** When every submitted vote carries the submitter's id, submitting the same
      list again leaves the same votes. */
  lemma SubmissionIdempotent(state: RoomState, votes: seq<Vote>, userId: string, t1: int, t2: int)
    requires forall i :: 0 <= i < |votes| ==> votes[i].userId == userId
    ensures WithSubmittedVotes(WithSubmittedVotes(state, votes, userId, t1), votes, userId, t2).votes
         == WithSubmittedVotes(state, votes, userId, t1).votes
  {
    var kept := RemoveVotesOf(state.votes, userId);
    RemoveVotesOfAppend(kept, votes, userId);
    RemoveVotesOfNoMatch(kept, userId);
    RemoveVotesOfAllMatch(votes, userId);
    assert kept + [] == kept;
  }

  // ---------------------------------------------------------------------------
  // Pruning silent users
  // ---------------------------------------------------------------------------

  /** A user not heard from for this long (milliseconds) is dropped from the room. */
  const PresenceTimeout: int := 30000

  predicate IsActive(user: User, now: int)
  {
    now - user.lastSeen < PresenceTimeout
  }

  /** The users heard from within the timeout, in their original order. */
  function ActiveUsers(users: seq<User>, now: int): (r: seq<User>)
    ensures |r| <= |users|
    ensures forall i :: 0 <= i < |r| ==> IsActive(r[i], now)
  {
    if users == [] then []
    else if IsActive(users[0], now) then [users[0]] + ActiveUsers(users[1..], now)
    else ActiveUsers(users[1..], now)
  }

  /** A user is kept exactly when it is in the list and active. */
  lemma {:induction false} ActiveUsersMembership(users: seq<User>, now: int, u: User)
    ensures u in ActiveUsers(users, now) <==> u in users && IsActive(u, now)
  {
    if users != [] {
      ActiveUsersMembership(users[1..], now, u);
      assert users == [users[0]] + users[1..];
    }
  }

  /** Nothing is dropped exactly when every user is active, so the pruned list has
      a different length exactly when at least one user was dropped. */
  lemma {:induction false} ActiveUsersKeepsLengthIffAllActive(users: seq<User>, now: int)
    ensures |ActiveUsers(users, now)| == |users| <==> forall i :: 0 <= i < |users| ==> IsActive(users[i], now)
  {
    if users != [] {
      ActiveUsersKeepsLengthIffAllActive(users[1..], now);
      assert forall i :: 1 <= i < |users| ==> users[i] == users[1..][i - 1];
    }
  }

  /** The stored room after dropping the silent users. */
  function Pruned(state: RoomState, now: int): (r: RoomState)
    ensures r == state.(users := r.users, lastUpdated := now)
    ensures |r.users| <= |state.users|
    ensures forall i :: 0 <= i < |r.users| ==> IsActive(r.users[i], now)
  {
    state.(users := ActiveUsers(state.users, now), lastUpdated := now)
  }

  /** The boundary: a user exactly 30000 ms silent is dropped, one 29999 ms silent is kept. */
  lemma PruneBoundary(u: User, now: int)
    ensures u.lastSeen == now - 30000 ==> ActiveUsers([u], now) == []
    ensures u.lastSeen == now - 29999 ==> ActiveUsers([u], now) == [u]
  {
    assert [u][1..] == [];
  }

  // ---------------------------------------------------------------------------
  // A new room
  // ---------------------------------------------------------------------------

  /** The room a creator starts: waiting screen, the creator as its only user and
      admin, no votes and no submissions, created and updated at `now`. */
  function InitialRoom(code: string, admin: User, now: int): (r: RoomState)
    ensures r.code == code && r.currentScreen == Waiting
    ensures r.users == [admin] && r.adminId == admin.id
    ensures r.votes == [] && r.submissions == []
    ensures r.createdAt == r.lastUpdated == now && r.currentTask.None?
  {
    RoomState(code, Waiting, [admin], [], [], admin.id, now, now, None)
  }
}
