/** The admin's voting-progress panel: for each user, how many of its groups have a
    vote and whether it has submitted, the resulting class (pending, skipped,
    partial, full) and the summary counts. */
module VotingProgressModel {
  import opened Types

  // ---------------------------------------------------------------------------
  // What the two lookup tables hold
  // ---------------------------------------------------------------------------

  /** The groups in which `userId` has a vote. */
  function VotedGroups(votes: seq<Vote>, userId: string): (r: set<Group>)
    ensures forall g :: g in r <==> exists i :: 0 <= i < |votes| && votes[i].userId == userId && votes[i].group == g
  {
    if votes == [] then {}
    else
      var last := votes[|votes| - 1];
      VotedGroups(votes[..|votes| - 1], userId) + (if last.userId == userId then {last.group} else {})
  }

  /** The last submission carrying `userId`, if any. */
  function LastSubmission(submissions: seq<UserSubmission>, userId: string): (r: Option<UserSubmission>)
    ensures r.None? <==> forall i :: 0 <= i < |submissions| ==> submissions[i].userId != userId
    ensures r.Some? ==> r.value.userId == userId
    ensures r.Some? ==> (exists i :: 0 <= i < |submissions| && submissions[i] == r.value &&
                                     (forall j :: i < j < |submissions| ==> submissions[j].userId != userId))
  {
    if submissions == [] then None
    else if submissions[|submissions| - 1].userId == userId then Some(submissions[|submissions| - 1])
    else LastSubmission(submissions[..|submissions| - 1], userId)
  }

  /** Fills the two tables in one pass each: the voted groups per user, and the
      submission per user, a later one replacing an earlier one. */
  method BuildTables(votes: seq<Vote>, submissions: seq<UserSubmission>)
    returns (userVoteMap: map<string, set<Group>>, submissionMap: map<string, UserSubmission>)
    ensures forall id :: id in userVoteMap <==> VotedGroups(votes, id) != {}
    ensures forall id :: id in userVoteMap ==> userVoteMap[id] == VotedGroups(votes, id)
    ensures forall id :: id in submissionMap <==> LastSubmission(submissions, id).Some?
    ensures forall id :: id in submissionMap ==> submissionMap[id] == LastSubmission(submissions, id).value
  {
    userVoteMap := map[];
    for i := 0 to |votes|
      invariant forall id :: id in userVoteMap <==> VotedGroups(votes[..i], id) != {}
      invariant forall id :: id in userVoteMap ==> userVoteMap[id] == VotedGroups(votes[..i], id)
    {
      assert votes[..i + 1][..i] == votes[..i];
      var vote := votes[i];
      if vote.userId !in userVoteMap {
        userVoteMap := userVoteMap[vote.userId := {}];
      }
      userVoteMap := userVoteMap[vote.userId := userVoteMap[vote.userId] + {vote.group}];
    }
    assert votes[..|votes|] == votes;
    submissionMap := map[];
    for i := 0 to |submissions|
      invariant forall id :: id in submissionMap <==> LastSubmission(submissions[..i], id).Some?
      invariant forall id :: id in submissionMap ==> submissionMap[id] == LastSubmission(submissions[..i], id).value
    {
      assert submissions[..i + 1][..i] == submissions[..i];
      submissionMap := submissionMap[submissions[i].userId := submissions[i]];
    }
    assert submissions[..|submissions|] == submissions;
  }

  // ---------------------------------------------------------------------------
  // One user's status
  // ---------------------------------------------------------------------------

  datatype UserVoteStatus = UserVoteStatus(
    user: User,
    votedGroups: nat,
    totalGroups: nat,
    hasSubmitted: bool,
    submission: Option<UserSubmission>,
    isComplete: bool,
    hasPartialVotes: bool,
    hasNoVotes: bool,
    isPending: bool)

  /** The entries of `groups` that are in `voted` (entries, so a repeated group
      counts each time). */
  function CountVoted(groups: seq<Group>, voted: set<Group>): (n: nat)
    ensures n <= |groups|
    ensures n == 0 <==> forall i :: 0 <= i < |groups| ==> groups[i] !in voted
    ensures n == |groups| <==> forall i :: 0 <= i < |groups| ==> groups[i] in voted
  {
    if groups == [] then 0
    else
      var prefix := groups[..|groups| - 1];
      assert forall i :: 0 <= i < |prefix| ==> prefix[i] == groups[i];
      CountVoted(prefix, voted) + (if groups[|groups| - 1] in voted then 1 else 0)
  }

  /** The status record of `user`, given its voted groups and its submission. */
  function MakeStatus(user: User, voted: set<Group>, submission: Option<UserSubmission>): UserVoteStatus
  {
    var totalGroups := |user.groups|;
    var votedGroups := CountVoted(user.groups, voted);
    var hasSubmitted := submission.Some?;
    UserVoteStatus(user, votedGroups, totalGroups, hasSubmitted, submission,
      hasSubmitted,
      hasSubmitted && votedGroups > 0 && votedGroups < totalGroups,
      hasSubmitted && votedGroups == 0,
      !hasSubmitted)
  }

  /** The status of `user` in the room with `votes` and `submissions`. */
  function StatusFor(user: User, votes: seq<Vote>, submissions: seq<UserSubmission>): (r: UserVoteStatus)
    ensures r.user == user && r.totalGroups == |user.groups| && r.votedGroups <= r.totalGroups
    ensures r.submission == LastSubmission(submissions, user.id)
    ensures r.isComplete == r.hasSubmitted && r.isPending == !r.hasSubmitted
    ensures !(r.hasPartialVotes && r.hasNoVotes)
  {
    MakeStatus(user, VotedGroups(votes, user.id), LastSubmission(submissions, user.id))
  }

  /** The statuses of all users, in the order of `users`, looked up in the tables. */
  method GetUserVoteStatus(users: seq<User>, votes: seq<Vote>, submissions: seq<UserSubmission>)
    returns (statuses: seq<UserVoteStatus>)
    ensures |statuses| == |users|
    ensures forall i :: 0 <= i < |users| ==> statuses[i] == StatusFor(users[i], votes, submissions)
  {
    var userVoteMap, submissionMap := BuildTables(votes, submissions);
    statuses := seq(|users|, i requires 0 <= i < |users| =>
      MakeStatus(users[i],
        if users[i].id in userVoteMap then userVoteMap[users[i].id] else {},
        if users[i].id in submissionMap then Some(submissionMap[users[i].id]) else None));
  }

  /** A user has submitted exactly when some submission carries its id, and its
      voted count lies between 0 and the number of its groups. */
  lemma StatusBasics(user: User, votes: seq<Vote>, submissions: seq<UserSubmission>)
    ensures StatusFor(user, votes, submissions).isComplete <==>
      exists i :: 0 <= i < |submissions| && submissions[i].userId == user.id
    ensures StatusFor(user, votes, submissions).totalGroups == |user.groups|
    ensures StatusFor(user, votes, submissions).votedGroups <= StatusFor(user, votes, submissions).totalGroups
    ensures StatusFor(user, votes, submissions).votedGroups == 0 <==>
      forall i, j :: 0 <= i < |user.groups| && 0 <= j < |votes| && votes[j].userId == user.id ==> votes[j].group != user.groups[i]
  {
    var voted := VotedGroups(votes, user.id);
    if StatusFor(user, votes, submissions).votedGroups != 0 {
      var i :| 0 <= i < |user.groups| && user.groups[i] in voted;
      var j :| 0 <= j < |votes| && votes[j].userId == user.id && votes[j].group == user.groups[i];
    }
  }

  // ---------------------------------------------------------------------------
  // Classes and counts
  // ---------------------------------------------------------------------------

  datatype Progress = Pending | Skipped | Partial | Full

  /** The icon the panel shows for a status, tested in the panel's order. */
  function Classify(s: UserVoteStatus): (p: Progress)
    ensures p == Pending <==> s.isPending
    ensures p == Full ==> !s.hasNoVotes && !s.hasPartialVotes
    ensures s.hasNoVotes && !s.isPending ==> p == Skipped
  {
    if s.isPending then Pending
    else if s.hasNoVotes then Skipped
    else if s.hasPartialVotes then Partial
    else Full
  }

  /** The summary's filter for each class. */
  predicate InClass(s: UserVoteStatus, p: Progress)
  {
    match p
    case Full => s.hasSubmitted && !s.hasPartialVotes && !s.hasNoVotes
    case Partial => s.hasPartialVotes
    case Skipped => s.hasNoVotes
    case Pending => s.isPending
  }

  /** Every user is in exactly one summary class, the one its icon shows, and the
      classes mean: pending = not submitted; skipped = submitted with no voted
      group (including a user with no groups); partial = submitted with some but
      not all groups voted; full = submitted with every one of at least one group
      voted. */
  lemma {:induction false} ExactlyOneClass(user: User, votes: seq<Vote>, submissions: seq<UserSubmission>, p: Progress)
    ensures InClass(StatusFor(user, votes, submissions), p) <==> p == Classify(StatusFor(user, votes, submissions))
    ensures Classify(StatusFor(user, votes, submissions)) == Pending <==> !StatusFor(user, votes, submissions).hasSubmitted
    ensures Classify(StatusFor(user, votes, submissions)) == Skipped <==>
      StatusFor(user, votes, submissions).hasSubmitted && StatusFor(user, votes, submissions).votedGroups == 0
    ensures Classify(StatusFor(user, votes, submissions)) == Partial <==>
      StatusFor(user, votes, submissions).hasSubmitted &&
      0 < StatusFor(user, votes, submissions).votedGroups < StatusFor(user, votes, submissions).totalGroups
    ensures Classify(StatusFor(user, votes, submissions)) == Full <==>
      StatusFor(user, votes, submissions).hasSubmitted &&
      0 < StatusFor(user, votes, submissions).votedGroups == StatusFor(user, votes, submissions).totalGroups
  {
    StatusBasics(user, votes, submissions);
  }

  /** A submitted user with no groups is skipped. */
  lemma SubmittedWithoutGroupsIsSkipped(user: User, votes: seq<Vote>, submissions: seq<UserSubmission>)
    requires user.groups == []
    requires exists i :: 0 <= i < |submissions| && submissions[i].userId == user.id
    ensures Classify(StatusFor(user, votes, submissions)) == Skipped
  {
    StatusBasics(user, votes, submissions);
  }

  /** The class does not depend on a submission's `hasVotes` flag. */
  lemma {:induction false} ClassIgnoresHasVotes(user: User, votes: seq<Vote>, submissions: seq<UserSubmission>, k: nat, flag: bool)
    requires k < |submissions|
    ensures Classify(StatusFor(user, votes, submissions[k := submissions[k].(hasVotes := flag)])) ==
            Classify(StatusFor(user, votes, submissions))
  {
    var flipped := submissions[k := submissions[k].(hasVotes := flag)];
    assert forall i :: 0 <= i < |submissions| ==> flipped[i].userId == submissions[i].userId;
    assert LastSubmission(flipped, user.id).Some? == LastSubmission(submissions, user.id).Some?;
  }

  /** How many statuses are in class `p`. */
  function CountClass(statuses: seq<UserVoteStatus>, p: Progress): (n: nat)
    ensures n <= |statuses|
  {
    if statuses == [] then 0
    else CountClass(statuses[..|statuses| - 1], p) + (if InClass(statuses[|statuses| - 1], p) then 1 else 0)
  }

  /** How many statuses are complete (the panel's completed count). */
  function CompletedUsers(statuses: seq<UserVoteStatus>): (n: nat)
    ensures n <= |statuses|
  {
    if statuses == [] then 0
    else CompletedUsers(statuses[..|statuses| - 1]) + (if statuses[|statuses| - 1].isComplete then 1 else 0)
  }

  /** The four class counts add up to the number of users, and the completed
      count is the number of users minus the pending ones. */
  lemma {:induction false} CountsAddUp(users: seq<User>, votes: seq<Vote>, submissions: seq<UserSubmission>)
    ensures var statuses := seq(|users|, i requires 0 <= i < |users| => StatusFor(users[i], votes, submissions));
      CountClass(statuses, Full) + CountClass(statuses, Partial) + CountClass(statuses, Skipped) + CountClass(statuses, Pending) == |users| &&
      CompletedUsers(statuses) == |users| - CountClass(statuses, Pending)
  {
    if users != [] {
      var prefix := users[..|users| - 1];
      CountsAddUp(prefix, votes, submissions);
      var statuses := seq(|users|, i requires 0 <= i < |users| => StatusFor(users[i], votes, submissions));
      var before := seq(|prefix|, i requires 0 <= i < |prefix| => StatusFor(prefix[i], votes, submissions));
      assert statuses[..|statuses| - 1] == before;
      var last := users[|users| - 1];
      ExactlyOneClass(last, votes, submissions, Full);
      ExactlyOneClass(last, votes, submissions, Partial);
      ExactlyOneClass(last, votes, submissions, Skipped);
      ExactlyOneClass(last, votes, submissions, Pending);
    }
  }
}
