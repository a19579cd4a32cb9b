/** The menu screen's logic: toggling a group for the user, when the create and
    join buttons are disabled, and how a typed room code is stored. */
module MenuScreen {
  import opened Types
  import opened Text

  /** The user with `group` removed (every occurrence) when it is selected, or
      appended at the end when it is not; nothing else about the user changes. */
  function ToggleGroup(user: User, group: Group): (r: User)
    ensures r == user.(groups := r.groups)
    ensures group in user.groups ==> group !in r.groups
    ensures group !in user.groups ==> r.groups == user.groups + [group]
  {
    user.(groups := if group in user.groups then RemoveGroup(user.groups, group) else user.groups + [group])
  }

  /** `groups` without any occurrence of `group`, the others in order. */
  function RemoveGroup(groups: seq<Group>, group: Group): (r: seq<Group>)
    ensures group !in r
    ensures forall h :: h != group ==> (h in r <==> h in groups)
    ensures multiset(r) == multiset(groups)[group := 0]
  {
    if groups == [] then []
    else
      assert groups == [groups[0]] + groups[1..];
      if groups[0] == group then RemoveGroup(groups[1..], group)
      else [groups[0]] + RemoveGroup(groups[1..], group)
  }

  lemma {:induction false} RemoveGroupAbsent(groups: seq<Group>, group: Group)
    requires group !in groups
    ensures RemoveGroup(groups, group) == groups
  {
    if groups != [] {
      RemoveGroupAbsent(groups[1..], group);
      assert groups == [groups[0]] + groups[1..];
    }
  }

  lemma {:induction false} RemoveGroupLast(groups: seq<Group>, group: Group)
    requires group !in groups
    ensures RemoveGroup(groups + [group], group) == groups
  {
    if groups == [] {
      assert [group][1..] == [];
    } else {
      assert (groups + [group])[1..] == groups[1..] + [group];
      RemoveGroupLast(groups[1..], group);
      assert groups == [groups[0]] + groups[1..];
    }
  }

  /** Toggling a group that was not selected, twice, restores the user. */
  lemma ToggleTwiceRestores(user: User, group: Group)
    requires group !in user.groups
    ensures ToggleGroup(ToggleGroup(user, group), group) == user
  {
    RemoveGroupLast(user.groups, group);
  }

  /** Removing keeps the relative order of the other groups: it is a subsequence. */
  lemma {:induction false} RemoveGroupIsSubsequence(groups: seq<Group>, group: Group)
    ensures exists keep: seq<bool> :: |keep| == |groups| && RemoveGroup(groups, group) == Pick(groups, keep)
  {
    if groups == [] {
      assert Pick([], []) == [];
    } else {
      RemoveGroupIsSubsequence(groups[1..], group);
      var keep: seq<bool> :| |keep| == |groups[1..]| && RemoveGroup(groups[1..], group) == Pick(groups[1..], keep);
      var first := groups[0] != group;
      PickCons(groups, first, keep);
      RemoveGroupCons(groups, group);
    }
  }

  /** Removal from a non-empty list: the head is kept exactly when it is not the group. */
  lemma RemoveGroupCons(groups: seq<Group>, group: Group)
    requires groups != []
    ensures RemoveGroup(groups, group) ==
      (if groups[0] != group then [groups[0]] else []) + RemoveGroup(groups[1..], group)
  {
  }

  /** Picking from a non-empty list: the head's flag decides whether it is kept. */
  lemma PickCons(s: seq<Group>, first: bool, keep: seq<bool>)
    requires s != [] && |keep| == |s| - 1
    ensures |[first] + keep| == |s|
    ensures Pick(s, [first] + keep) == (if first then [s[0]] else []) + Pick(s[1..], keep)
  {
    assert ([first] + keep)[1..] == keep;
  }

  /** The elements of `s` whose flag in `keep` is set, in order. */
  function Pick(s: seq<Group>, keep: seq<bool>): (r: seq<Group>)
    requires |keep| == |s|
    ensures |r| <= |s|
  {
    if s == [] then [] else (if keep[0] then [s[0]] else []) + Pick(s[1..], keep[1..])
  }

  /** The create button is disabled when the name is empty, no group is selected,
      or a request is in progress. */
  predicate CreateDisabled(user: User, isLoading: bool): (disabled: bool)
    ensures isLoading ==> disabled
    ensures !disabled ==> user.name != "" && user.groups != []
  {
    user.name == "" || |user.groups| == 0 || isLoading
  }

  /** The join button is disabled in the same cases and also when no room code was
      typed: whatever disables create disables join. */
  predicate JoinDisabled(user: User, joinRoomCode: string, isLoading: bool): (disabled: bool)
    ensures CreateDisabled(user, isLoading) ==> disabled
    ensures !disabled ==> joinRoomCode != ""
  {
    joinRoomCode == "" || user.name == "" || |user.groups| == 0 || isLoading
  }

  /** The field holds at most this many characters. */
  const RoomCodeMaxLength := 6

  /** The room code field stores what was typed, cut to the field's maximum length
      and upper-cased. */
  function RoomCodeInput(typed: string): (code: string)
    ensures |code| == if |typed| <= RoomCodeMaxLength then |typed| else RoomCodeMaxLength
    ensures forall i :: 0 <= i < |code| ==> code[i] == UpperChar(typed[i])
    ensures forall i :: 0 <= i < |code| ==> !IsLowerAscii(code[i])
    ensures ToUpper(code) == code
  {
    var kept := if |typed| <= RoomCodeMaxLength then typed else typed[..RoomCodeMaxLength];
    ToUpperIdempotent(kept);
    ToUpper(kept)
  }

  /** Typing into the field again changes nothing: a stored code is a fixed point. */
  lemma RoomCodeInputIdempotent(typed: string)
    ensures RoomCodeInput(RoomCodeInput(typed)) == RoomCodeInput(typed)
  {
  }
}
