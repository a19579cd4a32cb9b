/** Rooms are stored under the key "room_" followed by the room code, both in
    the browser's local storage and in the simulated network storage. */
module StorageKeys {

  const RoomPrefix: string := "room_"

  function RoomKey(code: string): (key: string)
    ensures |key| == |RoomPrefix| + |code|
    ensures key[..|RoomPrefix|] == RoomPrefix && key[|RoomPrefix|..] == code
  {
    RoomPrefix + code
  }

  predicate HasRoomPrefix(key: string)
  {
    |key| >= |RoomPrefix| && key[..|RoomPrefix|] == RoomPrefix
  }

  /** `s` with the leftmost occurrence of `pat` removed; `s` itself when `pat` does
      not occur (String.prototype.replace with a string pattern and "" as replacement). */
  function RemoveFirst(s: string, pat: string): (r: string)
    ensures |r| <= |s|
    decreases |s|
  {
    if |s| < |pat| then s
    else if s[..|pat|] == pat then s[|pat|..]
    else [s[0]] + RemoveFirst(s[1..], pat)
  }

  /** Different codes are stored under different keys. */
  lemma RoomKeyInjective(c1: string, c2: string)
    requires RoomKey(c1) == RoomKey(c2)
    ensures c1 == c2
  {
    assert c1 == RoomKey(c1)[|RoomPrefix|..];
  }

  /** Removing the first "room_" from a room key gives back the code, and a key
      that starts with "room_" is the room key of what remains. */
  lemma StripRoomPrefix(key: string)
    requires HasRoomPrefix(key)
    ensures RemoveFirst(key, RoomPrefix) == key[|RoomPrefix|..]
    ensures RoomKey(RemoveFirst(key, RoomPrefix)) == key
  {
    assert key == key[..|RoomPrefix|] + key[|RoomPrefix|..];
  }

  lemma RoomKeyRoundTrip(code: string)
    ensures HasRoomPrefix(RoomKey(code))
    ensures RemoveFirst(RoomKey(code), RoomPrefix) == code
  {
    StripRoomPrefix(RoomKey(code));
  }
}
