/** The two-tier room service: a simulated network store backed by the browser's
    local storage, both keyed by "room_" + code. A load prefers the network copy
    and restores the network copy from the local one when only that exists. */
module RoomServiceModel {
  import opened Types
  import opened StorageKeys

  /** What a load of `code` returns from the two stores. */
  function Lookup<D>(network: map<string, D>, local: map<string, D>, code: string): (r: Option<D>)
    ensures r.None? <==> RoomKey(code) !in network && RoomKey(code) !in local
    ensures RoomKey(code) in network ==> r == Some(network[RoomKey(code)])
    ensures RoomKey(code) !in network && RoomKey(code) in local ==> r == Some(local[RoomKey(code)])
  {
    var key := RoomKey(code);
    if key in network then Some(network[key])
    else if key in local then Some(local[key])
    else None
  }

  /** The network store after a load of `code`: the local copy is copied up when
      the network has none. */
  function SyncedNetwork<D>(network: map<string, D>, local: map<string, D>, code: string): (r: map<string, D>)
    ensures r.Keys == network.Keys + (if RoomKey(code) in local then {RoomKey(code)} else {})
    ensures forall k :: k in network ==> r[k] == network[k]
  {
    var key := RoomKey(code);
    if key !in network && key in local then network[key := local[key]] else network
  }

  /** Loading is stable: the second load returns the same room, and whenever the
      first found one, the second finds it in the network store. */
  lemma SecondLoadTakesNetworkPath<D>(network: map<string, D>, local: map<string, D>, code: string)
    ensures Lookup(SyncedNetwork(network, local, code), local, code) == Lookup(network, local, code)
    ensures Lookup(network, local, code).Some? ==> RoomKey(code) in SyncedNetwork(network, local, code)
    ensures SyncedNetwork(SyncedNetwork(network, local, code), local, code) == SyncedNetwork(network, local, code)
  {
  }

  /** After saving `data` for `code`, a load of `code` returns `data`; other codes
      load as before. */
  lemma LoadAfterSave<D>(network: map<string, D>, local: map<string, D>, code: string, data: D, other: string)
    requires other != code
    ensures Lookup(network[RoomKey(code) := data], local[RoomKey(code) := data], code) == Some(data)
    ensures Lookup(network[RoomKey(code) := data], local[RoomKey(code) := data], other) == Lookup(network, local, other)
  {
    assert RoomKey(other) != RoomKey(code) by {
      if RoomKey(other) == RoomKey(code) {
        RoomKeyInjective(other, code);
      }
    }
  }

  /** After deleting `code` from both stores, a load of `code` finds nothing. */
  lemma LoadAfterDelete<D>(network: map<string, D>, local: map<string, D>, code: string)
    ensures Lookup(network - {RoomKey(code)}, local - {RoomKey(code)}, code).None?
  {
  }

  class RoomService<D> {
    /** The simulated network store. */
    var network: map<string, D>
    /** The local-storage backup. */
    var local: map<string, D>

    constructor()
      ensures network == map[] && local == map[]
    {
      network := map[];
      local := map[];
    }

    /** Writes `data` for `code` to both stores. */
    method SaveRoom(code: string, data: D)
      modifies this
      ensures network == old(network)[RoomKey(code) := data]
      ensures local == old(local)[RoomKey(code) := data]
      ensures Lookup(network, local, code) == Some(data)
    {
      network := network[RoomKey(code) := data];
      local := local[RoomKey(code) := data];
    }

    /** The network copy when there is one; otherwise the local copy, which is
        then copied to the network store; None when neither store has the room. */
    method LoadRoom(code: string) returns (r: Option<D>)
      modifies this
      ensures r == Lookup(old(network), old(local), code)
      ensures network == SyncedNetwork(old(network), old(local), code)
      ensures local == old(local)
    {
      var key := RoomKey(code);
      if key in network {
        return Some(network[key]);
      }
      if key in local {
        var localData := local[key];
        network := network[key := localData];
        return Some(localData);
      }
      return None;
    }

    /** The codes of the rooms in the network store, each once. */
    method GetRoomList() returns (codes: seq<string>)
      ensures forall c :: c in codes <==> RoomKey(c) in network
      ensures forall i, j :: 0 <= i < j < |codes| ==> codes[i] != codes[j]
    {
      codes := [];
      var pending := network.Keys;
      while pending != {}
        invariant pending <= network.Keys
        invariant forall c :: c in codes <==> RoomKey(c) in network && RoomKey(c) !in pending
        invariant forall i, j :: 0 <= i < j < |codes| ==> codes[i] != codes[j]
        decreases pending
      {
        var key :| key in pending;
        if HasRoomPrefix(key) {
          StripRoomPrefix(key);
          var code := RemoveFirst(key, RoomPrefix);
          codes := codes + [code];
        }
        pending := pending - {key};
      }
    }

    /** Removes `code` from both stores. */
    method DeleteRoom(code: string)
      modifies this
      ensures network == old(network) - {RoomKey(code)}
      ensures local == old(local) - {RoomKey(code)}
      ensures Lookup(network, local, code).None?
    {
      network := network - {RoomKey(code)};
      local := local - {RoomKey(code)};
    }
  }
}
