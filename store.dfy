/** The in-memory secret store (backend/store/store.go): a map from receiver
    token to a dual-reality entry, lazy expiry on lookup, a full wipe, a
    heartbeat timestamp, and one pass each of the expiry sweep and the
    24-hour dead-man check. Locking is left out: every method is one atomic
    step, and the clock reading is the parameter `now`. */
module Store {
  import opened Base

  /** The inactivity window after which the dead-man check wipes the store. */
  const DeadManThreshold: int := 24 * Hour

  /** One encrypted payload slot. */
  datatype MessageReality = MessageReality(ciphertext: seq<byte>, nonce: seq<byte>, destroyed: bool)

  /** The two realities stored under one receiver token, with their expiry. */
  datatype SecureEntry = SecureEntry(realityA: MessageReality, realityB: MessageReality, expiryTime: Time)

  /** `now.After(entry.ExpiryTime)`: strictly later than the expiry. */
  predicate Expired(entry: SecureEntry, now: Time) {
    now > entry.expiryTime
  }

  /** The lookup `Get` performs, as a function of the map. */
  function Lookup(data: map<string, SecureEntry>, rxToken: string, now: Time): (r: Option<SecureEntry>)
    ensures r.None? <==> rxToken !in data || now > data[rxToken].expiryTime
    ensures r.Some? ==> rxToken in data && r.value == data[rxToken]
  {
    if rxToken !in data then None
    else if Expired(data[rxToken], now) then None
    else Some(data[rxToken])
  }

  /** The map one expiry sweep leaves: exactly the unexpired entries, with
      their contents unchanged. */
  function Swept(data: map<string, SecureEntry>, now: Time): (r: map<string, SecureEntry>)
    ensures forall rx :: rx in r <==> rx in data && now <= data[rx].expiryTime
    ensures forall rx :: rx in r ==> r[rx] == data[rx]
  {
    map rx | rx in data && !Expired(data[rx], now) :: data[rx]
  }

  /** `time.Since(LastHeartbeat) > 24*time.Hour`. */
  predicate DeadManFires(lastHeartbeat: Time, now: Time) {
    now - lastHeartbeat > DeadManThreshold
  }

  class MemoryStore {
    var data: map<string, SecureEntry>
    var lastHeartbeat: Time

    /** `InitStore`: an empty map and a heartbeat at start-up time. */
    constructor (now: Time)
      ensures data == map[] && lastHeartbeat == now
    {
      data := map[];
      lastHeartbeat := now;
    }

    /** Upsert: the entry at `rxToken` is replaced whole, every other key
        keeps its entry. */
    method Save(rxToken: string, entry: SecureEntry)
      modifies this
      ensures data == old(data)[rxToken := entry]
      ensures lastHeartbeat == old(lastHeartbeat)
    {
      data := data[rxToken := entry];
    }

    /** Lookup with lazy expiry: absent for a token never saved and for an
        entry whose expiry lies strictly before `now`; the map is not
        touched (Dafny's frame rule: `Get` modifies nothing). */
    method Get(rxToken: string, now: Time) returns (entry: Option<SecureEntry>)
      ensures entry.None? <==> rxToken !in data || now > data[rxToken].expiryTime
      ensures entry.Some? ==> rxToken in data && entry.value == data[rxToken]
    {
      if rxToken !in data {
        return None;
      }
      var e := data[rxToken];
      if now > e.expiryTime {
        return None;
      }
      entry := Some(e);
    }

    /** Resets the dead-man timer; entries are untouched. */
    method Heartbeat(now: Time)
      modifies this
      ensures lastHeartbeat == now
      ensures data == old(data)
    {
      lastHeartbeat := now;
    }

    /** Drops every entry at once; the heartbeat is untouched. */
    method Wipe()
      modifies this
      ensures data == map[]
      ensures lastHeartbeat == old(lastHeartbeat)
    {
      data := map[];
    }

    /** One iteration of `cleanupLoop`: ranges over the map and deletes
        every entry that has expired at `now`. */
    method CleanupPass(now: Time)
      modifies this
      ensures data == Swept(old(data), now)
      ensures lastHeartbeat == old(lastHeartbeat)
    {
      ghost var start := data;
      var pending := data.Keys;
      while pending != {}
        invariant pending <= start.Keys
        invariant data.Keys <= start.Keys
        invariant forall rx :: rx in data ==> data[rx] == start[rx]
        invariant forall rx :: rx in start ==> (rx in data <==> rx in pending || !Expired(start[rx], now))
        invariant lastHeartbeat == old(lastHeartbeat)
        decreases pending
      {
        var rx :| rx in pending;
        if Expired(data[rx], now) {
          data := data - {rx};
        }
        pending := pending - {rx};
      }
      assert data == Swept(start, now);
    }

    /** One iteration of `deadManLoop`: wipes iff more than 24 hours have
        passed since the last heartbeat, else changes nothing. */
    method DeadManPass(now: Time)
      modifies this
      ensures DeadManFires(old(lastHeartbeat), now) ==> data == map[]
      ensures !DeadManFires(old(lastHeartbeat), now) ==> data == old(data)
      ensures lastHeartbeat == old(lastHeartbeat)
    {
      var elapsed := now - lastHeartbeat;
      if elapsed > DeadManThreshold {
        Wipe();
      }
    }
  }

  /** Last write wins: after a save, the token yields the new entry (while
      it is unexpired) and every other token yields what it did before. */
  lemma LookupAfterSave(data: map<string, SecureEntry>, rxToken: string, entry: SecureEntry, other: string, now: Time)
    ensures Lookup(data[rxToken := entry], rxToken, now) == (if now > entry.expiryTime then None else Some(entry))
    ensures other != rxToken ==> Lookup(data[rxToken := entry], other, now) == Lookup(data, other, now)
  {
  }

  /** The sweep is invisible to readers: at `now` or any later instant,
      every lookup in the swept map returns what the lazy-expiry lookup in
      the unswept map returns. */
  lemma SweepAgreesWithLazyExpiry(data: map<string, SecureEntry>, now: Time, later: Time, rxToken: string)
    requires now <= later
    ensures Lookup(Swept(data, now), rxToken, later) == Lookup(data, rxToken, later)
  {
  }

  /** After a wipe nothing is found. */
  lemma LookupAfterWipe(rxToken: string, now: Time)
    ensures Lookup(map[], rxToken, now) == None
  {
  }

  /** Expiry is permanent: an entry expired at `now` stays expired. */
  lemma ExpiryIsPermanent(entry: SecureEntry, now: Time, later: Time)
    requires now <= later
    ensures Expired(entry, now) ==> Expired(entry, later)
    ensures !Expired(entry, later) ==> !Expired(entry, now)
  {
  }

  /** Once the dead-man check would fire, it fires at every later tick
      until a heartbeat. */
  lemma DeadManIsPermanent(lastHeartbeat: Time, now: Time, later: Time)
    requires now <= later
    ensures DeadManFires(lastHeartbeat, now) ==> DeadManFires(lastHeartbeat, later)
  {
  }

  /** The dead-man comparison is strict: exactly 24 hours of silence does
      not wipe, one nanosecond more does. */
  lemma DeadManBoundary(lastHeartbeat: Time)
    ensures !DeadManFires(lastHeartbeat, lastHeartbeat + DeadManThreshold)
    ensures DeadManFires(lastHeartbeat, lastHeartbeat + DeadManThreshold + 1)
  {
  }
}
