/**
 * The aircraft dictionary: records keyed by ICAO address, at most
 * `kMaxNumAircraft` of them, with insertion, removal, lookup, the Mode A/C
 * fast path that creates unknown aircraft, and pruning of stale records.
 *
 * The operations' bodies are not part of the source files modelled here;
 * their contracts follow the documented behaviour of each operation.
 */
module Dictionary {
  import opened CTypes
  import opened AircraftModel

  const kMaxNumAircraft: nat := 100

  /** `AircraftDictionaryConfig_t`: the prune interval, 60 s by default. */
  datatype AircraftDictionaryConfig = AircraftDictionaryConfig(aircraftPruneIntervalMs: uint32)

  const DefaultConfig := AircraftDictionaryConfig(60000)

  /** A Mode A (identity) reply: the address it came from, its squawk code and its validity mark. */
  datatype ModeAPacket = ModeAPacket(icaoAddress: uint32, squawk: uint16, isValid: bool)

  /** A Mode C (altitude) reply: the address it came from, its barometric altitude and its validity mark. */
  datatype ModeCPacket = ModeCPacket(icaoAddress: uint32, altitudeFt: int32, isValid: bool)

  /** A record is stale at `timestampMs` when it was last seen before `timestampMs - intervalMs`. */
  predicate IsStale(lastSeenTimestampMs: uint32, timestampMs: uint32, intervalMs: uint32)
    ensures IsStale(lastSeenTimestampMs, timestampMs, intervalMs)
       <==> lastSeenTimestampMs + intervalMs < timestampMs
  {
    lastSeenTimestampMs < timestampMs - intervalMs
  }

  /** A record last seen at `t` is kept at `Update(t + interval - 1)` and at `Update(t + interval)`, and pruned at `Update(t + interval + 1)`. */
  lemma PruneBoundary(t: uint32, intervalMs: uint32, now: uint32)
    ensures now <= t + intervalMs ==> !IsStale(t, now, intervalMs)
    ensures now == t + intervalMs + 1 ==> IsStale(t, now, intervalMs)
  {
  }

  /**
   * `after` is `before` with exactly the records that are stale at
   * `timestampMs` removed; the records kept are the same objects.
   */
  predicate Pruned(before: map<uint32, Aircraft>, after: map<uint32, Aircraft>, timestampMs: uint32, intervalMs: uint32)
    reads before.Values
    ensures Pruned(before, after, timestampMs, intervalMs) ==>
      && after.Keys <= before.Keys
      && forall icao | icao in after :: !IsStale(after[icao].lastSeenTimestampMs, timestampMs, intervalMs)
  {
    && (forall icao | icao in before ::
          (icao in after <==> !IsStale(before[icao].lastSeenTimestampMs, timestampMs, intervalMs)))
    && (forall icao | icao in after :: icao in before && after[icao] == before[icao])
  }

  /** Pruning determines its result: two prunes of the same dictionary at the same time agree. */
  lemma PrunedUnique(before: map<uint32, Aircraft>, after1: map<uint32, Aircraft>, after2: map<uint32, Aircraft>,
                     timestampMs: uint32, intervalMs: uint32)
    requires Pruned(before, after1, timestampMs, intervalMs)
    requires Pruned(before, after2, timestampMs, intervalMs)
    ensures after1 == after2
  {
    assert after1.Keys == after2.Keys;
  }

  /** Pruning is idempotent: a second prune at the same time removes nothing more. */
  lemma PrunedIdempotent(before: map<uint32, Aircraft>, after: map<uint32, Aircraft>, again: map<uint32, Aircraft>,
                         timestampMs: uint32, intervalMs: uint32)
    requires Pruned(before, after, timestampMs, intervalMs)
    requires Pruned(after, again, timestampMs, intervalMs)
    ensures again == after
  {
    assert again.Keys == after.Keys;
  }

  class AircraftDictionary {
    var dict: map<uint32, Aircraft>
    var config: AircraftDictionaryConfig

    /** Every record is filed under its own address and the capacity is respected. */
    predicate Valid()
      reads this, dict.Values
    {
      && |dict| <= kMaxNumAircraft
      && forall icao | icao in dict :: dict[icao].icaoAddress == icao
    }

    /** `AircraftDictionary(config_in)`: an empty dictionary. */
    constructor (configIn: AircraftDictionaryConfig)
      ensures Valid()
      ensures dict == map[] && config == configIn
    {
      dict := map[];
      config := configIn;
    }

    /** Removes all aircraft. */
    method Init()
      modifies this`dict
      ensures Valid()
      ensures dict == map[]
    {
      dict := map[];
    }

    /** The number of aircraft in the dictionary, which never exceeds the capacity. */
    method GetNumAircraft() returns (n: uint16)
      requires Valid()
      ensures n == |dict|
      ensures n <= kMaxNumAircraft
    {
      n := |dict|;
    }

    /**
     * Adds a copy of `aircraft`, filed under its address. An aircraft
     * already present is overwritten; a new one is refused once the
     * dictionary holds `kMaxNumAircraft` records.
     */
    method InsertAircraft(aircraft: Aircraft) returns (ok: bool)
      requires Valid()
      modifies this`dict
      ensures Valid()
      ensures ok <==> aircraft.icaoAddress in old(dict) || |old(dict)| < kMaxNumAircraft
      ensures ok ==> dict.Keys == old(dict).Keys + {aircraft.icaoAddress}
      ensures ok ==> fresh(dict[aircraft.icaoAddress]) && dict[aircraft.icaoAddress].SameRecord(aircraft)
      ensures ok ==> forall icao | icao in old(dict) && icao != aircraft.icaoAddress :: dict[icao] == old(dict)[icao]
      ensures !ok ==> dict == old(dict)
    {
      var icao := aircraft.icaoAddress;
      if icao !in dict && |dict| >= kMaxNumAircraft {
        return false;
      }
      var copy := new Aircraft.Copy(aircraft);
      if icao in dict {
        assert dict[icao := copy].Keys == dict.Keys;
      }
      dict := dict[icao := copy];
      ok := true;
    }

    /** Removes the aircraft filed under `icaoAddress`; fails iff there is none. */
    method RemoveAircraft(icaoAddress: uint32) returns (ok: bool)
      requires Valid()
      modifies this`dict
      ensures Valid()
      ensures ok <==> icaoAddress in old(dict)
      ensures dict == old(dict) - {icaoAddress}
    {
      ok := icaoAddress in dict;
      dict := dict - {icaoAddress};
    }

    /**
     * Copies the aircraft filed under `icaoAddress` into `aircraftOut`;
     * fails, leaving `aircraftOut` as it was, iff there is none.
     */
    method GetAircraft(icaoAddress: uint32, aircraftOut: Aircraft) returns (found: bool)
      requires Valid()
      requires aircraftOut !in dict.Values
      modifies aircraftOut
      ensures Valid()
      ensures found <==> icaoAddress in dict
      ensures found ==> aircraftOut.SameRecord(dict[icaoAddress])
      ensures !found ==> unchanged(aircraftOut)
    {
      found := icaoAddress in dict;
      if found {
        aircraftOut.CopyFrom(dict[icaoAddress]);
      }
    }

    /** Whether an aircraft is filed under `icaoAddress`. */
    method ContainsAircraft(icaoAddress: uint32) returns (r: bool)
      requires Valid()
      ensures r <==> icaoAddress in dict
    {
      r := icaoAddress in dict;
    }

    /** The stored record itself (not a copy) for `icaoAddress`, or null if there is none. */
    method GetAircraftPtr(icaoAddress: uint32) returns (aircraft: Aircraft?)
      requires Valid()
      ensures aircraft != null <==> icaoAddress in dict
      ensures aircraft != null ==> aircraft == dict[icaoAddress] && aircraft.icaoAddress == icaoAddress
    {
      if icaoAddress in dict {
        aircraft := dict[icaoAddress];
      } else {
        aircraft := null;
      }
    }

    /**
     * The record for `icaoAddress`: the stored one, or a new default record
     * inserted for an unknown address while there is room.
     */
    method FindOrInsert(icaoAddress: uint32) returns (aircraft: Aircraft?)
      requires Valid()
      modifies this`dict
      ensures Valid()
      ensures aircraft != null <==> icaoAddress in old(dict) || |old(dict)| < kMaxNumAircraft
      ensures icaoAddress in old(dict) ==> dict == old(dict) && aircraft == dict[icaoAddress]
      ensures icaoAddress !in old(dict) && aircraft != null ==>
        && dict == old(dict)[icaoAddress := aircraft]
        && fresh(aircraft)
        && aircraft.HasDefaultFields()
      ensures aircraft == null ==> dict == old(dict)
    {
      if icaoAddress in dict {
        aircraft := dict[icaoAddress];
      } else if |dict| < kMaxNumAircraft {
        aircraft := new Aircraft(icaoAddress);
        dict := dict[icaoAddress := aircraft];
      } else {
        aircraft := null;
      }
    }

    /**
     * Ingests a Mode A reply received at `timestampMs`. A packet without
     * the validity mark is refused and changes nothing. Otherwise the
     * record for its address (created if unknown and there is room) takes
     * the squawk code and the time of the sighting.
     */
    method IngestModeAPacket(packet: ModeAPacket, timestampMs: uint32) returns (ok: bool)
      requires Valid()
      modifies this`dict, if packet.icaoAddress in dict then {dict[packet.icaoAddress]} else {}
      ensures Valid()
      ensures ok <==> packet.isValid && (packet.icaoAddress in old(dict) || |old(dict)| < kMaxNumAircraft)
      ensures !ok ==> dict == old(dict) && (packet.icaoAddress in dict ==> unchanged(dict[packet.icaoAddress]))
      ensures ok && packet.icaoAddress in old(dict) ==>
        && dict == old(dict)
        && dict[packet.icaoAddress].State()
           == old(dict[packet.icaoAddress].State()).(squawk := packet.squawk, lastSeenTimestampMs := timestampMs)
      ensures ok && packet.icaoAddress !in old(dict) ==>
        && packet.icaoAddress in dict
        && dict == old(dict)[packet.icaoAddress := dict[packet.icaoAddress]]
        && fresh(dict[packet.icaoAddress])
        && dict[packet.icaoAddress].State()
           == DefaultState(packet.icaoAddress).(squawk := packet.squawk, lastSeenTimestampMs := timestampMs)
        && !dict[packet.icaoAddress].CanDecodePosition()
    {
      if !packet.isValid {
        return false;
      }
      var aircraft := FindOrInsert(packet.icaoAddress);
      if aircraft == null {
        return false;
      }
      aircraft.ApplyModeAReply(packet.squawk, timestampMs);
      ok := true;
    }

    /**
     * Ingests a Mode C reply received at `timestampMs`: as for Mode A, with
     * the barometric altitude in place of the squawk code.
     */
    method IngestModeCPacket(packet: ModeCPacket, timestampMs: uint32) returns (ok: bool)
      requires Valid()
      modifies this`dict, if packet.icaoAddress in dict then {dict[packet.icaoAddress]} else {}
      ensures Valid()
      ensures ok <==> packet.isValid && (packet.icaoAddress in old(dict) || |old(dict)| < kMaxNumAircraft)
      ensures !ok ==> dict == old(dict) && (packet.icaoAddress in dict ==> unchanged(dict[packet.icaoAddress]))
      ensures ok && packet.icaoAddress in old(dict) ==>
        && dict == old(dict)
        && dict[packet.icaoAddress].State()
           == old(dict[packet.icaoAddress].State()).(baroAltitudeFt := packet.altitudeFt, lastSeenTimestampMs := timestampMs)
      ensures ok && packet.icaoAddress !in old(dict) ==>
        && packet.icaoAddress in dict
        && dict == old(dict)[packet.icaoAddress := dict[packet.icaoAddress]]
        && fresh(dict[packet.icaoAddress])
        && dict[packet.icaoAddress].State()
           == DefaultState(packet.icaoAddress).(baroAltitudeFt := packet.altitudeFt, lastSeenTimestampMs := timestampMs)
        && !dict[packet.icaoAddress].CanDecodePosition()
    {
      if !packet.isValid {
        return false;
      }
      var aircraft := FindOrInsert(packet.icaoAddress);
      if aircraft == null {
        return false;
      }
      aircraft.ApplyModeCReply(packet.altitudeFt, timestampMs);
      ok := true;
    }

    /**
     * Prunes the records that are stale at `timestampMs`; every other
     * record stays, unchanged.
     */
    method Update(timestampMs: uint32)
      requires Valid()
      modifies this`dict
      ensures Valid()
      ensures Pruned(old(dict), dict, timestampMs, config.aircraftPruneIntervalMs)
    {
      var toVisit := dict.Keys;
      while toVisit != {}
        invariant toVisit <= old(dict).Keys
        invariant dict.Keys <= old(dict).Keys
        invariant forall icao | icao in dict :: dict[icao] == old(dict)[icao]
        invariant forall icao | icao in old(dict) ::
          (icao in dict <==>
            (icao in toVisit || !IsStale(old(dict)[icao].lastSeenTimestampMs, timestampMs, config.aircraftPruneIntervalMs)))
        invariant Valid()
        decreases toVisit
      {
        var icao :| icao in toVisit;
        if IsStale(dict[icao].lastSeenTimestampMs, timestampMs, config.aircraftPruneIntervalMs) {
          dict := dict - {icao};
        }
        toVisit := toVisit - {icao};
      }
    }
  }
}
