/**
 * One tracked aircraft: the record the dictionary keeps per ICAO address,
 * with its 32-bit bit-flag word, the NIC supplement bits and their "written"
 * latch, and the two CPR parity slots that gate position decoding.
 *
 * Floating-point fields of the record (latitude, longitude, heading,
 * velocity and the CPR intermediate values) are not part of this model.
 * The fields that only the ADS-B message handlers write are kept together
 * in one `AircraftDetails` value.
 */
module AircraftModel {
  import opened CTypes
  import opened Bits

  const kCallSignMaxNumChars: nat := 7

  datatype AirframeType =
    | AirframeInvalid | AirframeReserved | AirframeNoCategoryInfo
    | AirframeSurfaceEmergencyVehicle | AirframeSurfaceServiceVehicle | AirframeGroundObstruction
    | AirframeGliderSailplane | AirframeLighterThanAir | AirframeParachutistSkydiver
    | AirframeUltralightHangGliderParaglider | AirframeUnmannedAerialVehicle
    | AirframeSpaceTransatmosphericVehicle | AirframeLight | AirframeMedium1 | AirframeMedium2
    | AirframeHighVortexAircraft | AirframeHeavy | AirframeHighPerformance | AirframeRotorcraft

  datatype AltitudeSource = AltitudeNotAvailable | AltitudeSourceNotSet | AltitudeSourceBaro | AltitudeSourceGNSS

  datatype VerticalRateSource =
    VerticalRateNotAvailable | VerticalRateSourceNotSet | VerticalRateSourceGNSS | VerticalRateSourceBaro

  datatype VelocitySource =
    | VelocitySourceNotAvailable | VelocitySourceNotSet | VelocitySourceGroundSpeed
    | VelocitySourceAirspeedTrue | VelocitySourceAirspeedIndicated

  datatype SystemDesignAssurance =
    SDAFailureUnknownOrNoSafetyEffect | SDAFailureMinor | SDAFailureMajor | SDAFailureHazardous

  datatype NICRadiusOfContainment =
    | ROCUnknown | ROCLessThan20NauticalMiles | ROCLessThan8NauticalMiles | ROCLessThan4NauticalMiles
    | ROCLessThan2NauticalMiles | ROCLessThan1NauticalMile | ROCLessThan0p6NauticalMiles
    | ROCLessThan0p2NauticalMiles | ROCLessThan0p1NauticalMiles | ROCLessThan75Meters
    | ROCLessThan25Meters | ROCLessThan7p5Meters

  datatype NICBarometricAltitudeIntegrity =
    BAIGillhamInputNotCrossChecked | BAIGillhamInputCrossCheckedOrNonGillhamSource

  datatype NACHorizontalVelocityError =
    | HVEUnknownOrAtLeast10MetersPerSecond | HVELessThan10MetersPerSecond | HVELessThan3MetersPerSecond
    | HVELessThan1MeterPerSecond | HVELessThan0p3MetersPerSecond

  datatype NACEstimatedPositionUncertainty =
    | EPUUnknownOrAtLeast10NauticalMiles | EPULessThan10NauticalMiles | EPULessThan4NauticalMiles
    | EPULessThan2NauticalMiles | EPULessThan1NauticalMile | EPULessThan0p5NauticalMiles
    | EPULessThan0p3NauticalMiles | EPULessThan0p1NauticalMiles | EPULessThan0p05NauticalMiles
    | EPULessThan30Meters | EPULessThan10Meters | EPULessThan3Meters

  /** The composite SIL value, SIL | (SIL supplement << 2). */
  datatype SILProbabilityOfExceedingNICRadiusOfContainment =
    | POERCUnknownOrAbove1em3PerFlightHour | POERCAtMost1em3PerFlightHour
    | POERCAtMost1em5PerFlightHour | POERCAtMost1em7PerFlightHour
    | POERCUnknownOrAbove1em3PerSample | POERCAtMost1em3PerSample
    | POERCAtMost1em5PerSample | POERCAtMost1em7PerSample

  datatype GeometricVerticalAccuracy =
    GVAUnknownOrAbove150Meters | GVAAtMost150Meters | GVAAtMost45Meters | GVAReserved

  /** A bit position of the flag word: the values of the `BitFlag` enumeration. */
  type BitFlag = b: bv5 | b < 18

  const kBitFlagIsAirborne: BitFlag := 0
  const kBitFlagIsMilitary: BitFlag := 1
  const kBitFlagIsClassB2GroundVehicle: BitFlag := 2
  const kBitFlagHas1090ESIn: BitFlag := 3
  const kBitFlagHasUATIn: BitFlag := 4
  const kBitFlagTCASOperational: BitFlag := 5
  const kBitFlagSingleAntenna: BitFlag := 6
  const kBitFlagSurfacePositionUsesHeading: BitFlag := 7
  const kBitFlagHeadingUsesMagneticNorth: BitFlag := 8
  const kBitFlagIdent: BitFlag := 9
  const kBitFlagAlert: BitFlag := 10
  const kBitFlagTCASRAActive: BitFlag := 11
  /** The first of the flags that only say "updated within this reporting interval". */
  const kBitFlagUpdatedBaroAltitude: BitFlag := 12
  const kBitFlagUpdatedGNSSAltitude: BitFlag := 13
  const kBitFlagUpdatedPosition: BitFlag := 14
  const kBitFlagUpdatedTrack: BitFlag := 15
  const kBitFlagUpdatedHorizontalVelocity: BitFlag := 16
  const kBitFlagUpdatedVerticalVelocity: BitFlag := 17
  const kBitFlagNumFlagBits: bv5 := 18

  /** A NIC supplement bit: A, B or C. */
  type NICBit = b: bv3 | b < 3

  const kNICBitA: NICBit := 0
  const kNICBitB: NICBit := 1
  const kNICBitC: NICBit := 2

  /** The integer part of one CPR parity slot. */
  datatype CPRPacket = CPRPacket(
    receivedTimestampMs: uint32,   // time since boot when the frame was recorded; 0 = never
    nLat: uint32,                  // 17-bit latitude count
    nLon: uint32,                  // 17-bit longitude count
    calculatedTimestampMs: uint32,
    nlCpr: uint16)

  const EmptyCPRPacket := CPRPacket(0, 0, 0, 0, 0)

  /**
   * The fields of the record that no operation of this model writes
   * (they belong to the ADS-B message handlers), held as one value.
   */
  datatype AircraftDetails = AircraftDetails(
    transponderCapability: uint16,
    callsign: string,
    airframeType: AirframeType,
    gnssAltitudeFt: int32,
    altitudeSource: AltitudeSource,
    positionValid: bool,
    velocitySource: VelocitySource,
    verticalRateFpm: int32,
    verticalRateSource: VerticalRateSource,
    altitudeDifferenceGnssAboveBaroFt: int32,
    nic: NICRadiusOfContainment,
    nicBaro: NICBarometricAltitudeIntegrity,      // defaults to the worst case
    nacVelocity: NACHorizontalVelocityError,
    nacPosition: NACEstimatedPositionUncertainty,
    gva: GeometricVerticalAccuracy,
    sil: SILProbabilityOfExceedingNICRadiusOfContainment,
    systemDesignAssurance: SystemDesignAssurance,
    gnssAntennaOffsetRightOfRollAxisM: int8,      // Int8Max: not read yet
    lengthM: uint16,
    widthM: uint16,
    adsbVersion: int8)

  /** The in-class defaults of those fields. */
  const DefaultDetails := AircraftDetails(
    transponderCapability := 0,
    callsign := "?",
    airframeType := AirframeInvalid,
    gnssAltitudeFt := 0,
    altitudeSource := AltitudeSourceNotSet,
    positionValid := false,
    velocitySource := VelocitySourceNotSet,
    verticalRateFpm := 0,
    verticalRateSource := VerticalRateSourceNotSet,
    altitudeDifferenceGnssAboveBaroFt := 0,
    nic := ROCUnknown,
    nicBaro := BAIGillhamInputNotCrossChecked,
    nacVelocity := HVEUnknownOrAtLeast10MetersPerSecond,
    nacPosition := EPUUnknownOrAtLeast10NauticalMiles,
    gva := GVAUnknownOrAbove150Meters,
    sil := POERCUnknownOrAbove1em3PerFlightHour,
    systemDesignAssurance := SDAFailureUnknownOrNoSafetyEffect,
    gnssAntennaOffsetRightOfRollAxisM := Int8Max,
    lengthM := 0,
    widthM := 0,
    adsbVersion := -1)

  /** The contents of one record, field for field, as a value. */
  datatype AircraftState = AircraftState(
    flags: bv32,
    lastSeenTimestampMs: uint32,
    icaoAddress: uint32,
    squawk: uint16,
    baroAltitudeFt: int32,
    nicBitsValid: bv8,
    nicBits: bv8,
    lastOddPacket: CPRPacket,
    lastEvenPacket: CPRPacket,
    details: AircraftDetails)

  /** The record for `icaoAddress` with every other field at its in-class default. */
  function DefaultState(icaoAddress: uint32): (s: AircraftState)
    ensures s.icaoAddress == icaoAddress
  {
    AircraftState(0, 0, icaoAddress, 0, 0, 0, 0, EmptyCPRPacket, EmptyCPRPacket, DefaultDetails)
  }

  class Aircraft {
    var flags: bv32
    var lastSeenTimestampMs: uint32
    var icaoAddress: uint32
    var squawk: uint16
    var baroAltitudeFt: int32
    var nicBitsValid: bv8    // bit b: NIC supplement bit b has been written
    var nicBits: bv8         // bit b: value of NIC supplement bit b
    var lastOddPacket: CPRPacket
    var lastEvenPacket: CPRPacket
    var details: AircraftDetails

    /** The record this object holds. */
    function State(): AircraftState
      reads this
    {
      AircraftState(flags, lastSeenTimestampMs, icaoAddress, squawk, baroAltitudeFt,
                    nicBitsValid, nicBits, lastOddPacket, lastEvenPacket, details)
    }

    /** Every field except the address holds its in-class default. */
    predicate HasDefaultFields()
      reads this
    {
      State() == DefaultState(icaoAddress)
    }

    /** `this` and `other` hold the same record, field for field. */
    predicate SameRecord(other: Aircraft)
      reads this, other
    {
      State() == other.State()
    }

    /** `Aircraft(icao_address_in)`: a record for that address with every other field at its default. */
    constructor (icaoAddressIn: uint32)
      ensures icaoAddress == icaoAddressIn
      ensures HasDefaultFields()
      ensures !CanDecodePosition()
    {
      flags := 0;
      lastSeenTimestampMs := 0;
      icaoAddress := icaoAddressIn;
      squawk := 0;
      baroAltitudeFt := 0;
      nicBitsValid := 0;
      nicBits := 0;
      lastOddPacket := EmptyCPRPacket;
      lastEvenPacket := EmptyCPRPacket;
      details := DefaultDetails;
    }

    /** The implicit copy constructor: a new object holding the same record as `other`. */
    constructor Copy(other: Aircraft)
      ensures SameRecord(other)
    {
      flags := other.flags;
      lastSeenTimestampMs := other.lastSeenTimestampMs;
      icaoAddress := other.icaoAddress;
      squawk := other.squawk;
      baroAltitudeFt := other.baroAltitudeFt;
      nicBitsValid := other.nicBitsValid;
      nicBits := other.nicBits;
      lastOddPacket := other.lastOddPacket;
      lastEvenPacket := other.lastEvenPacket;
      details := other.details;
    }

    /** The implicit copy assignment `*this = other`. */
    method CopyFrom(other: Aircraft)
      modifies this
      ensures SameRecord(other)
    {
      flags, lastSeenTimestampMs, icaoAddress, squawk, baroAltitudeFt,
        nicBitsValid, nicBits, lastOddPacket, lastEvenPacket, details :=
        other.flags, other.lastSeenTimestampMs, other.icaoAddress, other.squawk, other.baroAltitudeFt,
        other.nicBitsValid, other.nicBits, other.lastOddPacket, other.lastEvenPacket, other.details;
    }

    /**
     * A Mode A reply sighted at `timestampMs`: the record takes its squawk
     * code and the time of the sighting; every other field stays.
     */
    method ApplyModeAReply(squawkIn: uint16, timestampMs: uint32)
      modifies this`squawk, this`lastSeenTimestampMs
      ensures State() == old(State()).(squawk := squawkIn, lastSeenTimestampMs := timestampMs)
    {
      squawk := squawkIn;
      lastSeenTimestampMs := timestampMs;
    }

    /**
     * A Mode C reply sighted at `timestampMs`: the record takes its
     * barometric altitude and the time of the sighting; every other field
     * stays.
     */
    method ApplyModeCReply(altitudeFt: int32, timestampMs: uint32)
      modifies this`baroAltitudeFt, this`lastSeenTimestampMs
      ensures State() == old(State()).(baroAltitudeFt := altitudeFt, lastSeenTimestampMs := timestampMs)
    {
      baroAltitudeFt := altitudeFt;
      lastSeenTimestampMs := timestampMs;
    }

    /** Whether flag `bit` is set: setting it would leave the flag word as it is. */
    predicate HasBitFlag(bit: BitFlag)
      reads this
      ensures HasBitFlag(bit) <==> WriteBit32(flags, bit, true) == flags
    {
      WriteBit32Unchanged(flags, bit, true);
      Bit32(flags, bit)
    }

    /** Set or clear one flag; every other bit of the flag word stays. */
    method WriteBitFlag(bit: BitFlag, value: bool)
      modifies this`flags
      ensures flags == WriteBit32(old(flags), bit, value)
      ensures HasBitFlag(bit) == value
      ensures flags & !(1 << bit) == old(flags) & !(1 << bit)
    {
      WriteBit32KeepsOthers(flags, bit, value);
      flags := WriteBit32(flags, bit, value);
    }

    /**
     * Clear the "updated within this reporting interval" flags: bit
     * `kBitFlagUpdatedBaroAltitude` and every bit above it. The persistent
     * flags below it stay.
     */
    method ResetUpdatedBitFlags()
      modifies this`flags
      ensures flags == KeepBelow32(old(flags), kBitFlagUpdatedBaroAltitude)
      ensures forall b: BitFlag :: HasBitFlag(b) == (b < kBitFlagUpdatedBaroAltitude && old(HasBitFlag(b)))
    {
      var w := flags;
      flags := KeepBelow32(flags, kBitFlagUpdatedBaroAltitude);
      forall b: BitFlag
        ensures HasBitFlag(b) == (b < kBitFlagUpdatedBaroAltitude && Bit32(w, b))
      {
        if b < kBitFlagUpdatedBaroAltitude {
          ResetKeepsPersistentFlag(w, b);
        } else {
          ResetClearsUpdatedFlag(w, b);
        }
      }
    }

    /**
     * Write NIC supplement bit `bit` and latch its "written" bit, whatever
     * the value written.
     */
    method WriteNICBit(bit: NICBit, value: bool)
      modifies this`nicBits, this`nicBitsValid
      ensures nicBits == WriteBit8(old(nicBits), bit, value)
      ensures nicBitsValid == SetBit8(old(nicBitsValid), bit)
    {
      nicBits := WriteBit8(nicBits, bit, value);
      nicBitsValid := SetBit8(nicBitsValid, bit);
    }

    /**
     * `NICBitIsValid` as the source computes it: bit `bit` of `nicBits`, the
     * written value, not bit `bit` of the `nicBitsValid` latch.
     */
    predicate NICBitIsValid(bit: NICBit)
      reads this
      ensures nicBits & !nicBitsValid == 0 && NICBitIsValid(bit) ==> NICBitWasWritten(bit)
    {
      Bit8(nicBits, bit)
    }

    /**
     * What `NICBitIsValid` is documented to return: whether `bit` has been
     * written, bit `bit` of the latch word. A fresh record has none.
     */
    predicate NICBitWasWritten(bit: NICBit)
      reads this
      ensures NICBitWasWritten(bit) <==> (nicBitsValid >> bit) & 1 == 1
      ensures nicBitsValid == 0 ==> !NICBitWasWritten(bit)
    {
      Bit8(nicBitsValid, bit)
    }

    /** A position decode can be attempted once both parity slots have received a frame. */
    predicate CanDecodePosition()
      reads this
      ensures CanDecodePosition() ==> lastOddPacket != EmptyCPRPacket && lastEvenPacket != EmptyCPRPacket
    {
      lastOddPacket.receivedTimestampMs > 0 && lastEvenPacket.receivedTimestampMs > 0
    }

    /**
     * The storage step of `SetCPRLatLon`: the raw 17-bit counts and the
     * time of reception go into the slot of the frame's parity; the other
     * slot stays.
     */
    method RecordCPRFrame(nLatCpr: uint32, nLonCpr: uint32, odd: bool, receivedTimestampMs: uint32)
      requires nLatCpr < 0x2_0000 && nLonCpr < 0x2_0000
      modifies this`lastOddPacket, this`lastEvenPacket
      ensures odd ==> lastEvenPacket == old(lastEvenPacket)
      ensures odd ==> lastOddPacket == old(lastOddPacket).(receivedTimestampMs := receivedTimestampMs, nLat := nLatCpr, nLon := nLonCpr)
      ensures !odd ==> lastOddPacket == old(lastOddPacket)
      ensures !odd ==> lastEvenPacket == old(lastEvenPacket).(receivedTimestampMs := receivedTimestampMs, nLat := nLatCpr, nLon := nLonCpr)
      ensures receivedTimestampMs > 0 ==>
        (CanDecodePosition() <==> (if odd then old(lastEvenPacket) else old(lastOddPacket)).receivedTimestampMs > 0)
    {
      if odd {
        lastOddPacket := lastOddPacket.(receivedTimestampMs := receivedTimestampMs, nLat := nLatCpr, nLon := nLonCpr);
      } else {
        lastEvenPacket := lastEvenPacket.(receivedTimestampMs := receivedTimestampMs, nLat := nLatCpr, nLon := nLonCpr);
      }
    }
  }

  /** A persistent flag (below `kBitFlagUpdatedBaroAltitude`) survives `ResetUpdatedBitFlags`. */
  lemma ResetKeepsPersistentFlag(w: bv32, b: BitFlag)
    requires b < kBitFlagUpdatedBaroAltitude
    ensures Bit32(KeepBelow32(w, kBitFlagUpdatedBaroAltitude), b) == Bit32(w, b)
  {
  }

  /** An "updated" flag is clear after `ResetUpdatedBitFlags`. */
  lemma ResetClearsUpdatedFlag(w: bv32, b: BitFlag)
    requires kBitFlagUpdatedBaroAltitude <= b
    ensures !Bit32(KeepBelow32(w, kBitFlagUpdatedBaroAltitude), b)
  {
  }

  /** Clearing the "updated" flags twice is clearing them once. */
  lemma ResetUpdatedBitFlagsIdempotent(w: bv32)
    ensures KeepBelow32(KeepBelow32(w, kBitFlagUpdatedBaroAltitude), kBitFlagUpdatedBaroAltitude)
         == KeepBelow32(w, kBitFlagUpdatedBaroAltitude)
  {
  }

  /** A flag written before the reset survives it exactly when it is a persistent flag. */
  lemma ResetKeepsWrittenFlag(w: bv32, b: BitFlag, value: bool)
    ensures Bit32(KeepBelow32(WriteBit32(w, b, value), kBitFlagUpdatedBaroAltitude), b)
         == (b < kBitFlagUpdatedBaroAltitude && value)
  {
    if b < kBitFlagUpdatedBaroAltitude {
      ResetKeepsPersistentFlag(WriteBit32(w, b, value), b);
    } else {
      ResetClearsUpdatedFlag(WriteBit32(w, b, value), b);
    }
  }

  /** One call of `WriteNICBit`. */
  datatype NICWrite = NICWrite(bit: NICBit, value: bool)

  /** `nicBits` after a sequence of `WriteNICBit` calls, starting from `bits`. */
  function NICBitsAfter(bits: bv8, writes: seq<NICWrite>): (r: bv8)
    ensures |writes| == 0 ==> r == bits
  {
    if |writes| == 0 then bits
    else
      var last := writes[|writes| - 1];
      WriteBit8(NICBitsAfter(bits, writes[..|writes| - 1]), last.bit, last.value)
  }

  /** `nicBitsValid` after a sequence of `WriteNICBit` calls, starting from `valid`. */
  function NICValidAfter(valid: bv8, writes: seq<NICWrite>): (r: bv8)
    ensures |writes| == 0 ==> r == valid
  {
    if |writes| == 0 then valid
    else SetBit8(NICValidAfter(valid, writes[..|writes| - 1]), writes[|writes| - 1].bit)
  }

  /** The value of the last write to `bit` in `writes`, or `initial` if there is none. */
  function LastWrittenValue(writes: seq<NICWrite>, bit: NICBit, initial: bool): (v: bool)
    ensures (forall k | 0 <= k < |writes| :: writes[k].bit != bit) ==> v == initial
  {
    if |writes| == 0 then initial
    else if writes[|writes| - 1].bit == bit then writes[|writes| - 1].value
    else LastWrittenValue(writes[..|writes| - 1], bit, initial)
  }

  /** After any sequence of writes, bit `b` of `nicBits` holds the last value written to it. */
  lemma {:induction false} NICBitsHoldLastWrite(bits: bv8, writes: seq<NICWrite>, b: NICBit)
    ensures Bit8(NICBitsAfter(bits, writes), b) == LastWrittenValue(writes, b, Bit8(bits, b))
  {
    if |writes| > 0 {
      var prefix := writes[..|writes| - 1];
      var last := writes[|writes| - 1];
      NICBitsHoldLastWrite(bits, prefix, b);
      if last.bit != b {
        WriteBit8KeepsOther(NICBitsAfter(bits, prefix), last.bit, last.value, b);
      }
    }
  }

  /** After any sequence of writes, bit `b` of `nicBitsValid` is set iff it was set before or `b` was written. */
  lemma {:induction false} NICValidRecordsWrites(valid: bv8, writes: seq<NICWrite>, b: NICBit)
    ensures Bit8(NICValidAfter(valid, writes), b)
        <==> (Bit8(valid, b) || exists k :: 0 <= k < |writes| && writes[k].bit == b)
  {
    if |writes| > 0 {
      var prefix := writes[..|writes| - 1];
      var last := writes[|writes| - 1];
      NICValidRecordsWrites(valid, prefix, b);
      if last.bit != b {
        SetBit8KeepsOther(NICValidAfter(valid, prefix), last.bit, b);
        if exists k :: 0 <= k < |writes| && writes[k].bit == b {
          var k :| 0 <= k < |writes| && writes[k].bit == b;
          assert prefix[k].bit == b;
        }
      } else {
        assert writes[|writes| - 1].bit == b;
      }
    }
  }

  /** The "written" latch is never cleared: every bit set in `valid` stays set. */
  lemma {:induction false} NICValidNeverCleared(valid: bv8, writes: seq<NICWrite>)
    ensures NICValidAfter(valid, writes) & valid == valid
  {
    if |writes| > 0 {
      var prefix := writes[..|writes| - 1];
      NICValidNeverCleared(valid, prefix);
      SetBit8Monotone(NICValidAfter(valid, prefix), writes[|writes| - 1].bit);
    }
  }

  /** One `WriteNICBit` sets no value bit outside the latch when there was none before. */
  lemma WriteNICBitStaysWithinLatch(bits: bv8, valid: bv8, w: NICWrite)
    requires bits & !valid == 0
    ensures WriteBit8(bits, w.bit, w.value) & !SetBit8(valid, w.bit) == 0
  {
  }

  /**
   * Starting with no value bit outside the latch (as the default record
   * does), no sequence of writes sets one: `nicBits & ~nicBitsValid` stays 0.
   */
  lemma {:induction false} NICBitsStayWithinLatch(bits: bv8, valid: bv8, writes: seq<NICWrite>)
    requires bits & !valid == 0
    ensures NICBitsAfter(bits, writes) & !NICValidAfter(valid, writes) == 0
  {
    if |writes| > 0 {
      var prefix := writes[..|writes| - 1];
      NICBitsStayWithinLatch(bits, valid, prefix);
      WriteNICBitStaysWithinLatch(NICBitsAfter(bits, prefix), NICValidAfter(valid, prefix), writes[|writes| - 1]);
    }
  }

  /**
   * Starting from the default record (both NIC words 0), the documented
   * `NICBitIsValid` holds of bit `b` iff `b` has been written.
   */
  lemma NICBitWrittenIffWritten(writes: seq<NICWrite>, b: NICBit)
    ensures Bit8(NICValidAfter(0, writes), b) <==> exists k :: 0 <= k < |writes| && writes[k].bit == b
  {
    NICValidRecordsWrites(0, writes, b);
  }

  /**
   * `NICBitIsValid` as written reports the value, not the write: after
   * `WriteNICBit(kNICBitA, false)` on a default record, bit A has been
   * written but the getter answers false.
   */
  lemma NICBitIsValidMissesFalseWrite()
    ensures var writes := [NICWrite(kNICBitA, false)];
      && Bit8(NICValidAfter(0, writes), kNICBitA)
      && !Bit8(NICBitsAfter(0, writes), kNICBitA)
  {
    var writes := [NICWrite(kNICBitA, false)];
    assert writes[..0] == [];
  }
}
