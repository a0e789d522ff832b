/**
 * The receiver's integer arithmetic and packet framing: the bias-voltage
 * setter and its PWM count, ADC-count to millivolt and millivolt to dBm
 * conversions, the MLAT tick counters, the framing of demodulated words
 * into Squitter and Extended Squitter packets, and the dictionary prune
 * trigger of the main loop.
 *
 * Register, ADC and FIFO reads and the clock are parameters; GPIO, PWM,
 * PIO, interrupt and console calls are not part of this model.
 */
module AdsBee {
  import opened CTypes
  import opened Dictionary

  datatype Option<T> = None | Some(value: T)

  // ---------------------------------------------------------------------
  // Unit conversions

  /** `adc_counts_to_mv`: `3300 * adc_counts / 0xFFF`, rounded down. */
  function AdcCountsToMv(adcCounts: uint16): (mv: int)
    ensures 0 <= mv
    ensures mv * 0xFFF <= 3300 * adcCounts < (mv + 1) * 0xFFF
    ensures adcCounts <= 0xFFF ==> mv <= 3300
  {
    3300 * adcCounts / 0xFFF
  }

  /** A larger ADC reading never converts to fewer millivolts. */
  lemma AdcCountsToMvMonotone(a: uint16, b: uint16)
    requires a <= b
    ensures AdcCountsToMv(a) <= AdcCountsToMv(b)
  {
  }

  /**
   * The RSSI formula of `ReadRSSIdBm` on a voltage: `60 * (mv - 1600) / 1000`
   * with C's division, which truncates toward zero (0 dBm at 1.6 V, 60 dB
   * per volt).
   */
  function RssiDbmFromMv(mv: int): (dbm: int)
    ensures 0 <= mv <= 3300 ==> -96 <= dbm <= 102
  {
    CDiv(60 * (mv - 1600), 1000)
  }

  /** `ReadRSSIdBm` on an ADC reading: counts to millivolts, then millivolts to dBm. */
  function RssiDbm(adcCounts: uint16): (dbm: int)
    ensures adcCounts <= 0xFFF ==> -96 <= dbm <= 102
  {
    RssiDbmFromMv(AdcCountsToMv(adcCounts))
  }

  /** Truncation toward zero makes the formula odd about the 1.6 V intercept. */
  lemma RssiDbmAntisymmetric(d: int)
    ensures RssiDbmFromMv(1600 + d) == -RssiDbmFromMv(1600 - d)
  {
    CDivNegate(60 * d, 1000);
  }

  /** Every 50 mV away from the intercept is exactly 3 dB: the slope is 60 dB per volt. */
  lemma RssiDbmSlope(k: int)
    ensures RssiDbmFromMv(1600 + 50 * k) == 3 * k
  {
    CDivExact(3 * k, 1000);
  }

  /** The readings within 16 mV of the intercept, and only those, report 0 dBm. */
  lemma RssiDbmZeroBand(mv: int)
    ensures RssiDbmFromMv(mv) == 0 <==> 1584 <= mv <= 1616
  {
    var r := RssiDbmFromMv(mv);
    if 1584 <= mv <= 1616 {
      CDivSmall(60 * (mv - 1600), 1000);
    } else if mv > 1616 {
      CDivMonotone(1000, 60 * (mv - 1600), 1000);
      CDivExact(1, 1000);
    } else {
      CDivMonotone(60 * (mv - 1600), -1000, 1000);
      CDivExact(-1, 1000);
    }
  }

  /** A higher voltage never reports a lower power. */
  lemma RssiDbmMonotone(mv1: int, mv2: int)
    requires mv1 <= mv2
    ensures RssiDbmFromMv(mv1) <= RssiDbmFromMv(mv2)
  {
    CDivMonotone(60 * (mv1 - 1600), 60 * (mv2 - 1600), 1000);
  }

  /** C's truncating division commutes with negation. */
  lemma CDivNegate(a: int, b: int)
    requires b > 0
    ensures CDiv(-a, b) == -CDiv(a, b)
  {
  }

  /** An exact multiple divides with no rounding. */
  lemma CDivExact(q: int, b: int)
    requires b > 0
    ensures CDiv(q * b, b) == q
  {
    var r := CDiv(q * b, b);
    if q * b >= 0 {
      MulNonNeg(q, b);
      assert r * b <= q * b < r * b + b;
      MulLess(r, q + 1, b);
      MulLess(q, r + 1, b);
    } else {
      assert q < 0;
      assert r * b - b < q * b <= r * b;
      MulLess(r - 1, q, b);
      MulLess(q - 1, r, b);
    }
  }

  /** A dividend of magnitude below the divisor truncates to 0. */
  lemma CDivSmall(a: int, b: int)
    requires b > 0 && -b < a < b
    ensures CDiv(a, b) == 0
  {
    var r := CDiv(a, b);
    if a >= 0 {
      MulLess(r, 1, b);
    } else {
      MulLess(-1, r, b);
    }
  }

  /** C's truncating division is monotone in the dividend. */
  lemma CDivMonotone(a1: int, a2: int, b: int)
    requires b > 0 && a1 <= a2
    ensures CDiv(a1, b) <= CDiv(a2, b)
  {
    var r1, r2 := CDiv(a1, b), CDiv(a2, b);
    if 0 <= a1 {
      assert r1 * b <= a1 <= a2 < r2 * b + b;
      MulLess(r1, r2 + 1, b);
    } else if a2 < 0 {
      assert r1 * b - b < a1 <= a2 <= r2 * b;
      MulLess(r1 - 1, r2, b);
    } else {
      assert r1 * b <= 0 <= r2 * b;
      MulNonPos(r1, b);
      MulNonNeg(r2, b);
    }
  }

  /** Cancelling a positive factor in a strict inequality. */
  lemma MulLess(x: int, y: int, b: int)
    requires b > 0 && x * b < y * b
    ensures x < y
  {
    if x >= y {
      assert x * b - y * b == (x - y) * b;
      MulNonNeg(x - y, b);
    }
  }

  lemma MulNonNeg(x: int, b: int)
    requires b > 0 && x * b >= 0
    ensures x >= 0
  {
    if x < 0 {
      assert false;
    }
  }

  lemma MulNonPos(x: int, b: int)
    requires b > 0 && x * b <= 0
    ensures x <= 0
  {
    if x > 0 {
      assert false;
    }
  }

  /**
   * The PWM compare level for a bias voltage, `tl_mv * max_pwm_count /
   * vdd_mv` with C's division: the duty cycle that puts `tl_mv` on the
   * filtered output of a PWM swinging between 0 and `vdd_mv`.
   */
  function TLPwmCount(tlMv: int, maxPwmCount: int, vddMv: int): (count: int)
    requires 0 < vddMv
    ensures 0 <= tlMv && 0 <= maxPwmCount ==> count * vddMv <= tlMv * maxPwmCount < (count + 1) * vddMv
  {
    CDiv(tlMv * maxPwmCount, vddMv)
  }

  /** A voltage between 0 and the supply gives a compare level between 0 and the PWM wrap value. */
  lemma TLPwmCountInRange(tlMv: int, maxPwmCount: int, vddMv: int)
    requires 0 < vddMv && 0 <= tlMv <= vddMv && 0 <= maxPwmCount
    ensures 0 <= TLPwmCount(tlMv, maxPwmCount, vddMv) <= maxPwmCount
  {
    var count := TLPwmCount(tlMv, maxPwmCount, vddMv);
    MulMonotone(tlMv, vddMv, maxPwmCount);
    assert count * vddMv <= tlMv * maxPwmCount < (count + 1) * vddMv;
    assert (maxPwmCount + 1) * vddMv == maxPwmCount * vddMv + vddMv;
    MulLess(count, maxPwmCount + 1, vddMv);
    MulNonNeg(count, vddMv);
  }

  /** Multiplying by a non-negative factor keeps a non-strict order. */
  lemma MulMonotone(x: int, y: int, c: int)
    requires x <= y && 0 <= c
    ensures x * c <= y * c
  {
    assert y * c - x * c == (y - x) * c;
  }

  /** A higher bias voltage never gives a lower compare level. */
  lemma TLPwmCountMonotone(mv1: int, mv2: int, maxPwmCount: int, vddMv: int)
    requires 0 < vddMv && 0 <= maxPwmCount && mv1 <= mv2
    ensures TLPwmCount(mv1, maxPwmCount, vddMv) <= TLPwmCount(mv2, maxPwmCount, vddMv)
  {
    assert (mv2 - mv1) * maxPwmCount >= 0;
    CDivMonotone(mv1 * maxPwmCount, mv2 * maxPwmCount, vddMv);
  }

  // ---------------------------------------------------------------------
  // MLAT counters

  /** A value of the 24-bit SysTick current-value register, read as a `uint32_t`. */
  type SysTickValue = x: uint32 | x <= 0xFF_FFFF

  /**
   * `GetMLAT48MHzCounts(num_bits)`: the SysTick wrap counter shifted above
   * the 24-bit down-counter turned into an up-counter (`0xFFFFFF - cvr`),
   * masked to the low `num_bits` bits. As arithmetic: the 64-bit
   * `wraps << 24` is `wraps * 2^24` modulo 2^64, the `|` with a value below
   * 2^24 is a sum, and the mask `UINT64_MAX >> (64 - num_bits)` is the
   * remainder modulo `2^num_bits`. Widths 1 to 64 are the ones for which C
   * defines the shift.
   */
  function Mlat48MhzCounts(wraps: uint64, cvr: SysTickValue, numBits: nat): (r: nat)
    requires 1 <= numBits <= 64
    ensures r < Pow2(numBits)
  {
    ((wraps * 0x100_0000) % 0x1_0000_0000_0000_0000 + (0xFF_FFFF - cvr)) % Pow2(numBits)
  }

  /** The 64-bit wrap-around of the shift is absorbed by the mask. */
  lemma Mlat48MhzCountsUnwrapped(wraps: uint64, cvr: SysTickValue, numBits: nat)
    requires 1 <= numBits <= 64
    ensures Mlat48MhzCounts(wraps, cvr, numBits) == (wraps * 0x100_0000 + (0xFF_FFFF - cvr)) % Pow2(numBits)
  {
    Pow2Add(numBits, 64 - numBits);
    Pow2Of64();
    ModOfMod(wraps * 0x100_0000, 0xFF_FFFF - cvr, Pow2(numBits), Pow2(64 - numBits));
  }

  /**
   * With at least 24 bits, the count is the wrap counter masked to the
   * remaining `num_bits - 24` bits, placed above the elapsed part of the
   * current SysTick period.
   */
  lemma Mlat48MhzCountsSplit(wraps: uint64, cvr: SysTickValue, numBits: nat)
    requires 24 <= numBits <= 64
    ensures Mlat48MhzCounts(wraps, cvr, numBits)
         == (wraps % Pow2(numBits - 24)) * 0x100_0000 + (0xFF_FFFF - cvr)
  {
    Mlat48MhzCountsUnwrapped(wraps, cvr, numBits);
    Pow2Of24();
    Pow2Add(24, numBits - 24);
    ModOfJoin(wraps, 0xFF_FFFF - cvr, 0x100_0000, Pow2(numBits - 24));
  }

  /** Its low 24 bits are `0xFFFFFF - cvr`; the bits above them are the masked wrap counter. */
  lemma Mlat48MhzCountsLowHigh(wraps: uint64, cvr: SysTickValue, numBits: nat)
    requires 24 <= numBits <= 64
    ensures Mlat48MhzCounts(wraps, cvr, numBits) % 0x100_0000 == 0xFF_FFFF - cvr
    ensures Mlat48MhzCounts(wraps, cvr, numBits) / 0x100_0000 == wraps % Pow2(numBits - 24)
  {
    Mlat48MhzCountsSplit(wraps, cvr, numBits);
    DivModUnique(Mlat48MhzCounts(wraps, cvr, numBits), 0x100_0000, wraps % Pow2(numBits - 24), 0xFF_FFFF - cvr);
  }

  /** Between two reads within one wrap period the counter goes up as the SysTick register counts down. */
  lemma Mlat48MhzCountsIncreasing(wraps: uint64, cvr1: SysTickValue, cvr2: SysTickValue, numBits: nat)
    requires 24 <= numBits <= 64
    requires cvr1 < cvr2
    ensures Mlat48MhzCounts(wraps, cvr2, numBits) < Mlat48MhzCounts(wraps, cvr1, numBits)
  {
    Mlat48MhzCountsSplit(wraps, cvr1, numBits);
    Mlat48MhzCountsSplit(wraps, cvr2, numBits);
  }

  /** A SysTick wrap between two reads moves the counter on by exactly one period of 2^24 ticks, modulo its width. */
  lemma Mlat48MhzCountsWrapStep(wraps: uint64, cvr: SysTickValue, numBits: nat)
    requires 24 <= numBits <= 64
    requires wraps + 1 < 0x1_0000_0000_0000_0000
    ensures Mlat48MhzCounts(wraps + 1, cvr, numBits)
         == (Mlat48MhzCounts(wraps, cvr, numBits) + 0x100_0000) % Pow2(numBits)
  {
    var x := wraps * 0x100_0000 + (0xFF_FFFF - cvr);
    Mlat48MhzCountsUnwrapped(wraps, cvr, numBits);
    Mlat48MhzCountsUnwrapped(wraps + 1, cvr, numBits);
    assert (wraps + 1) * 0x100_0000 + (0xFF_FFFF - cvr) == x + 0x100_0000;
    ModThenAdd(x, 0x100_0000, Pow2(numBits));
  }

  /**
   * `GetMLAT12MHzCounts(num_bits)` as written: the 48 MHz counter at a
   * fixed width of 50 bits, shifted down by 2. It ignores `num_bits`; the
   * result always fits in 48 bits.
   */
  function Mlat12MhzCountsAsWritten(wraps: uint64, cvr: SysTickValue, numBits: nat): (r: nat)
    ensures r < Pow2(48)
  {
    Pow2Plus2(48);
    Mlat48MhzCounts(wraps, cvr, 50) / 4
  }

  /** With `num_bits = 24` the as-written 12 MHz counter can exceed 24 bits. */
  lemma Mlat12MhzCountsAsWrittenExceedsWidth()
    ensures Mlat12MhzCountsAsWritten(4, 0xFF_FFFF, 24) >= Pow2(24)
  {
    Mlat48MhzCountsSplit(4, 0xFF_FFFF, 50);
    Pow2Of24();
    var p := Pow2(26);
    assert 4 % p == 4;
  }

  /**
   * The 12 MHz counter as its comment intends: the 48 MHz counter with the
   * mask widened by 2 bits, shifted down by 2, so the result fits `num_bits`.
   */
  function Mlat12MhzCounts(wraps: uint64, cvr: SysTickValue, numBits: nat): (r: nat)
    requires 1 <= numBits <= 62
    ensures r < Pow2(numBits)
  {
    Pow2Plus2(numBits);
    Mlat48MhzCounts(wraps, cvr, numBits + 2) / 4
  }

  /** It is the unmasked 48 MHz count divided by 4, then truncated to `num_bits` bits. */
  lemma Mlat12MhzCountsIsQuarterRate(wraps: uint64, cvr: SysTickValue, numBits: nat)
    requires 1 <= numBits <= 62
    ensures Mlat12MhzCounts(wraps, cvr, numBits)
         == ((wraps * 0x100_0000 + (0xFF_FFFF - cvr)) / 4) % Pow2(numBits)
  {
    var x := wraps * 0x100_0000 + (0xFF_FFFF - cvr);
    Mlat48MhzCountsUnwrapped(wraps, cvr, numBits + 2);
    Pow2Plus2(numBits);
    QuarterOfMod(x, Pow2(numBits));
  }

  // ---------------------------------------------------------------------
  // Demodulated packet framing

  const kSquitterPacketLenBits: nat := 56
  const kExtendedSquitterPacketLenBits: nat := 112
  const kSquitterPacketNumWords32: nat := 2
  const kExtendedSquitterPacketNumWords32: nat := 4

  /** One packet handed to the decoder: its words, its length in bits, its RSSI and its MLAT time. */
  datatype RawTransponderPacket = RawTransponderPacket(
    buffer: seq<bv32>, bufferLenBits: nat, rssiDbm: int, mlat48MhzCounts: uint64)

  /**
   * The number of words read from the FIFO: its level, stored in a 16-bit
   * variable, then clamped to the packet buffer's capacity.
   */
  function NumWordsToRead(fifoLevel: nat, maxWords: nat): (n: nat)
    ensures n <= maxWords && n <= fifoLevel
    ensures n == fifoLevel % 0x1_0000 || n == maxWords
    ensures fifoLevel < 0x1_0000 && fifoLevel <= maxWords ==> n == fifoLevel
  {
    var level := fifoLevel % 0x1_0000;
    if level > maxWords then maxWords else level
  }

  /** The bit length of a packet of `numWords` words, if it is a Squitter or an Extended Squitter. */
  function PacketLenBits(numWords: nat): (len: Option<nat>)
    ensures len.Some? <==> numWords == kSquitterPacketNumWords32 || numWords == kExtendedSquitterPacketNumWords32
    ensures len.Some? ==> 32 * (numWords - 1) < len.value <= 32 * numWords
  {
    if numWords == kSquitterPacketNumWords32 then Some(kSquitterPacketLenBits)
    else if numWords == kExtendedSquitterPacketNumWords32 then Some(kExtendedSquitterPacketLenBits)
    else None
  }

  /**
   * The last word of a packet of `numWords` words, left-aligned: the 24
   * valid bits of a Squitter's second word, the 16 valid bits of an
   * Extended Squitter's fourth word. No bit after the end of the packet is
   * set; a word of any other count stays as read.
   */
  function AlignLastWord(w: bv32, numWords: nat): (r: bv32)
    ensures numWords == kSquitterPacketNumWords32 ==> r & 0xFF == 0
    ensures numWords == kExtendedSquitterPacketNumWords32 ==> r & 0xFFFF == 0
    ensures PacketLenBits(numWords).None? ==> r == w
  {
    if numWords == kSquitterPacketNumWords32 then (w & 0xFF_FFFF) << 8
    else if numWords == kExtendedSquitterPacketNumWords32 then (w & 0xFFFF) << 16
    else w
  }

  /** A Squitter's last word keeps its 24 valid bits, at the top. */
  lemma AlignSquitterLastWord(w: bv32)
    ensures AlignLastWord(w, kSquitterPacketNumWords32) >> 8 == w & 0xFF_FFFF
  {
  }

  /** An Extended Squitter's last word keeps its 16 valid bits, at the top. */
  lemma AlignExtendedSquitterLastWord(w: bv32)
    ensures AlignLastWord(w, kExtendedSquitterPacketNumWords32) >> 16 == w & 0xFFFF
  {
  }

  /**
   * Word `j` of the packet buffer once `n` words of `fifo` have been read
   * into a cleared buffer: words before the last are as read, the last is
   * aligned so that no bit after the packet's end is set, and the words
   * after it are zero.
   */
  function DemodWord(fifo: seq<bv32>, n: nat, j: nat): (r: bv32)
    requires n <= |fifo|
    ensures j + 1 < n ==> r == fifo[j]
    ensures n <= j ==> r == 0
    ensures j + 1 == n == kSquitterPacketNumWords32 ==> r & 0xFF == 0
    ensures j + 1 == n == kExtendedSquitterPacketNumWords32 ==> r & 0xFFFF == 0
  {
    if j + 1 < n then fifo[j]
    else if j + 1 == n then AlignLastWord(fifo[j], n)
    else 0
  }

  /** The packet buffer of `maxWords` words after `OnDemodComplete` has read `fifo`. */
  function DemodBuffer(fifo: seq<bv32>, maxWords: nat): (buffer: seq<bv32>)
    ensures |buffer| == maxWords
  {
    var n := NumWordsToRead(|fifo|, maxWords);
    seq(maxWords, j requires 0 <= j < maxWords => DemodWord(fifo, n, j))
  }

  /**
   * A two-word read leaves the first word as read, the second one
   * left-aligned (`AlignSquitterLastWord`: the 56 received bits at the start
   * of the buffer), and zeros after them.
   */
  lemma DemodBufferSquitter(fifo: seq<bv32>, maxWords: nat)
    requires |fifo| == kSquitterPacketNumWords32 <= maxWords
    ensures var buffer := DemodBuffer(fifo, maxWords);
      && buffer[0] == fifo[0]
      && buffer[1] == AlignLastWord(fifo[1], kSquitterPacketNumWords32)
      && forall j | 2 <= j < maxWords :: buffer[j] == 0
  {
    assert NumWordsToRead(|fifo|, maxWords) == 2;
  }

  /**
   * A four-word read leaves the first three words as read, the fourth one
   * left-aligned (`AlignExtendedSquitterLastWord`: the 112 received bits at
   * the start of the buffer), and zeros after them.
   */
  lemma DemodBufferExtendedSquitter(fifo: seq<bv32>, maxWords: nat)
    requires |fifo| == kExtendedSquitterPacketNumWords32 <= maxWords
    ensures var buffer := DemodBuffer(fifo, maxWords);
      && buffer[..3] == fifo[..3]
      && buffer[3] == AlignLastWord(fifo[3], kExtendedSquitterPacketNumWords32)
      && forall j | 4 <= j < maxWords :: buffer[j] == 0
  {
    assert NumWordsToRead(|fifo|, maxWords) == 4;
  }

  /**
   * Word `j` of a buffer of `maxWords` words after `memset(buffer, 0,
   * maxWords)` as written: the call clears `maxWords` bytes, so only the
   * first `maxWords / 4` words are cleared whole, the next one loses its
   * low `maxWords % 4` bytes (little-endian), and the rest keep their
   * stale contents.
   */
  function MemsetWordAsWritten(stale: seq<bv32>, maxWords: nat, j: nat): (r: bv32)
    requires j < |stale|
    ensures r & !stale[j] == 0
    ensures 4 * (j + 1) <= maxWords ==> r == 0
    ensures maxWords <= 4 * j ==> r == stale[j]
  {
    if 4 * (j + 1) <= maxWords then 0
    else if 4 * j < maxWords then stale[j] & (0xFFFF_FFFF << ((8 * (maxWords - 4 * j)) as bv6))
    else stale[j]
  }

  /** The packet buffer after `OnDemodComplete` as written, starting from the `stale` buffer. */
  function DemodBufferAsWritten(stale: seq<bv32>, fifo: seq<bv32>): (buffer: seq<bv32>)
    ensures |buffer| == |stale|
  {
    var n := NumWordsToRead(|fifo|, |stale|);
    seq(|stale|, j requires 0 <= j < |stale| =>
      if j < n then DemodWord(fifo, n, j) else MemsetWordAsWritten(stale, |stale|, j))
  }

  /**
   * With a buffer of at least four words, a Squitter read after an
   * Extended Squitter keeps the older packet's last word in the buffer
   * that is queued: the byte-count `memset` never reaches it.
   */
  lemma DemodBufferAsWrittenKeepsStaleWord(stale: seq<bv32>, fifo: seq<bv32>)
    requires |stale| >= kExtendedSquitterPacketNumWords32 && |fifo| == kSquitterPacketNumWords32
    ensures DemodBufferAsWritten(stale, fifo)[|stale| - 1] == stale[|stale| - 1]
    ensures DemodBuffer(fifo, |stale|)[|stale| - 1] == 0
  {
  }

  // ---------------------------------------------------------------------
  // Dictionary prune trigger

  /**
   * The prune condition of `ADSBee::Update` as written: the unsigned
   * difference `last_update - now` against the interval. It never fires
   * when no time has passed, and once time has moved on by `d` ms it fires
   * exactly while `d` is below `2^32 - interval`, that is almost at once.
   */
  function PruneDueAsWritten(lastUpdateMs: uint32, nowMs: uint32, intervalMs: uint32): (due: bool)
    ensures nowMs == lastUpdateMs ==> !due
    ensures lastUpdateMs < nowMs ==> (due <==> nowMs - lastUpdateMs < UInt32Modulus - intervalMs)
    ensures nowMs < lastUpdateMs ==> (due <==> lastUpdateMs - nowMs > intervalMs)
  {
    SubU32(lastUpdateMs, nowMs) > intervalMs
  }

  /**
   * The prune condition as intended: the time elapsed since the last
   * update, `now - last_update` modulo 2^32, exceeds the interval.
   */
  function PruneDue(lastUpdateMs: uint32, nowMs: uint32, intervalMs: uint32): (due: bool)
    ensures lastUpdateMs <= nowMs ==> (due <==> nowMs - lastUpdateMs > intervalMs)
    ensures nowMs < lastUpdateMs ==> (due <==> nowMs - lastUpdateMs + UInt32Modulus > intervalMs)
  {
    SubU32(nowMs, lastUpdateMs) > intervalMs
  }

  /** One millisecond after the last update the as-written trigger already prunes; the intended one does not. */
  lemma PruneDueAsWrittenFiresEarly()
    ensures PruneDueAsWritten(5000, 5001, 1000)
    ensures !PruneDue(5000, 5001, 1000)
  {
  }

  // ---------------------------------------------------------------------
  // The receiver

  class ADSBee {
    // Constants of the firmware configuration not part of this model, fixed at construction.
    const kTLMinMV: int
    const kTLMaxMV: int
    const kTLMaxPWMCount: int
    const kVDDMV: int
    const kMaxPacketLenWords32: nat
    const aircraftDictionaryUpdateIntervalMs: uint32

    const rxBuffer: array<bv32>         // rx_packet_.buffer
    const aircraftDictionary: AircraftDictionary

    var tlMv: int
    var tlPwmCount: int
    var tlAdcCounts: uint16
    var rxBufferLenBits: nat            // rx_packet_.buffer_len_bits
    var rxRssiDbm: int                  // rx_packet_.rssi_dbm
    var rxMlat48MhzCounts: uint64       // rx_packet_.mlat_48mhz_64bit_counts
    var transponderPacketQueue: seq<RawTransponderPacket>
    var lastAircraftDictionaryUpdateTimestampMs: uint32

    /**
     * The constants are in range (bias limits within the supply, no
     * overflow of `tl_mv * kTLMaxPWMCount` in a 32-bit `int`, room for an
     * Extended Squitter), the buffer has its capacity, and the PWM level
     * never exceeds the PWM wrap value.
     */
    predicate Valid()
      reads this
    {
      && 0 < kVDDMV
      && 0 <= kTLMinMV <= kTLMaxMV <= kVDDMV
      && 0 <= kTLMaxPWMCount
      && kTLMaxMV * kTLMaxPWMCount < 0x8000_0000
      && kExtendedSquitterPacketNumWords32 <= kMaxPacketLenWords32
      && rxBuffer.Length == kMaxPacketLenWords32
      && 0 <= tlPwmCount <= kTLMaxPWMCount
    }

    /**
     * The receiver as construction and the state step of `Init` leave it:
     * empty queue and dictionary, PWM level 0, and the boot time as the
     * last dictionary update.
     */
    constructor (tlMinMv: int, tlMaxMv: int, tlMaxPwmCount: int, vddMv: int,
                 maxPacketLenWords32: nat, updateIntervalMs: uint32, bootTimestampMs: uint32)
      requires 0 < vddMv && 0 <= tlMinMv <= tlMaxMv <= vddMv && 0 <= tlMaxPwmCount
      requires tlMaxMv * tlMaxPwmCount < 0x8000_0000
      requires kExtendedSquitterPacketNumWords32 <= maxPacketLenWords32
      ensures Valid()
      ensures fresh(rxBuffer) && fresh(aircraftDictionary) && aircraftDictionary.Valid()
      ensures aircraftDictionary.dict == map[]
      ensures transponderPacketQueue == []
      ensures lastAircraftDictionaryUpdateTimestampMs == bootTimestampMs
    {
      kTLMinMV := tlMinMv;
      kTLMaxMV := tlMaxMv;
      kTLMaxPWMCount := tlMaxPwmCount;
      kVDDMV := vddMv;
      kMaxPacketLenWords32 := maxPacketLenWords32;
      aircraftDictionaryUpdateIntervalMs := updateIntervalMs;
      rxBuffer := new bv32[maxPacketLenWords32];
      aircraftDictionary := new AircraftDictionary(DefaultConfig);
      tlMv := 0;
      tlPwmCount := 0;
      tlAdcCounts := 0;
      rxBufferLenBits := 0;
      rxRssiDbm := 0;
      rxMlat48MhzCounts := 0;
      transponderPacketQueue := [];
      lastAircraftDictionaryUpdateTimestampMs := bootTimestampMs;
    }

    /**
     * `SetTLMilliVolts`: a bias voltage outside `[kTLMinMV, kTLMaxMV]` is
     * refused and changes nothing; one inside is stored together with its
     * PWM compare level.
     */
    method SetTLMilliVolts(tlMvIn: int32) returns (ok: bool)
      requires Valid()
      modifies this`tlMv, this`tlPwmCount
      ensures Valid()
      ensures ok <==> kTLMinMV <= tlMvIn <= kTLMaxMV
      ensures ok ==> tlMv == tlMvIn && tlPwmCount == TLPwmCount(tlMvIn, kTLMaxPWMCount, kVDDMV)
      ensures !ok ==> tlMv == old(tlMv) && tlPwmCount == old(tlPwmCount)
    {
      if tlMvIn > kTLMaxMV || tlMvIn < kTLMinMV {
        return false;
      }
      tlMv := tlMvIn;
      TLPwmCountInRange(tlMv, kTLMaxPWMCount, kVDDMV);
      tlPwmCount := TLPwmCount(tlMv, kTLMaxPWMCount, kVDDMV);
      ok := true;
    }

    /** `ReadTLMilliVolts` on the ADC reading `adcCounts`: stores the reading and converts it. */
    method ReadTLMilliVolts(adcCounts: uint16) returns (mv: int)
      modifies this`tlAdcCounts
      ensures tlAdcCounts == adcCounts
      ensures mv == AdcCountsToMv(adcCounts)
    {
      tlAdcCounts := adcCounts;
      mv := AdcCountsToMv(tlAdcCounts);
    }

    /**
     * `OnDemodComplete`, given the RSSI ADC reading and the words waiting in
     * the demodulator's FIFO: records the RSSI, clears the packet buffer,
     * reads the clamped number of words, left-aligns the last one, and
     * queues the packet iff it is a Squitter or an Extended Squitter.
     */
    method OnDemodComplete(fifo: seq<bv32>, rssiAdcCounts: uint16)
      requires Valid()
      modifies this`rxRssiDbm, this`rxBufferLenBits, this`transponderPacketQueue, rxBuffer
      ensures Valid()
      ensures rxRssiDbm == RssiDbm(rssiAdcCounts)
      ensures rxBuffer[..] == DemodBuffer(fifo, kMaxPacketLenWords32)
      ensures var len := PacketLenBits(NumWordsToRead(|fifo|, kMaxPacketLenWords32));
        && (len.None? ==> rxBufferLenBits == old(rxBufferLenBits) && transponderPacketQueue == old(transponderPacketQueue))
        && (len.Some? ==>
             && rxBufferLenBits == len.value
             && transponderPacketQueue == old(transponderPacketQueue)
                + [RawTransponderPacket(rxBuffer[..], len.value, rxRssiDbm, rxMlat48MhzCounts)])
    {
      rxRssiDbm := RssiDbm(rssiAdcCounts);
      forall j | 0 <= j < rxBuffer.Length {
        rxBuffer[j] := 0;
      }
      var n := NumWordsToRead(|fifo|, kMaxPacketLenWords32);
      var i := 0;
      while i < n
        invariant 0 <= i <= n
        invariant rxRssiDbm == RssiDbm(rssiAdcCounts)
        invariant forall j | 0 <= j < i :: rxBuffer[j] == DemodWord(fifo, n, j)
        invariant forall j | i <= j < rxBuffer.Length :: rxBuffer[j] == 0
        invariant i < n ==> rxBufferLenBits == old(rxBufferLenBits) && transponderPacketQueue == old(transponderPacketQueue)
        invariant i == n && PacketLenBits(n).None? ==>
          rxBufferLenBits == old(rxBufferLenBits) && transponderPacketQueue == old(transponderPacketQueue)
        invariant i == n && PacketLenBits(n).Some? ==>
          && rxBufferLenBits == PacketLenBits(n).value
          && transponderPacketQueue == old(transponderPacketQueue)
             + [RawTransponderPacket(rxBuffer[..], rxBufferLenBits, rxRssiDbm, rxMlat48MhzCounts)]
      {
        rxBuffer[i] := fifo[i];
        if i == n - 1 {
          // The switch on the word count: align the last word, and queue the
          // packet if the count is that of a Squitter or an Extended Squitter.
          rxBuffer[i] := AlignLastWord(rxBuffer[i], n);
          var len := PacketLenBits(n);
          if len.Some? {
            rxBufferLenBits := len.value;
            transponderPacketQueue := transponderPacketQueue
              + [RawTransponderPacket(rxBuffer[..], rxBufferLenBits, rxRssiDbm, rxMlat48MhzCounts)];
          }
        }
        i := i + 1;
      }
      assert rxBuffer[..] == DemodBuffer(fifo, kMaxPacketLenWords32);
    }

    /**
     * The dictionary step of `ADSBee::Update` at time `timestampMs`: prune
     * when the (intended) trigger is due, otherwise leave the dictionary
     * alone. The last-update timestamp is not refreshed.
     */
    method Update(timestampMs: uint32)
      requires Valid() && aircraftDictionary.Valid()
      modifies aircraftDictionary`dict
      ensures Valid() && aircraftDictionary.Valid()
      ensures lastAircraftDictionaryUpdateTimestampMs == old(lastAircraftDictionaryUpdateTimestampMs)
      ensures !PruneDue(lastAircraftDictionaryUpdateTimestampMs, timestampMs, aircraftDictionaryUpdateIntervalMs) ==>
        aircraftDictionary.dict == old(aircraftDictionary.dict)
      ensures PruneDue(lastAircraftDictionaryUpdateTimestampMs, timestampMs, aircraftDictionaryUpdateIntervalMs) ==>
        Pruned(old(aircraftDictionary.dict), aircraftDictionary.dict, timestampMs,
               aircraftDictionary.config.aircraftPruneIntervalMs)
    {
      if PruneDue(lastAircraftDictionaryUpdateTimestampMs, timestampMs, aircraftDictionaryUpdateIntervalMs) {
        aircraftDictionary.Update(timestampMs);
      }
    }
  }
}
