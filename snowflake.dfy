/** The Snowflake-style id generator `SnowFlakeNew`
    (Masuit.Tools.Abstractions/Systems/SnowFlakeNew.cs).

    An id is one 64-bit long laid out as
      bits 52..63  worker id
      bits 12..51  milliseconds since the generator's epoch
      bits  0..11  per-millisecond sequence number.
    The generator keeps the sequence number and the last timestamp it used in two
    static fields, so every instance shares them; the worker id is per instance.

    The wall clock is injected: each call of `GetLongId` is given the readings the
    clock would return, in order. `clock[0]` is the reading taken on entry and
    `clock[1..]` are the readings taken while spin-waiting. */
module SnowFlake {
  import opened Bits
  import opened Int64

  /** Milliseconds since the UNIX epoch at which this generator's time starts. */
  const Twepoch: Long := 1692079923000

  /** Width of the sequence field. */
  const SequenceBits: nat := 12

  /** Position of the worker field. */
  const WorkerShift: nat := 52

  /** The mask that keeps a sequence number within its 12-bit field. */
  const SequenceMask: Long := 4095

  /** The source computes the mask as `-1L ^ -1L << SequenceBits`, which is the
      low 12 bits set and nothing else. */
  lemma SequenceMaskValue()
    ensures Apply(Xor, -1, ShiftLeft(-1, SequenceBits)) == SequenceMask
  {
    Pow2Values();
    XorHighOnes(SequenceBits, 64);
  }

  /** The sequence number that follows `sequence` within a millisecond. */
  function NextSequence(sequence: Long): Long {
    (sequence + 1) % 4096
  }

  /** And-ing a 64-bit pattern with the sequence mask keeps its remainder
      modulo 4096. */
  lemma MaskKeepsRemainder(u: nat)
    ensures Bitwise(And, u, 4095, 64) == u % 4096
  {
    Pow2Values();
    var q := AndLowMask(u, SequenceBits, 64);
    AndBounded(u, 4095, 64);
  }

  /** `(_sequence + 1) & SequenceMask` on longs, with the wrap at
      `long.MaxValue`, is the successor taken modulo 4096, for every long. */
  lemma MaskedIncrement(sequence: Long)
    ensures Apply(And, Wrap(sequence + 1), SequenceMask) == NextSequence(sequence)
    ensures 0 <= NextSequence(sequence) <= 4095
  {
    var u := Unsigned(Wrap(sequence + 1));
    assert Unsigned(SequenceMask) == 4095;
    MaskKeepsRemainder(u);
    UnsignedWrapMod4096(sequence + 1);
    assert Bitwise(And, u, 4095, 64) == NextSequence(sequence);
  }

  // ---------------------------------------------------------------------------
  // Worker identity

  /** The worker id the default constructor derives from bytes 4 and 5 of the
      first network interface's hardware address: `bytes[4] << 4 | bytes[5]`,
      computed on non-negative `int`s and widened to `long`. It always fits the
      12-bit worker field. */
  function WorkerIdFromAddress(b4: Byte, b5: Byte): (w: Long)
    ensures 0 <= w <= 4095
  {
    Pow2Values();
    BitwiseBelow(Or, b4 * 16, b5, 32, 12);
    Bitwise(Or, b4 * 16, b5, 32)
  }

  /** Two different hardware addresses can yield the same worker id: bits 4 to
      7 of the id mix the low nibble of byte 4 with the high nibble of byte 5. */
  lemma WorkerIdFromAddressNotInjective()
    ensures exists b4: Byte, b5: Byte, c4: Byte, c5: Byte ::
              (b4 != c4 || b5 != c5) && WorkerIdFromAddress(b4, b5) == WorkerIdFromAddress(c4, c5)
  {
    Pow2Values();
    OrZero(16, 32);
    BitwiseCommutes(Or, 0, 16, 32);
    assert WorkerIdFromAddress(0, 16) == WorkerIdFromAddress(1, 0);
  }

  // ---------------------------------------------------------------------------
  // Id layout

  /** True when the worker id, the timestamp offset and the sequence number each
      fit their field: 12, 40 and 12 bits. */
  predicate FitsLayout(workerId: Long, timestamp: Long, sequence: Long) {
    0 <= workerId < 0x1000 && 0 <= timestamp - Twepoch < 0x100_0000_0000 && 0 <= sequence < 0x1000
  }

  /** The bits of the packing expression, when every field fits: the worker id
      times 2^52, plus the timestamp offset times 2^12, plus the sequence. */
  lemma PackedBits(workerId: Long, timestamp: Long, sequence: Long)
    requires FitsLayout(workerId, timestamp, sequence)
    ensures Unsigned(Apply(Or, Apply(Or, ShiftLeft(workerId, WorkerShift), ShiftLeft(Wrap(timestamp - Twepoch), SequenceBits)), sequence)) ==
              workerId * 0x10_0000_0000_0000 + (timestamp - Twepoch) * 0x1000 + sequence
  {
    Pow2Values();
    var offset := timestamp - Twepoch;
    var high := ShiftLeft(workerId, WorkerShift);
    var middle := ShiftLeft(Wrap(offset), SequenceBits);
    UnsignedWrap(workerId * Pow2(52));
    UnsignedWrap(offset * Pow2(12));
    OrDisjoint(workerId, offset * Pow2(12), 52, 64);
    var inner := Apply(Or, high, middle);
    assert Unsigned(inner) == (workerId * 0x100_0000_0000 + offset) * Pow2(12);
    OrDisjoint(workerId * 0x100_0000_0000 + offset, sequence, 12, 64);
  }

  /** `PackedBits`, for arguments that may not fit. */
  lemma PackedBitsWhenFits(workerId: Long, timestamp: Long, sequence: Long)
    ensures FitsLayout(workerId, timestamp, sequence) ==>
              Unsigned(Apply(Or, Apply(Or, ShiftLeft(workerId, WorkerShift), ShiftLeft(Wrap(timestamp - Twepoch), SequenceBits)), sequence)) ==
              workerId * 0x10_0000_0000_0000 + (timestamp - Twepoch) * 0x1000 + sequence
  {
    if FitsLayout(workerId, timestamp, sequence) {
      PackedBits(workerId, timestamp, sequence);
    }
  }

  /** `_workerId << 52 | (timestamp - Twepoch << 12) | _sequence` on longs, with
      C#'s wrap-around. When every field fits, the id's 64 bits are the three
      fields side by side. */
  function Pack(workerId: Long, timestamp: Long, sequence: Long): (id: Long)
    ensures FitsLayout(workerId, timestamp, sequence) ==>
              Unsigned(id) == workerId * 0x10_0000_0000_0000 + (timestamp - Twepoch) * 0x1000 + sequence
  {
    PackedBitsWhenFits(workerId, timestamp, sequence);
    Apply(Or, Apply(Or, ShiftLeft(workerId, WorkerShift), ShiftLeft(Wrap(timestamp - Twepoch), SequenceBits)), sequence)
  }

  /** A 12-bit field under a multiple of 2^12 is recovered by `%` and the
      multiple by `/`. */
  lemma Split12(a: nat, b: nat)
    requires b < 0x1000
    ensures (a * 0x1000 + b) / 0x1000 == a && (a * 0x1000 + b) % 0x1000 == b
  {
  }

  /** The same for a 40-bit field. */
  lemma Split40(a: nat, b: nat)
    requires b < 0x100_0000_0000
    ensures (a * 0x100_0000_0000 + b) / 0x100_0000_0000 == a
    ensures (a * 0x100_0000_0000 + b) % 0x100_0000_0000 == b
  {
  }

  /** The same for a 52-bit field. */
  lemma Split52(a: nat, b: nat)
    requires b < 0x10_0000_0000_0000
    ensures (a * 0x10_0000_0000_0000 + b) / 0x10_0000_0000_0000 == a
  {
  }

  /** The three fields of a 64-bit pattern laid out side by side. */
  lemma SplitFields(u: nat, workerId: nat, offset: nat, sequence: nat)
    requires offset < 0x100_0000_0000 && sequence < 0x1000
    requires u == workerId * 0x10_0000_0000_0000 + offset * 0x1000 + sequence
    ensures u % 0x1000 == sequence
    ensures (u / 0x1000) % 0x100_0000_0000 == offset
    ensures u / 0x10_0000_0000_0000 == workerId
  {
    var high := workerId * 0x100_0000_0000 + offset;
    assert u == high * 0x1000 + sequence;
    Split12(high, sequence);
    Split40(workerId, offset);
    Split52(workerId, offset * 0x1000 + sequence);
  }

  /** Round trip: when every field fits, the low 12 bits of the id are the
      sequence, bits 12 to 51 the timestamp offset and bits 52 to 63 the worker
      id. */
  lemma PackFields(workerId: Long, timestamp: Long, sequence: Long)
    requires FitsLayout(workerId, timestamp, sequence)
    ensures Unsigned(Pack(workerId, timestamp, sequence)) % 0x1000 == sequence
    ensures (Unsigned(Pack(workerId, timestamp, sequence)) / 0x1000) % 0x100_0000_0000 == timestamp - Twepoch
    ensures Unsigned(Pack(workerId, timestamp, sequence)) / 0x10_0000_0000_0000 == workerId
  {
    SplitFields(Unsigned(Pack(workerId, timestamp, sequence)), workerId, timestamp - Twepoch, sequence);
  }

  /** For a fixed worker, packing is strictly increasing in the pair (timestamp,
      sequence) ordered lexicographically. */
  lemma PackIncreasing(workerId: Long, t1: Long, s1: Long, t2: Long, s2: Long)
    requires FitsLayout(workerId, t1, s1) && FitsLayout(workerId, t2, s2)
    requires t1 < t2 || (t1 == t2 && s1 < s2)
    ensures Pack(workerId, t1, s1) < Pack(workerId, t2, s2)
  {
    var u1, u2 := Unsigned(Pack(workerId, t1, s1)), Unsigned(Pack(workerId, t2, s2));
    assert u1 < TwoTo63 <==> workerId < 0x800;
    assert u2 < TwoTo63 <==> workerId < 0x800;
    SignedOrder(Pack(workerId, t1, s1), Pack(workerId, t2, s2));
  }

  // ---------------------------------------------------------------------------
  // The generator's shared state and one call of GetLongId

  /** The two static fields `_sequence` and `_lastTimestamp`. */
  datatype Shared = Shared(sequence: Long, lastTimestamp: Long)

  /** Their values when the class is loaded: `_sequence` is 0 and
      `_lastTimestamp` is -1. */
  const Initial := Shared(0, -1)

  /** What a call returns: a value, or one of the two exceptions the core throws
      (`Exception` on a clock regression, whose message carries
      `_lastTimestamp - timestamp`; `ArgumentException` for a too-short length). */
  datatype Outcome<T> = Id(value: T) | ClockMovedBackwards(millis: Long) | InvalidArgument

  /** A call's outcome, the shared state it leaves, and how many clock readings
      it took. */
  datatype Transition = Transition(outcome: Outcome<Long>, next: Shared, used: nat)

  /** The sequence number wraps to 0: the reading equals the last timestamp and
      all 4096 numbers of that millisecond are used. */
  predicate Wraps(s: Shared, timestamp: Long) {
    timestamp == s.lastTimestamp && NextSequence(s.sequence) == 0
  }

  /** Some reading after the first one is later than `last`. */
  predicate EventuallyLater(clock: seq<Long>, last: Long) {
    exists k :: 1 <= k < |clock| && last < clock[k]
  }

  /** The readings suffice for one call: there is a first reading, and when the
      sequence wraps the clock eventually passes the last timestamp (otherwise
      the source spins for ever). */
  predicate ClockSuffices(s: Shared, clock: seq<Long>) {
    |clock| > 0 && (Wraps(s, clock[0]) ==> EventuallyLater(clock, s.lastTimestamp))
  }

  /** The index of the first reading, from `i` on, that is later than `last`. */
  function FirstLater(clock: seq<Long>, last: Long, i: nat): (k: nat)
    requires exists j :: i <= j < |clock| && last < clock[j]
    ensures i <= k < |clock| && last < clock[k]
    ensures forall j :: i <= j < k ==> clock[j] <= last
    decreases |clock| - i
  {
    if last < clock[i] then i else FirstLater(clock, last, i + 1)
  }

  /** One call of `GetLongId` by an instance with worker id `workerId`, on shared
      state `s`, as the source is written:
      - same millisecond: the sequence is bumped under the mask; if it wrapped to
        0 the clock is polled until it passes the last timestamp and that raw
        reading is returned, with `_lastTimestamp` left alone;
      - otherwise the sequence is reset to 0, and then a reading below the last
        timestamp throws (after the reset) while any other reading is recorded
        and packed into the id. */
  function GetLongIdStep(workerId: Long, s: Shared, clock: seq<Long>): (r: Transition)
    requires ClockSuffices(s, clock)
    ensures 1 <= r.used <= |clock|
    ensures r.outcome.ClockMovedBackwards? <==> clock[0] < s.lastTimestamp
    ensures !r.outcome.InvalidArgument?
  {
    var timestamp := clock[0];
    if Wraps(s, timestamp) then
      var k := FirstLater(clock, s.lastTimestamp, 1);
      Transition(Id(clock[k]), Shared(0, s.lastTimestamp), k + 1)
    else
      var sequence := if timestamp == s.lastTimestamp then NextSequence(s.sequence) else 0;
      if timestamp < s.lastTimestamp then
        Transition(ClockMovedBackwards(Wrap(s.lastTimestamp - timestamp)), Shared(sequence, s.lastTimestamp), 1)
      else
        Transition(Id(Pack(workerId, timestamp, sequence)), Shared(sequence, timestamp), 1)
  }

  /** Whatever the state before, the sequence number after a call lies in
      [0, 4095]. */
  lemma SequenceInRange(workerId: Long, s: Shared, clock: seq<Long>)
    requires ClockSuffices(s, clock)
    ensures 0 <= GetLongIdStep(workerId, s, clock).next.sequence <= 4095
  {
  }

  /** A second call within the same millisecond that does not exhaust the
      sequence: the sequence goes up by one, the last timestamp stays, and the id
      is the one packed from the new sequence. */
  lemma SameMillisecond(workerId: Long, s: Shared, clock: seq<Long>)
    requires 0 <= s.sequence <= 4095
    requires |clock| > 0 && clock[0] == s.lastTimestamp && !Wraps(s, clock[0])
    ensures ClockSuffices(s, clock)
    ensures GetLongIdStep(workerId, s, clock) ==
              Transition(Id(Pack(workerId, s.lastTimestamp, s.sequence + 1)), Shared(s.sequence + 1, s.lastTimestamp), 1)
  {
    assert NextSequence(s.sequence) == s.sequence + 1;
  }

  /** The id of such a call is strictly above the id packed from the state it
      started in, for a fixed worker and fields that fit. */
  lemma SameMillisecondIncreases(workerId: Long, s: Shared, clock: seq<Long>)
    requires FitsLayout(workerId, s.lastTimestamp, s.sequence)
    requires |clock| > 0 && clock[0] == s.lastTimestamp && !Wraps(s, clock[0])
    ensures ClockSuffices(s, clock)
    ensures GetLongIdStep(workerId, s, clock).outcome.Id?
    ensures Pack(workerId, s.lastTimestamp, s.sequence) < GetLongIdStep(workerId, s, clock).outcome.value
  {
    SameMillisecond(workerId, s, clock);
    PackIncreasing(workerId, s.lastTimestamp, s.sequence, s.lastTimestamp, s.sequence + 1);
  }

  /** A reading later than the last timestamp resets the sequence to 0, becomes
      the last timestamp and is packed into the id. On the very first call the
      last timestamp is -1, so every non-negative reading takes this path. */
  lemma LaterMillisecond(workerId: Long, s: Shared, clock: seq<Long>)
    requires |clock| > 0 && s.lastTimestamp < clock[0]
    ensures ClockSuffices(s, clock)
    ensures GetLongIdStep(workerId, s, clock) ==
              Transition(Id(Pack(workerId, clock[0], 0)), Shared(0, clock[0]), 1)
  {
  }

  /** A reading below the last timestamp throws with the difference, leaves the
      last timestamp unchanged, but has already reset the sequence to 0. */
  lemma ClockRegression(workerId: Long, s: Shared, clock: seq<Long>)
    requires |clock| > 0 && clock[0] < s.lastTimestamp
    ensures ClockSuffices(s, clock)
    ensures GetLongIdStep(workerId, s, clock) ==
              Transition(ClockMovedBackwards(Wrap(s.lastTimestamp - clock[0])), Shared(0, s.lastTimestamp), 1)
  {
  }

  /** When the sequence wraps, the call polls until the first reading later than
      the last timestamp and returns that raw reading, unpacked; the last
      timestamp is not updated and the sequence stays 0. */
  lemma SequenceWrap(workerId: Long, s: Shared, clock: seq<Long>)
    requires ClockSuffices(s, clock) && Wraps(s, clock[0])
    ensures var k := FirstLater(clock, s.lastTimestamp, 1);
            1 <= k < |clock| && s.lastTimestamp < clock[k] &&
            (forall j :: 1 <= j < k ==> clock[j] <= s.lastTimestamp) &&
            GetLongIdStep(workerId, s, clock) == Transition(Id(clock[k]), Shared(0, s.lastTimestamp), k + 1)
  {
  }

  /** The last timestamp never goes backwards. */
  lemma LastTimestampMonotone(workerId: Long, s: Shared, clock: seq<Long>)
    requires ClockSuffices(s, clock)
    ensures s.lastTimestamp <= GetLongIdStep(workerId, s, clock).next.lastTimestamp
  {
  }

  // ---------------------------------------------------------------------------
  // Short ids

  /** The suffix `GetUniqueShortId` keeps of a formatted id, once `maxLength` has
      been checked: the last `maxLength` characters, or the whole string when it
      is shorter. */
  function Shorten(id: string, maxLength: Int): (r: string)
    requires maxLength >= 6
    ensures |r| == if |id| < maxLength then |id| else maxLength
    ensures id == id[..|id| - |r|] + r
  {
    var index := |id| - maxLength;
    var index := if index < 0 then 0 else index;
    id[index..]
  }

  /** A short id of length `maxLength` is exactly the tail of that length of the
      full id whenever the full id is at least that long. */
  lemma ShortenIsTail(id: string, maxLength: Int)
    requires maxLength >= 6 && |id| >= maxLength
    ensures Shorten(id, maxLength) == id[|id| - maxLength..]
  {
  }

  // ---------------------------------------------------------------------------
  // The class

  /** Holder of the static fields `_sequence` and `_lastTimestamp`. Every
      `SnowFlakeNew` refers to the same `Statics` object, which is how the model
      keeps them shared between instances. */
  class Statics {
    var sequence: Long
    var lastTimestamp: Long

    /** The values at class load. */
    constructor ()
      ensures Value() == Initial
    {
      sequence := 0;
      lastTimestamp := -1;
    }

    function Value(): Shared
      reads this
    {
      Shared(sequence, lastTimestamp)
    }
  }

  /** Polls the clock after the sequence wrapped: reads `clock[1]`, then keeps
      reading while the reading is not later than `last`. Returns the index of
      the reading it stopped at and that reading. */
  method SpinUntilLater(clock: seq<Long>, last: Long) returns (k: nat, timestamp: Long)
    requires EventuallyLater(clock, last)
    ensures k == FirstLater(clock, last, 1) && timestamp == clock[k]
  {
    k := 1;
    timestamp := clock[1];
    while timestamp <= last
      invariant 1 <= k < |clock| && timestamp == clock[k]
      invariant forall j :: 1 <= j < k ==> clock[j] <= last
      invariant exists j :: k <= j < |clock| && last < clock[j]
      decreases |clock| - k
    {
      k := k + 1;
      timestamp := clock[k];
    }
  }

  class SnowFlakeNew {
    /** `_workerId`, fixed at construction. */
    const workerId: Long
    /** The shared static fields. */
    const statics: Statics

    /** The default constructor, given bytes 4 and 5 of the first network
        interface's hardware address. */
    constructor FromAddress(b4: Byte, b5: Byte, statics: Statics)
      ensures this.workerId == WorkerIdFromAddress(b4, b5) && this.statics == statics
      ensures 0 <= this.workerId <= 4095
    {
      this.workerId := WorkerIdFromAddress(b4, b5);
      this.statics := statics;
    }

    /** The constructor with an explicit machine id: any `int` is accepted and
        widened to `long`, without a range check. */
    constructor (machineId: Int, statics: Statics)
      ensures this.workerId == machineId && this.statics == statics
    {
      this.workerId := machineId;
      this.statics := statics;
    }

    /** `GetLongId`: one atomic step on the shared fields, as `GetLongIdStep`
        describes. Returns the outcome and how many readings it took. */
    method GetLongId(clock: seq<Long>) returns (r: Outcome<Long>, used: nat)
      requires ClockSuffices(statics.Value(), clock)
      modifies statics
      ensures GetLongIdStep(workerId, old(statics.Value()), clock) == Transition(r, statics.Value(), used)
    {
      var timestamp := clock[0];
      if statics.lastTimestamp == timestamp {
        MaskedIncrement(statics.sequence);
        statics.sequence := Apply(And, Wrap(statics.sequence + 1), SequenceMask);
        if statics.sequence == 0 {
          var k;
          k, timestamp := SpinUntilLater(clock, statics.lastTimestamp);
          return Id(timestamp), k + 1;
        }
      } else {
        statics.sequence := 0;
      }
      if timestamp < statics.lastTimestamp {
        return ClockMovedBackwards(Wrap(statics.lastTimestamp - timestamp)), 1;
      }
      statics.lastTimestamp := timestamp;
      return Id(Pack(workerId, timestamp, statics.sequence)), 1;
    }

    /** `GetUniqueId`: the id rendered by `format`, the radix-36 formatter. */
    method GetUniqueId(clock: seq<Long>, format: Long -> string) returns (r: Outcome<string>, used: nat)
      requires ClockSuffices(statics.Value(), clock)
      modifies statics
      ensures var t := GetLongIdStep(workerId, old(statics.Value()), clock);
              statics.Value() == t.next && used == t.used &&
              r == match t.outcome
                   case Id(v) => Id(format(v))
                   case ClockMovedBackwards(m) => ClockMovedBackwards(m)
                   case InvalidArgument => InvalidArgument
    {
      var id;
      id, used := GetLongId(clock);
      match id
      case Id(v) => r := Id(format(v));
      case ClockMovedBackwards(m) => r := ClockMovedBackwards(m);
      case InvalidArgument => r := InvalidArgument;
    }

    /** `GetUniqueShortId`: a length below 6 is refused before any id is made,
        leaving the shared state untouched; otherwise the tail of the formatted
        id, of length `maxLength` at most. */
    method GetUniqueShortId(clock: seq<Long>, format: Long -> string, maxLength: Int := 8)
      returns (r: Outcome<string>, used: nat)
      requires maxLength >= 6 ==> ClockSuffices(statics.Value(), clock)
      modifies statics
      ensures maxLength < 6 ==> r == InvalidArgument && used == 0 && unchanged(statics)
      ensures maxLength >= 6 ==>
                var t := GetLongIdStep(workerId, old(statics.Value()), clock);
                statics.Value() == t.next && used == t.used &&
                r == match t.outcome
                     case Id(v) => Id(Shorten(format(v), maxLength))
                     case ClockMovedBackwards(m) => ClockMovedBackwards(m)
                     case InvalidArgument => InvalidArgument
    {
      if maxLength < 6 {
        return InvalidArgument, 0;
      }
      var id;
      id, used := GetUniqueId(clock, format);
      match id
      case Id(text) => r := Id(Shorten(text, maxLength));
      case ClockMovedBackwards(m) => r := ClockMovedBackwards(m);
      case InvalidArgument => r := InvalidArgument;
    }
  }
}
