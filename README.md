# SnowFlakeNew — a Dafny model of the Snowflake-style id generator

`Masuit.Tools.Abstractions/Systems/SnowFlakeNew.cs` issues 64-bit ids laid out as
a 12-bit worker id (bits 52..63), the milliseconds elapsed since the epoch
`1692079923000` (bits 12..51), and a 12-bit per-millisecond sequence number
(bits 0..11). The sequence number and the last timestamp used are `static`
fields, so all instances share them. The worker id belongs to each instance.
It is either given to the constructor or derived from bytes 4 and 5 of the
first network interface's hardware address.

The model has four modules:

- `Bits` (`bits.dfy`): `&`, `|` and `^` on natural numbers, defined bit by bit,
  plus the facts the layout needs. These are: disjoint fields or-ed together add
  up, and masking with the low `k` bits leaves the remainder modulo 2^k.
- `Int64` (`int64.dfy`): C#'s `long`, `int` and `byte` as ranges of integers.
  It writes out the two's-complement wrap-around (`Wrap`) and reads a long's
  bits as an unsigned number (`Unsigned`). A long's `<<`, `&`, `|` and `^` are
  defined through those bits.
- `SnowFlake` (`snowflake.dfy`): the constants, the worker-id expression, the
  packing expression, and one call of `GetLongId` as a function on the shared
  state (`GetLongIdStep`). It also holds the short-id suffix and the classes:
  - `Statics` holds the two static fields;
  - `SnowFlakeNew` has the two constructors, `GetLongId` (imperative, with the
    spin-wait as a loop over clock readings), `GetUniqueId` and
    `GetUniqueShortId`.
- `Findings` (`findings.dfy`): two inputs on which the code as written breaks
  the promise of increasing, never repeated ids. It then gives the step as
  evidently intended and proves that promise over any run of calls.

The wall clock is injected. Each call receives the readings the clock would
return, in order:
- `clock[0]` is the reading on entry (line 60);
- `clock[1]` is the first reading after the sequence wraps (line 67);
- `clock[2..]` are the readings of the spin loop (line 70).

`GetLongId` models the code as written. Its postcondition ties the returned
outcome, the new static fields and the number of readings consumed to
`GetLongIdStep`. The lemmas about `GetLongIdStep` state what each branch does.
Exceptions become values of `Outcome`: `ClockMovedBackwards` carries
`_lastTimestamp - timestamp`, and `InvalidArgument` stands for the
`ArgumentException`.

Three facts about the code shape the model:
- The worker id derived from the address, `bytes[4] << 4 | bytes[5]`, is at
  most `0xFF0 | 0xFF = 4095`, so it always fits the 12-bit worker field
  (`WorkerIdFromAddress`). It is not injective.
- When the sequence wraps, the comment at line 66 says the call waits for the
  next millisecond. The code does wait, but then returns the raw reading
  (line 72): it does not pack it and does not record it.
- On a clock regression, the comment at line 80 says the call throws because
  it cannot guarantee the id was not issued before. The code has already set
  the sequence to 0 (line 77) when it throws (line 81).

`GetLongIdStep` and the class model these lines as written. `Findings` models
the two as the comments describe them (`IntendedStep`) and proves the
consequence.

## Model

| member | source | states |
|---|---|---|
| SnowFlake.SequenceMaskValue | Masuit.Tools.Abstractions/Systems/SnowFlakeNew.cs:17-18 | `-1L ^ -1L << SequenceBits` evaluated on 64-bit longs equals 4095, the low 12 bits set |
| SnowFlake.MaskedIncrement | Masuit.Tools.Abstractions/Systems/SnowFlakeNew.cs:63 | For every long, `(_sequence + 1) & SequenceMask`, with the wrap at `long.MaxValue`, is the successor modulo 4096 and lies in [0, 4095] |
| SnowFlake.WorkerIdFromAddress | Masuit.Tools.Abstractions/Systems/SnowFlakeNew.cs:44 | For any two bytes, `b4 << 4 \| b5` lies in [0, 4095], so it fits the 12-bit worker field |
| SnowFlake.WorkerIdFromAddressNotInjective | Masuit.Tools.Abstractions/Systems/SnowFlakeNew.cs:44 | Two different byte pairs yield the same worker id |
| SnowFlake.Pack | Masuit.Tools.Abstractions/Systems/SnowFlakeNew.cs:84 | The packing expression on 64-bit longs, with C#'s wrap-around. When the worker id, the offset `timestamp - Twepoch` and the sequence fit 12, 40 and 12 bits, the id's bits read as `workerId * 2^52 + offset * 2^12 + sequence` |
| SnowFlake.PackFields | Masuit.Tools.Abstractions/Systems/SnowFlakeNew.cs:84 | Round trip: for fields that fit, bits 0-11 of the id are the sequence, bits 12-51 the offset and bits 52-63 the worker id |
| SnowFlake.PackIncreasing | Masuit.Tools.Abstractions/Systems/SnowFlakeNew.cs:84 | For a fixed worker and fields that fit, the id strictly increases with (timestamp, sequence) in lexicographic order, compared as signed longs |
| SnowFlake.GetLongIdStep | Masuit.Tools.Abstractions/Systems/SnowFlakeNew.cs:56-86 | One call on the shared fields, as written. It consumes at least one and at most all of the given readings. It fails exactly when the first reading is below `_lastTimestamp`, and it never fails with an argument error |
| SnowFlake.SequenceInRange | Masuit.Tools.Abstractions/Systems/SnowFlakeNew.cs:61-78 | After any call, from any state, `_sequence` lies in [0, 4095] |
| SnowFlake.SameMillisecond | Masuit.Tools.Abstractions/Systems/SnowFlakeNew.cs:61-84 | A reading equal to `_lastTimestamp` that does not wrap raises `_sequence` by one and keeps `_lastTimestamp`. The id is packed from the new sequence |
| SnowFlake.SameMillisecondIncreases | Masuit.Tools.Abstractions/Systems/SnowFlakeNew.cs:61-84 | Such a call issues an id strictly greater than the id packed from the previous state, for a fixed worker and fields that fit |
| SnowFlake.LaterMillisecond | Masuit.Tools.Abstractions/Systems/SnowFlakeNew.cs:75-84 | A reading above `_lastTimestamp` resets `_sequence` to 0, becomes `_lastTimestamp` and is packed with sequence 0. This includes the first call, when `_lastTimestamp` is -1 |
| SnowFlake.ClockRegression | Masuit.Tools.Abstractions/Systems/SnowFlakeNew.cs:75-82 | A reading below `_lastTimestamp` fails with the difference and keeps `_lastTimestamp`, but `_sequence` has already been set to 0 |
| SnowFlake.SequenceWrap | Masuit.Tools.Abstractions/Systems/SnowFlakeNew.cs:64-73 | When the sequence wraps to 0, the loop stops at the first later reading, which is strictly above `_lastTimestamp`. That raw reading is returned unpacked. `_lastTimestamp` is kept and `_sequence` stays 0 |
| SnowFlake.LastTimestampMonotone | Masuit.Tools.Abstractions/Systems/SnowFlakeNew.cs:56-86 | No call moves `_lastTimestamp` backwards |
| SnowFlake.FirstLater | Masuit.Tools.Abstractions/Systems/SnowFlakeNew.cs:67-71 | The index the spin-wait stops at holds a reading above the last timestamp, and every reading polled before it is not above it |
| SnowFlake.SpinUntilLater | Masuit.Tools.Abstractions/Systems/SnowFlakeNew.cs:67-71 | The polling loop stops exactly at the first reading later than the last timestamp and returns that reading |
| SnowFlake.Shorten | Masuit.Tools.Abstractions/Systems/SnowFlakeNew.cs:110-116 | The short id is a suffix of the full id, of length `min(maxLength, id.Length)` |
| SnowFlake.ShortenIsTail | Masuit.Tools.Abstractions/Systems/SnowFlakeNew.cs:110-116 | When the full id is at least `maxLength` long, the short id is exactly its last `maxLength` characters |
| SnowFlake.Statics.constructor | Masuit.Tools.Abstractions/Systems/SnowFlakeNew.cs:16-19 | At class load `_sequence` is 0 and `_lastTimestamp` is -1 |
| SnowFlake.SnowFlakeNew.FromAddress | Masuit.Tools.Abstractions/Systems/SnowFlakeNew.cs:41-45 | The default constructor's worker id is the address-derived value, which lies in [0, 4095], and the instance shares the static fields |
| SnowFlake.SnowFlakeNew.constructor | Masuit.Tools.Abstractions/Systems/SnowFlakeNew.cs:51-54 | The machine id is taken as the worker id without a range check |
| SnowFlake.SnowFlakeNew.GetLongId | Masuit.Tools.Abstractions/Systems/SnowFlakeNew.cs:56-86 | One call updates the shared fields in place and returns the outcome, the new fields and the readings used, as `GetLongIdStep` describes |
| SnowFlake.SnowFlakeNew.GetUniqueId | Masuit.Tools.Abstractions/Systems/SnowFlakeNew.cs:92-95 | The string id is the formatter applied to the long id. A failure passes through, and the state changes as one `GetLongId` changes it |
| SnowFlake.SnowFlakeNew.GetUniqueShortId | Masuit.Tools.Abstractions/Systems/SnowFlakeNew.cs:102-117 | `maxLength` defaults to 8. `maxLength < 6` fails before any id is generated and leaves the shared fields untouched. Otherwise the result is the suffix of the formatted id of length `min(maxLength, id.Length)` |
| Findings.WrapReturnsRawTimestamp | Masuit.Tools.Abstractions/Systems/SnowFlakeNew.cs:64-73 | With a worker id in [1, 2047] and readings in the epoch's range, the call after a wrap returns a raw reading. It lies below the id issued just before it |
| Findings.RegressionReissuesId | Masuit.Tools.Abstractions/Systems/SnowFlakeNew.cs:75-82 | Starting from `Shared(0, t)`, a call reading `t` issues `Pack(w, t, 1)`. A call reading an earlier time fails. A further call reading `t` issues the same id again |
| Findings.IntendedStep | Masuit.Tools.Abstractions/Systems/SnowFlakeNew.cs:56-86 | The corrected call. It fails exactly when the reading is below `_lastTimestamp`, and then changes nothing (line 80). Otherwise the id it issues is the packing of the state it records, including after a wrap (line 66) |
| Findings.IntendedStepAgrees | Masuit.Tools.Abstractions/Systems/SnowFlakeNew.cs:56-86 | The corrected call equals the call as written on every reading at or after `_lastTimestamp` that does not wrap the sequence, so the two differ only at the two defects |
| Findings.IntendedStepIncreases | Masuit.Tools.Abstractions/Systems/SnowFlakeNew.cs:56-86 | In the intended step, an issued id is the packing of the new state, which fits the layout, and lies above the id the old state records. A failed call changes nothing |
| Findings.IntendedRunIncreasing | Masuit.Tools.Abstractions/Systems/SnowFlakeNew.cs:56-86 | Over any run of intended calls with in-epoch readings, the issued ids strictly increase, so none repeats, and all lie above the starting state's id |

## Left out

- Network-interface enumeration (line 43) is operating-system I/O. `FromAddress` takes bytes 4 and 5 of the hardware address as parameters. The failures on a missing interface or an address shorter than six bytes are not modelled.
- `DateTime.Now.GetTotalMilliseconds()` (lines 60, 67, 70) reads the wall clock through an extension method that is not part of this model. The readings are injected as a sequence of longs.
- SnowFlake.SnowFlakeNew.GetLongId: a clock that never passes `_lastTimestamp` after a wrap would make the source spin for ever. Its precondition excludes such a clock by requiring some later reading among those given.
- The radix-36 `NumberFormater` (lines 21, 94) lives in `Masuit.Tools.Strings`, which is not part of this model. `GetUniqueId` and `GetUniqueShortId` take the formatter as a function parameter.
- `lock (LockObj)` (line 58) only serialises callers. Each `GetLongId` is one sequential atomic step.
- The singleton `GetInstance` and `NewId` (lines 22-36) are lazy initialisation with no further behaviour.
- Exception message texts (lines 81, 106) are omitted. Only the kind of failure is kept, plus the regression's magnitude.
- The static fields are modelled as one `Statics` object that every instance refers to. Class-load order and reflection are not modelled.

## Findings

| source | as written | input that shows it | evidently intended | confidence | as-written member | corrected member |
|---|---|---|---|---|---|---|
| Masuit.Tools.Abstractions/Systems/SnowFlakeNew.cs:64-73 | After 4096 ids in one millisecond, the next call waits for a later reading. It returns that raw millisecond count as the id, and it neither packs nor records it | Worker 1 with `_sequence = 4095` and `_lastTimestamp = t`, for `t` in the epoch's range, and readings `[t, t + 1]`. The call returns `t + 1`, about 1.7·10^12, which is below the previous id (at least 2^52) | Pack the later reading with sequence 0 and record it as `_lastTimestamp`; then ids strictly increase over any run (`IntendedRunIncreasing`) | high, not executed | Findings.WrapReturnsRawTimestamp | Findings.IntendedStep |
| Masuit.Tools.Abstractions/Systems/SnowFlakeNew.cs:75-82 | `_sequence` is set to 0 before the regression check, so a regressing call still changes the state | `_sequence = 0`, `_lastTimestamp = t`, then readings `[t]`, `[t - 1]` and `[t]`. The first call issues `Pack(w, t, 1)`, the second fails, and the third issues `Pack(w, t, 1)` again | Detect the regression before touching `_sequence`, so the failed call changes nothing; then ids strictly increase over any run (`IntendedRunIncreasing`) | high, not executed | Findings.RegressionReissuesId | Findings.IntendedStep |
