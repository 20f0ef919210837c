# SPI bus layer and tick timer of the SD-over-SPI disk driver

This project models two parts of a driver for the Amiga. The driver makes an SD card on a
Simple SPI controller look like an ATA disk. The two parts are:

- **The SPI library** (`spi.c`). Each logical device on the bus is a channel (`spi_t`). A
  channel records its chip-select line and its speed, plus a `bus_taken` flag. All channels
  share one system resource named "sspi", and its semaphore arbitrates the physical bus.
  `spi_obtain` and `spi_release` guard that semaphore with the flag. `spi_read` and
  `spi_write` choose a fast transfer routine (assembly) or a slow byte-by-byte loop with a
  40 µs delay. `spi_initialize` binds the channel and creates the shared resource if needed.
  `spi_shutdown` deselects the card and releases the bus.
- **The tick timer** (`timer.c`, `timer.h`). The timer reads an 8-bit counter that wraps
  from 255 to 0 (the CIA time-of-day register). It offers deadlines of up to 128 ticks, an
  expiry test by wrapped subtraction, and a busy wait. A macro converts milliseconds to ticks,
  rounding up, in 32-bit unsigned arithmetic.

Files: `ints.dfy` holds the fixed-width integer types. `timer_config.dfy` (module
`TimerConfig`) models `timer.h`. `timer.dfy` (module `Timer`) models `timer.c`. `spi.dfy`
(module `Spi`) models `spi.c` and the constants of `spi.h`.

How the model is built:

- The semaphore's state is a ghost history of acquire and release calls. Each call is tagged
  with the channel that made it. `Outstanding(h, c)` counts how many acquisitions channel `c`
  holds after history `h`. `Disciplined(h, c)` says that this count is 0 or 1 after every
  prefix of `h`. The channel invariant `Channel.Valid()` states that the count equals
  `bus_taken` and that the history is disciplined. The channel's own `Obtain`, `Release`,
  `SetSpeed` and `Shutdown` preserve it. `Initialize` establishes it only when the channel
  holds no acquisition of the resource it binds to. Calls made by another channel on the
  shared semaphore are not covered by any method contract; the lemma `OtherChannelCall`
  shows that they leave this channel's count and discipline unchanged.
- The controller hardware is a `Controller` object. It keeps a trace of primitive actions:
  chip-select writes, fast reads, fast writes and delays. It also has a fixed stream of bytes
  that the peripheral returns, indexed by how many bytes have been read so far.
- The counter read (`timer_get`) is a `Clock`. Its k-th read returns `reading(k)`.
- `timer_set` and `timer_check` are pure functions of one clock reading (`Deadline`,
  `Expired`). The methods `TimerSet` and `TimerCheck` make that one reading.

Two facts about the code that shape the model:

- `spi_deselect` only drives the chip-select lines to 0. It clocks no dummy byte, and neither
  does `Deselect`.
- `speed` is an arbitrary byte. `spi_read` and `spi_write` take the fast path only for
  `SPI_SPEED_FAST` (1), and every other value is slow.

## Model

| member | source | states |
|---|---|---|
| `TimerConfig.MillisAt` | timer.h:31 | TIMER_MILLIS in 32-bit unsigned arithmetic. When `ms*freq+999` does not wrap, the result `r` is the rounded-up tick count: `r*1000 >= ms*freq` and `(r-1)*1000 < ms*freq` for `r > 0`. |
| `TimerConfig.MillisIsCeiling` | timer.h:27-31 | At the default 60 Hz, for every `ms` up to 71582771 (no wrap), TIMER_MILLIS(ms) is the ceiling of `ms*60/1000`. |
| `TimerConfig.MillisValues` | timer.h:31 | TIMER_MILLIS(0) = 0, TIMER_MILLIS(20) = 2, TIMER_MILLIS(500) = 30 and TIMER_MILLIS(1000) = 60. |
| `TimerConfig.MillisMonotone` | timer.h:31 | TIMER_MILLIS never decreases as `ms` grows, while nothing wraps. |
| `TimerConfig.MillisFitsTimer` | timer.h:31 | For `ms <= 2133` the tick count is at most 128, so timer_set never clamps it. 2134 ms gives 129 ticks. |
| `TimerConfig.MillisWrapsPastBound` | timer.h:31 | One millisecond past the no-wrap bound, the product `ms*60` still fits in 32 bits, but adding 999 wraps the sum to 23, so the macro returns 0 ticks. |
| `Timer.Elapsed` | timer.c:41 | `(uint8_t)(now - since)` is the number of ticks `d` for which `since + d` wraps to `now`. |
| `Timer.Clamp` | timer.c:49-50 | A requested tick count above 128 becomes 128. Any other count is kept. |
| `Timer.Deadline` | timer.c:47-52 | The deadline timer_set returns lies exactly `min(ticks, 128)` ticks after the counter value it read. |
| `Timer.Expired` | timer.c:55-59 | timer_check returns only 0 or 1. Its meaning is stated by the lemmas below. |
| `Timer.ExpiredIsSignedComparison` | timer.c:57-58 | The unsigned test `(uint8_t)(now - timer) > 127 ? 0 : 1` equals the signed test `(int8_t)(now - timer) >= 0`. The source avoids writing the signed form. |
| `Timer.DeadlineExpiry` | timer.c:47-59 | Take a deadline set at any counter value `start`, and let `c = min(ticks, 128)`. After `e` further ticks, the check reports not expired for `e < c` and expired for `c <= e <= c+127`. This holds across the wrap from 255 to 0. |
| `Timer.ZeroDeadlineExpiredAtOnce` | timer.c:47-59 | A deadline set with 0 ticks is already expired at the same counter value. |
| `Timer.LongDeadlineClamped` | timer.c:49-50 | A request of 128 ticks or more expires exactly after 128 ticks. |
| `Timer.ExpiryForgottenAfterWrap` | timer.c:55-59 | A deadline that is not polled within 128 ticks after it passes reads as not expired again. |
| `Timer.MillisDeadlineExpiry` | timer.c:47-59 | A deadline of TIMER_MILLIS(ms) ticks for `ms <= 2133` expires after exactly TIMER_MILLIS(ms) ticks. |
| `Timer.Clock.Get` | timer.c:26-34 | Each counter read returns the next reading and advances the read count by one. |
| `Timer.TimerSet` | timer.c:47-52 | Reads the counter once and returns `Deadline` of that reading. |
| `Timer.TimerCheck` | timer.c:55-59 | Reads the counter once and returns `Expired` of that reading. |
| `Timer.TimerWait` | timer.c:38-42 | Returns at the first reading after the start reading that lies at least `ticks` later. Every reading it checked before that lay fewer than `ticks` later. It makes at least two reads, and exactly two when `ticks == 0`. |
| `Spi.DisciplinedAppend` | spi.c:30-51 | One semaphore call changes the channel's outstanding count by +1 (acquire), -1 (release) or 0 (another channel's call). A count that stays within 0..1 keeps the history disciplined. |
| `Spi.OtherChannelCall` | spi.c:30-51 | A call made by another channel on the shared semaphore leaves this channel's outstanding count and its discipline unchanged. |
| `Spi.CallsAlternate` | spi.c:30-51 | In a disciplined history, every acquire by a channel happens while it holds nothing, so there is no nested acquire. Every release happens while it holds the semaphore, so no release lacks a matching acquire. |
| `Spi.SlowWritesShape` | spi.c:85-92 | A slow write of `s` has exactly `2*|s|` actions. Round `i` writes the single byte `s[i]` and then delays. |
| `Spi.SlowReadsShape` | spi.c:95-102 | A slow read of `s` has exactly `2*|s|` actions. Round `i` reads the single byte `s[i]` and then delays. |
| `Spi.WritePathsAgree` | spi.c:114-120 | The slow and the fast write put the same bytes on the bus, in buffer order, and read nothing. |
| `Spi.ReadPathsAgree` | spi.c:105-111 | The slow and the fast read take the same bytes from the bus, in order, and write nothing. |
| `Spi.SspiResource.constructor` | spi.c:136-147 | A newly built resource is named "sspi" with version 1 and revision 0. Its semaphore is initialised with an empty history. |
| `Spi.SspiResource.ObtainSemaphore` | spi.c:36 | The semaphore records one acquire by the calling channel and nothing else. |
| `Spi.SspiResource.ReleaseSemaphore` | spi.c:48 | The semaphore records one release by the calling channel and nothing else. |
| `Spi.Exec.OpenResource` | spi.c:130 | Returns the registered "sspi" resource, or null when none is registered. |
| `Spi.Exec.AddResource` | spi.c:150 | Registers the resource under the name "sspi". |
| `Spi.Controller.ChipSelect` | spi.c:25 | Sets the chip-select lines to the given value and records that action. |
| `Spi.Controller.WriteFast` | spi.c:27 | Records one fast write that carries exactly the `n` buffer bytes from `off`. |
| `Spi.Controller.ReadFast` | spi.c:26 | Stores the next `n` incoming bytes at `buf[off..off+n]` and leaves the rest of the buffer alone. Advances the read count by `n` and records that read. |
| `Spi.Controller.Wait40us` | spi.c:75-82 | The delay records one delay action and changes nothing else. |
| `Spi.Deselect` | spi.c:61-65 | Drives every chip-select line inactive (0x00). No dummy byte is clocked. |
| `Spi.WriteSlow` | spi.c:85-92 | Writes exactly `size` bytes of the buffer, one byte per round followed by a delay, in buffer order. |
| `Spi.ReadSlow` | spi.c:95-102 | Reads exactly `size` incoming bytes into `buf[..size]` in order, one byte per round followed by a delay. Leaves `buf[size..]` unchanged. |
| `Spi.Channel.BusTakenIsFlag` | spi.c:34-49 | In a valid channel, `bus_taken` is 0 or 1. |
| `Spi.Channel.constructor` | spi.h:50-57 | A cleared `spi_t`: no resource, speed 0, bus not taken, channel 0. |
| `Spi.Channel.Obtain` | spi.c:30-39 | Acquires the semaphore only when `bus_taken` is 0. Afterwards `bus_taken == 1`. A second call while the bus is held makes no semaphore call. The invariant is preserved, and only `bus_taken` and the semaphore change. |
| `Spi.Channel.Release` | spi.c:42-51 | Releases the semaphore only when `bus_taken` is set. Afterwards `bus_taken == 0`. A call while the bus is not held makes no semaphore call and touches no resource, so it is safe on a cleared, never-initialised channel. A valid channel stays valid. |
| `Spi.Channel.Select` | spi.c:54-58 | Drives this channel's own chip-select line. |
| `Spi.Channel.SetSpeed` | spi.c:68-71 | Changes only `speed`, to any byte value, and keeps the invariant. |
| `Spi.Channel.Read` | spi.c:105-111 | Fills `buf[..size]` with the next `size` incoming bytes. It uses one fast transfer exactly when `speed == SPI_SPEED_FAST`, and the slow byte-by-byte trace for every other value. |
| `Spi.Channel.Write` | spi.c:114-120 | Puts `buf[..size]` on the bus. It uses one fast transfer exactly when `speed == SPI_SPEED_FAST`, and the slow byte-by-byte trace for every other value. |
| `Spi.Channel.Initialize` | spi.c:123-169 | Returns -1 for a channel other than 0x01 and 0x02, or when the resource is absent and allocation fails. Either way the channel and the system are left untouched. Otherwise it returns 1. The channel is then bound to the argument, `bus_taken == 0`, `speed == SPI_SPEED_SLOW`, and it points at the shared resource. An existing resource is reused. A missing one is created fresh, with an empty semaphore history, and registered. |
| `Spi.Channel.Shutdown` | spi.c:172-177 | Drives chip select to 0x00, then releases the bus if held. Whatever the prior state, including a cleared channel or one whose initialisation failed, `bus_taken == 0` afterwards. A valid channel stays valid and holds no acquisition. |

## Left out

- `sd.c`: the `ata_*` entry points have empty bodies and the `atapi_*` functions return fixed values. They have no behaviour to model. The SD command protocol, CID/CSD decoding and CHS geometry do not appear in these sources, so they are not part of this model.
- `sd.h`, `spi.h`: declarations and constants only. The `spi.h` constants are used in `Spi`.
- Semaphore blocking and cross-task ownership. `ObtainSemaphore` waiting for another task is concurrency. The model records each call in a history and does not state mutual exclusion between tasks.
- Exec resource lists: `OpenResource` and `AddResource` act on one slot for the name "sspi". `AllocMem` is represented only by its outcome, the `allocOk` argument. The resource's node type, priority, name pointer and padding fields are not modelled. The `SysBase` pointer is stored, but the library calls made through it are abstract.
- The assembly primitives `spi_chip_select`, `spi_read_fast` and `spi_write_fast` are abstract actions on `Controller`. The model does not state what a fast read sends on MOSI. Incoming bytes depend only on their position in the read stream, not on what was written.
- `wait_40_us` and all transfer timing: the delay loop over the CIA register is a single delay action with no real-time duration.
- `Spi.Channel.Initialize`: the source clears `bus_taken` without releasing. If the channel held the semaphore when it was re-initialised, that acquisition is lost. The model keeps this behaviour and ensures `Valid()` afterwards only when the channel held no acquisition of the resource.
- `Spi.Channel.Obtain`: requires an initialised channel. On a channel that was never initialised, `bus_taken` is 0, so the source calls `ObtainSemaphore` through a null resource pointer.
- `Timer.TimerWait`: the source spins forever when the counter never advances far enough. The model requires that some later reading does.
- `timer_get` is hardware. It is the abstract `Clock`, whose readings are given in advance.
- `TIMER_TICK_FREQ` is a default that can be overridden at compile time. `TimerConfig.MillisAt` is stated for any frequency, but the other lemmas are stated for the default 60 Hz.
