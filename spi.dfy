/** The SPI library for the Simple SPI controller: logical channels that share one physical
    bus, bus ownership through a semaphore in a shared system resource, chip select, and
    byte transfers at two speeds. */
module Spi {
  import opened Ints

  const SPI_SPEED_SLOW: uint8 := 0
  const SPI_SPEED_FAST: uint8 := 1
  const SPI_CHANNEL_1: uint8 := 1
  const SPI_CHANNEL_2: uint8 := 2
  const SSPI_RESOURCE_NAME: string := "sspi"

  /** One call on the shared semaphore, tagged with the channel that made it. */
  datatype SemOp = Acquired(owner: Channel) | Released(owner: Channel)

  /** One primitive action on the controller: a chip-select write, a fast transfer of the
      given bytes (the assembly primitives), or the fixed delay of a slow transfer. */
  datatype Action = ChipSelectOp(line: uint8) | WriteOp(data: seq<uint8>) | ReadOp(data: seq<uint8>) | DelayOp

  // ---------------------------------------------------------------------------------------
  // Semaphore accounting

  /** How one semaphore call changes the number of acquisitions `c` holds. */
  function Delta(op: SemOp, c: Channel): int {
    if op.owner != c then 0 else if op.Acquired? then 1 else -1
  }

  /** Acquisitions made by `c` in history `h` that it has not released. */
  function Outstanding(h: seq<SemOp>, c: Channel): int {
    if h == [] then 0 else Outstanding(h[..|h| - 1], c) + Delta(h[|h| - 1], c)
  }

  /** `c` never held the semaphore twice and never released it without holding it:
      after every prefix of the history it holds 0 or 1 acquisitions. */
  ghost predicate Disciplined(h: seq<SemOp>, c: Channel) {
    forall k :: 0 <= k <= |h| ==> 0 <= Outstanding(h[..k], c) <= 1
  }

  /** Appending one call changes the count of `c` by that call's Delta, and keeps the history
      disciplined as long as the new count stays within 0..1. */
  lemma DisciplinedAppend(h: seq<SemOp>, op: SemOp, c: Channel)
    requires Disciplined(h, c)
    ensures Outstanding(h + [op], c) == Outstanding(h, c) + Delta(op, c)
    ensures 0 <= Outstanding(h + [op], c) <= 1 ==> Disciplined(h + [op], c)
  {
    var h' := h + [op];
    assert h'[..|h'| - 1] == h;
    if 0 <= Outstanding(h', c) <= 1 {
      forall k | 0 <= k <= |h'|
        ensures 0 <= Outstanding(h'[..k], c) <= 1
      {
        if k <= |h| {
          assert h'[..k] == h[..k];
        } else {
          assert h'[..k] == h';
        }
      }
    }
  }

  /** What another channel does on the shared semaphore leaves this channel's accounting
      and discipline as they were. */
  lemma OtherChannelCall(h: seq<SemOp>, op: SemOp, c: Channel)
    requires op.owner != c
    ensures Outstanding(h + [op], c) == Outstanding(h, c)
    ensures Disciplined(h, c) ==> Disciplined(h + [op], c)
  {
    assert (h + [op])[..|h|] == h;
    if Disciplined(h, c) {
      assert h[..|h|] == h;
      DisciplinedAppend(h, op, c);
    }
  }

  /** In a disciplined history every acquisition by `c` happens while it holds nothing
      (no nested acquire) and every release by `c` happens while it holds the semaphore
      (no release without a matching acquire). */
  lemma CallsAlternate(h: seq<SemOp>, c: Channel, i: nat)
    requires Disciplined(h, c) && i < |h|
    ensures h[i] == Acquired(c) ==> Outstanding(h[..i], c) == 0
    ensures h[i] == Released(c) ==> Outstanding(h[..i], c) == 1
  {
    var p := h[..i + 1];
    assert p[..|p| - 1] == h[..i];
    assert 0 <= Outstanding(h[..i], c) <= 1;
    assert 0 <= Outstanding(h[..i + 1], c) <= 1;
  }

  // ---------------------------------------------------------------------------------------
  // Transfer traces

  /** The trace of a slow write of `s`: one single-byte fast write per byte, each followed
      by the delay. */
  function SlowWrites(s: seq<uint8>): seq<Action> {
    if s == [] then [] else SlowWrites(s[..|s| - 1]) + [WriteOp([s[|s| - 1]]), DelayOp]
  }

  /** The trace of a slow read that receives `s`. */
  function SlowReads(s: seq<uint8>): seq<Action> {
    if s == [] then [] else SlowReads(s[..|s| - 1]) + [ReadOp([s[|s| - 1]]), DelayOp]
  }

  /** The bytes a trace puts on the bus, in order. */
  function Written(t: seq<Action>): seq<uint8> {
    if t == [] then [] else Written(t[..|t| - 1]) + (if t[|t| - 1].WriteOp? then t[|t| - 1].data else [])
  }

  /** The bytes a trace takes from the bus, in order. */
  function Received(t: seq<Action>): seq<uint8> {
    if t == [] then [] else Received(t[..|t| - 1]) + (if t[|t| - 1].ReadOp? then t[|t| - 1].data else [])
  }

  /** A slow write is `|s|` rounds of (write one byte, delay), the bytes taken in buffer order. */
  lemma {:induction false} SlowWritesShape(s: seq<uint8>)
    ensures |SlowWrites(s)| == 2 * |s|
    ensures forall i :: 0 <= i < |s| ==> SlowWrites(s)[2 * i] == WriteOp([s[i]]) && SlowWrites(s)[2 * i + 1] == DelayOp
  {
    if s != [] {
      var s' := s[..|s| - 1];
      SlowWritesShape(s');
      forall i | 0 <= i < |s| - 1
        ensures SlowWrites(s)[2 * i] == WriteOp([s[i]]) && SlowWrites(s)[2 * i + 1] == DelayOp
      {
        assert s'[i] == s[i];
      }
    }
  }

  /** A slow read is `|s|` rounds of (read one byte, delay), the bytes stored in buffer order. */
  lemma {:induction false} SlowReadsShape(s: seq<uint8>)
    ensures |SlowReads(s)| == 2 * |s|
    ensures forall i :: 0 <= i < |s| ==> SlowReads(s)[2 * i] == ReadOp([s[i]]) && SlowReads(s)[2 * i + 1] == DelayOp
  {
    if s != [] {
      var s' := s[..|s| - 1];
      SlowReadsShape(s');
      forall i | 0 <= i < |s| - 1
        ensures SlowReads(s)[2 * i] == ReadOp([s[i]]) && SlowReads(s)[2 * i + 1] == DelayOp
      {
        assert s'[i] == s[i];
      }
    }
  }

  /** The slow and the fast write put the same bytes on the bus and read nothing. */
  lemma {:induction false} WritePathsAgree(s: seq<uint8>)
    ensures Written(SlowWrites(s)) == s == Written([WriteOp(s)])
    ensures Received(SlowWrites(s)) == [] == Received([WriteOp(s)])
  {
    assert [WriteOp(s)][..0] == [];
    if s != [] {
      var s' := s[..|s| - 1];
      WritePathsAgree(s');
      var t := SlowWrites(s);
      assert t[..|t| - 1] == SlowWrites(s') + [WriteOp([s[|s| - 1]])];
      assert (SlowWrites(s') + [WriteOp([s[|s| - 1]])])[..|t| - 2] == SlowWrites(s');
      assert s == s' + [s[|s| - 1]];
    }
  }

  /** The slow and the fast read take the same bytes from the bus and write nothing. */
  lemma {:induction false} ReadPathsAgree(s: seq<uint8>)
    ensures Received(SlowReads(s)) == s == Received([ReadOp(s)])
    ensures Written(SlowReads(s)) == [] == Written([ReadOp(s)])
  {
    assert [ReadOp(s)][..0] == [];
    if s != [] {
      var s' := s[..|s| - 1];
      ReadPathsAgree(s');
      var t := SlowReads(s);
      assert t[..|t| - 1] == SlowReads(s') + [ReadOp([s[|s| - 1]])];
      assert (SlowReads(s') + [ReadOp([s[|s| - 1]])])[..|t| - 2] == SlowReads(s');
      assert s == s' + [s[|s| - 1]];
    }
  }

  // ---------------------------------------------------------------------------------------
  // System and hardware

  /** The shared "sspi" system resource; its semaphore arbitrates the physical bus. The
      semaphore's state is its history of calls. */
  class SspiResource {
    var name: string
    var version: nat
    var revision: nat
    ghost var history: seq<SemOp>

    /** AllocMem, copying the name, InitSemaphore and filling in the version. */
    constructor ()
      ensures name == SSPI_RESOURCE_NAME && version == 1 && revision == 0 && history == []
    {
      name := SSPI_RESOURCE_NAME;
      version := 1;
      revision := 0;
      history := [];
    }

    /** ObtainSemaphore, made on behalf of channel `owner`. */
    method ObtainSemaphore(ghost owner: Channel)
      modifies this`history
      ensures history == old(history) + [Acquired(owner)]
    {
      history := history + [Acquired(owner)];
    }

    /** ReleaseSemaphore, made on behalf of channel `owner`. */
    method ReleaseSemaphore(ghost owner: Channel)
      modifies this`history
      ensures history == old(history) + [Released(owner)]
    {
      history := history + [Released(owner)];
    }
  }

  /** The part of the Exec system library the channel uses: the resource list, searched and
      extended under the name "sspi". */
  class Exec {
    var sspiResource: SspiResource?

    constructor ()
      ensures sspiResource == null
    {
      sspiResource := null;
    }

    /** OpenResource("sspi"). */
    method OpenResource() returns (r: SspiResource?)
      ensures r == sspiResource
    {
      r := sspiResource;
    }

    /** AddResource. */
    method AddResource(r: SspiResource)
      modifies this
      ensures sspiResource == r
    {
      sspiResource := r;
    }
  }

  /** The SSPI controller registers, with the CIA register read by the delay loop. `miso(k)` is
      the byte the selected peripheral returns as the k-th byte read; `trace` records every
      primitive action performed. */
  class Controller {
    const miso: nat -> uint8
    var chipSelect: uint8
    var received: nat
    var trace: seq<Action>

    constructor (miso: nat -> uint8)
      ensures this.miso == miso && chipSelect == 0 && received == 0 && trace == []
    {
      this.miso := miso;
      chipSelect := 0;
      received := 0;
      trace := [];
    }

    /** The next `n` bytes the peripheral returns once `from` bytes have been read. */
    function Incoming(from: nat, n: nat): seq<uint8> {
      seq(n, i requires 0 <= i < n => miso(from + i))
    }

    /** spi_chip_select (assembly): drive the chip-select lines to `line`; 0 deselects. */
    method ChipSelect(line: uint8)
      modifies this`chipSelect, this`trace
      ensures chipSelect == line && trace == old(trace) + [ChipSelectOp(line)]
    {
      chipSelect := line;
      trace := trace + [ChipSelectOp(line)];
    }

    /** spi_write_fast (assembly): write `buf[off..off + n]` to the bus. */
    method WriteFast(buf: array<uint8>, off: nat, n: nat)
      requires off + n <= buf.Length
      modifies this`trace
      ensures trace == old(trace) + [WriteOp(buf[off..off + n])]
    {
      trace := trace + [WriteOp(buf[off..off + n])];
    }

    /** spi_read_fast (assembly): read `n` bytes from the bus into `buf[off..off + n]`. */
    method ReadFast(buf: array<uint8>, off: nat, n: nat)
      requires off + n <= buf.Length
      modifies this`received, this`trace, buf
      ensures buf[off..off + n] == Incoming(old(received), n)
      ensures forall i :: 0 <= i < buf.Length && !(off <= i < off + n) ==> buf[i] == old(buf[i])
      ensures received == old(received) + n
      ensures trace == old(trace) + [ReadOp(Incoming(old(received), n))]
    {
      var data := Incoming(received, n);
      forall i | off <= i < off + n {
        buf[i] := data[i - off];
      }
      received := received + n;
      trace := trace + [ReadOp(data)];
    }

    /** wait_40_us: a fixed busy delay; its only observable effect is its place in the trace. */
    method Wait40us()
      modifies this`trace
      ensures trace == old(trace) + [DelayOp]
    {
      trace := trace + [DelayOp];
    }
  }

  /** spi_deselect: drive every chip-select line inactive. */
  method Deselect(hw: Controller)
    modifies hw`chipSelect, hw`trace
    ensures hw.chipSelect == 0 && hw.trace == old(hw.trace) + [ChipSelectOp(0)]
  {
    hw.ChipSelect(0x00);
  }

  /** spi_write_slow: write `buf[..size]` one byte at a time, each followed by the delay. */
  method WriteSlow(hw: Controller, buf: array<uint8>, size: uint16)
    requires size <= buf.Length
    modifies hw`trace
    ensures hw.trace == old(hw.trace) + SlowWrites(buf[..size])
  {
    for i := 0 to size
      invariant hw.trace == old(hw.trace) + SlowWrites(buf[..i])
    {
      hw.WriteFast(buf, i, 1);
      hw.Wait40us();
      assert buf[..i + 1][..i] == buf[..i];
    }
  }

  /** spi_read_slow: read `size` bytes one at a time into `buf`, each followed by the delay. */
  method ReadSlow(hw: Controller, buf: array<uint8>, size: uint16)
    requires size <= buf.Length
    modifies hw`received, hw`trace, buf
    ensures buf[..size] == hw.Incoming(old(hw.received), size)
    ensures buf[size..] == old(buf[size..])
    ensures hw.received == old(hw.received) + size
    ensures hw.trace == old(hw.trace) + SlowReads(buf[..size])
  {
    for i := 0 to size
      invariant buf[..i] == hw.Incoming(old(hw.received), i)
      invariant buf[i..] == old(buf[i..])
      invariant hw.received == old(hw.received) + i
      invariant hw.trace == old(hw.trace) + SlowReads(buf[..i])
    {
      ghost var got, done := hw.Incoming(hw.received, 1), buf[..i];
      hw.ReadFast(buf, i, 1);
      hw.Wait40us();
      assert buf[i..i + 1] == got == [buf[i]];
      assert buf[..i] == done;
      assert buf[..i + 1][..i] == buf[..i];
      assert buf[i + 1..] == old(buf[i + 1..]) by {
        assert forall j :: i + 1 <= j < buf.Length ==> buf[j] == old(buf[j]);
      }
    }
  }

  /** spi_t: one logical device on the shared SPI bus. */
  class Channel {
    var sspi: SspiResource?
    var sysBase: Exec?
    var speed: uint8
    var busTaken: uint8
    var channel: uint8

    /** An initialized channel: it holds a supported chip-select line, and it holds the shared
        semaphore exactly when `busTaken` is set, with a disciplined history of calls. */
    ghost predicate Valid()
      reads this, sspi
    {
      && sspi != null
      && (channel == SPI_CHANNEL_1 || channel == SPI_CHANNEL_2)
      && Disciplined(sspi.history, this)
      && Outstanding(sspi.history, this) == busTaken as int
    }

    lemma BusTakenIsFlag()
      requires Valid()
      ensures busTaken == 0 || busTaken == 1
    {
      assert sspi.history[..|sspi.history|] == sspi.history;
    }

    /** A cleared spi_t, as it lies in a freshly allocated unit before spi_initialize. */
    constructor ()
      ensures sspi == null && sysBase == null && speed == 0 && busTaken == 0 && channel == 0
    {
      sspi := null;
      sysBase := null;
      speed := 0;
      busTaken := 0;
      channel := 0;
    }

    /** spi_obtain: acquire the semaphore unless this channel already holds it. */
    method Obtain()
      requires Valid()
      modifies this`busTaken, sspi`history
      ensures Valid() && busTaken == 1
      ensures sspi.history == old(sspi.history) + (if old(busTaken) == 0 then [Acquired(this)] else [])
    {
      BusTakenIsFlag();
      if busTaken == 0 {
        DisciplinedAppend(sspi.history, Acquired(this), this);
        sspi.ObtainSemaphore(this);
        busTaken := 1;
      }
    }

    /** spi_release: release the semaphore if this channel holds it. The flag is tested
        first, so a channel that does not hold the bus, even one never initialised, is left
        as it is without touching the resource. */
    method Release()
      requires busTaken != 0 ==> sspi != null
      modifies this`busTaken, if sspi != null then {sspi} else {}
      ensures busTaken == 0
      ensures sspi != null ==> sspi.name == old(sspi.name) && sspi.version == old(sspi.version) && sspi.revision == old(sspi.revision)
      ensures old(Valid()) ==> Valid() && Outstanding(sspi.history, this) == 0
      ensures sspi != null ==>
                sspi.history == old(sspi.history) + (if old(busTaken) != 0 then [Released(this)] else [])
    {
      ghost var wasValid := Valid();
      if wasValid {
        BusTakenIsFlag();
      }
      if busTaken != 0 {
        if wasValid {
          DisciplinedAppend(sspi.history, Released(this), this);
        }
        sspi.ReleaseSemaphore(this);
        busTaken := 0;
      }
    }

    /** spi_select: drive this channel's chip-select line. */
    method Select(hw: Controller)
      modifies hw`chipSelect, hw`trace
      ensures hw.chipSelect == channel && hw.trace == old(hw.trace) + [ChipSelectOp(channel)]
    {
      hw.ChipSelect(channel);
    }

    /** spi_set_speed: store the speed byte; any value other than SPI_SPEED_FAST means slow. */
    method SetSpeed(s: uint8)
      modifies this`speed
      ensures speed == s
      ensures old(Valid()) ==> Valid()
    {
      speed := s;
    }

    /** spi_read: read `size` bytes into `buf`, in one fast transfer when the speed is
        SPI_SPEED_FAST and byte by byte with delays for every other speed value. */
    method Read(hw: Controller, buf: array<uint8>, size: uint16)
      requires size <= buf.Length
      modifies hw`received, hw`trace, buf
      ensures buf[..size] == hw.Incoming(old(hw.received), size)
      ensures buf[size..] == old(buf[size..])
      ensures hw.received == old(hw.received) + size
      ensures hw.trace == old(hw.trace) + (if speed == SPI_SPEED_FAST then [ReadOp(buf[..size])] else SlowReads(buf[..size]))
    {
      if speed == SPI_SPEED_FAST {
        hw.ReadFast(buf, 0, size);
        assert buf[size..] == old(buf[size..]) by {
          assert forall j :: size <= j < buf.Length ==> buf[j] == old(buf[j]);
        }
      } else {
        ReadSlow(hw, buf, size);
      }
    }

    /** spi_write: write `buf[..size]`, in one fast transfer when the speed is SPI_SPEED_FAST
        and byte by byte with delays for every other speed value. */
    method Write(hw: Controller, buf: array<uint8>, size: uint16)
      requires size <= buf.Length
      modifies hw`trace
      ensures hw.trace == old(hw.trace) + (if speed == SPI_SPEED_FAST then [WriteOp(buf[..size])] else SlowWrites(buf[..size]))
    {
      if speed == SPI_SPEED_FAST {
        hw.WriteFast(buf, 0, size);
      } else {
        WriteSlow(hw, buf, size);
      }
    }

    /** spi_initialize: bind the channel to chip-select line `ch` and to the shared resource,
        creating and registering the resource if it does not exist yet. Returns -1 for an
        unsupported line or a failed allocation (`allocOk` is AllocMem's outcome), leaving the
        channel and the system as they were; otherwise 1, with the bus not taken and the speed
        slow. The flag is cleared without releasing, so the channel is valid afterwards exactly
        when it held no acquisition of this resource. */
    method Initialize(ch: uint8, exec: Exec, allocOk: bool) returns (r: int)
      modifies this, exec
      ensures r == 1 || r == -1
      ensures r == -1 <==> (ch != SPI_CHANNEL_1 && ch != SPI_CHANNEL_2) || (old(exec.sspiResource) == null && !allocOk)
      ensures r == -1 ==> unchanged(this) && unchanged(exec)
      ensures r == 1 ==> && sspi != null && sspi == exec.sspiResource && sysBase == exec
                         && channel == ch && busTaken == 0 && speed == SPI_SPEED_SLOW
      ensures r == 1 && old(exec.sspiResource) != null ==> sspi == old(exec.sspiResource)
      ensures r == 1 && old(exec.sspiResource) == null ==>
                fresh(sspi) && sspi.name == SSPI_RESOURCE_NAME && sspi.version == 1 && sspi.revision == 0 && sspi.history == []
      ensures r == 1 ==> (Valid() <==> Disciplined(sspi.history, this) && Outstanding(sspi.history, this) == 0)
    {
      if ch != SPI_CHANNEL_1 && ch != SPI_CHANNEL_2 {
        return -1;
      }
      var res := exec.OpenResource();
      if res == null {
        if !allocOk {
          return -1;
        }
        res := new SspiResource();
        exec.AddResource(res);
      }
      sspi := res;
      sysBase := exec;
      channel := ch;
      busTaken := 0;
      speed := SPI_SPEED_SLOW;
      return 1;
    }

    /** spi_shutdown: deselect, then release the bus if held; whatever the prior state, the
        bus is left released with every chip-select line inactive. */
    method Shutdown(hw: Controller)
      requires busTaken != 0 ==> sspi != null
      modifies hw`chipSelect, hw`trace, this`busTaken, if sspi != null then {sspi} else {}
      ensures busTaken == 0
      ensures sspi != null ==> sspi.name == old(sspi.name) && sspi.version == old(sspi.version) && sspi.revision == old(sspi.revision)
      ensures old(Valid()) ==> Valid() && Outstanding(sspi.history, this) == 0
      ensures hw.chipSelect == 0 && hw.trace == old(hw.trace) + [ChipSelectOp(0)]
      ensures sspi != null ==>
                sspi.history == old(sspi.history) + (if old(busTaken) != 0 then [Released(this)] else [])
    {
      Deselect(hw);
      Release();
    }
  }
}
