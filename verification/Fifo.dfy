/** Command exchange over the FIFO registers (src/tpm2_fifo.c). */
module Fifo {
  import opened Bytes
  import opened Codes
  import opened DeviceView
  import opened Faults
  import opened SpiBus
  import SpiWire

  const READ_HEADER := -1

  class Chip {
    var locality: byte
    const timeouts: Timeouts

    constructor (locality: byte, timeouts: Timeouts)
      ensures this.locality == locality && this.timeouts == timeouts
    {
      this.locality, this.timeouts := locality, timeouts;
    }
  }

  /** Base address 0x1000 times the locality, cut to 16 bits, plus a register offset. */
  function Addr(locality: byte, offset: nat): (reg: u16)
    requires offset < 0x1000
    ensures reg % 0x1000 == offset && reg / 0x1000 == locality % 16
  {
    var base := locality % 16 * 0x1000;
    assert base == 0x1000 * locality % 0x1_0000;
    base + offset
  }

  /** `w` differs from `v` at most by status and burst-count polls of one locality, which cost no approval unless an access
      had failed before. */
  ghost predicate Polled(v: View, w: View, locality: byte) {
    && w.written == v.written && w.accepted == v.accepted && w.goes == v.goes
    && w.served == v.served && w.bursts == v.bursts
    && (v.clean ==> w.ok == v.ok)
    && (v.ready ==> w.ready) && (v.avail ==> w.avail) && w.bases <= v.bases + {locality % 16}
  }

  /** The clock of a run as it stands. */
  ghost function Now(bus: Bus, chip: Chip): Timing
    reads bus`trace
  {
    Timing(bus.plat, chip.timeouts, bus.trace)
  }

  /** Since `log0` nothing happened but reads of this register that lack the mask. */
  ghost predicate Missed(log0: seq<SpiWire.Access>, log: seq<SpiWire.Access>, locality: byte, offset: nat, mask: byte)
    requires offset < 0x1000
  {
    && log0 <= log
    && forall i :: |log0| <= i < |log| ==> Lacking(log[i], offset, mask) && log[i].reg == Addr(locality, offset)
  }

  /** How polling a register went, the timer being found running `polls` times: the values read lack the mask, except that
      the last read may show it or fail; without that, the timer has run out. */
  ghost predicate Waited(log0: seq<SpiWire.Access>, log: seq<SpiWire.Access>, locality: byte, offset: nat, mask: byte,
                         polls: nat, rc: int, status: byte)
    requires offset < 0x1000
  {
    && log0 < log && |log| <= |log0| + polls + 1
    && Missed(log0, log[..|log| - 1], locality, offset, mask)
    && var a := log[|log| - 1];
    && !a.write && a.reg == Addr(locality, offset)
    && if rc == SUCCESS then a.rc == SUCCESS && a.val == [status] && AllSet(status, mask)
       else a.rc == rc || (rc == ERR_TIMEOUT && Lacking(a, offset, mask) && |log| == |log0| + polls + 1)
  }

  /** The last access read this STATUS. */
  ghost predicate Shown(v: View, status: byte) {
    && v.status == Some(status)
    && (Bit(status, STAT_COMMAND_READY) ==> v.ready)
    && (Bit(status, STAT_AVAIL) && v.accepted.Some? ==> v.avail)
  }

  /** Polling STATUS or ACCESS is all that happened. */
  ghost predicate PollsOnly(v: View, w: View, locality: byte, offset: nat) {
    offset == REG_STATUS || offset == REG_ACCESS ==> Polled(v, w, locality) && w.credit == v.credit
  }

  /** What one poll does to the view. */
  lemma PollObserved(v: View, v0: View, a: SpiWire.Access, locality: byte, offset: nat)
    requires offset < 0x1000 && !a.write && a.reg == Addr(locality, offset)
    requires PollsOnly(v0, v, locality, offset) && (v0.clean ==> v.clean)
    ensures PollsOnly(v0, Observe(v, a), locality, offset)
    ensures v0.clean && a.rc == SUCCESS ==> Observe(v, a).clean
    ensures offset == REG_STATUS && a.rc == SUCCESS && |a.val| == 1 ==> Shown(Observe(v, a), a.val[0])
  {
  }

  /** A wait that ends without a failed access and without the mask has run out of time. */
  lemma WaitExpired(w: Timing, t: seq<SpiWire.BusEvent>, log0: seq<SpiWire.Access>, log: seq<SpiWire.Access>,
                    locality: byte, offset: nat, mask: byte, msec: nat, rc: int, status: byte)
    requires offset < 0x1000 && Before(w, t, |log| - |log0|)
    requires Waited(log0, log, locality, offset, mask, w.plat.polls(t, msec), rc, status) && rc != SUCCESS
    ensures AccessFailed(log, rc) || (rc == ERR_TIMEOUT && MissedSince(w, t, log, offset, mask, msec))
  {
    var last := |log| - 1;
    assert forall i :: |log0| <= i < last ==> log[..last][i] == log[i];
  }

  /** Polls a register until it shows all bits of the mask. */
  method WaitRegBits(bus: Bus, locality: byte, offset: nat, mask: byte, msec: nat) returns (rc: int, status: byte)
    requires bus.Valid() && offset < 0x1000
    modifies bus`trace, bus`lastError, bus`cur, bus`view
    ensures bus.Valid() && TransportCode(rc) && old(bus.trace) <= bus.trace
    ensures Waited(old(bus.cur), bus.cur, locality, offset, mask, old(bus.plat.polls(bus.trace, msec)), rc, status)
    ensures PollsOnly(old(bus.view), bus.view, locality, offset)
    ensures rc == SUCCESS && offset == REG_STATUS ==> Shown(bus.view, status)
    ensures rc == SUCCESS && old(bus.view).clean ==> bus.view.clean
  {
    status := 0;
    var budget := bus.plat.polls(bus.trace, msec);
    ghost var polls := budget;
    while true
      invariant bus.Valid() && old(bus.trace) <= bus.trace
      invariant PollsOnly(old(bus.view), bus.view, locality, offset)
      invariant Missed(old(bus.cur), bus.cur, locality, offset, mask)
      invariant old(bus.view).clean ==> bus.view.clean
      invariant budget <= polls && |bus.cur| == |old(bus.cur)| + polls - budget
      decreases budget
    {
      ghost var log, v := bus.cur, bus.view;
      rc, status := bus.ReadByte(Addr(locality, offset), status);
      assert bus.cur[..|bus.cur| - 1] == log;
      PollObserved(v, old(bus.view), bus.cur[|log|], locality, offset);
      if rc < 0 {
        return;
      }
      if AllSet(status, mask) {
        return SUCCESS, status;
      }
      if budget == 0 {
        break;
      }
      budget := budget - 1;
    }
    rc := ERR_TIMEOUT;
  }

  /** The log asks for a locality and ends with the device showing it active. */
  ghost predicate Granted(log: seq<SpiWire.Access>, locality: byte) {
    && |log| >= 2
    && log[0] == SpiWire.Access(true, Addr(locality, REG_ACCESS), [ACCESS_REQUEST_USE], SUCCESS)
    && var a := log[|log| - 1];
    && !a.write && a.reg == Addr(locality, REG_ACCESS) && a.rc == SUCCESS
    && |a.val| == 1 && AllSet(a.val[0], ACCESS_ACTIVE_LOCALITY)
  }

  /** Why a request for a locality may fail. */
  ghost predicate Refused(w: Timing, log: seq<SpiWire.Access>, rc: int) {
    || AccessFailed(log, rc)
    || (rc == ERR_TIMEOUT && TimedOut(w, log, REG_ACCESS, ACCESS_ACTIVE_LOCALITY, w.timeouts.msecA))
  }

  /** Asks for a locality; the chip moves to it only when the device shows it active. */
  method RequestAccess(bus: Bus, chip: Chip, locality: byte) returns (rc: int)
    requires bus.Valid() && bus.cur == []
    modifies bus, chip`locality
    ensures bus.Valid() && TransportCode(rc) && bus.cur == []
    ensures |bus.done| == |old(bus.done)| + 1 && bus.done[..|old(bus.done)|] == old(bus.done)
    ensures rc == SUCCESS ==> chip.locality == locality && Granted(bus.done[|old(bus.done)|], locality)
    ensures rc != SUCCESS ==> chip.locality == old(chip.locality)
    ensures rc != SUCCESS ==> Refused(Now(bus, chip), bus.done[|old(bus.done)|], rc)
  {
    rc := AskLocality(bus, chip, locality);
    if rc == 0 {
      chip.locality := locality;
    }
    bus.EndExchange();
  }

  /** The register accesses of a request. */
  method AskLocality(bus: Bus, chip: Chip, locality: byte) returns (rc: int)
    requires bus.Valid() && bus.cur == []
    modifies bus`trace, bus`lastError, bus`cur, bus`view
    ensures bus.Valid() && TransportCode(rc) && bus.view.ok
    ensures if rc == SUCCESS then Granted(bus.cur, locality) else Refused(Now(bus, chip), bus.cur, rc)
  {
    rc := bus.WriteByte(Addr(locality, REG_ACCESS), ACCESS_REQUEST_USE);
    if rc < 0 {
      return;
    }
    ghost var t, log := bus.trace, bus.cur;
    var status;
    rc, status := WaitRegBits(bus, locality, REG_ACCESS, ACCESS_ACTIVE_LOCALITY, chip.timeouts.msecA);
    AskAnswered(Now(bus, chip), t, log, bus.cur, locality, rc, status);
  }

  /** What waiting for an active locality comes to. */
  lemma AskAnswered(w: Timing, t: seq<SpiWire.BusEvent>, log0: seq<SpiWire.Access>, log: seq<SpiWire.Access>,
                    locality: byte, rc: int, status: byte)
    requires log0 == [SpiWire.Access(true, Addr(locality, REG_ACCESS), [ACCESS_REQUEST_USE], SUCCESS)]
    requires Before(w, t, |log| - |log0|)
    requires Waited(log0, log, locality, REG_ACCESS, ACCESS_ACTIVE_LOCALITY, w.plat.polls(t, w.timeouts.msecA), rc, status)
    ensures if rc == SUCCESS then Granted(log, locality) else Refused(w, log, rc)
  {
    if rc != SUCCESS {
      WaitExpired(w, t, log0, log, locality, REG_ACCESS, ACCESS_ACTIVE_LOCALITY, w.timeouts.msecA, rc, status);
    }
  }

  /** The view once COMMAND_READY is asked for. */
  ghost function ReadyAsked(v: View, locality: byte): View {
    v.(ok := v.ok && MayAsk(v, SpiWire.Access(true, Addr(locality, REG_STATUS), [STAT_COMMAND_READY], SUCCESS)))
  }

  /** Asks the device to get ready and waits until it shows that. */
  method Prepare(bus: Bus, chip: Chip) returns (rc: int)
    requires bus.Valid()
    modifies bus`trace, bus`lastError, bus`cur, bus`view
    ensures bus.Valid() && TransportCode(rc) && old(bus.trace) <= bus.trace
    ensures Polled(ReadyAsked(old(bus.view), chip.locality), bus.view, chip.locality)
    ensures bus.view.credit == old(bus.view).credit && (rc == SUCCESS && old(bus.view).clean ==> bus.view.clean)
    ensures old(bus.cur) < bus.cur && var a := bus.cur[|old(bus.cur)|];
      a.write && a.reg == Addr(chip.locality, REG_STATUS) && a.val == [STAT_COMMAND_READY]
    ensures if rc == SUCCESS then bus.view.ready
      else AccessFailed(bus.cur, rc) || (rc == ERR_TIMEOUT && NotReady(Now(bus, chip), bus.cur))
  {
    rc := bus.WriteByte(Addr(chip.locality, REG_STATUS), STAT_COMMAND_READY);
    if rc < 0 {
      return;
    }
    ghost var t, log := bus.trace, bus.cur;
    var status;
    rc, status := WaitRegBits(bus, chip.locality, REG_STATUS, STAT_COMMAND_READY, chip.timeouts.msecB);
    OneBitMask(status, STAT_COMMAND_READY);
    if rc != SUCCESS {
      ReadyExpired(Now(bus, chip), t, log, bus.cur, chip.locality, rc, status);
    }
  }

  lemma ReadyExpired(w: Timing, t: seq<SpiWire.BusEvent>, log0: seq<SpiWire.Access>, log: seq<SpiWire.Access>,
                     locality: byte, rc: int, status: byte)
    requires Before(w, t, |log| - |log0|) && rc != SUCCESS && AsksReady(log0, |log0| - 1)
    requires Waited(log0, log, locality, REG_STATUS, STAT_COMMAND_READY, w.plat.polls(t, w.timeouts.msecB), rc, status)
    ensures AccessFailed(log, rc) || (rc == ERR_TIMEOUT && NotReady(w, log))
  {
    WaitExpired(w, t, log0, log, locality, REG_STATUS, STAT_COMMAND_READY, w.timeouts.msecB, rc, status);
    if !AccessFailed(log, rc) {
      assert |log0| - 1 == |log| - 2 - w.plat.polls(t, w.timeouts.msecB);
      assert AsksReady(log, |log0| - 1);
    }
  }

  /** The view once a non-zero burst count is reported. */
  ghost function Reported(v: View, burst: nat): View {
    if |v.served| < HEADER_SIZE then v else v.(bursts := v.bursts + [burst])
  }

  /** The view after an attempt to read the burst count. */
  ghost predicate BurstRead(v: View, w: View, locality: byte, rc: int, burst: u16) {
    && Polled(if rc == SUCCESS && burst > 0 then Reported(v, burst) else v, w, locality) && w.avail == v.avail
    && w.credit == (if rc == SUCCESS then burst else v.credit)
    && (rc == SUCCESS && v.clean ==> w.clean)
  }

  /** The low byte was read before, if at all, without any other effect. */
  lemma LowIgnored(v: View, u: View, w: View, locality: byte, rc: int, burst: u16)
    requires Polled(v, u, locality) && u.avail == v.avail && u.credit == v.credit && (v.clean ==> u.clean)
    requires BurstRead(u, w, locality, rc, burst)
    ensures BurstRead(v, w, locality, rc, burst)
  {
  }

  /** The access that reads a byte of the burst count. */
  ghost function BurstAccess(locality: byte, offset: nat, rc: int, val: byte): SpiWire.Access
    requires offset < 0x1000
  {
    SpiWire.Access(false, Addr(locality, offset), if rc == 0 then [val] else [], rc)
  }

  /** Reads the low byte of the burst count. */
  method ReadLow(bus: Bus, chip: Chip) returns (rc: int, val: byte)
    requires bus.Valid()
    modifies bus`trace, bus`lastError, bus`cur, bus`view
    ensures bus.Valid() && TransportCode(rc) && old(bus.trace) <= bus.trace
    ensures bus.cur == old(bus.cur) + [BurstAccess(chip.locality, REG_BURST_LO, rc, val)]
    ensures Polled(old(bus.view), bus.view, chip.locality)
    ensures bus.view.avail == old(bus.view).avail && bus.view.credit == old(bus.view).credit
    ensures rc == SUCCESS ==> bus.view.low == Some(val) && (old(bus.view).clean ==> bus.view.clean)
  {
    rc, val := bus.ReadByte(Addr(chip.locality, REG_BURST_LO), 0);
  }

  /** Reads the high byte right after the low one, which completes the count. */
  method ReadHigh(bus: Bus, chip: Chip, low: byte) returns (rc: int, high: byte)
    requires bus.Valid() && bus.view.low == Some(low)
    modifies bus`trace, bus`lastError, bus`cur, bus`view
    ensures bus.Valid() && TransportCode(rc) && old(bus.trace) <= bus.trace
    ensures bus.cur == old(bus.cur) + [BurstAccess(chip.locality, REG_BURST_HI, rc, high)]
    ensures BurstRead(old(bus.view), bus.view, chip.locality, rc, if rc == SUCCESS then Join(high, low) else 0)
  {
    rc, high := bus.ReadByte(Addr(chip.locality, REG_BURST_HI), 0);
  }

  /** The two reads of a burst count of zero. */
  ghost predicate ZeroRead(log0: seq<SpiWire.Access>, log: seq<SpiWire.Access>) {
    && |log| == |log0| + 2 && log0 <= log
    && ReadsZero(log[|log0|], REG_BURST_LO) && ReadsZero(log[|log0| + 1], REG_BURST_HI)
  }

  /** What the two reads of a burst count leave in the log. */
  lemma BothRead(log0: seq<SpiWire.Access>, log1: seq<SpiWire.Access>, log: seq<SpiWire.Access>, locality: byte,
                 low: byte, high: byte, rc: int)
    requires log1 == log0 + [BurstAccess(locality, REG_BURST_LO, SUCCESS, low)]
    requires log == log1 + [BurstAccess(locality, REG_BURST_HI, rc, high)]
    ensures rc == SUCCESS && Join(high, low) == 0 ==> ZeroRead(log0, log)
    ensures rc != SUCCESS ==> AccessFailed(log, rc)
  {
    assert log[|log0|] == log1[|log0|];
  }

  /** Reads the two bytes of the burst count once. */
  method ReadBurstcount(bus: Bus, chip: Chip) returns (rc: int, burst: u16)
    requires bus.Valid()
    modifies bus`trace, bus`lastError, bus`cur, bus`view
    ensures bus.Valid() && TransportCode(rc) && old(bus.trace) <= bus.trace
    ensures BurstRead(old(bus.view), bus.view, chip.locality, rc, burst)
    ensures rc == SUCCESS && burst == 0 ==> ZeroRead(old(bus.cur), bus.cur)
    ensures rc != SUCCESS ==> AccessFailed(bus.cur, rc)
  {
    burst := 0;
    var low, high;
    rc, low := ReadLow(bus, chip);
    if rc < 0 {
      return;
    }
    ghost var u, log := bus.view, bus.cur;
    rc, high := ReadHigh(bus, chip, low);
    BothRead(old(bus.cur), log, bus.cur, chip.locality, low, high, rc);
    LowIgnored(old(bus.view), u, bus.view, chip.locality, rc, if rc == SUCCESS then Join(high, low) else 0);
    if rc < 0 {
      return;
    }
    burst := Join(high, low);
  }

  /** Since `log0` nothing happened but readings of a burst count of zero. */
  ghost predicate AllZero(log0: seq<SpiWire.Access>, log: seq<SpiWire.Access>) {
    && log0 <= log && (|log| - |log0|) % 2 == 0
    && forall i :: |log0| <= i < |log| ==>
         ReadsZero(log[i], if (i - |log0|) % 2 == 0 then REG_BURST_LO else REG_BURST_HI)
  }

  lemma ZerosStep(log0: seq<SpiWire.Access>, log: seq<SpiWire.Access>, log': seq<SpiWire.Access>)
    requires AllZero(log0, log) && ZeroRead(log, log')
    ensures AllZero(log0, log')
  {
    forall i | |log0| <= i < |log'|
      ensures ReadsZero(log'[i], if (i - |log0|) % 2 == 0 then REG_BURST_LO else REG_BURST_HI)
    {
      if i < |log| {
        assert log'[i] == log[i];
      }
    }
  }

  lemma ZerosExpired(w: Timing, t: seq<SpiWire.BusEvent>, log0: seq<SpiWire.Access>, log: seq<SpiWire.Access>, msec: nat)
    requires Before(w, t, |log| - |log0|) && AllZero(log0, log) && |log| == |log0| + 2 * (w.plat.polls(t, msec) + 1)
    ensures NoBurstSince(w, t, log, msec)
  {
    forall i | |log0| <= i < |log|
      ensures ReadsZero(log[i], if (|log| - i) % 2 == 0 then REG_BURST_LO else REG_BURST_HI)
    {
      assert (i - |log0|) % 2 == (|log| - i) % 2;
    }
  }

  /** Nothing but burst counts of zero were read. */
  ghost predicate Zeroed(v: View, w: View, locality: byte) {
    && Polled(v, w, locality) && w.avail == v.avail && (w.credit == v.credit || w.credit == 0)
    && (v.clean ==> w.clean)
  }

  /** What getting a burst count makes of the view. */
  ghost predicate BurstGot(v: View, w: View, locality: byte, rc: int, burst: u16) {
    && Polled(if rc == SUCCESS then Reported(v, burst) else v, w, locality) && w.avail == v.avail
    && (rc == SUCCESS ==> burst > 0 && w.credit == burst && (v.clean ==> w.clean))
    && (rc != SUCCESS ==> w.credit == v.credit || w.credit == 0)
  }

  lemma ZeroedOn(v: View, u: View, w: View, locality: byte, rc: int, burst: u16)
    requires Zeroed(v, u, locality) && BurstRead(u, w, locality, rc, burst)
    ensures if rc == SUCCESS && burst == 0 then Zeroed(v, w, locality) && BurstGot(v, w, locality, ERR_TIMEOUT, 0)
      else BurstGot(v, w, locality, rc, burst)
  {
  }

  method GetBurstcount(bus: Bus, chip: Chip) returns (rc: int, burst: u16)
    requires bus.Valid()
    modifies bus`trace, bus`lastError, bus`cur, bus`view
    ensures bus.Valid() && TransportCode(rc) && old(bus.trace) <= bus.trace
    ensures BurstGot(old(bus.view), bus.view, chip.locality, rc, burst)
    ensures rc != SUCCESS ==>
      AccessFailed(bus.cur, rc) || (rc == ERR_TIMEOUT && NoBurst(Now(bus, chip), bus.cur, chip.timeouts.msecA))
  {
    burst := 0;
    var budget := bus.plat.polls(bus.trace, chip.timeouts.msecA);
    ghost var polls := budget;
    while true
      invariant bus.Valid() && old(bus.trace) <= bus.trace
      invariant Zeroed(old(bus.view), bus.view, chip.locality) && AllZero(old(bus.cur), bus.cur)
      invariant budget <= polls && |bus.cur| == |old(bus.cur)| + 2 * (polls - budget)
      decreases budget
    {
      ghost var log, u := bus.cur, bus.view;
      rc, burst := ReadBurstcount(bus, chip);
      ZeroedOn(old(bus.view), u, bus.view, chip.locality, rc, burst);
      if rc < 0 {
        return;
      }
      if burst != 0 {
        return SUCCESS, burst;
      }
      ZerosStep(old(bus.cur), log, bus.cur);
      if budget == 0 {
        break;
      }
      budget := budget - 1;
    }
    ZerosExpired(Now(bus, chip), old(bus.trace), old(bus.cur), bus.cur, chip.timeouts.msecA);
    rc := ERR_TIMEOUT;
  }

  /** The size field of a command in a buffer. */
  function SizeOf(cmd: array<byte>): u32
    requires cmd.Length == MAX_CMDBUF
    reads cmd
  {
    Announced(cmd[..])
  }

  /** So far only header and body bytes of a command went out, in order, each covered by the burst count. */
  ghost predicate Sending(v: View, sent: seq<byte>, locality: byte) {
    && v.ok && v.written == sent && (sent != [] ==> v.ready) && v.goes == 0 && v.accepted == None
    && v.served == [] && v.bursts == [] && v.bases <= {locality % 16}
  }

  /** A send failed: the device accounts for it, or the byte due lies past the end of the buffer, which takes a length beyond
      it, all of the buffer sent and a burst count that covers one byte more. */
  ghost predicate SendFailed(w: Timing, v: View, log: seq<SpiWire.Access>, len: nat, rc: int) {
    && (TransportCode(rc) || rc == OUT_OF_BOUNDS)
    && (rc == OUT_OF_BOUNDS <==> |v.written| == MAX_CMDBUF < len && v.credit > 0)
    && (rc != OUT_OF_BOUNDS ==> Faulted(w, v, log, rc))
  }

  /** Writes `cmd[index..len]` to the FIFO, at most `burst` bytes of it, stopping at the first failure. */
  method WriteBurst(bus: Bus, chip: Chip, cmd: array<byte>, index: nat, len: nat, burst: nat)
    returns (rc: int, next: nat)
    requires bus.Valid() && cmd.Length == MAX_CMDBUF && index <= len && index <= MAX_CMDBUF
    requires Sending(bus.view, cmd[..index], chip.locality)
    requires bus.view.credit == burst && bus.view.ready && bus.view.clean
    modifies bus`trace, bus`lastError, bus`cur, bus`view
    ensures bus.Valid() && index <= next <= len && next <= MAX_CMDBUF
    ensures Sending(bus.view, cmd[..next], chip.locality)
    ensures rc == SUCCESS ==> bus.view.clean && bus.view.credit >= 0
    ensures rc == SUCCESS ==> (next == len || (next == index + burst && bus.view.credit == 0))
    ensures rc != SUCCESS ==> next < len && SendFailed(Now(bus, chip), bus.view, bus.cur, len, rc)
    ensures rc != SUCCESS && rc != OUT_OF_BOUNDS ==> AccessFailed(bus.cur, rc)
  {
    next := index;
    var left := burst;
    while left > 0 && next < len
      invariant index <= next <= len && next <= MAX_CMDBUF && left == burst - (next - index) >= 0
      invariant bus.Valid() && Sending(bus.view, cmd[..next], chip.locality)
      invariant bus.view.credit == left && bus.view.ready && bus.view.clean
    {
      if next == MAX_CMDBUF {
        return OUT_OF_BOUNDS, next;
      }
      rc := bus.WriteByte(Addr(chip.locality, REG_DATA_FIFO), cmd[next]);
      if rc < 0 {
        return;
      }
      assert cmd[..next] + [cmd[next]] == cmd[..next + 1];
      next := next + 1;
      left := left - 1;
    }
    rc := SUCCESS;
  }

  /** Writes the bytes after the header, burst by burst. */
  method SendBody(bus: Bus, chip: Chip, cmd: array<byte>, len: nat) returns (rc: int, ghost next: nat)
    requires bus.Valid() && cmd.Length == MAX_CMDBUF && HEADER_SIZE <= len == SizeOf(cmd)
    requires Sending(bus.view, cmd[..HEADER_SIZE], chip.locality) && bus.view.clean
    modifies bus`trace, bus`lastError, bus`cur, bus`view
    ensures bus.Valid() && HEADER_SIZE <= next <= len && next <= MAX_CMDBUF
    ensures Sending(bus.view, cmd[..next], chip.locality)
    ensures rc == SUCCESS ==> next == len && bus.view.clean
    ensures rc != SUCCESS ==> SendFailed(Now(bus, chip), bus.view, bus.cur, len, rc)
  {
    var index := HEADER_SIZE;
    next := index;
    while index < len
      invariant HEADER_SIZE <= index == next <= len && index <= MAX_CMDBUF
      invariant bus.Valid() && Sending(bus.view, cmd[..index], chip.locality) && bus.view.clean
      invariant HEADER_SIZE < index < len ==> bus.view.credit == 0
    {
      var burst;
      rc, burst := GetBurstcount(bus, chip);
      SameAnnounced(cmd[..index], cmd[..]);
      if rc < 0 {
        return;
      }
      rc, index := WriteBurst(bus, chip, cmd, index, len, burst);
      next := index;
      if rc < 0 {
        return;
      }
    }
    rc := SUCCESS;
  }

  /** What a send writes if nothing fails: as many bytes as the size field says, but the header in any case and no more
      than the buffer holds. */
  function Outgoing(cmd: seq<byte>): (r: seq<byte>)
    requires |cmd| == MAX_CMDBUF
    ensures r <= cmd
  {
    var size := Announced(cmd);
    if size < HEADER_SIZE then cmd[..HEADER_SIZE] else if size <= MAX_CMDBUF then cmd[..size] else cmd
  }

  /** What every exit of a send leaves behind. */
  ghost predicate SendOutcome(w: Timing, v: View, log: seq<SpiWire.Access>, cmd: seq<byte>, locality: byte, rc: int)
    requires |cmd| == MAX_CMDBUF
  {
    var size := Announced(cmd);
    && v.ok && v.goes <= 1 && v.served == [] && v.bursts == [] && v.bases <= {locality % 16}
    && v.written <= Outgoing(cmd)
    && (v.goes == 1 ==>
          HEADER_SIZE <= size <= MAX_CMDBUF && v.written == Outgoing(cmd) && log != [] && IsGo(log[|log| - 1]))
    && v.accepted == (if rc == SUCCESS then Some(Outgoing(cmd)) else None)
    && (rc == SUCCESS ==> v.goes == 1 && v.credit == 0 && v.clean)
    && (rc == INVALID_PARAM <==> size < HEADER_SIZE && v.written == Outgoing(cmd))
    && (rc != SUCCESS && rc != INVALID_PARAM ==> SendFailed(w, v, log, size, rc))
  }

  /** Asks for COMMAND_READY unless the device shows it already. */
  method MakeReady(bus: Bus, chip: Chip) returns (rc: int)
    requires bus.Valid() && bus.view == Fresh
    modifies bus`trace, bus`lastError, bus`cur, bus`view
    ensures bus.Valid() && TransportCode(rc)
    ensures Sending(bus.view, [], chip.locality) && bus.view.credit == HEADER_SIZE
    ensures if rc == SUCCESS then bus.view.ready && bus.view.clean
      else AccessFailed(bus.cur, rc) || (rc == ERR_TIMEOUT && NotReady(Now(bus, chip), bus.cur))
  {
    var status;
    rc, status := bus.ReadByte(Addr(chip.locality, REG_STATUS), 0);
    if rc < 0 {
      return;
    }
    if !Bit(status, STAT_COMMAND_READY) {
      rc := Prepare(bus, chip);
    }
  }

  /** Makes the device ready for a command and writes the header, which no burst count limits. */
  method SendHeader(bus: Bus, chip: Chip, cmd: array<byte>) returns (rc: int, ghost next: nat)
    requires bus.Valid() && bus.view == Fresh && cmd.Length == MAX_CMDBUF
    modifies bus`trace, bus`lastError, bus`cur, bus`view
    ensures bus.Valid() && TransportCode(rc) && next <= HEADER_SIZE
    ensures Sending(bus.view, cmd[..next], chip.locality)
    ensures if rc == SUCCESS then next == HEADER_SIZE && bus.view.clean
      else next < HEADER_SIZE && Faulted(Now(bus, chip), bus.view, bus.cur, rc)
  {
    next := 0;
    assert cmd[..0] == [];
    rc := MakeReady(bus, chip);
    if rc < 0 {
      return;
    }
    rc, next := WriteBurst(bus, chip, cmd, 0, HEADER_SIZE, HEADER_SIZE);
  }

  /** Waits until the device shows VALID. */
  method AwaitValid(bus: Bus, chip: Chip) returns (rc: int, status: byte)
    requires bus.Valid()
    modifies bus`trace, bus`lastError, bus`cur, bus`view
    ensures bus.Valid() && TransportCode(rc)
    ensures Polled(old(bus.view), bus.view, chip.locality)
    ensures if rc == SUCCESS then
        bus.view.status == Some(status) && Bit(status, STAT_VALID) && (old(bus.view).clean ==> bus.view.clean)
        && bus.cur != [] && var a := bus.cur[|bus.cur| - 1];
           !a.write && a.reg % 0x1000 == REG_STATUS && a.rc == SUCCESS && a.val == [status]
      else
        || AccessFailed(bus.cur, rc)
        || (rc == ERR_TIMEOUT && TimedOut(Now(bus, chip), bus.cur, REG_STATUS, STAT_VALID, chip.timeouts.msecC))
  {
    ghost var t, log := bus.trace, bus.cur;
    rc, status := WaitRegBits(bus, chip.locality, REG_STATUS, STAT_VALID, chip.timeouts.msecC);
    OneBitMask(status, STAT_VALID);
    if rc < 0 {
      WaitExpired(Now(bus, chip), t, log, bus.cur, chip.locality, REG_STATUS, STAT_VALID, chip.timeouts.msecC, rc, status);
    }
  }

  /** Starts the command once the device holds all of it. */
  method Launch(bus: Bus, chip: Chip, ghost sent: seq<byte>) returns (rc: int)
    requires bus.Valid() && Sending(bus.view, sent, chip.locality) && WholeCommand(bus.view) && bus.view.clean
    modifies bus`trace, bus`lastError, bus`cur, bus`view
    ensures bus.Valid() && TransportCode(rc)
    ensures var v := bus.view;
      && v.ok && v.goes <= 1 && v.served == [] && v.bursts == [] && v.bases <= {chip.locality % 16}
      && v.written == sent
      && (v.goes == 1 ==> bus.cur != [] && IsGo(bus.cur[|bus.cur| - 1]))
      && v.accepted == (if rc == SUCCESS then Some(sent) else None)
      && (rc == SUCCESS ==> v.goes == 1 && v.credit == 0 && v.clean)
    ensures rc != SUCCESS ==> Faulted(Now(bus, chip), bus.view, bus.cur, rc)
  {
    var status;
    rc, status := AwaitValid(bus, chip);
    if rc < 0 {
      return;
    }
    if Bit(status, STAT_EXPECT) {
      return ERR_TRANSFER;
    }
    rc := bus.WriteByte(Addr(chip.locality, REG_STATUS), STAT_GO);
  }

  method Send(bus: Bus, chip: Chip, cmd: array<byte>) returns (rc: int)
    requires bus.Valid() && bus.view == Fresh && cmd.Length == MAX_CMDBUF
    modifies bus`trace, bus`lastError, bus`cur, bus`view
    ensures bus.Valid() && SendOutcome(Now(bus, chip), bus.view, bus.cur, cmd[..], chip.locality, rc)
  {
    ghost var next;
    rc, next := SendHeader(bus, chip, cmd);
    assert cmd[..next] == cmd[..][..next];
    if rc < 0 {
      return;
    }
    var len := SizeOf(cmd);
    if len < HEADER_SIZE {
      return INVALID_PARAM;
    }
    rc, next := SendBody(bus, chip, cmd, len);
    assert cmd[..next] == cmd[..][..next];
    if rc < 0 {
      return;
    }
    SameAnnounced(cmd[..len], cmd[..]);
    rc := Launch(bus, chip, Outgoing(cmd[..]));
  }

  /** Nothing changed about the command the device holds. */
  ghost predicate SameCommand(v: View, w: View) {
    w.accepted == v.accepted && w.written == v.written && w.goes == v.goes
  }

  /** A command runs and the bytes handed out so far are at the front of `buf`, `size` of them. */
  ghost predicate Receiving(v: View, buf: seq<byte>, size: nat, locality: byte) {
    v.ok && v.accepted.Some? && |v.served| == size && v.served <= buf && v.bases <= {locality % 16}
  }

  /** From index `k` on the buffer is as it was. */
  ghost predicate SameFrom(a: seq<byte>, b: seq<byte>, k: nat) {
    |a| == |b| && forall i :: k <= i < |a| ==> a[i] == b[i]
  }

  /** Reads at most `burst` bytes into `buf` at `size`, stopping when `loopIndex` reaches `readSize`. */
  method ReadBurst(bus: Bus, chip: Chip, buf: array<byte>, size0: nat, loop0: nat, readSize: nat, burst: nat)
    returns (rc: int, size: nat, loopIndex: nat)
    requires bus.Valid() && buf.Length == MAX_CMDBUF && size0 <= MAX_CMDBUF && loop0 <= readSize
    requires Receiving(bus.view, buf[..], size0, chip.locality) && bus.view.avail && bus.view.credit == burst
    requires bus.view.clean
    modifies bus`trace, bus`lastError, bus`cur, bus`view, buf
    ensures bus.Valid() && (TransportCode(rc) || rc == OUT_OF_BOUNDS)
    ensures size0 <= size <= MAX_CMDBUF && loopIndex - loop0 == size - size0 <= burst && loopIndex <= readSize
    ensures Receiving(bus.view, buf[..], size, chip.locality) && bus.view.avail
    ensures SameCommand(old(bus.view), bus.view)
    ensures old(bus.view.served) <= bus.view.served && bus.view.bursts == old(bus.view.bursts)
    ensures rc == SUCCESS ==> bus.view.clean
    ensures rc == SUCCESS ==> (loopIndex == readSize || size == size0 + burst) && SameFrom(buf[..], old(buf[..]), size)
    ensures rc != SUCCESS ==>
      loopIndex < readSize && size < size0 + burst && (rc == OUT_OF_BOUNDS || AccessFailed(bus.cur, rc))
    ensures rc != SUCCESS ==> if rc == OUT_OF_BOUNDS then size == MAX_CMDBUF < size0 + burst else size < MAX_CMDBUF
  {
    size, loopIndex := size0, loop0;
    var left := burst;
    while left > 0 && loopIndex < readSize
      invariant size0 <= size <= MAX_CMDBUF && loopIndex - loop0 == size - size0 == burst - left
      invariant left >= 0 && loopIndex <= readSize
      invariant bus.Valid() && Receiving(bus.view, buf[..], size, chip.locality) && bus.view.avail
      invariant bus.view.credit == left && bus.view.clean
      invariant SameCommand(old(bus.view), bus.view) && bus.view.bursts == old(bus.view.bursts)
      invariant old(bus.view.served) <= bus.view.served && SameFrom(buf[..], old(buf[..]), size)
    {
      if size == MAX_CMDBUF {
        return OUT_OF_BOUNDS, size, loopIndex;
      }
      var val;
      rc, val := bus.ReadByte(Addr(chip.locality, REG_DATA_FIFO), buf[size]);
      buf[size] := val;
      if rc < 0 {
        return;
      }
      left, loopIndex, size := left - 1, loopIndex + 1, size + 1;
    }
    rc := SUCCESS;
  }

  /** The bytes a read in this mode waits for. */
  function ReadSize(expected: int): int {
    if expected == READ_HEADER then HEADER_SIZE else expected
  }

  /** How far `loopIndex` runs behind `size` in this mode. */
  function Lead(expected: int): nat {
    if expected == READ_HEADER then 0 else HEADER_SIZE
  }

  /** Between two bursts of a read of `expected` bytes. */
  ghost predicate ReadState(v: View, expected: int) {
    var size := |v.served|;
    && Lead(expected) <= size <= MAX_CMDBUF
    && (expected == READ_HEADER ==> v.bursts == [] && size <= HEADER_SIZE)
    && (expected != READ_HEADER ==>
          && 0 <= expected <= MAX_CMDBUF && Announced(v.served) == expected
          && size == Consumed(expected, v.bursts))
  }

  lemma SameAnnounced(a: seq<byte>, b: seq<byte>)
    requires HEADER_SIZE <= |a| && a <= b
    ensures Announced(a) == Announced(b)
  {
  }

  /** After a failed wait for AVAIL the last access does not show it. */
  lemma AvailMissed(log0: seq<SpiWire.Access>, log: seq<SpiWire.Access>, locality: byte, polls: nat, rc: int, status: byte)
    requires Waited(log0, log, locality, REG_STATUS, STAT_AVAIL, polls, rc, status) && rc != SUCCESS
    requires TransportCode(rc)
    ensures !ShowsAvail(Watch(log))
  {
    var last := |log| - 1;
    WatchStep(log[..last], log[last]);
    assert log[..last] + [log[last]] == log;
    if log[last].val != [] {
      OneBitMask(log[last].val[0], STAT_AVAIL);
    }
  }

  /** How a read in the given mode can end early. */
  ghost predicate ReadFailure(w: Timing, v: View, log: seq<SpiWire.Access>, expected: int, rc: int) {
    && (expected == READ_HEADER ==> rc != OUT_OF_BOUNDS && |v.served| < HEADER_SIZE)
    && (expected != READ_HEADER ==> expected >= 0 && |v.served| >= HEADER_SIZE && Announced(v.served) == expected)
    && (rc == OUT_OF_BOUNDS <==> expected != READ_HEADER && |v.served| == MAX_CMDBUF < Consumed(expected, v.bursts))
    && (rc != OUT_OF_BOUNDS ==> Faulted(w, v, log, rc))
    && !Taken(v)
  }

  /** One burst count and the bytes read under it. */
  method ReadRound(bus: Bus, chip: Chip, buf: array<byte>, size0: nat, expected: int) returns (rc: int, size: nat)
    requires bus.Valid() && buf.Length == MAX_CMDBUF && size0 < ReadSize(expected)
    requires ReadState(bus.view, expected) && bus.view.clean
    requires Receiving(bus.view, buf[..], size0, chip.locality) && bus.view.avail
    modifies bus`trace, bus`lastError, bus`cur, bus`view, buf
    ensures bus.Valid() && (TransportCode(rc) || rc == OUT_OF_BOUNDS)
    ensures size0 <= size <= MAX_CMDBUF && Receiving(bus.view, buf[..], size, chip.locality) && bus.view.avail
    ensures SameCommand(old(bus.view), bus.view)
    ensures rc == SUCCESS ==> bus.view.clean
    ensures rc == SUCCESS ==> size0 < size && SameFrom(buf[..], old(buf[..]), size) && ReadState(bus.view, expected)
    ensures rc != SUCCESS ==> ReadFailure(Now(bus, chip), bus.view, bus.cur, expected, rc)
  {
    size := size0;
    ghost var bursts := bus.view.bursts;
    var burst;
    rc, burst := GetBurstcount(bus, chip);
    if rc < 0 {
      return;
    }
    ghost var had := bus.view.served;
    var loopIndex;
    rc, size, loopIndex := ReadBurst(bus, chip, buf, size0, size0 - Lead(expected), ReadSize(expected), burst);
    if expected != READ_HEADER {
      SameAnnounced(had, bus.view.served);
      ConsumedStep(expected, bursts, burst);
    }
  }

  /** Waits until the device shows AVAIL. */
  method AwaitAvail(bus: Bus, chip: Chip) returns (rc: int)
    requires bus.Valid() && bus.view.accepted.Some?
    modifies bus`trace, bus`lastError, bus`cur, bus`view
    ensures bus.Valid() && TransportCode(rc)
    ensures Polled(old(bus.view), bus.view, chip.locality) && bus.view.credit == old(bus.view).credit
    ensures rc == SUCCESS <==> ShowsAvail(bus.view)
    ensures if rc == SUCCESS then bus.view.avail && (old(bus.view).clean ==> bus.view.clean)
      else
        || AccessFailed(bus.cur, rc)
        || (rc == ERR_TIMEOUT && TimedOut(Now(bus, chip), bus.cur, REG_STATUS, STAT_AVAIL, chip.timeouts.msecC))
  {
    ghost var t, log := bus.trace, bus.cur;
    var status;
    rc, status := WaitRegBits(bus, chip.locality, REG_STATUS, STAT_AVAIL, chip.timeouts.msecC);
    OneBitMask(status, STAT_AVAIL);
    if rc < 0 {
      WaitExpired(Now(bus, chip), t, log, bus.cur, chip.locality, REG_STATUS, STAT_AVAIL, chip.timeouts.msecC, rc, status);
      AvailMissed(log, bus.cur, chip.locality, bus.plat.polls(t, chip.timeouts.msecC), rc, status);
    }
  }

  /** Reads the response header when `expected` is READ_HEADER, else the rest of a response of `expected` bytes. In the
      second case the index that bounds the inner loop runs ten behind `size`, which bounds the outer one. */
  method ReadData(bus: Bus, chip: Chip, buf: array<byte>, size0: nat, expected: int) returns (rc: int, size: nat)
    requires bus.Valid() && buf.Length == MAX_CMDBUF && size0 == Lead(expected) && expected != HEADER_SIZE
    requires ReadState(bus.view, expected) && bus.view.clean
    requires Receiving(bus.view, buf[..], size0, chip.locality)
    modifies bus`trace, bus`lastError, bus`cur, bus`view, buf
    ensures bus.Valid() && (TransportCode(rc) || rc == OUT_OF_BOUNDS)
    ensures size0 <= size <= MAX_CMDBUF && Receiving(bus.view, buf[..], size, chip.locality)
    ensures SameCommand(old(bus.view), bus.view)
    ensures rc == SUCCESS ==> ReadSize(expected) <= size && SameFrom(buf[..], old(buf[..]), size)
    ensures rc == SUCCESS ==> ReadState(bus.view, expected) && bus.view.clean && (size == size0 ==> ShowsAvail(bus.view))
    ensures rc != SUCCESS ==> ReadFailure(Now(bus, chip), bus.view, bus.cur, expected, rc)
  {
    size := size0;
    rc := AwaitAvail(bus, chip);
    if rc < 0 {
      return;
    }
    while size < ReadSize(expected)
      invariant size0 <= size <= MAX_CMDBUF
      invariant bus.Valid() && Receiving(bus.view, buf[..], size, chip.locality) && bus.view.avail
      invariant SameCommand(old(bus.view), bus.view)
      invariant ReadState(bus.view, expected) && SameFrom(buf[..], old(buf[..]), size) && bus.view.clean
      invariant size == size0 ==> ShowsAvail(bus.view)
    {
      rc, size := ReadRound(bus, chip, buf, size, expected);
      if rc < 0 {
        return;
      }
    }
    rc := SUCCESS;
  }

  /** The response is announced to be larger than a buffer. */
  ghost predicate Oversized(v: View) {
    |v.served| >= HEADER_SIZE && Announced(v.served) > MAX_CMDBUF
  }

  /** The buffer is full and the burst counts make the code go on. */
  ghost predicate Overrun(v: View) {
    |v.served| == MAX_CMDBUF && Announced(v.served) <= MAX_CMDBUF < Consumed(Announced(v.served), v.bursts)
  }

  /** The buffer starts with the bytes the device handed out, at least the announced ones and as many as its burst counts
      make the code consume, and is otherwise as before. */
  ghost predicate Delivered(v: View, buf: seq<byte>, before: seq<byte>) {
    && HEADER_SIZE <= |v.served| <= MAX_CMDBUF
    && v.served <= buf && SameFrom(buf, before, |v.served|)
    && var n := Announced(v.served);
    && n <= MAX_CMDBUF && n <= |v.served| == Consumed(n, v.bursts)
  }

  /** What a receive leaves behind: the bytes handed out are at the front of the buffer in any case, the result is the
      announced size exactly for a bare header, and each failure has its cause. */
  ghost predicate ReceiveOutcome(w: Timing, v: View, log: seq<SpiWire.Access>, buf: seq<byte>, before: seq<byte>,
                                 rc: int)
  {
    && v.ok && |v.served| <= MAX_CMDBUF && v.served <= buf
    && (rc == INVALID_PARAM <==> Oversized(v))
    && (rc == OUT_OF_BOUNDS <==> Overrun(v))
    && (rc >= 0 <==> Taken(v))
    && (rc >= 0 ==>
          && Delivered(v, buf, before)
          && rc == if Announced(v.served) == HEADER_SIZE then HEADER_SIZE else SUCCESS)
    && (rc < 0 && rc != INVALID_PARAM && rc != OUT_OF_BOUNDS ==> TransportCode(rc) && Faulted(w, v, log, rc))
  }

  lemma WholeTaken(v: View, expected: nat)
    requires ReadState(v, expected) && |v.served| >= expected && (|v.served| == HEADER_SIZE ==> ShowsAvail(v))
    ensures Taken(v)
  {
    if expected < HEADER_SIZE {
      ConsumedBare(expected, v.bursts);
    }
  }

  method Receive(bus: Bus, chip: Chip, buf: array<byte>) returns (rc: int)
    requires bus.Valid() && buf.Length == MAX_CMDBUF
    requires Receiving(bus.view, buf[..], 0, chip.locality) && bus.view.bursts == [] && bus.view.clean
    modifies bus`trace, bus`lastError, bus`cur, bus`view, buf
    ensures bus.Valid() && SameCommand(old(bus.view), bus.view) && bus.view.bases <= {chip.locality % 16}
    ensures ReceiveOutcome(Now(bus, chip), bus.view, bus.cur, buf[..], old(buf[..]), rc)
  {
    var size;
    rc, size := ReadData(bus, chip, buf, 0, READ_HEADER);
    if rc < 0 {
      return;
    }
    SameAnnounced(bus.view.served, buf[..]);
    var expected := SizeOf(buf);
    if expected > MAX_CMDBUF {
      return INVALID_PARAM;
    }
    if size == expected {
      return size;
    }
    rc, size := ReadData(bus, chip, buf, size, expected);
    if rc < 0 {
      return;
    }
    WholeTaken(bus.view, expected);
    if size < expected {
      return ERR_RESPONSE;
    }
    return SUCCESS;
  }
}
