/** Why an exchange may fail: what the last register accesses and the clock must show for each error. */
module Faults {
  import opened Bytes
  import opened Codes
  import opened DeviceView
  import opened SpiWire

  const ACCESS_ACTIVE_LOCALITY: byte := 0x20

  /** The chip's time limits in milliseconds. */
  datatype Timeouts = Timeouts(msecA: nat, msecB: nat, msecC: nat, msecD: nat)

  /** What time-outs are measured against: the platform's clock, the chip's limits and the bus traffic so far. */
  datatype Timing = Timing(plat: Platform, timeouts: Timeouts, trace: seq<BusEvent>)

  /** A successful read of a register that does not show all bits of a mask. */
  predicate Lacking(a: Access, offset: nat, mask: byte) {
    !a.write && a.reg % 0x1000 == offset && a.rc == SUCCESS && |a.val| == 1 && !AllSet(a.val[0], mask)
  }

  /** A successful read of a register that is zero. */
  predicate ReadsZero(a: Access, offset: nat) {
    !a.write && a.reg % 0x1000 == offset && a.rc == SUCCESS && a.val == [0]
  }

  /** `t` is the bus traffic before the last `n` accesses of the traffic so far. */
  ghost predicate Before(w: Timing, t: seq<BusEvent>, n: int) {
    t <= w.trace && Replay(t).phase.Idle? && |Replay(w.trace).seen| == |Replay(t).seen| + n
  }

  /** A timer armed for `msec` at `t` has run out over a register that lacks the mask: since then there was nothing but one
      miss for every time the clock lets the timer be found running, and a last one. */
  ghost predicate MissedSince(w: Timing, t: seq<BusEvent>, log: seq<Access>, offset: nat, mask: byte, msec: nat) {
    var n := w.plat.polls(t, msec) + 1;
    Before(w, t, n) && n <= |log| && forall i :: |log| - n <= i < |log| ==> Lacking(log[i], offset, mask)
  }

  ghost predicate TimedOut(w: Timing, log: seq<Access>, offset: nat, mask: byte, msec: nat) {
    exists t :: MissedSince(w, t, log, offset, mask, msec)
  }

  /** The same for the two bytes of a burst count that stays zero. */
  ghost predicate NoBurstSince(w: Timing, t: seq<BusEvent>, log: seq<Access>, msec: nat) {
    var n := 2 * (w.plat.polls(t, msec) + 1);
    && Before(w, t, n) && n <= |log|
    && forall i :: |log| - n <= i < |log| ==> ReadsZero(log[i], if (|log| - i) % 2 == 0 then REG_BURST_LO else REG_BURST_HI)
  }

  ghost predicate NoBurst(w: Timing, log: seq<Access>, msec: nat) {
    exists t :: NoBurstSince(w, t, log, msec)
  }

  /** The device was asked to get ready and did not show COMMAND_READY in time. */
  ghost predicate NotReady(w: Timing, log: seq<Access>) {
    exists t ::
      && MissedSince(w, t, log, REG_STATUS, STAT_COMMAND_READY, w.timeouts.msecB)
      && AsksReady(log, |log| - 2 - w.plat.polls(t, w.timeouts.msecB))
  }

  predicate AsksReady(log: seq<Access>, i: int) {
    && 0 <= i < |log| && log[i].write && log[i].reg % 0x1000 == REG_STATUS
    && log[i].val == [STAT_COMMAND_READY] && log[i].rc == SUCCESS
  }

  /** The header is out and says that more is to come. */
  predicate MidCommand(v: View) {
    v.accepted.None? && HEADER_SIZE <= |v.written| < Announced(v.written)
  }

  /** All of the command is out and GO has not been tried. */
  predicate WholeCommand(v: View) {
    v.accepted.None? && v.goes == 0 && |v.written| >= HEADER_SIZE && Announced(v.written) == |v.written|
  }

  /** A command runs and the header, or the rest after a header that announces more or less than itself, is due. */
  predicate ResponseDue(v: View) {
    v.accepted.Some? && (v.served == [] || (|v.served| == HEADER_SIZE && HEADER_SIZE != Announced(v.served) <= MAX_CMDBUF))
  }

  /** A command runs, AVAIL was seen, and bytes of the header or of the announced rest are due. */
  predicate MidResponse(v: View) {
    && v.accepted.Some? && v.avail
    && (|v.served| < HEADER_SIZE || |v.served| < Announced(v.served) <= MAX_CMDBUF)
  }

  /** The timer ran out on what is awaited at this point of an exchange: COMMAND_READY before the command, VALID after it,
      AVAIL before each part of the response, a burst count within either. */
  ghost predicate Overdue(w: Timing, v: View, log: seq<Access>) {
    || (v.accepted.None? && v.written == [] && NotReady(w, log))
    || (WholeCommand(v) && TimedOut(w, log, REG_STATUS, STAT_VALID, w.timeouts.msecC))
    || (ResponseDue(v) && TimedOut(w, log, REG_STATUS, STAT_AVAIL, w.timeouts.msecC))
    || ((MidCommand(v) || MidResponse(v)) && NoBurst(w, log, w.timeouts.msecA))
  }

  /** The last access failed with this code. */
  predicate AccessFailed(log: seq<Access>, rc: int) {
    log != [] && rc != SUCCESS && log[|log| - 1].rc == rc
  }

  /** The last access read a STATUS that is VALID and asks for more. */
  predicate Expects(log: seq<Access>) {
    && log != []
    && var a := log[|log| - 1];
    && !a.write && a.reg % 0x1000 == REG_STATUS && a.rc == SUCCESS && |a.val| == 1
    && Bit(a.val[0], STAT_VALID) && Bit(a.val[0], STAT_EXPECT)
  }

  /** The device accounts for this transport error: the last access failed with that code, what was awaited did not come in
      time, or the device EXPECTed more after the whole command. */
  ghost predicate Faulted(w: Timing, v: View, log: seq<Access>, rc: int) {
    || AccessFailed(log, rc)
    || (rc == ERR_TIMEOUT && Overdue(w, v, log))
    || (rc == ERR_TRANSFER && WholeCommand(v) && Expects(log))
  }
}
