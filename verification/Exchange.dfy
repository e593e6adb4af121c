/** One command and its response (tpm_xfer in src/tpm2_cmds.c). */
module Exchange {
  import opened Bytes
  import opened Codes
  import opened DeviceView
  import opened Faults
  import opened SpiBus
  import opened Fifo
  import SpiWire

  /** How the exchange of a command that fits its buffer can fail: the device accounts for a transport error, the response
      is announced to be too large, or its burst counts overrun the buffer. */
  ghost predicate ExchangeFailed(w: Timing, log: seq<SpiWire.Access>, rc: int) {
    || (TransportCode(rc) && Faulted(w, Watch(log), log, rc))
    || (rc == INVALID_PARAM && Oversized(Watch(log)))
    || (rc == OUT_OF_BOUNDS && Overrun(Watch(log)))
  }

  /** The last exchange failed with this code. */
  ghost predicate LastFailed(bus: Bus, chip: Chip, rc: int)
    reads bus
  {
    bus.done != [] && ExchangeFailed(Now(bus, chip), bus.done[|bus.done| - 1], rc)
  }

  /** The size field of a command lies between the header and the buffer size. */
  predicate WellSized(cmd: seq<byte>)
    requires |cmd| == MAX_CMDBUF
  {
    HEADER_SIZE <= Announced(cmd) <= MAX_CMDBUF
  }

  /** The command leaves the driver reading past its buffer: its size field is too large, all of the buffer is out and the
      burst count covers more. */
  ghost predicate Overread(v: View, cmd: seq<byte>)
    requires |cmd| == MAX_CMDBUF
  {
    Announced(cmd) > MAX_CMDBUF && v.written == cmd && v.credit > 0
  }

  /** What one exchange leaves behind, whatever the device did. */
  ghost predicate ExchangeOutcome(v: View, cmd: seq<byte>, resp: seq<byte>, before: seq<byte>, rc: int)
    requires |cmd| == MAX_CMDBUF
  {
    && v.ok && v.goes <= 1 && v.written <= Outgoing(cmd)
    && (v.goes == 1 ==> WellSized(cmd) && v.written == Outgoing(cmd))
    && (v.accepted.Some? ==> v.accepted == Some(Outgoing(cmd)))
    && (rc == SUCCESS <==> Taken(v))
    && (rc == SUCCESS ==> v.accepted.Some? && Delivered(v, resp, before))
    && (rc == INVALID_PARAM <==> Oversized(v) || (Announced(cmd) < HEADER_SIZE && v.written == Outgoing(cmd)))
    && (rc == OUT_OF_BOUNDS <==> Overrun(v) || Overread(v, cmd))
    && (TransportCode(rc) || rc == INVALID_PARAM || rc == OUT_OF_BOUNDS)
  }

  method Xfer(bus: Bus, chip: Chip, cmd: array<byte>, resp: array<byte>) returns (rc: int)
    requires bus.Valid() && bus.cur == [] && cmd != resp
    requires cmd.Length == resp.Length == MAX_CMDBUF
    modifies bus, resp
    ensures bus.Valid() && bus.cur == []
    ensures |bus.done| == |old(bus.done)| + 1 && bus.done[..|old(bus.done)|] == old(bus.done)
    ensures var log := bus.done[|old(bus.done)|];
      && ExchangeOutcome(Watch(log), cmd[..], resp[..], old(resp[..]), rc)
      && Watch(log).bases <= {chip.locality % 16}
      && (rc == ERR_TIMEOUT || rc == ERR_TRANSFER ==> Faulted(Now(bus, chip), Watch(log), log, rc))
  {
    rc := Send(bus, chip, cmd);
    if rc >= 0 {
      rc := Receive(bus, chip, resp);
      if rc >= 0 {
        rc := SUCCESS;
      }
    }
    bus.EndExchange();
  }

  /** Some burst count in the response body, reported while bytes were due, reached past `limit` bytes. */
  ghost predicate Overstated(v: View, limit: nat)
    requires |v.served| >= HEADER_SIZE
  {
    exists k :: 0 <= k < |v.bursts| && Exceeds(Announced(v.served), v.bursts, k, limit)
  }

  /** A successful exchange of a response that announces at least ten bytes took exactly those bytes from the device, and
      put exactly those into the buffer, if and only if no burst count overstated what was due. */
  lemma ExactExchange(v: View, resp: seq<byte>, before: seq<byte>)
    requires Delivered(v, resp, before) && Announced(v.served) >= HEADER_SIZE
    ensures var n := Announced(v.served);
      && n <= |v.served| <= n + HEADER_SIZE && n <= |resp| == |before|
      && (|v.served| == n <==> !Overstated(v, n))
      && resp[..n] == v.served[..n]
      && (!Overstated(v, n) ==> resp == v.served + before[n..])
  {
    ConsumedWithin(Announced(v.served), v.bursts, Announced(v.served));
    DeliveredBytes(v.served, resp, before);
  }

  /** A buffer that starts with some bytes and is otherwise as before is these bytes and the rest of before. */
  lemma DeliveredBytes(served: seq<byte>, resp: seq<byte>, before: seq<byte>)
    requires served <= resp && SameFrom(resp, before, |served|)
    ensures resp == served + before[|served|..]
    ensures forall n :: 0 <= n <= |served| ==> resp[..n] == served[..n]
  {
    assert resp[|served|..] == before[|served|..];
    assert resp == resp[..|served|] + resp[|served|..];
  }

  /** Of the exchanges whose response is neither cut short by a failure nor announced to be too large, exactly those leave
      the buffer in which more than 246 bytes are announced and a burst count reaches past the buffer's 256. */
  lemma LeavesBufferExactly(v: View, cmd: seq<byte>, resp: seq<byte>, before: seq<byte>, rc: int)
    requires |cmd| == MAX_CMDBUF && WellSized(cmd) && ExchangeOutcome(v, cmd, resp, before, rc)
    requires rc == SUCCESS || rc == OUT_OF_BOUNDS
    ensures |v.served| >= HEADER_SIZE
    ensures rc == OUT_OF_BOUNDS <==> Consumed(Announced(v.served), v.bursts) > MAX_CMDBUF
    ensures rc == OUT_OF_BOUNDS <==> Announced(v.served) > MAX_CMDBUF - HEADER_SIZE && Overstated(v, MAX_CMDBUF)
  {
    ConsumedWithin(Announced(v.served), v.bursts, MAX_CMDBUF);
  }

  /** In particular a first burst count above 246 for a response of more than 246 bytes always does. */
  lemma FirstBurstOverruns(v: View, cmd: seq<byte>, resp: seq<byte>, before: seq<byte>, rc: int)
    requires |cmd| == MAX_CMDBUF && WellSized(cmd) && ExchangeOutcome(v, cmd, resp, before, rc)
    requires rc == SUCCESS || rc == OUT_OF_BOUNDS
    requires
      && |v.served| >= HEADER_SIZE && Announced(v.served) > MAX_CMDBUF - HEADER_SIZE
      && v.bursts != [] && v.bursts[0] > MAX_CMDBUF - HEADER_SIZE
    ensures rc == OUT_OF_BOUNDS
  {
    LeavesBufferExactly(v, cmd, resp, before, rc);
    assert v.bursts[..0] == [];
    assert Exceeds(Announced(v.served), v.bursts, 0, MAX_CMDBUF);
  }
}
