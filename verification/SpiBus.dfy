/** Register access over SPI (src/tpm2_fifo_spi.c). */
module SpiBus {
  import opened Bytes
  import opened Codes
  import opened SpiWire
  import opened DeviceView

  /** The bus, the last transport error, and the ghost history of register accesses: `done` holds the finished
      exchanges, `cur` the running one and `view` what the observer makes of it. */
  class Bus {
    const plat: Platform
    var trace: seq<BusEvent>
    var lastError: int
    ghost var done: seq<seq<Access>>
    ghost var cur: seq<Access>
    ghost var view: View

    /** The trace is what the platform answered, call by call, and the error is the last one in it. */
    predicate Recorded()
      reads this`trace, this`lastError
    {
      lastError == LastError(trace) && FromPlatform(plat, trace)
    }

    /** The bus is free, the monitor reads off the wire exactly the accesses made, what the platform answered is recorded,
        and every finished exchange kept to the FIFO protocol. */
    ghost predicate Valid()
      reads this
    {
      && Replay(trace).phase.Idle?
      && AgreeAll(Replay(trace).seen, Flat(done) + cur)
      && Recorded()
      && view == Watch(cur)
      && forall i :: 0 <= i < |done| ==> Watch(done[i]).ok
    }

    constructor (plat: Platform)
      ensures Valid() && this.plat == plat && trace == [] && done == [] && cur == []
    {
      this.plat := plat;
      trace, lastError, done, cur, view := [], 0, [], [], Fresh;
    }

    /** Closes the running exchange in the ghost history. */
    ghost method EndExchange()
      requires Valid() && view.ok
      modifies this`done, this`cur, this`view
      ensures Valid() && done == old(done) + [old(cur)] && cur == [] && view == Fresh
    {
      FlatAppend(done, cur);
      done, cur, view := done + [cur], [], Fresh;
      assert Flat(done) + cur == Flat(done);
    }

    method Transfer(dout: Buf, wantsIn: bool, len: byte) returns (rc: int, din: Buf)
      requires Recorded()
      modifies this`trace, this`lastError
      ensures trace == old(trace) + [BusEvent.Transfer(len, dout, din, rc)]
      ensures Answered(plat, old(trace), BusEvent.Transfer(len, dout, din, rc))
      ensures din.Buf? == wantsIn && (wantsIn ==> |din.data| == len)
      ensures Recorded()
    {
      var (r, bytes) := plat.xfer(trace, len, dout);
      rc := r;
      din := if wantsIn then Buf(seq(len, i => if 0 <= i < |bytes| then bytes[i] else 0)) else NoBuf;
      LastErrorStep(trace, BusEvent.Transfer(len, dout, din, rc));
      FromPlatformStep(plat, trace, BusEvent.Transfer(len, dout, din, rc));
      trace := trace + [BusEvent.Transfer(len, dout, din, rc)];
      if rc != 0 {
        lastError := rc;
      }
    }

    /** A length of zero makes the header unreadable, which breaks the protocol. */
    method StartTransaction(reg: u16, write: bool, len: byte) returns (rc: int)
      requires Replay(trace).phase == Selected && Recorded()
      modifies this`trace, this`lastError
      ensures Recorded() && OnlyTransfers(old(trace), trace)
      ensures Replay(trace).seen == old(Replay(trace).seen)
      ensures var p := Replay(trace).phase; var h := Header(write, len, reg);
        || (rc == INVALID_PARAM && p == Selected && len > ENCODE_LIMIT)
        || (len == 0 && p.Broken? && TransportCode(rc))
        || (len >= 1 && Started(p, h, rc))
    {
      if len > ENCODE_LIMIT {
        return INVALID_PARAM;
      }
      ghost var h := Header(write, len, reg);
      var header: seq<byte> := EncodeHeader(Header(write, len, reg));
      ghost var t := trace;
      var r, response := Transfer(Buf(header), true, 4);
      HeaderStep(t, h, response, r);
      if r != 0 {
        return ERR_TRANSFER;
      }
      if Bit(response.data[3], 0x01) {
        return SUCCESS;
      }
      t := trace;
      rc := PollWait();
      PollRunTransfers(t, trace, rc);
      TransfersOn(old(trace), t, trace);
      if len >= 1 {
        PollRunReplay(t, trace, rc, h);
      } else {
        BrokenReplay(t, trace);
      }
    }

    /** Clocks zero bytes until the wait state is over, at most fifty times. */
    method PollWait() returns (rc: int)
      requires Recorded()
      modifies this`trace, this`lastError
      ensures Recorded() && old(trace) <= trace && PollRun(old(trace), trace, rc)
    {
      var retries := RETRY_COUNT;
      while retries > 0
        invariant 0 <= retries <= RETRY_COUNT && |trace| == |old(trace)| + RETRY_COUNT - retries
        invariant Recorded() && Misses(old(trace), trace)
      {
        ghost var t := trace;
        var r, poll := Transfer(Buf([0]), true, 1);
        assert trace[..|trace| - 1] == t;
        if r != 0 {
          return ERR_TRANSFER;
        }
        if Bit(poll.data[0], 0x01) {
          return SUCCESS;
        }
        retries := retries - 1;
      }
      return ERR_TIMEOUT;
    }

    method EndTransaction()
      requires Recorded()
      modifies this`trace
      ensures trace == old(trace) + [Stop, ReleaseAccess]
      ensures Replay(trace) == Step(Step(old(Replay(trace)), Stop), ReleaseAccess)
      ensures Recorded()
    {
      Closing(trace);
      trace := trace + [Stop];
      trace := trace + [ReleaseAccess];
      assert trace == old(trace) + [Stop, ReleaseAccess];
    }

    method Init() returns (rc: int)
      requires Replay(trace).phase.Idle? && Recorded()
      modifies this`trace, this`lastError
      ensures Recorded()
      ensures rc == 0 <==> plat.access(old(trace)) == 0
      ensures rc == 0 ==> trace == old(trace) + [GetAccess(0), Start]
      ensures rc == 0 ==> Replay(trace) == old(Replay(trace)).(phase := Selected)
      ensures rc != 0 ==> rc == ERR_TRANSFER && trace == old(trace) + [GetAccess(plat.access(old(trace)))]
      ensures rc != 0 ==> Replay(trace) == Monitor(Idle, old(Replay(trace).seen) + [Unaddressed])
    {
      Opening(plat, trace);
      var r := plat.access(trace);
      trace := trace + [GetAccess(r)];
      if r != 0 {
        lastError := r;
        return ERR_TRANSFER;
      }
      trace := trace + [Start];
      assert trace == old(trace) + [GetAccess(0), Start];
      return 0;
    }

    /** The transfers of one access: header, wait state and data phase, as far as they succeed. */
    method Clock(reg: u16, write: bool, val: seq<byte>) returns (rc: int, out: seq<byte>)
      requires Replay(trace).phase == Selected && Recorded() && |val| < 0x100
      modifies this`trace, this`lastError
      ensures Recorded() && OnlyTransfers(old(trace), trace)
      ensures Replay(trace).seen == old(Replay(trace).seen) && |out| == |val| && (write ==> out == val)
      ensures TransportCode(rc) || (rc == INVALID_PARAM && |val| > ENCODE_LIMIT)
      ensures var p := Replay(trace).phase;
        if val == [] then p.Broken?
        else Settles(p) && Agree(Settlement(p), Access(write, reg, if write || rc == 0 then out else [], rc))
    {
      out := val;
      rc := StartTransaction(reg, write, |val|);
      if rc != 0 {
        return;
      }
      ghost var t := trace;
      var r, data := Transfer(if write then Buf(val) else NoBuf, !write, |val|);
      DataStep(t, |val|, if write then Buf(val) else NoBuf, data, r);
      if !write {
        out := data.data;
      }
      rc := if r != 0 then ERR_TRANSFER else SUCCESS;
    }

    /** One register access, bracketed on every path. `val` is what the caller's buffer holds before, `out` after; `w` is
        what the bus showed of it. No device can make sense of an access of length zero. */
    method FifoIo(reg: u16, write: bool, val: seq<byte>) returns (rc: int, out: seq<byte>, ghost w: WireEvent)
      requires Replay(trace).phase.Idle? && Recorded() && |val| < 0x100
      modifies this`trace, this`lastError
      ensures Recorded() && OneBlock(old(trace), trace)
      ensures |out| == |val| && (write ==> out == val)
      ensures TransportCode(rc) || (rc == INVALID_PARAM && |val| > ENCODE_LIMIT)
      ensures val != [] ==>
        && Replay(trace) == Monitor(Idle, old(Replay(trace).seen) + [w])
        && Agree(w, Access(write, reg, if write || rc == 0 then out else [], rc))
      ensures val == [] ==> Replay(trace).phase.Broken? || (rc == ERR_TRANSFER && w == Unaddressed)
    {
      out := val;
      w := Unaddressed;
      rc := Init();
      if rc != 0 {
        return;
      }
      rc, out := Clock(reg, write, val);
      w := Settlement(Replay(trace).phase);
      BlockClosed(old(trace), trace);
      EndTransaction();
    }

    method WriteByte(reg: u16, val: byte) returns (rc: int)
      requires Valid()
      modifies this`trace, this`lastError, this`cur, this`view
      ensures Valid() && TransportCode(rc) && old(trace) <= trace
      ensures cur == old(cur) + [Access(true, reg, [val], rc)]
      ensures view == Observe(old(view), Access(true, reg, [val], rc))
    {
      ghost var m := Replay(trace);
      ghost var w;
      var out;
      rc, out, w := FifoIo(reg, true, [val]);
      Log(Access(true, reg, [val], rc), m, w);
    }

    /** `current` is what the caller's variable holds before, `val` after. */
    method ReadByte(reg: u16, current: byte) returns (rc: int, val: byte)
      requires Valid()
      modifies this`trace, this`lastError, this`cur, this`view
      ensures Valid() && TransportCode(rc) && old(trace) <= trace
      ensures cur == old(cur) + [Access(false, reg, if rc == 0 then [val] else [], rc)]
      ensures view == Observe(old(view), Access(false, reg, if rc == 0 then [val] else [], rc))
    {
      ghost var m := Replay(trace);
      ghost var w;
      var out;
      rc, out, w := FifoIo(reg, false, [current]);
      val := out[0];
      assert out == [val];
      Log(Access(false, reg, if rc == 0 then [val] else [], rc), m, w);
    }

    /** Ghost bookkeeping at the end of an access. */
    ghost method Log(a: Access, m: Monitor, w: WireEvent)
      requires view == Watch(cur) && AgreeAll(m.seen, Flat(done) + cur) && Recorded()
      requires Replay(trace) == Monitor(Idle, m.seen + [w]) && Agree(w, a)
      requires forall i :: 0 <= i < |done| ==> Watch(done[i]).ok
      modifies this`cur, this`view
      ensures Valid() && cur == old(cur) + [a] && view == Observe(old(view), a)
    {
      WatchStep(cur, a);
      assert Flat(done) + (cur + [a]) == (Flat(done) + cur) + [a];
      cur, view := cur + [a], Observe(view, a);
    }
  }
}
