/** What every run of the driver leaves on the bus, through all layers. */
module RunFacts {
  import opened Bytes
  import opened SpiWire
  import opened SpiWireFacts
  import opened SpiBus
  import opened DeviceView
  import opened DeviceFacts

  /** All register accesses of a run, in order. */
  ghost function Accesses(bus: Bus): seq<Access>
    reads bus
  {
    Flat(bus.done) + bus.cur
  }

  /** Bracket by bracket, the bus shows these accesses. */
  ghost predicate OnTheWire(bs: seq<seq<BusEvent>>, log: seq<Access>)
    requires |bs| == |log|
  {
    forall i :: 0 <= i < |bs| ==> Carried(bs[i], log[i])
  }

  /** The bracket shows the access. */
  ghost predicate Carried(b: seq<BusEvent>, a: Access) {
    exists w :: Shows(b, w) && Agree(w, a)
  }

  /** Whatever calls were made and however they failed, between accesses the bus trace is made of refused get_access calls
      and full brackets that show the register accesses one by one, with at most 52 transfers each; every event is what the
      platform answered after the ones before it; the recorded error is that of the last failed platform call; and the
      observer approves of every finished exchange. */
  lemma RunOnTheBus(bus: Bus)
    requires bus.Valid()
    ensures exists bs :: Flat(bs) == bus.trace && Blocks(bs) && |bs| == |Accesses(bus)| && OnTheWire(bs, Accesses(bus))
    ensures Transfers(bus.trace) <= 52 * |Accesses(bus)|
    ensures AgreeAll(Replay(bus.trace).seen, Accesses(bus))
    ensures forall i :: 0 <= i < |bus.trace| ==> Answered(bus.plat, bus.trace[..i], bus.trace[i])
    ensures bus.lastError != 0 ==>
      exists i :: 0 <= i < |bus.trace| && Failed(bus.trace[i]) && bus.trace[i].rc == bus.lastError
                  && forall j :: i < j < |bus.trace| ==> !Failed(bus.trace[j])
    ensures bus.lastError == 0 <==> forall i :: 0 <= i < |bus.trace| ==> !Failed(bus.trace[i])
    ensures forall i :: 0 <= i < |bus.done| ==> Watch(bus.done[i]).ok
  {
    var bs := BracketedWhenIdle(bus.trace);
    assert OnTheWire(bs, Accesses(bus));
    TransferBound(bus.trace);
    LastErrorIsLast(bus.trace);
    forall i | 0 <= i < |bus.trace|
      ensures Answered(bus.plat, bus.trace[..i], bus.trace[i])
    {
      AnsweredAt(bus.plat, bus.trace, i);
    }
  }

  /** Nothing is written after a GO. */
  ghost predicate GoKept(log: seq<Access>) {
    forall i, j :: 0 <= i < j < |log| && IsGo(log[i]) ==> !log[j].write
  }

  /** Every GO directly follows a STATUS that allows it. */
  ghost predicate GoEarned(log: seq<Access>) {
    forall i :: 0 <= i < |log| && IsGo(log[i]) ==> i > 0 && ReadyStatus(log[i - 1])
  }

  /** The data FIFO is written only after COMMAND_READY and read only after a successful GO. */
  ghost predicate FifoEarned(log: seq<Access>) {
    forall i :: 0 <= i < |log| && log[i].reg % 0x1000 == REG_DATA_FIFO ==>
      exists j :: 0 <= j < i && if log[i].write then ShowsReady(log[j]) else IsGo(log[j]) && log[j].rc == 0
  }

  /** The last reading of the burst count before access `n` is completed by access `i`. */
  ghost predicate LastReading(log: seq<Access>, i: nat, n: nat) {
    i < n <= |log| && ReportsBurst(log, i) && forall k :: i < k < n ==> !ReportsBurst(log, k)
  }

  /** From a reading of the burst count up to the next one the FIFO is touched at most as often as it reported. */
  ghost predicate BurstsKept(log: seq<Access>) {
    forall i: nat, n: nat :: LastReading(log, i, n) ==> FifoAccesses(log[i + 1..n]) <= Join(log[i].val[0], log[i - 1].val[0])
  }

  /** Nothing is done after an access that failed. */
  ghost predicate FailuresEnd(log: seq<Access>) {
    forall i :: 0 <= i < |log| - 1 ==> log[i].rc == 0
  }

  /** Before the first byte of a command a locality may be asked for, and COMMAND_READY right after a STATUS that lacks it;
      nothing else is written besides the FIFO and GO. */
  ghost predicate AsksEarned(log: seq<Access>) {
    forall i :: 0 <= i < |log| && log[i].write && log[i].reg % 0x1000 != REG_DATA_FIFO && !IsGo(log[i]) ==>
      && FifoBytes(log[..i], true) == []
      && if log[i].reg % 0x1000 == REG_STATUS then
           log[i].val == [STAT_COMMAND_READY] && i > 0 && ShowsUnready(log[i - 1])
         else log[i].reg % 0x1000 == REG_ACCESS && log[i].val == [ACCESS_REQUEST_USE]
  }

  lemma AllAsksEarned(log: seq<Access>)
    requires Watch(log).ok
    ensures AsksEarned(log)
  {
    forall i | 0 <= i < |log| && log[i].write && log[i].reg % 0x1000 != REG_DATA_FIFO && !IsGo(log[i])
      ensures FifoBytes(log[..i], true) == []
      ensures if log[i].reg % 0x1000 == REG_STATUS then
          log[i].val == [STAT_COMMAND_READY] && i > 0 && ShowsUnready(log[i - 1])
        else log[i].reg % 0x1000 == REG_ACCESS && log[i].val == [ACCESS_REQUEST_USE]
    {
      AskDiscipline(log, i);
    }
  }

  /** Every finished exchange of every run kept to the protocol: queries, allocations, reads and extends alike. */
  lemma RunKeepsProtocol(bus: Bus, n: nat)
    requires bus.Valid() && n < |bus.done|
    ensures Watch(bus.done[n]).ok
    ensures GoEarned(bus.done[n]) && GoKept(bus.done[n]) && FifoEarned(bus.done[n]) && BurstsKept(bus.done[n])
    ensures FailuresEnd(bus.done[n]) && AsksEarned(bus.done[n])
  {
    var log := bus.done[n];
    forall i | 0 <= i < |log| - 1
      ensures log[i].rc == 0
    {
      FailureEnds(log, i);
    }
    AllAsksEarned(log);
    forall i: nat, n: nat | LastReading(log, i, n)
      ensures FifoAccesses(log[i + 1..n]) <= Join(log[i].val[0], log[i - 1].val[0])
    {
      BurstDiscipline(log, i, n);
    }
    forall i | 0 <= i < |log| && IsGo(log[i])
      ensures i > 0 && ReadyStatus(log[i - 1])
      ensures forall j :: i < j < |log| ==> !log[j].write
    {
      GoDiscipline(log, i);
    }
    forall i | 0 <= i < |log| && log[i].reg % 0x1000 == REG_DATA_FIFO
      ensures exists j :: 0 <= j < i && if log[i].write then ShowsReady(log[j]) else IsGo(log[j]) && log[j].rc == 0
    {
      if log[i].write {
        var j := WriteDiscipline(log, i);
      } else {
        var j := ReadDiscipline(log, i);
      }
    }
  }
}
