/** What the observer's verdict means for the raw access log. */
module DeviceFacts {
  import opened Bytes
  import opened SpiWire
  import opened DeviceView

  lemma OkObserved(v: View, a: Access)
    ensures Observe(v, a).ok ==> v.ok
  {
  }

  lemma {:induction false} WatchPrefix(log: seq<Access>, k: nat)
    requires k <= |log| && Watch(log).ok
    ensures Watch(log[..k]).ok
  {
    if k < |log| {
      var front := log[..|log| - 1];
      OkObserved(Watch(front), log[|log| - 1]);
      WatchPrefix(front, k);
      assert front[..k] == log[..k];
    } else {
      assert log[..k] == log;
    }
  }

  lemma StatusObserved(v: View, a: Access)
    ensures Observe(v, a).status.Some? ==>
      !a.write && a.reg % 0x1000 == REG_STATUS && a.rc == 0 && a.val == [Observe(v, a).status.value]
  {
  }

  lemma GoAfterStatus(log: seq<Access>)
    ensures Watch(log).status.Some? ==>
      && log != []
      && var a := log[|log| - 1];
      && !a.write && a.reg % 0x1000 == REG_STATUS && a.rc == 0 && a.val == [Watch(log).status.value]
  {
    if log != [] {
      StatusObserved(Watch(log[..|log| - 1]), log[|log| - 1]);
    }
  }

  /** A STATUS read that lets the driver start the command. */
  predicate ReadyStatus(a: Access) {
    && !a.write && a.reg % 0x1000 == REG_STATUS && a.rc == 0 && |a.val| == 1
    && Bit(a.val[0], STAT_VALID) && !Bit(a.val[0], STAT_EXPECT)
  }

  /** The first write after a GO costs the approval. */
  lemma WriteAfterGo(v: View, a: Access)
    requires v.goes > 0 && a.write
    ensures !Observe(v, a).ok
  {
  }

  lemma {:induction false} SilentAfterGo(log: seq<Access>, i: nat, j: nat)
    requires Watch(log).ok && i < j < |log| && IsGo(log[i])
    ensures !log[j].write
    decreases |log|
  {
    var short := log[..|log| - 1];
    if j < |log| - 1 {
      SilentAfterGo(short, i, j);
    } else {
      GoCounted(short, i);
      if log[j].write {
        WriteAfterGo(Watch(short), log[j]);
      }
    }
  }

  lemma GoesObserved(v: View, a: Access)
    ensures Observe(v, a).goes == v.goes + if IsGo(a) then 1 else 0
  {
  }

  lemma {:induction false} GoCounted(log: seq<Access>, i: nat)
    requires i < |log| && IsGo(log[i])
    ensures Watch(log).goes > 0
  {
    var last := |log| - 1;
    var front := log[..last];
    GoesObserved(Watch(front), log[last]);
    if i < last {
      assert front[i] == log[i];
      GoCounted(front, i);
    }
  }

  lemma GoAllowed(v: View, a: Access)
    requires IsGo(a) && Observe(v, a).ok
    ensures MayGo(v)
  {
  }

  lemma GoAfterReadyStatus(log: seq<Access>, i: nat)
    requires Watch(log).ok && i < |log| && IsGo(log[i])
    ensures i > 0 && ReadyStatus(log[i - 1])
  {
    WatchPrefix(log, i + 1);
    WatchAt(log, i);
    GoAllowed(Watch(log[..i]), log[i]);
    GoAfterStatus(log[..i]);
    assert log[..i][i - 1] == log[i - 1];
  }

  /** In a log the observer approves, a GO directly follows a STATUS read that is VALID and does not EXPECT, and no
      register is written after it. */
  lemma GoDiscipline(log: seq<Access>, i: nat)
    requires Watch(log).ok && i < |log| && IsGo(log[i])
    ensures i > 0 && ReadyStatus(log[i - 1])
    ensures forall j :: i < j < |log| ==> !log[j].write
  {
    GoAfterReadyStatus(log, i);
    forall j | i < j < |log|
      ensures !log[j].write
    {
      SilentAfterGo(log, i, j);
    }
  }

  /** The accesses to the data FIFO in a log, successful or not. */
  function FifoAccesses(log: seq<Access>): nat {
    if log == [] then 0
    else FifoAccesses(log[..|log| - 1]) + (if log[|log| - 1].reg % 0x1000 == REG_DATA_FIFO then 1 else 0)
  }

  /** Access `i` completes a reading of the burst count. */
  predicate ReportsBurst(log: seq<Access>, i: nat)
    requires i < |log|
  {
    && i > 0
    && !log[i - 1].write && log[i - 1].reg % 0x1000 == REG_BURST_LO && log[i - 1].rc == 0 && |log[i - 1].val| == 1
    && !log[i].write && log[i].reg % 0x1000 == REG_BURST_HI && log[i].rc == 0 && |log[i].val| == 1
  }

  lemma LowIsLastRead(log: seq<Access>)
    ensures Watch(log).low.Some? <==>
      && log != []
      && var a := log[|log| - 1];
      && !a.write && a.reg % 0x1000 == REG_BURST_LO && a.rc == 0 && |a.val| == 1
    ensures Watch(log).low.Some? ==> log[|log| - 1].val == [Watch(log).low.value]
  {
  }

  /** An access that does not report a burst count only spends credit, and never more than there is. */
  lemma CreditSpent(v: View, a: Access)
    requires Observe(v, a).ok && v.credit >= 0
    requires v.low.None? || a.write || a.reg % 0x1000 != REG_BURST_HI || a.rc != 0 || |a.val| != 1
    ensures v.ok && 0 <= Observe(v, a).credit
    ensures Observe(v, a).credit <= v.credit - (if a.reg % 0x1000 == REG_DATA_FIFO then 1 else 0)
  {
  }

  lemma WatchAt(log: seq<Access>, n: nat)
    requires n < |log|
    ensures Watch(log[..n + 1]) == Observe(Watch(log[..n]), log[n])
  {
    assert log[..n + 1][..n] == log[..n];
  }

  lemma FifoAccessesAt(log: seq<Access>, i: nat, n: nat)
    requires i < n < |log|
    ensures FifoAccesses(log[i + 1..n + 1]) ==
      FifoAccesses(log[i + 1..n]) + (if log[n].reg % 0x1000 == REG_DATA_FIFO then 1 else 0)
  {
    assert log[i + 1..n + 1][..n - i - 1] == log[i + 1..n];
  }

  /** A reading of the burst count sets the credit. */
  lemma CreditGranted(log: seq<Access>, i: nat)
    requires i < |log| && ReportsBurst(log, i)
    ensures Watch(log[..i + 1]).credit == Join(log[i].val[0], log[i - 1].val[0])
  {
    WatchAt(log, i);
    LowIsLastRead(log[..i]);
    assert log[..i][i - 1] == log[i - 1];
  }

  /** An access that does not complete a reading cannot be taken for one. */
  lemma NotReporting(log: seq<Access>, n: nat)
    requires n < |log| && !ReportsBurst(log, n)
    ensures var a := log[n];
      Watch(log[..n]).low.None? || a.write || a.reg % 0x1000 != REG_BURST_HI || a.rc != 0 || |a.val| != 1
  {
    LowIsLastRead(log[..n]);
    assert n > 0 ==> log[..n][n - 1] == log[n - 1];
  }

  /** Any other access only spends it. */
  lemma CreditStep(log: seq<Access>, n: nat, v: View, w: View)
    requires n < |log| && Watch(log).ok && !ReportsBurst(log, n)
    requires v == Watch(log[..n]) && w == Watch(log[..n + 1]) && 0 <= v.credit
    ensures 0 <= w.credit <= v.credit - (if log[n].reg % 0x1000 == REG_DATA_FIFO then 1 else 0)
  {
    NotReporting(log, n);
    WatchPrefix(log, n + 1);
    WatchAt(log, n);
    CreditSpent(v, log[n]);
  }

  /** While no other reading follows, what the reading at `i` granted covers the accesses so far and the credit left, which
      is `w`'s. */
  lemma {:induction false} BurstCovers(log: seq<Access>, i: nat, n: nat, w: View)
    requires i < n <= |log| && Watch(log).ok && ReportsBurst(log, i) && w == Watch(log[..n])
    requires forall k :: i < k < n ==> !ReportsBurst(log, k)
    ensures 0 <= w.credit <= Join(log[i].val[0], log[i - 1].val[0]) - FifoAccesses(log[i + 1..n])
    decreases n
  {
    if n == i + 1 {
      CreditGranted(log, i);
      assert log[i + 1..n] == [];
    } else {
      var v := Watch(log[..n - 1]);
      BurstCovers(log, i, n - 1, v);
      CreditStep(log, n - 1, v, w);
      FifoAccessesAt(log, i, n - 1);
    }
  }

  /** From a reading of the burst count up to the next one, or any point before it, the FIFO is touched at most as often as
      the reading allowed. */
  lemma BurstDiscipline(log: seq<Access>, i: nat, n: nat)
    requires i < n <= |log| && Watch(log).ok && ReportsBurst(log, i)
    requires forall k :: i < k < n ==> !ReportsBurst(log, k)
    ensures FifoAccesses(log[i + 1..n]) <= Join(log[i].val[0], log[i - 1].val[0])
  {
    BurstCovers(log, i, n, Watch(log[..n]));
  }

  /** The bytes of the successful data FIFO accesses in one direction, in order. */
  function FifoBytes(log: seq<Access>, write: bool): seq<byte> {
    if log == [] then []
    else
      var a := log[|log| - 1];
      FifoBytes(log[..|log| - 1], write) +
      if a.write == write && a.reg % 0x1000 == REG_DATA_FIFO && a.rc == 0 then a.val else []
  }

  lemma BytesObserved(v: View, a: Access)
    ensures var moved := if a.reg % 0x1000 == REG_DATA_FIFO && a.rc == 0 then a.val else [];
      && Observe(v, a).written == v.written + (if a.write then moved else [])
      && Observe(v, a).served == v.served + (if a.write then [] else moved)
  {
  }

  /** The observer's record of what went in and out is the log's. */
  lemma {:induction false} RecordedBytes(log: seq<Access>)
    ensures Watch(log).written == FifoBytes(log, true)
    ensures Watch(log).served == FifoBytes(log, false)
  {
    if log != [] {
      RecordedBytes(log[..|log| - 1]);
      BytesObserved(Watch(log[..|log| - 1]), log[|log| - 1]);
    }
  }

  lemma AcceptedObserved(v: View, a: Access)
    ensures Observe(v, a).accepted == if IsGo(a) && a.rc == 0 then Some(v.written) else v.accepted
  {
  }

  lemma {:induction false} AcceptedAt(log: seq<Access>, n: nat) returns (j: nat)
    requires n <= |log| && Watch(log[..n]).accepted.Some?
    ensures j < n && IsGo(log[j]) && log[j].rc == 0 && Watch(log[..n]).accepted == Some(Watch(log[..j]).written)
  {
    if n == 0 {
      assert false;
    }
    WatchAt(log, n - 1);
    AcceptedObserved(Watch(log[..n - 1]), log[n - 1]);
    if IsGo(log[n - 1]) && log[n - 1].rc == 0 {
      j := n - 1;
    } else {
      j := AcceptedAt(log, n - 1);
    }
  }

  /** What the observer says was accepted is what had been written when some GO succeeded. */
  lemma AcceptedAtGo(log: seq<Access>) returns (j: nat)
    requires Watch(log).accepted.Some?
    ensures j < |log| && IsGo(log[j]) && log[j].rc == 0
    ensures Watch(log).accepted == Some(FifoBytes(log[..j], true))
  {
    assert log[..|log|] == log;
    j := AcceptedAt(log, |log|);
    RecordedBytes(log[..j]);
  }

  /** In a log the observer approves, the data FIFO is read only after a GO has succeeded. */
  lemma ReadDiscipline(log: seq<Access>, i: nat) returns (j: nat)
    requires Watch(log).ok && i < |log| && !log[i].write && log[i].reg % 0x1000 == REG_DATA_FIFO
    ensures j < i && IsGo(log[j]) && log[j].rc == 0
  {
    var upTo, before := log[..i + 1], log[..i];
    WatchPrefix(log, i + 1);
    assert upTo[..i] == before && upTo[i] == log[i];
    j := AcceptedAtGo(before);
  }

  /** A STATUS read that shows COMMAND_READY. */
  predicate ShowsReady(a: Access) {
    !a.write && a.reg % 0x1000 == REG_STATUS && a.rc == 0 && |a.val| == 1 && Bit(a.val[0], STAT_COMMAND_READY)
  }

  lemma ReadyObserved(v: View, a: Access)
    ensures Observe(v, a).ready <==> v.ready || ShowsReady(a)
  {
  }

  lemma {:induction false} ReadyWasShown(log: seq<Access>) returns (j: nat)
    requires Watch(log).ready
    ensures j < |log| && ShowsReady(log[j])
  {
    var last := |log| - 1;
    ReadyObserved(Watch(log[..last]), log[last]);
    if ShowsReady(log[last]) {
      j := last;
    } else {
      j := ReadyWasShown(log[..last]);
    }
  }

  /** In a log the observer approves, the data FIFO is written only after the device has shown COMMAND_READY. */
  lemma WriteDiscipline(log: seq<Access>, i: nat) returns (j: nat)
    requires Watch(log).ok && i < |log| && log[i].write && log[i].reg % 0x1000 == REG_DATA_FIFO
    ensures j < i && ShowsReady(log[j])
  {
    var upTo, before := log[..i + 1], log[..i];
    WatchPrefix(log, i + 1);
    assert upTo[..i] == before && upTo[i] == log[i];
    j := ReadyWasShown(before);
  }

  lemma CleanObserved(v: View, a: Access)
    ensures Observe(v, a).clean <==> v.clean && a.rc == 0
    ensures Observe(v, a).ok ==> v.clean
  {
  }

  lemma {:induction false} CleanLog(log: seq<Access>, i: nat)
    requires Watch(log).clean && i < |log|
    ensures log[i].rc == 0
  {
    var last := |log| - 1;
    var front := log[..last];
    CleanObserved(Watch(front), log[last]);
    if i < last {
      CleanLog(front, i);
      assert front[i] == log[i];
    }
  }

  /** In a log the observer approves, only the last access may have failed. */
  lemma FailureEnds(log: seq<Access>, i: nat)
    requires Watch(log).ok && i < |log| - 1
    ensures log[i].rc == 0
  {
    var front := log[..|log| - 1];
    CleanObserved(Watch(front), log[|log| - 1]);
    CleanLog(front, i);
    assert front[i] == log[i];
  }

  /** A STATUS read that does not show COMMAND_READY. */
  predicate ShowsUnready(a: Access) {
    !a.write && a.reg % 0x1000 == REG_STATUS && a.rc == 0 && |a.val| == 1 && !Bit(a.val[0], STAT_COMMAND_READY)
  }

  lemma AskAllowed(v: View, a: Access)
    requires Observe(v, a).ok && a.write && a.reg % 0x1000 != REG_DATA_FIFO && !IsGo(a)
    ensures MayAsk(v, a)
  {
  }

  /** In a log the observer approves, any write but those to the data FIFO and GO comes before the first byte of a command
      and asks for a locality, or for COMMAND_READY right after a STATUS that lacks it. */
  lemma AskDiscipline(log: seq<Access>, i: nat)
    requires Watch(log).ok && i < |log| && log[i].write && log[i].reg % 0x1000 != REG_DATA_FIFO && !IsGo(log[i])
    ensures FifoBytes(log[..i], true) == []
    ensures if log[i].reg % 0x1000 == REG_STATUS then
        log[i].val == [STAT_COMMAND_READY] && i > 0 && ShowsUnready(log[i - 1])
      else log[i].reg % 0x1000 == REG_ACCESS && log[i].val == [ACCESS_REQUEST_USE]
  {
    WatchPrefix(log, i + 1);
    WatchAt(log, i);
    AskAllowed(Watch(log[..i]), log[i]);
    RecordedBytes(log[..i]);
    GoAfterStatus(log[..i]);
    assert i > 0 ==> log[..i][i - 1] == log[i - 1];
  }
}
