/** What acceptance by the bus monitor means for whole runs. */
module SpiWireFacts {
  import opened Bytes
  import opened Codes
  import opened SpiWire

  /** A transfer takes an unfinished access one step on. */
  lemma TransferStep(p: Phase, e: BusEvent, ts: seq<BusEvent>)
    requires e.Transfer? && Unfinished(p, ts) && !p.Broken? && !StepTransfer(p, e).Broken?
    ensures Unfinished(StepTransfer(p, e), ts + [e]) && Opened(StepTransfer(p, e), ts + [e]) == Opened(p, ts) + [e]
  {
    var us := ts + [e];
    assert us[..|us| - 1] == ts;
    assert [GetAccess(0), Start] + us == ([GetAccess(0), Start] + ts) + [e];
    match p
    case Waiting(h, _) => assert Polling(us, h);
    case Ready(h) => NotPolling(ts, h);
    case _ =>
  }

  /** Once the wait state was over there was no further poll. */
  lemma NotPolling(ts: seq<BusEvent>, h: Header)
    requires WaitedOver(ts, h)
    ensures !StillWaiting(ts, h)
  {
  }

  /** Stop comes only when the outcome is known. */
  lemma StopStep(p: Phase, ts: seq<BusEvent>)
    requires Unfinished(p, ts) && Settles(p)
    ensures Unfinished(Stopped(Settlement(p)), ts)
    ensures Opened(Stopped(Settlement(p)), ts) == Opened(p, ts) + [Stop]
  {
    if p.Waiting? {
      NoEarlierEnd(ts, p.h);
    }
  }

  lemma NoEarlierEnd(ts: seq<BusEvent>, h: Header)
    requires StillWaiting(ts, h) && |ts| == 1 + RETRY_COUNT
    ensures Carries(ts, h, [], ERR_TIMEOUT)
  {
  }

  /** A run is broken for good. */
  lemma BrokenForGood(t: seq<BusEvent>, e: BusEvent)
    requires Replay(t).phase.Broken?
    ensures Replay(t + [e]).phase.Broken?
  {
    ReplayStep(t, e);
  }

  /** One accepted event begins an access, takes it a step on, or completes it. */
  lemma OpenStep(m: Monitor, e: BusEvent, ts: seq<BusEvent>, ts': seq<BusEvent>)
    requires Unfinished(m.phase, ts) && !m.phase.Broken? && !Step(m, e).phase.Broken?
    requires ts' == if e.Transfer? then ts + [e] else ts
    ensures var n := Step(m, e);
      if n.phase.Idle? then
        |n.seen| == |m.seen| + 1 && n.seen[..|m.seen|] == m.seen && Shows(Opened(m.phase, ts) + [e], n.seen[|m.seen|])
      else n.seen == m.seen && Unfinished(n.phase, ts') && Opened(n.phase, ts') == Opened(m.phase, ts) + [e]
  {
    match e
    case GetAccess(_) =>
    case Start =>
    case Transfer(_, _, _, _) => TransferStep(m.phase, e, ts);
    case Stop => StopStep(m.phase, ts);
    case ReleaseAccess =>
      assert Opened(m.phase, ts) + [e] == Bracketed(ts);
  }

  /** The brackets show the accesses, one each. */
  ghost predicate AllShown(bs: seq<seq<BusEvent>>, ws: seq<WireEvent>) {
    |bs| == |ws| && forall i :: 0 <= i < |bs| ==> Shows(bs[i], ws[i])
  }

  lemma AllShownStep(bs: seq<seq<BusEvent>>, ws: seq<WireEvent>, b: seq<BusEvent>, ws': seq<WireEvent>)
    requires AllShown(bs, ws) && |ws'| == |ws| + 1 && ws'[..|ws|] == ws && Shows(b, ws'[|ws|])
    ensures AllShown(bs + [b], ws')
  {
  }

  /** A run splits into brackets and an unfinished access. */
  ghost predicate Splits(t: seq<BusEvent>, m: Monitor, bs: seq<seq<BusEvent>>, ts: seq<BusEvent>) {
    t == Flat(bs) + Opened(m.phase, ts) && Unfinished(m.phase, ts) && AllShown(bs, m.seen)
  }

  lemma SplitStep(t: seq<BusEvent>, e: BusEvent, m: Monitor, bs: seq<seq<BusEvent>>, ts: seq<BusEvent>)
    returns (bs': seq<seq<BusEvent>>, ts': seq<BusEvent>)
    requires !m.phase.Broken? && !Step(m, e).phase.Broken? && Splits(t, m, bs, ts)
    ensures Splits(t + [e], Step(m, e), bs', ts')
  {
    bs', ts' := bs, if e.Transfer? then ts + [e] else ts;
    OpenStep(m, e, ts, ts');
    var rest := Opened(m.phase, ts) + [e];
    Assoc(Flat(bs), Opened(m.phase, ts), [e]);
    if Step(m, e).phase.Idle? {
      FlatAppend(bs, rest);
      AllShownStep(bs, m.seen, rest, Step(m, e).seen);
      bs', ts' := bs + [rest], [];
    }
  }

  /** Any run the monitor accepts splits into complete brackets, one for each access and showing it, and an unfinished
      one. */
  lemma {:induction false} Bracketing(t: seq<BusEvent>) returns (bs: seq<seq<BusEvent>>, ts: seq<BusEvent>)
    requires !Replay(t).phase.Broken?
    ensures Splits(t, Replay(t), bs, ts)
  {
    if t == [] {
      return [], [];
    }
    var short, e := t[..|t| - 1], t[|t| - 1];
    assert t == short + [e];
    ReplayStep(short, e);
    if Replay(short).phase.Broken? {
      BrokenForGood(short, e);
    }
    bs, ts := Bracketing(short);
    bs, ts := SplitStep(short, e, Replay(short), bs, ts);
  }

  /** Every bracket of an access is a block: nothing but transfers between start and stop. */
  lemma ShownIsBlock(b: seq<BusEvent>, w: WireEvent)
    requires Shows(b, w)
    ensures Block(b)
  {
    if |b| != 1 && w.Addressed? {
      var ts :| b == Bracketed(ts) && Carries(ts, w.h, w.data, w.rc);
      CarriedTransfers(ts, w.h, w.data, w.rc);
      assert b[..|b| - 2] == [GetAccess(0), Start] + ts;
    } else if |b| != 1 {
      assert b[..|b| - 2] == [GetAccess(0), Start];
    }
  }

  lemma CarriedTransfers(ts: seq<BusEvent>, h: Header, data: seq<byte>, rc: int)
    requires Carries(ts, h, data, rc)
    ensures 1 <= |ts| <= 2 + RETRY_COUNT && forall i :: 0 <= i < |ts| ==> ts[i].Transfer?
  {
    if |ts| >= 2 && WaitedOver(ts[..|ts| - 1], h) {
      assert forall i :: 0 <= i < |ts| - 1 ==> ts[i] == ts[..|ts| - 1][i];
    }
  }

  /** A run between accesses is made of brackets only, one for each access and showing it. */
  lemma BracketedWhenIdle(t: seq<BusEvent>) returns (bs: seq<seq<BusEvent>>)
    requires Replay(t).phase.Idle?
    ensures Flat(bs) == t && Blocks(bs)
    ensures AllShown(bs, Replay(t).seen)
  {
    var ts;
    bs, ts := Bracketing(t);
    assert Flat(bs) + [] == Flat(bs);
    forall i | 0 <= i < |bs|
      ensures Block(bs[i])
    {
      ShownIsBlock(bs[i], Replay(t).seen[i]);
    }
  }

  function OpenTransfers(p: Phase): nat {
    match p
    case Waiting(_, polls) => 1 + polls
    case Ready(_) => 1 + RETRY_COUNT
    case Settled(_) => 2 + RETRY_COUNT
    case Stopped(_) => 2 + RETRY_COUNT
    case _ => 0
  }

  /** One access clocks at most 52 transfers: the header, the polls and the data phase. */
  lemma {:induction false} TransferBound(t: seq<BusEvent>)
    requires !Replay(t).phase.Broken?
    ensures Transfers(t) <= (2 + RETRY_COUNT) * |Replay(t).seen| + OpenTransfers(Replay(t).phase)
    ensures Replay(t).phase.Waiting? ==> Replay(t).phase.polls <= RETRY_COUNT
  {
    if t != [] {
      TransferBound(t[..|t| - 1]);
    }
  }

  /** A platform call that returned a non-zero code. */
  predicate Failed(e: BusEvent) {
    (e.GetAccess? || e.Transfer?) && e.rc != 0
  }

  /** The recorded error is the code of the last failed call, and zero only if no call failed. */
  lemma {:induction false} LastErrorIsLast(t: seq<BusEvent>)
    ensures LastError(t) == 0 <==> forall i :: 0 <= i < |t| ==> !Failed(t[i])
    ensures LastError(t) != 0 ==>
      exists i :: 0 <= i < |t| && Failed(t[i]) && t[i].rc == LastError(t) && forall j :: i < j < |t| ==> !Failed(t[j])
  {
    if t != [] {
      var last := |t| - 1;
      var short := t[..last];
      LastErrorIsLast(short);
      if Failed(t[last]) {
        assert t[last].rc == LastError(t);
      } else {
        assert forall i :: 0 <= i < last ==> short[i] == t[i];
        if LastError(t) != 0 {
          var i :| 0 <= i < last && Failed(short[i]) && short[i].rc == LastError(short) &&
                   forall j :: i < j < last ==> !Failed(short[j]);
          assert Failed(t[i]) && t[i].rc == LastError(t);
          assert forall j :: i < j < |t| ==> !Failed(t[j]);
        }
      }
    }
  }

  /** Every event of a run is what the platform answered after the ones before it. */
  lemma {:induction false} AnsweredAt(plat: Platform, t: seq<BusEvent>, i: nat)
    requires FromPlatform(plat, t) && i < |t|
    ensures Answered(plat, t[..i], t[i])
    decreases |t|
  {
    if i < |t| - 1 {
      var front := t[..|t| - 1];
      AnsweredAt(plat, front, i);
      assert front[..i] == t[..i];
    }
  }
}
