/** What travels over the SPI bus, and a reference monitor that reconstructs the register accesses from the raw bus
    events alone. The monitor knows the bus protocol, not the driver. */
module SpiWire {
  import opened Bytes
  import opened Codes

  const ENCODE_LIMIT := 64
  const ADDR_PREFIX: byte := 0xD4
  const RETRY_COUNT := 50

  /** A data pointer of a bus transfer; `NoBuf` is the null pointer. */
  datatype Buf = NoBuf | Buf(data: seq<byte>)

  datatype BusEvent =
    | GetAccess(rc: int)
    | Start
    | Transfer(len: byte, dout: Buf, din: Buf, rc: int)
    | Stop
    | ReleaseAccess

  /** The platform: arbitrary functions of everything that has happened so far, so every adaptive device and every
      failure schedule is one of these. `polls` is how often a timer armed for that many milliseconds is found still
      running before it is found elapsed; being a natural number is all that is assumed of the clock. */
  datatype Platform = Platform(
    access: seq<BusEvent> -> int,
    xfer: (seq<BusEvent>, byte, Buf) -> (int, seq<byte>),
    polls: (seq<BusEvent>, nat) -> nat)

  /** One register access as the layers above see it. `val` is the value a write attempts or a successful read
      delivers. */
  datatype Access = Access(write: bool, reg: u16, val: seq<byte>, rc: int)

  datatype Header = Header(write: bool, len: nat, reg: u16)

  /** The length is stored minus one; a length of zero therefore sets all bits of the first byte. */
  function EncodeHeader(h: Header): (b: seq<byte>)
    requires h.len <= ENCODE_LIMIT
    ensures |b| == 4
  {
    [if h.len == 0 then 0xFF else (if h.write then 0x00 else 0x80) + (h.len - 1),
     ADDR_PREFIX, h.reg / 0x100, h.reg % 0x100]
  }

  function DecodeHeader(b: seq<byte>): Option<Header>
    requires |b| == 4
  {
    if b[1] != ADDR_PREFIX || Bit(b[0], 0x40) then None
    else Some(Header(!Bit(b[0], 0x80), b[0] % 64 + 1, Join(b[2], b[3])))
  }

  /** Within the limit, the header carries direction, length and address exactly for the lengths from one on; for zero it
      is no header at all. */
  lemma HeaderRoundTrip(h: Header)
    requires h.len <= ENCODE_LIMIT
    ensures DecodeHeader(EncodeHeader(h)) == if h.len >= 1 then Some(h) else None
  {
  }

  /** What the bus shows of one register access. */
  datatype WireEvent =
    | Unaddressed                                   // no header was ever clocked out
    | Addressed(h: Header, data: seq<byte>, rc: int) // `data` moved only when `rc` is zero

  datatype Phase =
    | Idle
    | Granted
    | Selected
    | Waiting(h: Header, polls: nat)  // header accepted, wait state not over after this many polls
    | Ready(h: Header)                // wait-over bit seen, data phase due
    | Settled(w: WireEvent)           // outcome known, the bus must be given back
    | Stopped(w: WireEvent)
    | Broken

  /** `seen` lists the completed accesses. */
  datatype Monitor = Monitor(phase: Phase, seen: seq<WireEvent>)

  predicate WaitOver(din: Buf) {
    din.Buf? && din.data != [] && Bit(din.data[|din.data| - 1], 0x01)
  }

  function StepTransfer(p: Phase, e: BusEvent): Phase
    requires e.Transfer?
  {
    match p
    case Selected =>
      if e.dout.Buf? && |e.dout.data| == 4 && DecodeHeader(e.dout.data).Some? then
        var h := DecodeHeader(e.dout.data).value;
        if e.rc != 0 then Settled(Addressed(h, [], ERR_TRANSFER))
        else if WaitOver(e.din) then Ready(h)
        else Waiting(h, 0)
      else Broken
    case Waiting(h, polls) =>
      if polls >= RETRY_COUNT || e.dout != Buf([0]) then Broken
      else if e.rc != 0 then Settled(Addressed(h, [], ERR_TRANSFER))
      else if WaitOver(e.din) then Ready(h)
      else Waiting(h, polls + 1)
    case Ready(h) =>
      var line := if h.write then e.dout else e.din;
      if (if h.write then e.din else e.dout) != NoBuf || line.NoBuf? || |line.data| != h.len then Broken
      else if e.rc != 0 then Settled(Addressed(h, [], ERR_TRANSFER))
      else Settled(Addressed(h, line.data, SUCCESS))
    case _ => Broken
  }

  function Step(m: Monitor, e: BusEvent): Monitor {
    match e
    case GetAccess(rc) =>
      if m.phase != Idle then m.(phase := Broken)
      else if rc != 0 then m.(seen := m.seen + [Unaddressed])
      else m.(phase := Granted)
    case Start => m.(phase := if m.phase == Granted then Selected else Broken)
    case Transfer(_, _, _, _) => m.(phase := StepTransfer(m.phase, e))
    case Stop =>
      (match m.phase
       case Selected => m.(phase := Stopped(Unaddressed))
       case Waiting(h, polls) =>
         m.(phase := if polls < RETRY_COUNT then Broken else Stopped(Addressed(h, [], ERR_TIMEOUT)))
       case Settled(w) => m.(phase := Stopped(w))
       case _ => m.(phase := Broken))
    case ReleaseAccess =>
      if m.phase.Stopped? then Monitor(Idle, m.seen + [m.phase.w]) else m.(phase := Broken)
  }

  /** The outcome of an access is known, so the bus may be given back. */
  predicate Settles(p: Phase) {
    p == Selected || p.Settled? || (p.Waiting? && p.polls == RETRY_COUNT)
  }

  /** What the bus will have shown of an access that is given up in phase `p`. */
  function Settlement(p: Phase): WireEvent {
    match p
    case Settled(w) => w
    case Waiting(h, _) => Addressed(h, [], ERR_TIMEOUT)
    case _ => Unaddressed
  }

  function Replay(t: seq<BusEvent>): Monitor {
    if t == [] then Monitor(Idle, []) else Step(Replay(t[..|t| - 1]), t[|t| - 1])
  }

  lemma ReplayStep(t: seq<BusEvent>, e: BusEvent)
    ensures Replay(t + [e]) == Step(Replay(t), e)
  {
  }

  /** A poll that finds the wait state not over. */
  predicate Miss(e: BusEvent) {
    e.Transfer? && e.dout == Buf([0]) && e.rc == 0 && !WaitOver(e.din)
  }

  predicate Misses(t0: seq<BusEvent>, t: seq<BusEvent>) {
    t0 <= t && forall i :: |t0| <= i < |t| ==> Miss(t[i])
  }

  /** From `t0` to `t` the wait state was polled: fifty misses, or fewer and then a poll that fails or ends it. */
  predicate PollRun(t0: seq<BusEvent>, t: seq<BusEvent>, rc: int) {
    if rc == ERR_TIMEOUT then Misses(t0, t) && |t| == |t0| + RETRY_COUNT
    else
      && |t0| < |t| <= |t0| + RETRY_COUNT && Misses(t0, t[..|t| - 1])
      && var e := t[|t| - 1];
      && e.Transfer? && e.dout == Buf([0])
      && if rc == SUCCESS then e.rc == 0 && WaitOver(e.din) else rc == ERR_TRANSFER && e.rc != 0
  }

  /** The monitor's phase after the header and the wait state. */
  predicate Started(p: Phase, h: Header, rc: int) {
    || (rc == SUCCESS && p == Ready(h))
    || (rc == ERR_TRANSFER && p == Settled(Addressed(h, [], ERR_TRANSFER)))
    || (rc == ERR_TIMEOUT && p == Waiting(h, RETRY_COUNT))
  }

  lemma {:induction false} MissesReplay(t0: seq<BusEvent>, t: seq<BusEvent>, h: Header)
    requires Replay(t0).phase == Waiting(h, 0) && Misses(t0, t) && |t| <= |t0| + RETRY_COUNT
    ensures Replay(t) == Replay(t0).(phase := Waiting(h, |t| - |t0|))
    decreases |t|
  {
    if |t| == |t0| {
      assert t == t0;
    } else {
      MissesReplay(t0, t[..|t| - 1], h);
    }
  }

  /** What polling makes of a run that waits. */
  lemma PollRunReplay(t0: seq<BusEvent>, t: seq<BusEvent>, rc: int, h: Header)
    requires Replay(t0).phase == Waiting(h, 0) && PollRun(t0, t, rc)
    ensures Replay(t).seen == Replay(t0).seen && Started(Replay(t).phase, h, rc)
  {
    MissesReplay(t0, if rc == ERR_TIMEOUT then t else t[..|t| - 1], h);
  }

  /** Transfers neither mend nor complete a broken run. */
  lemma {:induction false} BrokenReplay(t0: seq<BusEvent>, t: seq<BusEvent>)
    requires Replay(t0).phase.Broken? && OnlyTransfers(t0, t)
    ensures Replay(t) == Replay(t0)
    decreases |t|
  {
    if |t| == |t0| {
      assert t == t0;
    } else {
      BrokenReplay(t0, t[..|t| - 1]);
    }
  }

  /** What the header makes of a run. */
  lemma HeaderStep(t: seq<BusEvent>, h: Header, din: Buf, rc: int)
    requires Replay(t).phase == Selected && h.len <= ENCODE_LIMIT
    ensures Replay(t + [Transfer(4, Buf(EncodeHeader(h)), din, rc)]) ==
      Replay(t).(phase := if h.len == 0 then Broken
                          else if rc != 0 then Settled(Addressed(h, [], ERR_TRANSFER))
                          else if WaitOver(din) then Ready(h) else Waiting(h, 0))
  {
    ReplayStep(t, Transfer(4, Buf(EncodeHeader(h)), din, rc));
    HeaderRoundTrip(h);
  }

  /** What the data phase makes of a run. */
  lemma DataStep(t: seq<BusEvent>, len: byte, dout: Buf, din: Buf, rc: int)
    requires Replay(t).phase.Broken? || Replay(t).phase.Ready?
    ensures var m, n := Replay(t), Replay(t + [Transfer(len, dout, din, rc)]);
      if m.phase.Broken? then n == m
      else
        var h := m.phase.h;
        var line := if h.write then dout else din;
        (if h.write then din else dout) == NoBuf && line.Buf? && |line.data| == h.len ==>
          n == m.(phase := Settled(if rc != 0 then Addressed(h, [], ERR_TRANSFER) else Addressed(h, line.data, SUCCESS)))
  {
    ReplayStep(t, Transfer(len, dout, din, rc));
  }

  /** What the attempt to get the bus makes of a run. */
  lemma Opening(plat: Platform, t: seq<BusEvent>)
    requires Replay(t).phase.Idle? && FromPlatform(plat, t)
    ensures var r := plat.access(t);
      if r != 0 then
        var u := t + [GetAccess(r)];
        Replay(u) == Monitor(Idle, Replay(t).seen + [Unaddressed]) && LastError(u) == r && FromPlatform(plat, u)
      else
        var u := t + [GetAccess(r)] + [Start];
        Replay(u) == Replay(t).(phase := Selected) && LastError(u) == LastError(t) && FromPlatform(plat, u)
  {
    var e := GetAccess(plat.access(t));
    ReplayStep(t, e);
    LastErrorStep(t, e);
    FromPlatformStep(plat, t, e);
    ReplayStep(t + [e], Start);
    LastErrorStep(t + [e], Start);
    FromPlatformStep(plat, t + [e], Start);
  }

  /** What giving the bus back makes of a run. */
  lemma Closing(t: seq<BusEvent>)
    ensures Replay(t + [Stop, ReleaseAccess]) == Step(Step(Replay(t), Stop), ReleaseAccess)
    ensures LastError(t + [Stop, ReleaseAccess]) == LastError(t)
    ensures forall plat :: FromPlatform(plat, t) ==> FromPlatform(plat, t + [Stop, ReleaseAccess])
  {
    var u := t + [Stop];
    assert t + [Stop, ReleaseAccess] == u + [ReleaseAccess];
    ReplayStep(t, Stop);
    ReplayStep(u, ReleaseAccess);
    LastErrorStep(t, Stop);
    LastErrorStep(u, ReleaseAccess);
    forall plat | FromPlatform(plat, t)
      ensures FromPlatform(plat, t + [Stop, ReleaseAccess])
    {
      FromPlatformStep(plat, t, Stop);
      FromPlatformStep(plat, u, ReleaseAccess);
    }
  }

  /** The bus view of an access does not contradict the driver's view of it. */
  predicate Agree(w: WireEvent, a: Access) {
    match w
    case Unaddressed => a.rc != 0
    case Addressed(h, data, rc) =>
      h.write == a.write && h.reg == a.reg && rc == a.rc && (rc == 0 ==> data == a.val)
  }

  predicate AgreeAll(ws: seq<WireEvent>, log: seq<Access>) {
    |ws| == |log| && forall i :: 0 <= i < |ws| ==> Agree(ws[i], log[i])
  }

  /** The last non-zero code any platform call returned, 0 if there was none. */
  function LastError(t: seq<BusEvent>): int {
    if t == [] then 0
    else
      var e := t[|t| - 1];
      if (e.GetAccess? || e.Transfer?) && e.rc != 0 then e.rc else LastError(t[..|t| - 1])
  }

  lemma LastErrorStep(t: seq<BusEvent>, e: BusEvent)
    ensures LastError(t + [e]) == if (e.GetAccess? || e.Transfer?) && e.rc != 0 then e.rc else LastError(t)
  {
  }

  /** The event is what the platform answered after the traffic `t`. A buffer for incoming bytes holds those it clocked in,
      zeros where it gave none. */
  predicate Answered(plat: Platform, t: seq<BusEvent>, e: BusEvent) {
    match e
    case GetAccess(rc) => rc == plat.access(t)
    case Transfer(len, dout, din, rc) =>
      var answer := plat.xfer(t, len, dout);
      && rc == answer.0
      && (din.Buf? ==>
            && |din.data| == len
            && forall i :: 0 <= i < len ==> din.data[i] == if i < |answer.1| then answer.1[i] else 0)
    case _ => true
  }

  /** Every event is what the platform answered after the ones before it. */
  predicate FromPlatform(plat: Platform, t: seq<BusEvent>) {
    t == [] || (FromPlatform(plat, t[..|t| - 1]) && Answered(plat, t[..|t| - 1], t[|t| - 1]))
  }

  lemma FromPlatformStep(plat: Platform, t: seq<BusEvent>, e: BusEvent)
    ensures FromPlatform(plat, t + [e]) <==> FromPlatform(plat, t) && Answered(plat, t, e)
  {
    assert (t + [e])[..|t|] == t;
  }

  /** A bracketed piece of bus traffic: a refused get_access, or get_access, start, transfers, stop, release_access. */
  predicate Block(b: seq<BusEvent>) {
    || (|b| == 1 && b[0].GetAccess? && b[0].rc != 0)
    || (|b| >= 4 && OpenBlock(b[..|b| - 2]) && b[|b| - 2] == Stop && b[|b| - 1] == ReleaseAccess)
  }

  predicate OpenBlock(b: seq<BusEvent>) {
    |b| >= 2 && b[0] == GetAccess(0) && b[1] == Start && forall i :: 2 <= i < |b| ==> b[i].Transfer?
  }

  /** From `t0` to `t` nothing happened but transfers. */
  predicate OnlyTransfers(t0: seq<BusEvent>, t: seq<BusEvent>) {
    t0 <= t && forall i :: |t0| <= i < |t| ==> t[i].Transfer?
  }

  lemma PollRunTransfers(t0: seq<BusEvent>, t: seq<BusEvent>, rc: int)
    requires PollRun(t0, t, rc)
    ensures OnlyTransfers(t0, t)
  {
    if rc != ERR_TIMEOUT {
      assert forall i :: |t0| <= i < |t| - 1 ==> t[..|t| - 1][i] == t[i];
    }
  }

  lemma TransfersOn(t0: seq<BusEvent>, t1: seq<BusEvent>, t: seq<BusEvent>)
    requires OnlyTransfers(t0, t1) && OnlyTransfers(t1, t)
    ensures OnlyTransfers(t0, t)
  {
  }

  /** From `t0` to `t` there was one bracketed piece of traffic. */
  predicate OneBlock(t0: seq<BusEvent>, t: seq<BusEvent>) {
    t0 <= t && Block(t[|t0|..])
  }

  lemma BlockClosed(t0: seq<BusEvent>, t: seq<BusEvent>)
    requires OnlyTransfers(t0 + [GetAccess(0), Start], t)
    ensures OneBlock(t0, t + [Stop, ReleaseAccess])
  {
    var b := (t + [Stop, ReleaseAccess])[|t0|..];
    assert b[..|b| - 2] == t[|t0|..];
  }

  predicate Blocks(bs: seq<seq<BusEvent>>) {
    forall i :: 0 <= i < |bs| ==> Block(bs[i])
  }

  /** The header of an access goes out. */
  predicate HeaderSent(e: BusEvent, h: Header) {
    e.Transfer? && e.dout.Buf? && |e.dout.data| == 4 && DecodeHeader(e.dout.data) == Some(h)
  }

  /** The header and up to fifty polls with zero bytes; all but the last went well and found the wait state not over. */
  predicate Polling(ts: seq<BusEvent>, h: Header) {
    && 1 <= |ts| <= 1 + RETRY_COUNT && HeaderSent(ts[0], h)
    && (forall i :: 1 <= i < |ts| ==> ts[i].Transfer? && ts[i].dout == Buf([0]))
    && forall i :: 0 <= i < |ts| - 1 ==> ts[i].rc == 0 && !WaitOver(ts[i].din)
  }

  /** The last of them found it over. */
  predicate WaitedOver(ts: seq<BusEvent>, h: Header) {
    Polling(ts, h) && ts[|ts| - 1].rc == 0 && WaitOver(ts[|ts| - 1].din)
  }

  /** The last of them found it not over either. */
  predicate StillWaiting(ts: seq<BusEvent>, h: Header) {
    Polling(ts, h) && ts[|ts| - 1].rc == 0 && !WaitOver(ts[|ts| - 1].din)
  }

  /** The data phase of an access, successful or not, in the one direction and of the length the header says. */
  predicate DataPhase(e: BusEvent, h: Header) {
    && e.Transfer? && (if h.write then e.din else e.dout) == NoBuf
    && var line := if h.write then e.dout else e.din;
    && line.Buf? && |line.data| == h.len
  }

  /** The transfers of an access with this outcome: after its header, data moves only once the wait state was seen to be
      over, and then once. */
  predicate Carries(ts: seq<BusEvent>, h: Header, data: seq<byte>, rc: int) {
    if rc == ERR_TIMEOUT then StillWaiting(ts, h) && |ts| == 1 + RETRY_COUNT && data == []
    else if |ts| >= 2 && WaitedOver(ts[..|ts| - 1], h) then
      var e := ts[|ts| - 1];
      && DataPhase(e, h)
      && if rc == SUCCESS then e.rc == 0 && data == (if h.write then e.dout else e.din).data
         else rc == ERR_TRANSFER && e.rc != 0 && data == []
    else rc == ERR_TRANSFER && Polling(ts, h) && ts[|ts| - 1].rc != 0 && data == []
  }

  function Bracketed(ts: seq<BusEvent>): seq<BusEvent> {
    [GetAccess(0), Start] + ts + [Stop, ReleaseAccess]
  }

  /** The bus traffic of one access, read without the monitor. */
  ghost predicate Shows(b: seq<BusEvent>, w: WireEvent) {
    match w
    case Unaddressed => b == Bracketed([]) || (|b| == 1 && b[0].GetAccess? && b[0].rc != 0)
    case Addressed(h, data, rc) => exists ts :: b == Bracketed(ts) && Carries(ts, h, data, rc)
  }

  /** What an unfinished access has put on the bus, `ts` being its transfers. */
  function Opened(p: Phase, ts: seq<BusEvent>): seq<BusEvent> {
    match p
    case Idle => []
    case Granted => [GetAccess(0)]
    case Stopped(_) => [GetAccess(0), Start] + ts + [Stop]
    case _ => [GetAccess(0), Start] + ts
  }

  /** What its transfers are. */
  predicate Unfinished(p: Phase, ts: seq<BusEvent>) {
    match p
    case Waiting(h, polls) => StillWaiting(ts, h) && |ts| == 1 + polls
    case Ready(h) => WaitedOver(ts, h)
    case Settled(w) => w.Addressed? && Carries(ts, w.h, w.data, w.rc)
    case Stopped(w) => if w.Addressed? then Carries(ts, w.h, w.data, w.rc) else ts == []
    case Broken => true
    case _ => ts == []
  }

  function Transfers(t: seq<BusEvent>): nat {
    if t == [] then 0 else Transfers(t[..|t| - 1]) + (if t[|t| - 1].Transfer? then 1 else 0)
  }
}
