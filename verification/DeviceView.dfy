/** A reference observer on the device side of the FIFO interface. It folds the register accesses of one exchange into
    what the device received, what it handed out, and whether the driver kept to the protocol. */
module DeviceView {
  import opened Bytes
  import opened SpiWire

  const REG_ACCESS := 0x000
  const REG_STATUS := 0x018
  const REG_BURST_LO := 0x019
  const REG_BURST_HI := 0x020
  const REG_DATA_FIFO := 0x024

  const ACCESS_REQUEST_USE: byte := 0x02

  const STAT_VALID := 0x80
  const STAT_COMMAND_READY := 0x40
  const STAT_GO := 0x20
  const STAT_AVAIL := 0x10
  const STAT_EXPECT := 0x08

  const HEADER_SIZE := 10
  const MAX_CMDBUF := 256

  /** The size a command or response states in its header. */
  function Announced(s: seq<byte>): u32
    requires |s| >= HEADER_SIZE
  {
    U32(s[2..6])
  }

  datatype View = View(
    written: seq<byte>,            // bytes successfully written to the data FIFO
    accepted: Option<seq<byte>>,   // `written` at the moment a GO succeeded
    goes: nat,                     // GO writes attempted
    served: seq<byte>,             // bytes successfully read from the data FIFO
    credit: int,                   // FIFO accesses still covered by the last reported burst count
    ready: bool,                   // COMMAND_READY was seen
    avail: bool,                   // AVAIL was seen since GO
    bursts: seq<nat>,              // non-zero burst counts reported since the response header was read
    low: Option<byte>,             // value, if the previous access read the low burst byte
    status: Option<byte>,          // value, if the previous access read STATUS
    bases: set<int>,               // localities addressed
    clean: bool,                   // every access so far succeeded
    ok: bool)                      // the driver has kept to the protocol

  /** The ten header bytes of a command need no burst count. */
  const Fresh := View([], None, 0, [], HEADER_SIZE, false, false, [], None, None, {}, true, true)

  predicate IsGo(a: Access) {
    a.write && a.reg % 0x1000 == REG_STATUS && a.val == [STAT_GO]
  }

  /** GO may be tried once, right after a STATUS that is VALID and does not EXPECT more. */
  predicate MayGo(v: View) {
    v.goes == 0 && v.status.Some? && Bit(v.status.value, STAT_VALID) && !Bit(v.status.value, STAT_EXPECT)
  }

  /** Before any byte of a command, a locality may be asked for, and COMMAND_READY right after a STATUS that lacks it. */
  predicate MayAsk(v: View, a: Access) {
    && v.goes == 0 && v.written == []
    && if a.reg % 0x1000 == REG_STATUS then
         a.val == [STAT_COMMAND_READY] && v.status.Some? && !Bit(v.status.value, STAT_COMMAND_READY)
       else a.reg % 0x1000 == REG_ACCESS && a.val == [ACCESS_REQUEST_USE]
  }

  function ObserveWrite(v: View, w: View, a: Access): View {
    if a.reg % 0x1000 == REG_DATA_FIFO then
      w.(written := if a.rc == 0 then v.written + a.val else v.written,
         credit := v.credit - 1,
         ok := w.ok && v.ready && v.goes == 0 && v.credit > 0)
    else if IsGo(a) then
      w.(goes := v.goes + 1,
         accepted := if a.rc == 0 then Some(v.written) else v.accepted,
         credit := if a.rc == 0 then 0 else v.credit,
         ok := w.ok && MayGo(v))
    else
      w.(ok := w.ok && MayAsk(v, a))
  }

  function ObserveRead(v: View, w: View, a: Access): View {
    var off := a.reg % 0x1000;
    if off == REG_DATA_FIFO then
      w.(served := if a.rc == 0 then v.served + a.val else v.served,
         credit := v.credit - 1,
         ok := w.ok && v.accepted.Some? && v.avail && v.credit > 0)
    else if a.rc != 0 || |a.val| != 1 then w
    else if off == REG_STATUS then
      w.(status := Some(a.val[0]), ready := v.ready || Bit(a.val[0], STAT_COMMAND_READY),
         avail := v.avail || (v.accepted.Some? && Bit(a.val[0], STAT_AVAIL)))
    else if off == REG_BURST_LO then w.(low := Some(a.val[0]))
    else if off == REG_BURST_HI && v.low.Some? then
      var burst := Join(a.val[0], v.low.value);
      w.(credit := burst,
         bursts := if |v.served| >= HEADER_SIZE && burst > 0 then v.bursts + [burst] else v.bursts)
    else w
  }

  /** Nothing may be done after an access that failed. */
  function Observe(v: View, a: Access): View {
    var w := v.(low := None, status := None, bases := v.bases + {a.reg / 0x1000}, clean := v.clean && a.rc == 0,
                ok := v.ok && v.clean);
    if a.write then ObserveWrite(v, w, a) else ObserveRead(v, w, a)
  }

  function Watch(log: seq<Access>): View {
    if log == [] then Fresh else Observe(Watch(log[..|log| - 1]), log[|log| - 1])
  }

  lemma WatchStep(log: seq<Access>, a: Access)
    ensures Watch(log + [a]) == Observe(Watch(log), a)
  {
  }

  /** How many bytes of a response that announces `n` bytes are read when its body is served in these bursts: reading
      goes on while fewer than `n` are in, and one burst may run up to ten bytes past `n`. */
  function Consumed(n: nat, bursts: seq<nat>): (r: nat)
    ensures HEADER_SIZE <= r <= n + HEADER_SIZE
  {
    if bursts == [] then HEADER_SIZE
    else
      var had := Consumed(n, bursts[..|bursts| - 1]);
      var burst := bursts[|bursts| - 1];
      if had >= n then had
      else if burst <= n + HEADER_SIZE - had then had + burst
      else n + HEADER_SIZE
  }

  lemma ConsumedStep(n: nat, bursts: seq<nat>, burst: nat)
    requires Consumed(n, bursts) < n
    ensures Consumed(n, bursts + [burst]) ==
      if burst <= n + HEADER_SIZE - Consumed(n, bursts) then Consumed(n, bursts) + burst else n + HEADER_SIZE
  {
  }

  /** A response that announces no more than its header takes no more than that. */
  lemma {:induction false} ConsumedBare(n: nat, bursts: seq<nat>)
    requires n <= HEADER_SIZE
    ensures Consumed(n, bursts) == HEADER_SIZE
  {
    if bursts != [] {
      ConsumedBare(n, bursts[..|bursts| - 1]);
    }
  }

  /** Burst `k`, reported while bytes are still due, reaches past the first `limit` bytes. */
  predicate Exceeds(n: nat, bursts: seq<nat>, k: nat, limit: nat)
    requires k < |bursts|
  {
    Consumed(n, bursts[..k]) < n && Consumed(n, bursts[..k]) + bursts[k] > limit
  }

  /** A read stays within a limit, the announced count or more, exactly when ten bytes more would fit as well or no burst
      reached past it. */
  lemma {:induction false} ConsumedWithin(n: nat, bursts: seq<nat>, limit: nat)
    requires n <= limit && HEADER_SIZE <= limit
    ensures Consumed(n, bursts) <= limit <==>
      n + HEADER_SIZE <= limit || forall k :: 0 <= k < |bursts| ==> !Exceeds(n, bursts, k, limit)
  {
    if bursts != [] {
      var last := |bursts| - 1;
      var short := bursts[..last];
      ConsumedWithin(n, short, limit);
      assert forall k :: 0 <= k < last ==> short[..k] == bursts[..k];
      assert forall k :: 0 <= k < last ==> Exceeds(n, short, k, limit) == Exceeds(n, bursts, k, limit);
      assert Exceeds(n, bursts, last, limit) == (Consumed(n, short) < n && Consumed(n, short) + bursts[last] > limit);
    }
  }

  lemma ConsumedAtOnce(n: nat, burst: nat)
    requires HEADER_SIZE < n
    ensures Consumed(n, [burst]) == HEADER_SIZE + if burst <= n then burst else n
    ensures Exceeds(n, [burst], 0, n) <==> HEADER_SIZE + burst > n
  {
    assert [burst][..0] == [];
    ConsumedStep(n, [], burst);
    assert [] + [burst] == [burst];
  }

  /** Exactness does need the condition: one large burst takes ten bytes too many. */
  lemma ConsumedCanOvershoot(n: nat, burst: nat)
    requires HEADER_SIZE < n <= burst
    ensures Consumed(n, [burst]) == n + HEADER_SIZE && Exceeds(n, [burst], 0, n)
  {
    ConsumedAtOnce(n, burst);
  }

  /** With one burst, exactly a response of more than 246 bytes and a burst count of more than 246 overrun the buffer. */
  lemma OverrunAtOnce(n: nat, burst: nat)
    requires HEADER_SIZE < n <= MAX_CMDBUF
    ensures Consumed(n, [burst]) > MAX_CMDBUF <==>
      n > MAX_CMDBUF - HEADER_SIZE && burst > MAX_CMDBUF - HEADER_SIZE
  {
    ConsumedAtOnce(n, burst);
  }

  /** The last access read a STATUS that shows AVAIL. */
  predicate ShowsAvail(v: View) {
    v.status.Some? && Bit(v.status.value, STAT_AVAIL)
  }

  /** All of the response was read: the announced bytes and those the burst counts make the code take besides. A response
      that announces less than its header takes another AVAIL. */
  predicate Taken(v: View) {
    && |v.served| >= HEADER_SIZE
    && var n := Announced(v.served);
    && n <= MAX_CMDBUF && n <= |v.served| == Consumed(n, v.bursts)
    && (n < HEADER_SIZE ==> ShowsAvail(v))
  }
}
