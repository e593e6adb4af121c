/** The two single-algorithm lookups (tpm_has_alg and tpm_get_alg_props in src/tpm2_cmds.c). */
module AlgLookups {
  import opened Bytes
  import opened Codes
  import opened HostOrder
  import opened DeviceView
  import opened SpiBus
  import opened Fifo
  import opened Exchange
  import opened Payload
  import opened Parser
  import opened Paging
  import opened GetCapability
  import opened Walks
  import opened AlgQueries

  /** The exact account of a lookup, whatever the device does. */
  ghost predicate LookedUp(done: Log, from: nat, starts: seq<u32>, id: u16, rc: int, supported: bool)
    requires from <= |done|
  {
    var told := ToldSince(AlgsTold, done, from);
    && Requested(done, from, starts, CAP_ALGS) && Ended(told, starts, id, rc)
    && supported == (rc == SUCCESS && Has(AllEntries(told), id))
  }

  /** The terminator id cannot be asked for: it makes the query empty. */
  method HasAlg(bus: Bus, chip: Chip, host: Order, id: u16, ghost list: seq<Alg>)
    returns (rc: int, supported: bool, ghost starts: seq<u32>)
    requires bus.Valid() && bus.cur == []
    modifies bus
    ensures Appended(bus, old(bus.done), |starts|)
    ensures id == ALG_NULL ==> rc == SUCCESS && !supported && bus.done == old(bus.done)
    ensures id != ALG_NULL ==> LookedUp(bus.done, |old(bus.done)|, starts, id, rc, supported)
    ensures id != ALG_NULL && AlgRun(bus.done, |old(bus.done)|, list) ==>
      && (rc == SUCCESS ==> supported == Has(list, id))
      && (rc == ERR_ITERATION_LIMIT ==> |list| > MAX_PAGES)
      && rc != ERR_RESPONSE
    ensures !ListCode(rc) ==> LastFailed(bus, chip, rc)
  {
    var item := new AlgSlot[2](i => Entry(if i == 0 then id else ALG_NULL, false));
    ghost var t := if id == ALG_NULL then 0 else 1;
    assert Terminated(item[..], t, MAX_ALG_PROPERTIES);
    rc, starts := QueryAlgs(bus, chip, host, item, t, list);
    supported := false;
    if rc != SUCCESS {
      return;
    }
    supported := item[0].value;
    ghost var q := item[..];
    assert id == ALG_NULL ==> bus.done == bus.done[..|old(bus.done)|];
    assert q[0] == item[0];
  }

  /** In an ascending list the ids below a bound come first. */
  lemma {:induction false} Rank(list: seq<Alg>, p: u32) returns (m: nat)
    requires Ascending(list)
    ensures m <= |list|
    ensures forall i :: 0 <= i < m ==> list[i].id < p
    ensures forall i :: m <= i < |list| ==> list[i].id >= p
  {
    m := 0;
    while m < |list| && list[m].id < p
      invariant m <= |list| && forall i :: 0 <= i < m ==> list[i].id < p
    {
      m := m + 1;
    }
  }

  /** The list has an id at or above this one. */
  ghost predicate HasAtLeast(list: seq<Alg>, id: u16) {
    exists i :: 0 <= i < |list| && list[i].id >= id
  }

  /** What a one-entry request for `id` brings: the first entry at or above it, if there is one, else an empty list. */
  ghost predicate FirstFrom(list: seq<Alg>, id: u16, p: seq<byte>) {
    if HasAtLeast(list, id) then |p| >= 15 && AlgAt(p, 0) in list && (AlgAt(p, 0).id == id <==> Has(list, id))
    else DecodeAlgs(p) == Some([]) && !Has(list, id)
  }

  lemma OneEntry(list: seq<Alg>, id: u16, r: seq<byte>)
    requires Ascending(list) && AlgReply(r, list, id, 1)
    ensures Announces(r[HEADER_SIZE..], CAP_ALGS) && FirstFrom(list, id, r[HEADER_SIZE..])
    ensures HasAtLeast(list, id) ==> DecodeAlgs(r[HEADER_SIZE..]) != Some([])
  {
    var p := r[HEADER_SIZE..];
    var entries := DecodeAlgs(p).value;
    var m := Rank(list, id);
    AboveSuffix(list, m, id);
    assert |p| >= 9 + 6 * |entries| && entries <= list[m..];
    HasIsMembership(list, id);
    if m < |list| {
      assert |entries| == 1 && entries[0] == list[m];
      assert AlgsUpTo(p, 1) == AlgsUpTo(p, 0) + [AlgAt(p, 0)];
      assert entries[0] == AlgAt(p, 0);
      assert HasAtLeast(list, id);
      if Has(list, id) {
        var i :| 0 <= i < |list| && list[i].id == id;
        assert i == m;
      } else {
        assert list[m].id != id;
      }
    } else {
      assert entries == [];
    }
  }

  /** The first entry in a buffer, if there is one. */
  ghost predicate FirstIs(resp: seq<byte>, id: u16, rc: int, supported: bool, props: u32)
    requires |resp| == MAX_CMDBUF
  {
    var p := Params(resp);
    if p.Some? && Announces(p.value, CAP_ALGS) && |p.value| >= 15 then
      var e := AlgAt(p.value, 0);
      rc == SUCCESS && supported == (e.id == id) && props == if e.id == id then e.value else 0
    else rc == ERR_RESPONSE && !supported && props == 0
  }

  /** Reads the first entry of an algorithm list. */
  method FirstAlg(resp: seq<byte>, id: u16) returns (rc: int, supported: bool, props: u32)
    requires |resp| == MAX_CMDBUF
    ensures FirstIs(resp, id, rc, supported, props)
  {
    supported, props := false, 0;
    var iter;
    rc, iter := PayloadStart(resp, CAP_ALGS);
    if rc != SUCCESS {
      return;
    }
    var count := iter.ReadU32(0);
    var alg := iter.ReadU16(ALG_NULL);
    var value := iter.ReadU32(0);
    if iter.error != SUCCESS {
      return iter.error, supported, props;
    }
    if alg == id {
      supported, props := true, value;
    }
    rc := SUCCESS;
  }

  /** The response lists nothing and goes on all the same. */
  ghost predicate Stray(v: View) {
    && Complete(v.served) && |Reply(v.served)| >= HEADER_SIZE + 15
    && DecodeAlgs(Reply(v.served)[HEADER_SIZE..]) == Some([])
  }

  /** What a lookup takes for the entry of such a response. */
  ghost function StrayEntry(v: View): Alg
    requires Stray(v)
  {
    AlgAt(Reply(v.served)[HEADER_SIZE..], 0)
  }

  /** A response of exactly the length its list needs never does. */
  lemma ExactIsNotStray(v: View)
    requires Complete(v.served) && SuccessReply(Reply(v.served)) && DecodeAlgs(Reply(v.served)[HEADER_SIZE..]).Some?
    requires |Reply(v.served)| == HEADER_SIZE + 9 + 6 * |DecodeAlgs(Reply(v.served)[HEADER_SIZE..]).value|
    ensures !Stray(v)
  {
  }

  /** The first entry of a response that was read, whatever count it states. */
  ghost function FirstEntry(v: View): Option<Alg>
    requires Taken(v)
  {
    var r := Reply(v.served);
    if SuccessReply(r) && Announces(r[HEADER_SIZE..], CAP_ALGS) && |r| >= HEADER_SIZE + 15
    then Some(AlgAt(r[HEADER_SIZE..], 0)) else None
  }

  /** The exact account of a lookup by properties, whatever the device does. */
  ghost predicate PropsRead(v: View, id: u16, rc: int, supported: bool, props: u32) {
    if !Taken(v) then ExchangeCode(rc) && rc != SUCCESS && rc != ERR_RESPONSE && !supported && props == 0
    else
      match FirstEntry(v)
      case None => rc == ERR_RESPONSE && !supported && props == 0
      case Some(e) => rc == SUCCESS && supported == (e.id == id) && props == if e.id == id then e.value else 0
  }

  /** What a lookup by properties reports about a device with this ascending list. */
  ghost predicate PropsOutcome(list: seq<Alg>, id: u16, v: View, rc: int, supported: bool, props: u32) {
    && (Taken(v) ==> rc == if HasAtLeast(list, id) || Stray(v) then SUCCESS else ERR_RESPONSE)
    && (rc == SUCCESS ==> supported == if Stray(v) then StrayEntry(v).id == id else Has(list, id))
    && (rc == SUCCESS && supported ==> if Stray(v) then props == StrayEntry(v).value else Entry(id, props) in list)
    && (rc == SUCCESS && !supported ==> props == 0)
    && (Stray(v) ==> !Has(list, id))
  }

  method GetAlgProps(bus: Bus, chip: Chip, host: Order, id: u16, ghost list: seq<Alg>)
    returns (rc: int, supported: bool, props: u32)
    requires bus.Valid() && bus.cur == []
    modifies bus
    ensures Appended(bus, old(bus.done), 1)
    ensures var v := Watch(bus.done[|old(bus.done)|]);
      && Asked(v, CAP_ALGS, id, 1) && PropsRead(v, id, rc, supported, props)
      && (Ascending(list) && AlgDevice(list, v) && Taken(v) ==> PropsOutcome(list, id, v, rc, supported, props))
    ensures !ListCode(rc) ==> LastFailed(bus, chip, rc)
  {
    supported, props := false, 0;
    var resp := new byte[MAX_CMDBUF];
    var more;
    rc, more := GetcapRaw(bus, chip, host, CAP_ALGS, id, 1, resp);
    ghost var v := Watch(bus.done[|old(bus.done)|]);
    ghost var raw := rc;
    if rc == SUCCESS {
      rc, supported, props := FirstAlg(resp[..], id);
    }
    FirstRead(v, id, resp[..], raw, more, rc, supported, props);
    if Ascending(list) && AlgDevice(list, v) && Taken(v) {
      PropsAgainstList(list, id, v, rc, supported, props);
    }
  }

  /** What the buffer says of the first entry is what the device handed out. */
  lemma FirstRead(v: View, id: u16, resp: seq<byte>, raw: int, more: bool, rc: int, supported: bool, props: u32)
    requires |resp| == MAX_CMDBUF && RawOutcome(v, CAP_ALGS, id, 1, resp, raw, more)
    requires raw != SUCCESS ==> rc == raw && !supported && props == 0
    requires raw == SUCCESS ==> FirstIs(resp, id, rc, supported, props)
    ensures PropsRead(v, id, rc, supported, props)
  {
    if Taken(v) {
      HeldSuccess(resp, v.served);
      if raw == SUCCESS {
        HeldParams(resp, v.served);
      }
    }
  }

  lemma PropsAgainstList(list: seq<Alg>, id: u16, v: View, rc: int, supported: bool, props: u32)
    requires Ascending(list) && AlgDevice(list, v) && Taken(v) && Asked(v, CAP_ALGS, id, 1)
    requires PropsRead(v, id, rc, supported, props)
    ensures PropsOutcome(list, id, v, rc, supported, props)
  {
    var r := Reply(v.served);
    assert AlgReply(r, list, id, 1);
    OneEntry(list, id, r);
  }

  /** The stray entry of a response carries this id. */
  ghost predicate Misled(v: View, id: u16) {
    Stray(v) && StrayEntry(v).id == id
  }

  ghost predicate LastMisled(done: Log, id: u16)
    requires done != []
  {
    Misled(Watch(done[|done| - 1]), id)
  }

  lemma Agreement(list: seq<Alg>, id: u16, v: View, supported1: bool, rc: int, supported2: bool, props: u32)
    requires supported1 == Has(list, id) && PropsOutcome(list, id, v, rc, supported2, props) && rc == SUCCESS
    ensures supported1 == supported2 <==> !Misled(v, id)
  {
  }

  /** Looks an algorithm up by properties after `base`, since when it was found to be supported or not. */
  method CompareProps(bus: Bus, chip: Chip, host: Order, id: u16, ghost list: seq<Alg>, ghost base: Log,
                      ghost supported1: bool)
    returns (rc: int, supported: bool)
    requires bus.Valid() && bus.cur == [] && |base| <= |bus.done|
    requires AlgRun(bus.done, |base|, list) ==> supported1 == Has(list, id)
    modifies bus
    ensures Appended(bus, old(bus.done), 1)
    ensures rc == SUCCESS && AlgRun(bus.done, |base|, list) ==>
      (supported1 == supported <==> !LastMisled(bus.done, id))
  {
    ghost var done0 := bus.done;
    var props;
    rc, supported, props := GetAlgProps(bus, chip, host, id, list);
    if rc == SUCCESS && AlgRun(bus.done, |base|, list) {
      AlgRunPrefix(done0, bus.done, |base|, list);
      Agreement(list, id, Watch(bus.done[|bus.done| - 1]), supported1, rc, supported, props);
    }
  }

  /** Both lookups report the same support, for every id but the terminator, exactly unless the second is misled by a
      response that lists nothing and goes on with this id. */
  method LookupsAgree(bus: Bus, chip: Chip, host: Order, id: u16, ghost list: seq<Alg>)
    returns (rc1: int, supported1: bool, rc2: int, supported2: bool)
    requires bus.Valid() && bus.cur == [] && id != ALG_NULL
    modifies bus
    ensures |bus.done| > |old(bus.done)| && bus.done[..|old(bus.done)|] == old(bus.done)
    ensures rc1 == SUCCESS && rc2 == SUCCESS && AlgRun(bus.done, |old(bus.done)|, list) ==>
      (supported1 == supported2 <==> !LastMisled(bus.done, id))
  {
    ghost var starts;
    rc1, supported1, starts := HasAlg(bus, chip, host, id, list);
    ghost var done0 := bus.done;
    ghost var known := rc1 == SUCCESS && AlgRun(done0, |old(bus.done)|, list);
    rc2, supported2 := CompareProps(bus, chip, host, id, list, old(bus.done), if known then supported1 else Has(list, id));
    PrefixOfPrefix(old(bus.done), done0, bus.done);
    if rc1 == SUCCESS && AlgRun(bus.done, |old(bus.done)|, list) {
      AlgRunPrefix(done0, bus.done, |old(bus.done)|, list);
    }
  }
}
