/** Iteration over the PCR banks of a paging device (tpm_for_each_pcr_bank in src/tpm2_cmds.c). */
module BankIteration {
  import opened Bytes
  import opened Codes
  import opened HostOrder
  import opened DeviceView
  import opened SpiBus
  import opened Fifo
  import opened Exchange
  import opened Payload
  import opened Parser
  import opened BankParser
  import opened Paging
  import opened GetCapability
  import opened Walks
  import opened BankQueries

  type BankCallback = Callback<seq<byte>>

  /** One page of an iteration: the calls for all it lists, until one asks to stop. */
  ghost predicate PageVisited(s: Told<seq<byte>>, cb: BankCallback, calls0: seq<Bank>, rc: int, parsed: nat, last: u16,
                              more: bool, calls: seq<Bank>, found: bool)
  {
    && Cut(cb, calls0, Entries(s), calls, found)
    && if found then rc == SUCCESS else PageRead(s, rc, parsed, last, more)
  }

  /** Makes the calls for all that a response lists, until one asks to stop. */
  method VisitResponse(resp: seq<byte>, cb: BankCallback, calls0: seq<Bank>, last0: u16, ghost more: bool)
    returns (rc: int, parsed: nat, last: u16, calls: seq<Bank>, found: bool)
    requires |resp| == MAX_CMDBUF && Params(resp).Some?
    ensures PageVisited(BanksIn(Params(resp).value, more), cb, calls0, rc, parsed, last, more, calls, found)
  {
    rc, parsed, last, found, calls := ParsePcrsFind(resp, cb, calls0, last0);
    BanksDecoded(Params(resp).value);
    CutEmpty(cb, calls0);
  }

  /** Requests one page and makes the calls for all it lists, whatever comes back. */
  method VisitPage(bus: Bus, chip: Chip, host: Order, property: u32, cb: BankCallback, calls0: seq<Bank>, last0: u16)
    returns (rc: int, parsed: nat, last: u16, more: bool, calls: seq<Bank>, found: bool)
    requires bus.Valid() && bus.cur == []
    modifies bus
    ensures Appended(bus, old(bus.done), 1)
    ensures var v := Watch(bus.done[|old(bus.done)|]);
      && Asked(v, CAP_PCRS, property, PAGE_COUNT)
      && PageVisited(BanksTold(v), cb, calls0, rc, parsed, last, more, calls, found)
    ensures !ListCode(rc) ==> LastFailed(bus, chip, rc)
  {
    parsed, last, calls, found := 0, last0, calls0, false;
    var resp := new byte[MAX_CMDBUF];
    rc, more := FetchPage(bus, chip, host, CAP_PCRS, property, resp);
    if rc != SUCCESS {
      CutEmpty(cb, calls0);
      return;
    }
    rc, parsed, last, calls, found := VisitResponse(resp[..], cb, calls0, last0, more);
  }

  /** So far an iteration has walked along the list and made the calls for all that its exchanges listed. */
  ghost predicate Visiting(done: Log, from: nat, starts: seq<u32>, cb: BankCallback, calls: seq<Bank>, found: bool) {
    && Requested(done, from, starts, CAP_PCRS)
    && Walked(ToldSince(BanksTold, done, from), starts, NO_LIMIT)
    && Cut(cb, [], AllEntries(ToldSince(BanksTold, done, from)), calls, found)
  }

  /** The call that asked to stop was for a bank of the last page. */
  ghost predicate FoundLast(told: seq<Told<seq<byte>>>, calls: seq<Bank>) {
    told != [] && |calls| > |AllEntries(told[..|told| - 1])|
  }

  /** What a page makes of an iteration: a call that asks to stop ends it, otherwise the page decides. */
  ghost predicate VisitDecides(done: Log, from: nat, starts: seq<u32>, calls: seq<Bank>, found: bool,
                               rc: int, parsed: nat, last: u16, more: bool)
    requires from <= |done|
  {
    if found then rc == SUCCESS && FoundLast(ToldSince(BanksTold, done, from), calls)
    else TurnDecides(ToldSince(BanksTold, done, from), starts, NO_LIMIT, rc, parsed, last, more)
  }

  /** What one more exchange makes of an iteration. */
  lemma VisitingStep(done0: Log, done: Log, from: nat, starts: seq<u32>, property: u32, cb: BankCallback,
                     calls0: seq<Bank>, calls: seq<Bank>, found: bool, rc: int, parsed: nat, last: u16, more: bool)
    requires from <= |done0| && |done| == |done0| + 1 && done[..|done0|] == done0
    requires Visiting(done0, from, starts, cb, calls0, false) && |starts| < MAX_PAGES
    requires Walking(ToldSince(BanksTold, done0, from), starts, NO_LIMIT, property)
    requires Asked(Watch(done[|done0|]), CAP_PCRS, property, PAGE_COUNT)
    requires PageVisited(BanksTold(Watch(done[|done0|])), cb, calls0, rc, parsed, last, more, calls, found)
    ensures Visiting(done, from, starts + [property], cb, calls, found)
    ensures VisitDecides(done, from, starts + [property], calls, found, rc, parsed, last, more)
  {
    var s, told0 := BanksTold(Watch(done[|done0|])), ToldSince(BanksTold, done0, from);
    RequestedStep(done0, done, from, starts, CAP_PCRS, property);
    ToldStep(BanksTold, done0, done, from);
    WalkStep(told0, starts, NO_LIMIT, property, s);
    assert (told0 + [s])[..|told0|] == told0;
    CutChain(cb, [], AllEntries(told0), calls0, Entries(s), calls, found);
    if !found {
      Decided(told0 + [s], starts + [property], NO_LIMIT, rc, parsed, last, more);
    }
  }

  /** The exact account of an iteration, whatever the device does: the calls are those for all that its exchanges listed,
      cut after the first stop, which is a success and the end of the walk; without one the result follows from what they
      told. */
  ghost predicate BanksVisited(done: Log, from: nat, starts: seq<u32>, rc: int, cb: BankCallback, calls: seq<Bank>,
                               found: bool)
    requires from <= |done|
  {
    var told := ToldSince(BanksTold, done, from);
    && Visiting(done, from, starts, cb, calls, found) && 0 < |told| <= MAX_PAGES
    && if found then rc == SUCCESS && FoundLast(told, calls) else Ended(told, starts, NO_LIMIT, rc)
  }

  /** What an iteration promises when it returns, for a device that answers from this list: on success exactly the calls
      for the whole list, cut after the first stop; at the page limit a prefix of them, none of which asked to stop. */
  ghost predicate VisitOutcome(done: Log, from: nat, list: seq<Bank>, starts: seq<u32>, rc: int, cb: BankCallback,
                               calls: seq<Bank>, found: bool)
  {
    BankRun(done, from, list) ==>
      && Increasing(starts)
      && (rc == SUCCESS ==> Cut(cb, [], list, calls, found))
      && (rc == ERR_ITERATION_LIMIT ==> calls <= list && NoStop(cb, 0, calls) && |list| > MAX_PAGES)
      && rc != ERR_RESPONSE
  }

  /** Calls for the front of a list that have stopped are those for the list. */
  lemma CutFront(cb: BankCallback, e: seq<Bank>, list: seq<Bank>, calls: seq<Bank>, found: bool)
    requires e <= list && Cut(cb, [], e, calls, found)
    ensures found || e == list ==> Cut(cb, [], list, calls, found)
    ensures !found ==> calls <= list && NoStop(cb, 0, calls)
  {
    assert list == e + list[|e|..];
    if found {
      CutStopped(cb, [], e, calls, list[|e|..]);
    } else {
      assert calls == e;
    }
  }

  /** What the exact account of an iteration means for a device with a list. */
  lemma VisitAgainstList(done: Log, from: nat, list: seq<Bank>, starts: seq<u32>, rc: int, cb: BankCallback,
                         calls: seq<Bank>, found: bool)
    requires from <= |done| && BanksVisited(done, from, starts, rc, cb, calls, found)
    ensures VisitOutcome(done, from, list, starts, rc, cb, calls, found)
  {
    if BankRun(done, from, list) {
      var told := ToldSince(BanksTold, done, from);
      BankRunConforms(done, from, list, starts);
      StartsIncrease(told, starts, NO_LIMIT, list);
      if found {
        FoundReads(told, starts, list, cb, calls);
        CutFront(cb, AllEntries(told), list, calls, found);
      } else if rc == SUCCESS {
        WalkDecides(told, starts, NO_LIMIT, list, 0);
      } else if rc == ERR_ITERATION_LIMIT {
        WalkLimited(told, starts, NO_LIMIT, list);
        CutFront(cb, AllEntries(told), list, calls, found);
      }
    }
  }

  lemma FoundReads(told: seq<Told<seq<byte>>>, starts: seq<u32>, list: seq<Bank>, cb: BankCallback, calls: seq<Bank>)
    requires Walked(told, starts, NO_LIMIT) && AllConform(told, starts, list)
    requires Cut(cb, [], AllEntries(told), calls, true) && FoundLast(told, calls)
    ensures AllEntries(told) <= list
  {
    if told[|told| - 1].Failed? {
      NothingTold(told);
      assert false;
    }
    AllRead(told, starts, NO_LIMIT, list);
  }

  /** Calls back for the banks, page by page, until a call asks to stop. */
  method ForEachPcrBank(bus: Bus, chip: Chip, host: Order, cb: BankCallback, ghost list: seq<Bank>)
    returns (rc: int, calls: seq<Bank>, found: bool, ghost starts: seq<u32>)
    requires bus.Valid() && bus.cur == []
    modifies bus
    ensures Appended(bus, old(bus.done), |starts|)
    ensures BanksVisited(bus.done, |old(bus.done)|, starts, rc, cb, calls, found)
    ensures VisitOutcome(bus.done, |old(bus.done)|, list, starts, rc, cb, calls, found)
    ensures !ListCode(rc) ==> LastFailed(bus, chip, rc)
  {
    rc, calls, found, starts := VisitPages(bus, chip, host, cb);
    VisitAgainstList(bus.done, |old(bus.done)|, list, starts, rc, cb, calls, found);
  }

  /** One turn of the paging loop, `base` being the log when it began. */
  method VisitTurn(bus: Bus, chip: Chip, host: Order, property: u32, cb: BankCallback, calls0: seq<Bank>, last0: u16,
                   ghost base: Log, ghost starts0: seq<u32>)
    returns (rc: int, parsed: nat, last: u16, more: bool, calls: seq<Bank>, found: bool, ghost starts: seq<u32>)
    requires Appended(bus, base, |starts0|) && |starts0| < MAX_PAGES
    requires Visiting(bus.done, |base|, starts0, cb, calls0, false)
    requires Walking(ToldSince(BanksTold, bus.done, |base|), starts0, NO_LIMIT, property)
    modifies bus
    ensures starts == starts0 + [property] && Appended(bus, base, |starts|)
    ensures Visiting(bus.done, |base|, starts, cb, calls, found)
    ensures VisitDecides(bus.done, |base|, starts, calls, found, rc, parsed, last, more)
    ensures !ListCode(rc) ==> LastFailed(bus, chip, rc)
  {
    ghost var done0 := bus.done;
    rc, parsed, last, more, calls, found := VisitPage(bus, chip, host, property, cb, calls0, last0);
    PrefixOfPrefix(base, done0, bus.done);
    VisitingStep(done0, bus.done, |base|, starts0, property, cb, calls0, calls, found, rc, parsed, last, more);
    starts := starts0 + [property];
  }

  /** The paging loop. */
  method VisitPages(bus: Bus, chip: Chip, host: Order, cb: BankCallback)
    returns (rc: int, calls: seq<Bank>, found: bool, ghost starts: seq<u32>)
    requires bus.Valid() && bus.cur == []
    modifies bus
    ensures Appended(bus, old(bus.done), |starts|)
    ensures BanksVisited(bus.done, |old(bus.done)|, starts, rc, cb, calls, found)
    ensures !ListCode(rc) ==> LastFailed(bus, chip, rc)
  {
    calls, found, starts := [], false, [];
    ghost var base := bus.done;
    var property: u32, last: u16, pages := 0, 0, 0;
    while true
      invariant Appended(bus, base, |starts|) && |starts| == pages <= MAX_PAGES
      invariant Visiting(bus.done, |base|, starts, cb, calls, false)
      invariant Walking(ToldSince(BanksTold, bus.done, |base|), starts, NO_LIMIT, property)
      invariant pages == MAX_PAGES ==> Ended(ToldSince(BanksTold, bus.done, |base|), starts, NO_LIMIT, ERR_ITERATION_LIMIT)
      decreases MAX_PAGES - pages
    {
      if pages >= MAX_PAGES {
        return ERR_ITERATION_LIMIT, calls, false, starts;
      }
      var parsed, more;
      rc, parsed, last, more, calls, found, starts := VisitTurn(bus, chip, host, property, cb, calls, last, base, starts);
      if rc != SUCCESS {
        return;
      }
      if found {
        return SUCCESS, calls, found, starts;
      }
      if more && parsed == 0 {
        return ERR_RESPONSE, calls, found, starts;
      }
      property := last + 1;
      pages := pages + 1;
      if !more {
        return SUCCESS, calls, found, starts;
      }
    }
  }

  /** A longer run of a device is a run in both its parts. */
  lemma RunParts(done: Log, from: nat, mid: nat, list: seq<Bank>)
    requires BankRun(done, from, list) && from <= mid <= |done|
    ensures BankRun(done[..mid], from, list) && BankRun(done, mid, list)
  {
  }

  /** A callback that never stops collects the banks of a device that answers from a list. */
  method CollectBanks(bus: Bus, chip: Chip, host: Order, cb: BankCallback, ghost list: seq<Bank>)
    returns (rc: int, calls: seq<Bank>)
    requires bus.Valid() && bus.cur == []
    modifies bus
    ensures bus.Valid() && bus.cur == [] && |bus.done| >= |old(bus.done)| && bus.done[..|old(bus.done)|] == old(bus.done)
    ensures rc == SUCCESS && (forall s :: !cb(s)) && BankRun(bus.done, |old(bus.done)|, list) ==> calls == list
  {
    var found;
    ghost var starts;
    rc, calls, found, starts := ForEachPcrBank(bus, chip, host, cb, list);
  }

  /** The masks that the banks collected by a never-stopping callback state are those a query reports: runs an iteration and
      then a query against the same device. */
  method CollectedMasks(bus: Bus, chip: Chip, host: Order, cb: BankCallback, query: array<BankSlot>, ghost t: nat,
                        ghost list: seq<Bank>)
    returns (rc1: int, calls: seq<Bank>, rc2: int)
    requires bus.Valid() && bus.cur == [] && Terminated(query[..], t, MAX_PCR_SELECTIONS)
    modifies bus, query
    ensures bus.Valid() && |bus.done| >= |old(bus.done)| && bus.done[..|old(bus.done)|] == old(bus.done)
    ensures SameIds(query[..], old(query[..]))
    ensures rc1 == SUCCESS && rc2 == SUCCESS && (forall s :: !cb(s)) && BankRun(bus.done, |old(bus.done)|, list) ==>
      calls == list && forall i :: 0 <= i < t ==> Stated(query[i].value, calls, query[i].id)
  {
    ghost var starts;
    rc1, calls := CollectBanks(bus, chip, host, cb, list);
    ghost var done1 := bus.done;
    rc2, starts := QueryPcrs(bus, chip, host, query, t, list);
    PrefixOfPrefix(old(bus.done), done1, bus.done);
    if BankRun(bus.done, |old(bus.done)|, list) {
      RunParts(bus.done, |old(bus.done)|, |done1|, list);
    }
  }
}
