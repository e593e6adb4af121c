/** Iteration over the algorithms of a paging device (tpm_for_each_alg_props in src/tpm2_cmds.c). */
module AlgIteration {
  import opened Bytes
  import opened Codes
  import opened HostOrder
  import opened DeviceView
  import opened SpiBus
  import opened Fifo
  import opened Exchange
  import opened Payload
  import opened Parser
  import opened Paging
  import opened GetCapability
  import opened Walks
  import opened AlgQueries

  /** The caller's side of an iteration: two masks and a callback. */
  datatype Visitor = Visitor(mustSet: u32, mustClear: u32, cb: Callback<u32>)

  /** From `base` on, the calls are those for the algorithms of `s` that pass the masks, cut after the first stop. */
  ghost predicate Visits(w: Visitor, base: seq<Alg>, s: seq<Alg>, calls: seq<Alg>, found: bool) {
    Cut(w.cb, base, Filter(s, w.mustSet, w.mustClear), calls, found)
  }

  lemma VisitsOn(w: Visitor, base: seq<Alg>, a: seq<Alg>, mid: seq<Alg>, b: seq<Alg>, calls: seq<Alg>, found: bool)
    requires Visits(w, base, a, mid, false) && Visits(w, mid, b, calls, found)
    ensures Visits(w, base, a + b, calls, found)
  {
    FilterConcat(a, b, w.mustSet, w.mustClear);
    CutChain(w.cb, base, Filter(a, w.mustSet, w.mustClear), mid, Filter(b, w.mustSet, w.mustClear), calls, found);
  }

  /** One page of an iteration: the calls for all it lists, until one asks to stop. */
  ghost predicate PageVisited(s: Told<u32>, w: Visitor, calls0: seq<Alg>, rc: int, parsed: nat, last: u16, more: bool,
                              calls: seq<Alg>, found: bool)
  {
    && Visits(w, calls0, Entries(s), calls, found)
    && if found then rc == SUCCESS else PageRead(s, rc, parsed, last, more)
  }

  /** Makes the calls for all that a response lists, until one asks to stop. */
  method VisitResponse(resp: seq<byte>, w: Visitor, calls0: seq<Alg>, last0: u16, ghost more: bool)
    returns (rc: int, parsed: nat, last: u16, calls: seq<Alg>, found: bool)
    requires |resp| == MAX_CMDBUF && Params(resp).Some?
    ensures PageVisited(AlgsIn(Params(resp).value, more), w, calls0, rc, parsed, last, more, calls, found)
  {
    rc, parsed, last, found, calls := ParseAlgsFind(resp, w.mustSet, w.mustClear, w.cb, calls0, last0);
    WholeDecoded(Params(resp).value);
    CutEmpty(w.cb, calls0);
  }

  /** Requests one page and makes the calls for all it lists, whatever comes back. */
  method VisitPage(bus: Bus, chip: Chip, host: Order, property: u32, w: Visitor, calls0: seq<Alg>, last0: u16)
    returns (rc: int, parsed: nat, last: u16, more: bool, calls: seq<Alg>, found: bool)
    requires bus.Valid() && bus.cur == []
    modifies bus
    ensures Appended(bus, old(bus.done), 1)
    ensures var v := Watch(bus.done[|old(bus.done)|]);
      && Asked(v, CAP_ALGS, property, PAGE_COUNT)
      && PageVisited(AlgsTold(v), w, calls0, rc, parsed, last, more, calls, found)
    ensures !ListCode(rc) ==> LastFailed(bus, chip, rc)
  {
    parsed, last, calls, found := 0, last0, calls0, false;
    var resp := new byte[MAX_CMDBUF];
    rc, more := FetchPage(bus, chip, host, CAP_ALGS, property, resp);
    if rc != SUCCESS {
      CutEmpty(w.cb, calls0);
      return;
    }
    rc, parsed, last, calls, found := VisitResponse(resp[..], w, calls0, last0, more);
  }

  /** So far an iteration has walked along the list and made the calls for all that its exchanges listed. */
  ghost predicate Visiting(done: Log, from: nat, starts: seq<u32>, w: Visitor, calls: seq<Alg>, found: bool) {
    && Requested(done, from, starts, CAP_ALGS)
    && Walked(ToldSince(AlgsTold, done, from), starts, NO_LIMIT)
    && Visits(w, [], AllEntries(ToldSince(AlgsTold, done, from)), calls, found)
  }

  /** What one more exchange makes of an iteration. */
  lemma VisitingStep(done0: Log, done: Log, from: nat, starts: seq<u32>, property: u32, w: Visitor,
                     calls0: seq<Alg>, calls: seq<Alg>, found: bool, rc: int, parsed: nat, last: u16, more: bool)
    requires from <= |done0| && |done| == |done0| + 1 && done[..|done0|] == done0
    requires Visiting(done0, from, starts, w, calls0, false) && |starts| < MAX_PAGES
    requires Walking(ToldSince(AlgsTold, done0, from), starts, NO_LIMIT, property)
    requires Asked(Watch(done[|done0|]), CAP_ALGS, property, PAGE_COUNT)
    requires PageVisited(AlgsTold(Watch(done[|done0|])), w, calls0, rc, parsed, last, more, calls, found)
    ensures Visiting(done, from, starts + [property], w, calls, found)
    ensures VisitDecides(done, from, starts + [property], w, calls, found, rc, parsed, last, more)
  {
    var s, told0 := AlgsTold(Watch(done[|done0|])), ToldSince(AlgsTold, done0, from);
    RequestedStep(done0, done, from, starts, CAP_ALGS, property);
    ToldStep(AlgsTold, done0, done, from);
    WalkStep(told0, starts, NO_LIMIT, property, s);
    assert (told0 + [s])[..|told0|] == told0;
    VisitsOn(w, [], AllEntries(told0), calls0, Entries(s), calls, found);
    if !found {
      Decided(told0 + [s], starts + [property], NO_LIMIT, rc, parsed, last, more);
    }
  }

  /** The call that asked to stop was for an entry of the last page. */
  ghost predicate FoundLast(told: seq<Told<u32>>, w: Visitor, calls: seq<Alg>) {
    told != [] && |calls| > |Filter(AllEntries(told[..|told| - 1]), w.mustSet, w.mustClear)|
  }

  /** What a page makes of an iteration: a call that asks to stop ends it, otherwise the page decides. */
  ghost predicate VisitDecides(done: Log, from: nat, starts: seq<u32>, w: Visitor, calls: seq<Alg>, found: bool,
                               rc: int, parsed: nat, last: u16, more: bool)
    requires from <= |done|
  {
    if found then rc == SUCCESS && FoundLast(ToldSince(AlgsTold, done, from), w, calls)
    else TurnDecides(ToldSince(AlgsTold, done, from), starts, NO_LIMIT, rc, parsed, last, more)
  }

  /** The exact account of an iteration, whatever the device does: the calls are those for all that its exchanges listed,
      cut after the first stop, which is a success and the end of the walk; without one the result follows from what they
      told. */
  ghost predicate Visited(done: Log, from: nat, starts: seq<u32>, rc: int, w: Visitor, calls: seq<Alg>, found: bool)
    requires from <= |done|
  {
    var told := ToldSince(AlgsTold, done, from);
    && Visiting(done, from, starts, w, calls, found) && 0 < |told| <= MAX_PAGES
    && if found then rc == SUCCESS && FoundLast(told, w, calls) else Ended(told, starts, NO_LIMIT, rc)
  }

  /** What an iteration promises when it returns, for a device that answers from this list: on success exactly the calls
      for the whole list, cut after the first stop; at the page limit a prefix of them, none of which asked to stop. */
  ghost predicate VisitOutcome(done: Log, from: nat, list: seq<Alg>, starts: seq<u32>, rc: int, w: Visitor,
                               calls: seq<Alg>, found: bool)
  {
    AlgRun(done, from, list) ==>
      && Increasing(starts)
      && (rc == SUCCESS ==> Visits(w, [], list, calls, found))
      && (rc == ERR_ITERATION_LIMIT ==>
            && calls <= Filter(list, w.mustSet, w.mustClear)
            && NoStop(w.cb, 0, calls)
            && |list| > MAX_PAGES && (FullRun(done, from) ==> |list| > PAGE_COUNT * MAX_PAGES))
      && rc != ERR_RESPONSE
  }

  /** Calls for the front of a list that have stopped are those for the list. */
  lemma VisitsFront(w: Visitor, e: seq<Alg>, list: seq<Alg>, calls: seq<Alg>, found: bool)
    requires e <= list && Visits(w, [], e, calls, found)
    ensures found || e == list ==> Visits(w, [], list, calls, found)
    ensures !found ==> calls <= Filter(list, w.mustSet, w.mustClear) && NoStop(w.cb, 0, calls)
  {
    var rest := list[|e|..];
    assert list == e + rest;
    FilterConcat(e, rest, w.mustSet, w.mustClear);
    if found {
      CutStopped(w.cb, [], Filter(e, w.mustSet, w.mustClear), calls, Filter(rest, w.mustSet, w.mustClear));
    } else {
      assert calls == Filter(e, w.mustSet, w.mustClear);
    }
  }

  /** What the exact account of an iteration means for a device with a list. */
  lemma VisitAgainstList(done: Log, from: nat, list: seq<Alg>, starts: seq<u32>, rc: int, w: Visitor, calls: seq<Alg>,
                         found: bool)
    requires from <= |done| && Visited(done, from, starts, rc, w, calls, found)
    ensures VisitOutcome(done, from, list, starts, rc, w, calls, found)
  {
    if AlgRun(done, from, list) {
      var told := ToldSince(AlgsTold, done, from);
      AlgRunConforms(done, from, list, starts);
      StartsIncrease(told, starts, NO_LIMIT, list);
      if found {
        FoundReads(told, starts, list, w, calls);
        VisitsFront(w, AllEntries(told), list, calls, found);
      } else if rc == SUCCESS {
        WalkDecides(told, starts, NO_LIMIT, list, 0);
      } else if rc == ERR_ITERATION_LIMIT {
        if FullRun(done, from) {
          FullRunPages(told, done, from, starts, NO_LIMIT);
        }
        WalkLimited(told, starts, NO_LIMIT, list);
        VisitsFront(w, AllEntries(told), list, calls, found);
      }
    }
  }

  lemma FoundReads(told: seq<Told<u32>>, starts: seq<u32>, list: seq<Alg>, w: Visitor, calls: seq<Alg>)
    requires Walked(told, starts, NO_LIMIT) && AllConform(told, starts, list)
    requires Visits(w, [], AllEntries(told), calls, true) && FoundLast(told, w, calls)
    ensures AllEntries(told) <= list
  {
    if told[|told| - 1].Failed? {
      NothingTold(told);
      assert false;
    }
    AllRead(told, starts, NO_LIMIT, list);
  }

  /** Calls back for the algorithms that pass both masks, page by page, until a call asks to stop. */
  method ForEachAlgProps(bus: Bus, chip: Chip, host: Order, w: Visitor, ghost list: seq<Alg>)
    returns (rc: int, calls: seq<Alg>, found: bool, ghost starts: seq<u32>)
    requires bus.Valid() && bus.cur == []
    modifies bus
    ensures Appended(bus, old(bus.done), |starts|)
    ensures Visited(bus.done, |old(bus.done)|, starts, rc, w, calls, found)
    ensures VisitOutcome(bus.done, |old(bus.done)|, list, starts, rc, w, calls, found)
    ensures !ListCode(rc) ==> LastFailed(bus, chip, rc)
  {
    rc, calls, found, starts := VisitPages(bus, chip, host, w);
    VisitAgainstList(bus.done, |old(bus.done)|, list, starts, rc, w, calls, found);
  }

  /** One turn of the paging loop, `base` being the log when it began. */
  method VisitTurn(bus: Bus, chip: Chip, host: Order, property: u32, w: Visitor, calls0: seq<Alg>, last0: u16,
                   ghost base: Log, ghost starts0: seq<u32>)
    returns (rc: int, parsed: nat, last: u16, more: bool, calls: seq<Alg>, found: bool, ghost starts: seq<u32>)
    requires Appended(bus, base, |starts0|) && |starts0| < MAX_PAGES
    requires Visiting(bus.done, |base|, starts0, w, calls0, false)
    requires Walking(ToldSince(AlgsTold, bus.done, |base|), starts0, NO_LIMIT, property)
    modifies bus
    ensures starts == starts0 + [property] && Appended(bus, base, |starts|)
    ensures Visiting(bus.done, |base|, starts, w, calls, found)
    ensures VisitDecides(bus.done, |base|, starts, w, calls, found, rc, parsed, last, more)
    ensures !ListCode(rc) ==> LastFailed(bus, chip, rc)
  {
    ghost var done0 := bus.done;
    rc, parsed, last, more, calls, found := VisitPage(bus, chip, host, property, w, calls0, last0);
    PrefixOfPrefix(base, done0, bus.done);
    VisitingStep(done0, bus.done, |base|, starts0, property, w, calls0, calls, found, rc, parsed, last, more);
    starts := starts0 + [property];
  }

  /** The paging loop. */
  method VisitPages(bus: Bus, chip: Chip, host: Order, w: Visitor)
    returns (rc: int, calls: seq<Alg>, found: bool, ghost starts: seq<u32>)
    requires bus.Valid() && bus.cur == []
    modifies bus
    ensures Appended(bus, old(bus.done), |starts|)
    ensures Visited(bus.done, |old(bus.done)|, starts, rc, w, calls, found)
    ensures !ListCode(rc) ==> LastFailed(bus, chip, rc)
  {
    calls, found, starts := [], false, [];
    ghost var base := bus.done;
    var property: u32, last: u16, pages := 0, 0, 0;
    while true
      invariant Appended(bus, base, |starts|) && |starts| == pages <= MAX_PAGES
      invariant Visiting(bus.done, |base|, starts, w, calls, false)
      invariant Walking(ToldSince(AlgsTold, bus.done, |base|), starts, NO_LIMIT, property)
      invariant pages == MAX_PAGES ==> Ended(ToldSince(AlgsTold, bus.done, |base|), starts, NO_LIMIT, ERR_ITERATION_LIMIT)
      decreases MAX_PAGES - pages
    {
      if pages >= MAX_PAGES {
        return ERR_ITERATION_LIMIT, calls, false, starts;
      }
      var parsed, more;
      rc, parsed, last, more, calls, found, starts := VisitTurn(bus, chip, host, property, w, calls, last, base, starts);
      if rc != SUCCESS {
        return;
      }
      if found {
        return SUCCESS, calls, found, starts;
      }
      if more && parsed == 0 {
        return ERR_RESPONSE, calls, found, starts;
      }
      property := last + 1;
      pages := pages + 1;
      if !more {
        return SUCCESS, calls, found, starts;
      }
    }
  }
}
