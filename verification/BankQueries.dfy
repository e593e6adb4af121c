/** PCR bank queries against a paging device (tpm_getcap_query_pcrs in src/tpm2_cmds.c). */
module BankQueries {
  import opened Bytes
  import opened Codes
  import opened HostOrder
  import opened DeviceView
  import opened SpiBus
  import opened Fifo
  import opened Exchange
  import opened Payload
  import opened Parser
  import opened BankParser
  import opened Paging
  import opened GetCapability
  import opened Walks
  import opened AlgQueries

  /** Since exchange `from` the device has answered as one with this bank list. */
  ghost predicate BankRun(done: Log, from: nat, list: seq<Bank>) {
    forall i :: from <= i < |done| ==> BankDevice(list, Watch(done[i]))
  }

  /** Zeroes the queried masks and finds the largest id among them. */
  method ClearBanks(query: array<BankSlot>, ghost t: nat) returns (max: u16, items: nat, terminated: bool)
    requires Terminated(query[..], t, MAX_PCR_SELECTIONS)
    modifies query
    ensures SameIds(query[..], old(query[..])) && items == t && terminated == (t < MAX_PCR_SELECTIONS)
    ensures max == MaxId(query[..], t) && forall i :: 0 <= i < t ==> query[i].value == Zeros(PCR_SELECT_SIZE)
    ensures forall i :: t <= i < query.Length ==> query[i] == old(query[i])
  {
    max, items, terminated := 0, 0, false;
    ghost var q0 := query[..];
    while items < MAX_PCR_SELECTIONS
      invariant items <= t && max == MaxId(q0, items)
      invariant SameIds(query[..], q0)
      invariant forall i :: 0 <= i < items ==> query[i].value == Zeros(PCR_SELECT_SIZE)
      invariant forall i :: items <= i < query.Length ==> query[i] == q0[i]
    {
      if query[items].id == ALG_NULL {
        terminated := true;
        break;
      }
      query[items] := Entry(query[items].id, Zeros(PCR_SELECT_SIZE));
      if query[items].id > max {
        max := query[items].id;
      }
      items := items + 1;
    }
    SameMax(query[..], q0, t);
  }

  /** Filling from one page after another fills from all of them. */
  lemma FilledOn(q: seq<BankSlot>, q1: seq<BankSlot>, q0: seq<BankSlot>, t: nat, a: seq<Bank>, b: seq<Bank>)
    requires Filled(q1, q0, t, a) && Filled(q, q1, t, b)
    ensures Filled(q, q0, t, a + b)
  {
    forall i | 0 <= i < |q| && i < t
      ensures q[i].value == LastMask(a + b, q[i].id, q0[i].value)
    {
      LastMaskConcat(a, b, q[i].id, q0[i].value);
    }
  }

  /** Fills the query from all that a response lists. */
  method AbsorbBanks(resp: seq<byte>, query: array<BankSlot>, ghost t: nat, ghost more: bool)
    returns (rc: int, parsed: nat, last: u16)
    requires |resp| == MAX_CMDBUF && Params(resp).Some? && Terminated(query[..], t, MAX_PCR_SELECTIONS)
    modifies query
    ensures var s := BanksIn(Params(resp).value, more);
      PageRead(s, rc, parsed, last, more) && Filled(query[..], old(query[..]), t, Entries(s))
  {
    ghost var rounds;
    rc, parsed, last, rounds := ParsePcrs(resp, query, t);
    BanksDecoded(Params(resp).value);
  }

  /** Requests one page and fills the query from all it lists, whatever comes back. */
  method BankPage(bus: Bus, chip: Chip, host: Order, property: u32, query: array<BankSlot>, ghost t: nat)
    returns (rc: int, parsed: nat, last: u16, more: bool)
    requires bus.Valid() && bus.cur == [] && Terminated(query[..], t, MAX_PCR_SELECTIONS)
    modifies bus, query
    ensures Appended(bus, old(bus.done), 1)
    ensures var v := Watch(bus.done[|old(bus.done)|]);
      && Asked(v, CAP_PCRS, property, PAGE_COUNT)
      && PageRead(BanksTold(v), rc, parsed, last, more)
      && Filled(query[..], old(query[..]), t, Entries(BanksTold(v)))
    ensures !ListCode(rc) ==> LastFailed(bus, chip, rc)
  {
    parsed, last := 0, 0;
    var resp := new byte[MAX_CMDBUF];
    rc, more := FetchPage(bus, chip, host, CAP_PCRS, property, resp);
    if rc != SUCCESS {
      return;
    }
    rc, parsed, last := AbsorbBanks(resp[..], query, t, more);
  }

  /** Each queried mask is what the list states about that id. */
  ghost predicate BankAnswers(q: seq<BankSlot>, t: nat, list: seq<Bank>)
    requires t <= |q|
  {
    forall i :: 0 <= i < t ==> Stated(q[i].value, list, q[i].id)
  }

  /** What a query promises when it returns, for a device that answers from this list. */
  ghost predicate BankOutcome(done: Log, from: nat, list: seq<Bank>, starts: seq<u32>, rc: int, q: seq<BankSlot>, t: nat)
  {
    BankRun(done, from, list) ==>
      && Increasing(starts)
      && (rc == SUCCESS ==> t <= |q| && BankAnswers(q, t, list))
      && (rc == ERR_ITERATION_LIMIT ==> |list| > MAX_PAGES)
      && rc != ERR_RESPONSE
  }

  /** Every exchange of a run against such a device told a page of the list, or failed. */
  lemma BankRunConforms(done: Log, from: nat, list: seq<Bank>, starts: seq<u32>)
    requires BankRun(done, from, list) && Requested(done, from, starts, CAP_PCRS)
    ensures AllConform(ToldSince(BanksTold, done, from), starts, list)
  {
    forall i | 0 <= i < |starts|
      ensures Conforms(ToldSince(BanksTold, done, from)[i], list, starts[i])
    {
      BanksConform(list, Watch(done[from + i]), starts[i]);
    }
  }

  /** The exact account of a query, whatever the device does: its result follows from what its exchanges told, its masks are
      what they state together, and no request but the first starts beyond the largest queried id. */
  ghost predicate BanksQueried(done: Log, from: nat, starts: seq<u32>, rc: int, q: seq<BankSlot>, t: nat)
    requires from <= |done| && t <= |q|
  {
    var told := ToldSince(BanksTold, done, from);
    && Requested(done, from, starts, CAP_PCRS) && Ended(told, starts, MaxId(q, t), rc)
    && BankAnswers(q, t, AllEntries(told))
    && forall i :: 0 < i < |starts| ==> starts[i] <= MaxId(q, t)
  }

  /** What that means for a device with a list. */
  lemma BanksAgainstList(done: Log, from: nat, list: seq<Bank>, starts: seq<u32>, rc: int, q: seq<BankSlot>, t: nat)
    requires from <= |done| && t <= |q| && BanksQueried(done, from, starts, rc, q, t)
    ensures BankOutcome(done, from, list, starts, rc, q, t)
  {
    if BankRun(done, from, list) {
      var told := ToldSince(BanksTold, done, from);
      BankRunConforms(done, from, list, starts);
      StartsIncrease(told, starts, MaxId(q, t), list);
      if rc == SUCCESS {
        forall i | 0 <= i < t
          ensures Stated(q[i].value, list, q[i].id)
        {
          WalkDecides(told, starts, MaxId(q, t), list, q[i].id);
          StatedOn(q[i].value, AllEntries(told), list, q[i].id);
        }
      }
      if rc == ERR_ITERATION_LIMIT {
        WalkLimited(told, starts, MaxId(q, t), list);
      }
    }
  }

  /** So far a query has walked along the list and filled its masks from all that its exchanges listed. */
  ghost predicate Filling(done: Log, from: nat, starts: seq<u32>, limit: nat, q: seq<BankSlot>, q0: seq<BankSlot>, t: nat)
  {
    && Requested(done, from, starts, CAP_PCRS)
    && Walked(ToldSince(BanksTold, done, from), starts, limit)
    && Filled(q, q0, t, AllEntries(ToldSince(BanksTold, done, from)))
  }

  /** What one more exchange makes of a query. */
  lemma FillingStep(done0: Log, done: Log, from: nat, starts: seq<u32>, limit: nat, property: u32,
                    q0: seq<BankSlot>, q1: seq<BankSlot>, q: seq<BankSlot>, t: nat,
                    rc: int, parsed: nat, last: u16, more: bool)
    requires from <= |done0| && |done| == |done0| + 1 && done[..|done0|] == done0
    requires Filling(done0, from, starts, limit, q1, q0, t)
    requires Walking(ToldSince(BanksTold, done0, from), starts, limit, property)
    requires Asked(Watch(done[|done0|]), CAP_PCRS, property, PAGE_COUNT)
    requires Filled(q, q1, t, Entries(BanksTold(Watch(done[|done0|]))))
    requires |starts| < MAX_PAGES && PageRead(BanksTold(Watch(done[|done0|])), rc, parsed, last, more)
    ensures Filling(done, from, starts + [property], limit, q, q0, t)
    ensures TurnDecides(ToldSince(BanksTold, done, from), starts + [property], limit, rc, parsed, last, more)
  {
    var s, told0 := BanksTold(Watch(done[|done0|])), ToldSince(BanksTold, done0, from);
    RequestedStep(done0, done, from, starts, CAP_PCRS, property);
    ToldStep(BanksTold, done0, done, from);
    WalkStep(told0, starts, limit, property, s);
    assert (told0 + [s])[..|told0|] == told0;
    FilledOn(q, q1, q0, t, AllEntries(told0), Entries(s));
    Decided(told0 + [s], starts + [property], limit, rc, parsed, last, more);
  }

  /** Filling masks that were zero answers the query. */
  lemma FillingAnswers(done: Log, from: nat, list: seq<Bank>, starts: seq<u32>, rc: int, q: seq<BankSlot>,
                       q0: seq<BankSlot>, t: nat)
    requires from <= |done| && t <= |q0| && Filling(done, from, starts, MaxId(q0, t), q, q0, t)
    requires Ended(ToldSince(BanksTold, done, from), starts, MaxId(q0, t), rc)
    requires forall i :: 0 <= i < t ==> q0[i].value == Zeros(PCR_SELECT_SIZE)
    ensures BanksQueried(done, from, starts, rc, q, t) && BankOutcome(done, from, list, starts, rc, q, t)
    ensures SameIds(q, q0) && forall i :: t <= i < |q| ==> q[i] == q0[i]
  {
    var told := ToldSince(BanksTold, done, from);
    SameMax(q, q0, t);
    StartsWithin(told, starts, MaxId(q0, t));
    forall i | 0 <= i < t
      ensures Stated(q[i].value, AllEntries(told), q[i].id)
    {
      LastMaskStated(AllEntries(told), q[i].id);
    }
    BanksAgainstList(done, from, list, starts, rc, q, t);
  }

  /** Gives each queried bank the selection the device has allocated to it. For a device that lists its banks on one page,
      or page by page in ascending order, the masks are exact. */
  method QueryPcrs(bus: Bus, chip: Chip, host: Order, query: array<BankSlot>, ghost t: nat, ghost list: seq<Bank>)
    returns (rc: int, ghost starts: seq<u32>)
    requires bus.Valid() && bus.cur == [] && Terminated(query[..], t, MAX_PCR_SELECTIONS)
    modifies bus, query
    ensures Appended(bus, old(bus.done), |starts|)
    ensures SameIds(query[..], old(query[..])) && forall i :: t <= i < query.Length ==> query[i] == old(query[i])
    ensures t == MAX_PCR_SELECTIONS ==> rc == INVALID_PARAM && starts == []
    ensures t == 0 ==> rc == SUCCESS && starts == []
    ensures 0 < t < MAX_PCR_SELECTIONS ==> BanksQueried(bus.done, |old(bus.done)|, starts, rc, query[..], t)
    ensures BankOutcome(bus.done, |old(bus.done)|, list, starts, rc, query[..], t)
    ensures 0 < t < MAX_PCR_SELECTIONS && !ListCode(rc) ==> LastFailed(bus, chip, rc)
  {
    starts := [];
    var max, items, terminated := ClearBanks(query, t);
    if !terminated {
      return INVALID_PARAM, starts;
    }
    if items == 0 {
      return SUCCESS, starts;
    }
    ghost var cleared := query[..];
    TerminatedSame(cleared, old(query[..]), t, MAX_PCR_SELECTIONS);
    rc, starts := BankPages(bus, chip, host, query, max, t);
    FillingAnswers(bus.done, |old(bus.done)|, list, starts, rc, query[..], cleared, t);
  }

  /** One turn of the paging loop, `base` being the log and `q0` the query when it began. */
  method BankTurn(bus: Bus, chip: Chip, host: Order, property: u32, query: array<BankSlot>, ghost t: nat,
                  ghost base: Log, ghost starts0: seq<u32>, ghost q0: seq<BankSlot>, ghost max: u16)
    returns (rc: int, parsed: nat, last: u16, more: bool, ghost starts: seq<u32>)
    requires Appended(bus, base, |starts0|) && |starts0| < MAX_PAGES && Terminated(q0, t, MAX_PCR_SELECTIONS)
    requires Filling(bus.done, |base|, starts0, max, query[..], q0, t)
    requires Walking(ToldSince(BanksTold, bus.done, |base|), starts0, max, property)
    modifies bus, query
    ensures starts == starts0 + [property] && Appended(bus, base, |starts|)
    ensures Filling(bus.done, |base|, starts, max, query[..], q0, t)
    ensures TurnDecides(ToldSince(BanksTold, bus.done, |base|), starts, max, rc, parsed, last, more)
    ensures !ListCode(rc) ==> LastFailed(bus, chip, rc)
  {
    ghost var done0, q1 := bus.done, query[..];
    TerminatedSame(q1, q0, t, MAX_PCR_SELECTIONS);
    rc, parsed, last, more := BankPage(bus, chip, host, property, query, t);
    PrefixOfPrefix(base, done0, bus.done);
    FillingStep(done0, bus.done, |base|, starts0, max, property, q0, q1, query[..], t, rc, parsed, last, more);
    starts := starts0 + [property];
  }

  /** The paging loop: fills the query from all that the exchanges list and ends as they say. */
  method BankPages(bus: Bus, chip: Chip, host: Order, query: array<BankSlot>, max: u16, ghost t: nat)
    returns (rc: int, ghost starts: seq<u32>)
    requires bus.Valid() && bus.cur == [] && Terminated(query[..], t, MAX_PCR_SELECTIONS)
    modifies bus, query
    ensures Appended(bus, old(bus.done), |starts|)
    ensures Filling(bus.done, |old(bus.done)|, starts, max, query[..], old(query[..]), t)
    ensures Ended(ToldSince(BanksTold, bus.done, |old(bus.done)|), starts, max, rc)
    ensures !ListCode(rc) ==> LastFailed(bus, chip, rc)
  {
    starts := [];
    ghost var base, q0 := bus.done, query[..];
    var property: u32, pages := 0, 0;
    while true
      invariant Appended(bus, base, |starts|) && |starts| == pages <= MAX_PAGES
      invariant Filling(bus.done, |base|, starts, max, query[..], q0, t)
      invariant Walking(ToldSince(BanksTold, bus.done, |base|), starts, max, property)
      invariant pages == MAX_PAGES ==> Ended(ToldSince(BanksTold, bus.done, |base|), starts, max, ERR_ITERATION_LIMIT)
      decreases MAX_PAGES - pages
    {
      if pages >= MAX_PAGES {
        return ERR_ITERATION_LIMIT, starts;
      }
      var parsed, last, more;
      rc, parsed, last, more, starts := BankTurn(bus, chip, host, property, query, t, base, starts, q0, max);
      if rc != SUCCESS {
        return;
      }
      if more && parsed == 0 {
        return ERR_RESPONSE, starts;
      }
      property := last + 1;
      pages := pages + 1;
      if !(more && last < max) {
        return SUCCESS, starts;
      }
    }
  }
}
