/** Algorithm queries against a paging device (tpm_getcap_query_algs in src/tpm2_cmds.c). */
module AlgQueries {
  import opened Bytes
  import opened Codes
  import opened HostOrder
  import opened DeviceView
  import opened SpiBus
  import opened Fifo
  import opened Exchange
  import opened Payload
  import opened Parser
  import opened Paging
  import opened GetCapability
  import opened Walks

  /** Since exchange `from` the device has answered as one with this ascending algorithm list. */
  ghost predicate AlgRun(done: Log, from: nat, list: seq<Alg>) {
    Ascending(list) && forall i :: from <= i < |done| ==> AlgDevice(list, Watch(done[i]))
  }

  ghost predicate FullRun(done: Log, from: nat) {
    forall i :: from <= i < |done| ==> FullPage(Watch(done[i]))
  }

  /** The largest id among the queried slots. */
  function MaxId<T>(q: seq<Entry<T>>, t: nat): (r: u16)
    requires t <= |q|
    ensures forall i :: 0 <= i < t ==> q[i].id <= r
    ensures t > 0 ==> exists i :: 0 <= i < t && q[i].id == r
  {
    if t == 0 then 0
    else
      var r := MaxId(q, t - 1);
      if q[t - 1].id > r || t == 1 then q[t - 1].id else r
  }

  lemma {:induction false} SameMax<T>(q: seq<Entry<T>>, q0: seq<Entry<T>>, t: nat)
    requires SameIds(q, q0) && t <= |q|
    ensures MaxId(q, t) == MaxId(q0, t)
  {
    if t > 0 {
      SameMax(q, q0, t - 1);
    }
  }

  /** Switches the queried slots off and finds the largest id among them. */
  method ClearQuery(query: array<AlgSlot>, ghost t: nat) returns (max: u16, items: nat, terminated: bool)
    requires Terminated(query[..], t, MAX_ALG_PROPERTIES)
    modifies query
    ensures SameIds(query[..], old(query[..])) && items == t && terminated == (t < MAX_ALG_PROPERTIES)
    ensures max == MaxId(query[..], t) && forall i :: 0 <= i < t ==> !query[i].value
    ensures forall i :: t <= i < query.Length ==> query[i] == old(query[i])
  {
    max, items, terminated := 0, 0, false;
    ghost var q0 := query[..];
    while items < MAX_ALG_PROPERTIES
      invariant items <= t && max == MaxId(q0, items)
      invariant SameIds(query[..], q0)
      invariant forall i :: 0 <= i < items ==> !query[i].value
      invariant forall i :: items <= i < query.Length ==> query[i] == q0[i]
    {
      if query[items].id == ALG_NULL {
        terminated := true;
        break;
      }
      query[items] := Entry(query[items].id, false);
      if query[items].id > max {
        max := query[items].id;
      }
      items := items + 1;
    }
    SameMax(query[..], q0, t);
  }

  /** Marking one page after another marks all of them. */
  lemma MarkedOn(q: seq<AlgSlot>, q1: seq<AlgSlot>, q0: seq<AlgSlot>, t: nat, a: seq<Alg>, b: seq<Alg>)
    requires Marked(q1, q0, t, a) && Marked(q, q1, t, b)
    ensures Marked(q, q0, t, a + b)
  {
    forall i | 0 <= i < |q|
      ensures q[i].value == (q0[i].value || (i < t && Has(a + b, q[i].id)))
    {
      HasConcat(a, b, q[i].id);
    }
  }

  /** Marks the query with all that a response lists. */
  method AbsorbPage(resp: seq<byte>, query: array<AlgSlot>, ghost t: nat, ghost more: bool)
    returns (rc: int, parsed: nat, last: u16)
    requires |resp| == MAX_CMDBUF && Params(resp).Some? && Terminated(query[..], t, MAX_ALG_PROPERTIES)
    modifies query
    ensures var s := AlgsIn(Params(resp).value, more);
      PageRead(s, rc, parsed, last, more) && Marked(query[..], old(query[..]), t, Entries(s))
  {
    ghost var rounds;
    rc, parsed, last, rounds := ParseAlgs(resp, query, t);
    WholeDecoded(Params(resp).value);
  }

  /** Requests one page and marks the query with all it lists, whatever comes back. */
  method QueryPage(bus: Bus, chip: Chip, host: Order, property: u32, query: array<AlgSlot>, ghost t: nat)
    returns (rc: int, parsed: nat, last: u16, more: bool)
    requires bus.Valid() && bus.cur == [] && Terminated(query[..], t, MAX_ALG_PROPERTIES)
    modifies bus, query
    ensures Appended(bus, old(bus.done), 1)
    ensures var v := Watch(bus.done[|old(bus.done)|]);
      && Asked(v, CAP_ALGS, property, PAGE_COUNT)
      && PageRead(AlgsTold(v), rc, parsed, last, more)
      && Marked(query[..], old(query[..]), t, Entries(AlgsTold(v)))
    ensures !ListCode(rc) ==> LastFailed(bus, chip, rc)
  {
    parsed, last := 0, 0;
    var resp := new byte[MAX_CMDBUF];
    rc, more := FetchPage(bus, chip, host, CAP_ALGS, property, resp);
    if rc != SUCCESS {
      return;
    }
    rc, parsed, last := AbsorbPage(resp[..], query, t, more);
  }

  /** The ids in question are switched on exactly if they are listed. */
  ghost predicate Answers(q: seq<AlgSlot>, t: nat, list: seq<Alg>)
    requires t <= |q|
  {
    forall i :: 0 <= i < t ==> q[i].value == Has(list, q[i].id)
  }

  /** What a query promises when it returns, for a device that answers from this list. */
  ghost predicate QueryOutcome(done: Log, from: nat, list: seq<Alg>, starts: seq<u32>, rc: int, q: seq<AlgSlot>, t: nat)
  {
    AlgRun(done, from, list) ==>
      && Increasing(starts)
      && (rc == SUCCESS ==> t <= |q| && Answers(q, t, list))
      && (rc == ERR_ITERATION_LIMIT ==>
            |list| > MAX_PAGES && (FullRun(done, from) ==> |list| > PAGE_COUNT * MAX_PAGES))
      && rc != ERR_RESPONSE
  }

  /** Every exchange of a run against such a device told a page of the list, or failed. */
  lemma AlgRunConforms(done: Log, from: nat, list: seq<Alg>, starts: seq<u32>)
    requires AlgRun(done, from, list) && Requested(done, from, starts, CAP_ALGS)
    ensures AllConform(ToldSince(AlgsTold, done, from), starts, list)
  {
    forall i | 0 <= i < |starts|
      ensures Conforms(ToldSince(AlgsTold, done, from)[i], list, starts[i])
    {
      AlgsConform(list, Watch(done[from + i]), starts[i]);
    }
  }

  lemma FullPageTold(v: View, limit: nat)
    requires FullPage(v) && GoesOn(AlgsTold(v), limit)
    ensures |Entries(AlgsTold(v))| == PAGE_COUNT
  {
  }

  lemma FullPageAt(told: seq<Told<u32>>, done: Log, from: nat, i: nat, limit: nat)
    requires from + i < |done| && told == ToldSince(AlgsTold, done, from)
    requires FullRun(done, from) && GoesOn(told[i], limit)
    ensures |Entries(told[i])| == PAGE_COUNT
  {
    FullPageTold(Watch(done[from + i]), limit);
  }

  lemma FullRunPages(told: seq<Told<u32>>, done: Log, from: nat, starts: seq<u32>, limit: nat)
    requires from <= |done| && told == ToldSince(AlgsTold, done, from)
    requires FullRun(done, from) && Ended(told, starts, limit, ERR_ITERATION_LIMIT)
    ensures forall i :: 0 <= i < |told| ==> |Entries(told[i])| == PAGE_COUNT
  {
    forall i | 0 <= i < |told|
      ensures |Entries(told[i])| == PAGE_COUNT
    {
      EachGoesOn(told, starts, limit, i);
      FullPageAt(told, done, from, i, limit);
    }
  }

  /** The exact account of a query, whatever the device does: its result follows from what its exchanges told, its answers
      are what they list together, and no request but the first starts beyond the largest queried id. */
  ghost predicate Queried(done: Log, from: nat, starts: seq<u32>, rc: int, q: seq<AlgSlot>, t: nat)
    requires from <= |done| && t <= |q|
  {
    var told := ToldSince(AlgsTold, done, from);
    && Requested(done, from, starts, CAP_ALGS) && Ended(told, starts, MaxId(q, t), rc)
    && Answers(q, t, AllEntries(told))
    && forall i :: 0 < i < |starts| ==> starts[i] <= MaxId(q, t)
  }

  /** What that means for a device with a list. */
  lemma QueryAgainstList(done: Log, from: nat, list: seq<Alg>, starts: seq<u32>, rc: int, q: seq<AlgSlot>, t: nat)
    requires from <= |done| && t <= |q| && Queried(done, from, starts, rc, q, t)
    ensures QueryOutcome(done, from, list, starts, rc, q, t)
  {
    if AlgRun(done, from, list) {
      var told := ToldSince(AlgsTold, done, from);
      AlgRunConforms(done, from, list, starts);
      StartsIncrease(told, starts, MaxId(q, t), list);
      if rc == SUCCESS {
        forall i | 0 <= i < t
          ensures q[i].value == Has(list, q[i].id)
        {
          WalkDecides(told, starts, MaxId(q, t), list, q[i].id);
        }
      }
      if rc == ERR_ITERATION_LIMIT {
        if FullRun(done, from) {
          FullRunPages(told, done, from, starts, MaxId(q, t));
        }
        WalkLimited(told, starts, MaxId(q, t), list);
      }
    }
  }

  /** Marking slots that were off answers the query. */
  lemma MarkingAnswers(done: Log, from: nat, list: seq<Alg>, starts: seq<u32>, rc: int, q: seq<AlgSlot>,
                       q0: seq<AlgSlot>, t: nat)
    requires from <= |done| && t <= |q0| && Marking(done, from, starts, MaxId(q0, t), q, q0, t)
    requires Ended(ToldSince(AlgsTold, done, from), starts, MaxId(q0, t), rc)
    requires forall i :: 0 <= i < t ==> !q0[i].value
    ensures Queried(done, from, starts, rc, q, t) && QueryOutcome(done, from, list, starts, rc, q, t)
    ensures SameIds(q, q0) && forall i :: t <= i < |q| ==> q[i] == q0[i]
  {
    SameMax(q, q0, t);
    StartsWithin(ToldSince(AlgsTold, done, from), starts, MaxId(q0, t));
    QueryAgainstList(done, from, list, starts, rc, q, t);
  }

  /** Tells for each queried id whether the device lists it. For a device that answers from an ascending list the answers
      are exact, however it cuts its pages; the page limit is hit only by a list of more than 64 entries, or of more than
      1024 if every page but the last is full. */
  method QueryAlgs(bus: Bus, chip: Chip, host: Order, query: array<AlgSlot>, ghost t: nat, ghost list: seq<Alg>)
    returns (rc: int, ghost starts: seq<u32>)
    requires bus.Valid() && bus.cur == [] && Terminated(query[..], t, MAX_ALG_PROPERTIES)
    modifies bus, query
    ensures Appended(bus, old(bus.done), |starts|)
    ensures SameIds(query[..], old(query[..])) && forall i :: t <= i < query.Length ==> query[i] == old(query[i])
    ensures t == MAX_ALG_PROPERTIES ==> rc == INVALID_PARAM && starts == []
    ensures t == 0 ==> rc == SUCCESS && starts == []
    ensures 0 < t < MAX_ALG_PROPERTIES ==> Queried(bus.done, |old(bus.done)|, starts, rc, query[..], t)
    ensures QueryOutcome(bus.done, |old(bus.done)|, list, starts, rc, query[..], t)
    ensures 0 < t < MAX_ALG_PROPERTIES && !ListCode(rc) ==> LastFailed(bus, chip, rc)
  {
    starts := [];
    var max, items, terminated := ClearQuery(query, t);
    if !terminated {
      return INVALID_PARAM, starts;
    }
    if items == 0 {
      return SUCCESS, starts;
    }
    ghost var cleared := query[..];
    TerminatedSame(cleared, old(query[..]), t, MAX_ALG_PROPERTIES);
    rc, starts := QueryPages(bus, chip, host, query, max, t);
    MarkingAnswers(bus.done, |old(bus.done)|, list, starts, rc, query[..], cleared, t);
  }

  lemma TerminatedSame<T>(q: seq<Entry<T>>, q0: seq<Entry<T>>, t: nat, max: nat)
    requires Terminated(q0, t, max) && SameIds(q, q0)
    ensures Terminated(q, t, max)
  {
  }

  /** So far a query has walked along the list and marked all that its exchanges listed. */
  ghost predicate Marking(done: Log, from: nat, starts: seq<u32>, limit: nat, q: seq<AlgSlot>, q0: seq<AlgSlot>, t: nat)
  {
    && Requested(done, from, starts, CAP_ALGS)
    && Walked(ToldSince(AlgsTold, done, from), starts, limit)
    && Marked(q, q0, t, AllEntries(ToldSince(AlgsTold, done, from)))
  }

  /** What one more exchange makes of a query. */
  lemma MarkingStep(done0: Log, done: Log, from: nat, starts: seq<u32>, limit: nat, property: u32,
                    q0: seq<AlgSlot>, q1: seq<AlgSlot>, q: seq<AlgSlot>, t: nat,
                    rc: int, parsed: nat, last: u16, more: bool)
    requires from <= |done0| && |done| == |done0| + 1 && done[..|done0|] == done0
    requires Marking(done0, from, starts, limit, q1, q0, t)
    requires Walking(ToldSince(AlgsTold, done0, from), starts, limit, property)
    requires Asked(Watch(done[|done0|]), CAP_ALGS, property, PAGE_COUNT)
    requires Marked(q, q1, t, Entries(AlgsTold(Watch(done[|done0|]))))
    requires |starts| < MAX_PAGES && PageRead(AlgsTold(Watch(done[|done0|])), rc, parsed, last, more)
    ensures Marking(done, from, starts + [property], limit, q, q0, t)
    ensures TurnDecides(ToldSince(AlgsTold, done, from), starts + [property], limit, rc, parsed, last, more)
  {
    var s, told0 := AlgsTold(Watch(done[|done0|])), ToldSince(AlgsTold, done0, from);
    RequestedStep(done0, done, from, starts, CAP_ALGS, property);
    ToldStep(AlgsTold, done0, done, from);
    WalkStep(told0, starts, limit, property, s);
    assert (told0 + [s])[..|told0|] == told0;
    MarkedOn(q, q1, q0, t, AllEntries(told0), Entries(s));
    Decided(told0 + [s], starts + [property], limit, rc, parsed, last, more);
  }

  /** One turn of the paging loop, `base` being the log and `q0` the query when it began. */
  method QueryTurn(bus: Bus, chip: Chip, host: Order, property: u32, query: array<AlgSlot>, ghost t: nat,
                   ghost base: Log, ghost starts0: seq<u32>, ghost q0: seq<AlgSlot>, ghost max: u16)
    returns (rc: int, parsed: nat, last: u16, more: bool, ghost starts: seq<u32>)
    requires Appended(bus, base, |starts0|) && |starts0| < MAX_PAGES && Terminated(q0, t, MAX_ALG_PROPERTIES)
    requires Marking(bus.done, |base|, starts0, max, query[..], q0, t)
    requires Walking(ToldSince(AlgsTold, bus.done, |base|), starts0, max, property)
    modifies bus, query
    ensures starts == starts0 + [property] && Appended(bus, base, |starts|)
    ensures Marking(bus.done, |base|, starts, max, query[..], q0, t)
    ensures TurnDecides(ToldSince(AlgsTold, bus.done, |base|), starts, max, rc, parsed, last, more)
    ensures !ListCode(rc) ==> LastFailed(bus, chip, rc)
  {
    ghost var done0, q1 := bus.done, query[..];
    TerminatedSame(q1, q0, t, MAX_ALG_PROPERTIES);
    rc, parsed, last, more := QueryPage(bus, chip, host, property, query, t);
    PrefixOfPrefix(base, done0, bus.done);
    MarkingStep(done0, bus.done, |base|, starts0, max, property, q0, q1, query[..], t, rc, parsed, last, more);
    starts := starts0 + [property];
  }

  /** The paging loop: marks the query with all that the exchanges list and ends as they say. */
  method QueryPages(bus: Bus, chip: Chip, host: Order, query: array<AlgSlot>, max: u16, ghost t: nat)
    returns (rc: int, ghost starts: seq<u32>)
    requires bus.Valid() && bus.cur == [] && Terminated(query[..], t, MAX_ALG_PROPERTIES)
    modifies bus, query
    ensures Appended(bus, old(bus.done), |starts|)
    ensures Marking(bus.done, |old(bus.done)|, starts, max, query[..], old(query[..]), t)
    ensures Ended(ToldSince(AlgsTold, bus.done, |old(bus.done)|), starts, max, rc)
    ensures !ListCode(rc) ==> LastFailed(bus, chip, rc)
  {
    starts := [];
    ghost var base, q0 := bus.done, query[..];
    var property: u32, pages := 0, 0;
    while true
      invariant Appended(bus, base, |starts|) && |starts| == pages <= MAX_PAGES
      invariant Marking(bus.done, |base|, starts, max, query[..], q0, t)
      invariant Walking(ToldSince(AlgsTold, bus.done, |base|), starts, max, property)
      invariant pages == MAX_PAGES ==> Ended(ToldSince(AlgsTold, bus.done, |base|), starts, max, ERR_ITERATION_LIMIT)
      decreases MAX_PAGES - pages
    {
      if pages >= MAX_PAGES {
        return ERR_ITERATION_LIMIT, starts;
      }
      var parsed, last, more;
      rc, parsed, last, more, starts := QueryTurn(bus, chip, host, property, query, t, base, starts, q0, max);
      if rc != SUCCESS {
        return;
      }
      if more && parsed == 0 {
        return ERR_RESPONSE, starts;
      }
      property := last + 1;
      pages := pages + 1;
      if !(more && last < max) {
        return SUCCESS, starts;
      }
    }
  }

  /** A run of a device is one in its first part and in its last exchange. */
  lemma AlgRunPrefix(done0: Log, done: Log, from: nat, list: seq<Alg>)
    requires AlgRun(done, from, list) && from <= |done0| < |done| && done[..|done0|] == done0
    ensures AlgRun(done0, from, list) && AlgDevice(list, Watch(done[|done0|]))
  {
  }
}
