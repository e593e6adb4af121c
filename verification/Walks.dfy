/** Walks over a capability list that the device hands out page by page, whatever it answers: what each exchange told, when
    a walk goes on, and how it ends. */
module Walks {
  import opened Bytes
  import opened Codes
  import opened HostOrder
  import opened DeviceView
  import opened SpiBus
  import opened Fifo
  import opened Exchange
  import opened Payload
  import opened Paging
  import opened GetCapability
  import SpiWire

  type Log = seq<seq<SpiWire.Access>>

  /** What an exchange told about a list: nothing, as it failed; some entries, but in a response that is no success, holds
      no complete list or announces more after an empty one; or a page. */
  datatype Told<T> = Failed | Garbled(some: seq<Entry<T>>) | Listed(page: seq<Entry<T>>, more: bool)

  function Entries<T>(s: Told<T>): seq<Entry<T>> {
    match s
    case Failed => []
    case Garbled(some) => some
    case Listed(page, _) => page
  }

  /** The entries of all these exchanges, one after the other. */
  function AllEntries<T>(told: seq<Told<T>>): seq<Entry<T>> {
    if told == [] then [] else AllEntries(told[..|told| - 1]) + Entries(told[|told| - 1])
  }

  lemma NothingTold<T(!new)>(told: seq<Told<T>>)
    requires told != [] && told[|told| - 1].Failed?
    ensures AllEntries(told) == AllEntries(told[..|told| - 1])
  {
  }

  /** What parameters with this complete list, or only these complete entries, tell. */
  function Tell<T>(list: Option<seq<Entry<T>>>, whole: seq<Entry<T>>, more: bool): Told<T> {
    if list.Some? && (more ==> list.value != []) then Listed(list.value, more) else Garbled(whole)
  }

  function AlgsIn(p: seq<byte>, more: bool): Told<u32> {
    if Announces(p, CAP_ALGS) then Tell(DecodeAlgs(p), WholeAlgs(p), more) else Garbled([])
  }

  function BanksIn(p: seq<byte>, more: bool): Told<seq<byte>> {
    if Announces(p, CAP_PCRS) then Tell(DecodeBanks(p), WholeBanks(p), more) else Garbled([])
  }

  function AlgsTold(v: View): Told<u32> {
    if !Taken(v) then Failed
    else
      var r := Reply(v.served);
      if SuccessReply(r) then AlgsIn(r[HEADER_SIZE..], MoreFlag(r)) else Garbled([])
  }

  function BanksTold(v: View): Told<seq<byte>> {
    if !Taken(v) then Failed
    else
      var r := Reply(v.served);
      if SuccessReply(r) then BanksIn(r[HEADER_SIZE..], MoreFlag(r)) else Garbled([])
  }

  /** What the exchanges from `from` on told. */
  function ToldSince<T>(f: View -> Told<T>, done: Log, from: nat): (r: seq<Told<T>>)
    requires from <= |done|
    ensures |r| == |done| - from
  {
    seq(|done| - from, i requires 0 <= i < |done| - from => f(Watch(done[from + i])))
  }

  lemma ToldStep<T(!new)>(f: View -> Told<T>, done0: Log, done: Log, from: nat)
    requires from <= |done0| && |done| == |done0| + 1 && done[..|done0|] == done0
    ensures ToldSince(f, done, from) == ToldSince(f, done0, from) + [f(Watch(done[|done0|]))]
  {
    forall i | from <= i < |done0|
      ensures done[i] == done0[i]
    {
      assert done[..|done0|][i] == done0[i];
    }
  }

  /** A request's result and its response buffer tell what the device handed out. */
  ghost predicate Fetched(v: View, resp: seq<byte>, rc: int, more: bool)
    requires |resp| == MAX_CMDBUF
  {
    if rc == SUCCESS then
      && Params(resp).Some?
      && AlgsTold(v) == AlgsIn(Params(resp).value, more) && BanksTold(v) == BanksIn(Params(resp).value, more)
    else if rc == ERR_RESPONSE then AlgsTold(v) == Garbled([]) && BanksTold(v) == Garbled([])
    else ExchangeCode(rc) && AlgsTold(v) == Failed && BanksTold(v) == Failed
  }

  lemma RawFetched(v: View, cap: u32, property: u32, count: u32, resp: seq<byte>, rc: int, more: bool)
    requires |resp| == MAX_CMDBUF && RawOutcome(v, cap, property, count, resp, rc, more)
    ensures Fetched(v, resp, rc, more)
  {
    if Taken(v) {
      HeldSuccess(resp, v.served);
      if rc == SUCCESS {
        HeldParams(resp, v.served);
      }
    }
  }

  /** Requests a page of a list. */
  method FetchPage(bus: Bus, chip: Chip, host: Order, cap: u32, property: u32, resp: array<byte>)
    returns (rc: int, more: bool)
    requires bus.Valid() && bus.cur == [] && resp.Length == MAX_CMDBUF
    modifies bus, resp
    ensures Appended(bus, old(bus.done), 1)
    ensures Asked(Watch(bus.done[|old(bus.done)|]), cap, property, PAGE_COUNT)
    ensures Fetched(Watch(bus.done[|old(bus.done)|]), resp[..], rc, more)
    ensures !ListCode(rc) ==> LastFailed(bus, chip, rc)
  {
    rc, more := GetcapRaw(bus, chip, host, cap, property, PAGE_COUNT, resp);
    RawFetched(Watch(bus.done[|old(bus.done)|]), cap, property, PAGE_COUNT, resp[..], rc, more);
  }

  /** What reading one page returns: for a page, its entries; the code of a failed exchange; ERR_RESPONSE for anything else,
      except that more after nothing is left to the caller. */
  ghost predicate PageRead<T>(s: Told<T>, rc: int, parsed: nat, last: u16, more: bool) {
    match s
    case Failed => ExchangeCode(rc) && rc != SUCCESS && rc != ERR_RESPONSE
    case Garbled(_) => rc == ERR_RESPONSE || (rc == SUCCESS && more && parsed == 0)
    case Listed(page, m) =>
      rc == SUCCESS && more == m && parsed == |page| && (more ==> parsed > 0) && (parsed > 0 ==> last == LastId(page))
  }

  /** A walk that is after ids below a limit goes on: the page says there is more and ends below the limit. */
  predicate GoesOn<T>(s: Told<T>, limit: nat) {
    s.Listed? && s.more && s.page != [] && LastId(s.page) < limit
  }

  /** No id is as large. */
  const NO_LIMIT := 0x1_0000

  /** Where the request after these starts: at 0, or just beyond the last entry. */
  function After<T>(told: seq<Told<T>>): u32 {
    if told == [] then 0 else LastId(Entries(told[|told| - 1])) + 1
  }

  /** The exchanges of a walk and the starts of their requests: every one but the last made it go on. */
  ghost predicate Walked<T(!new)>(told: seq<Told<T>>, starts: seq<u32>, limit: nat) {
    |starts| == |told| && forall i :: 0 <= i < |told| ==> WentOn(told, starts, limit, i)
  }

  /** Exchange `i` was called for and started where it should. */
  ghost predicate WentOn<T(!new)>(told: seq<Told<T>>, starts: seq<u32>, limit: nat, i: nat)
    requires i < |told| == |starts|
  {
    starts[i] == After(told[..i]) && (i > 0 ==> GoesOn(told[i - 1], limit))
  }

  /** Between two pages of a walk. */
  ghost predicate Walking<T(!new)>(told: seq<Told<T>>, starts: seq<u32>, limit: nat, property: u32) {
    && Walked(told, starts, limit) && property == After(told)
    && (told != [] ==> GoesOn(told[|told| - 1], limit))
  }

  lemma WalkStep<T(!new)>(told0: seq<Told<T>>, starts0: seq<u32>, limit: nat, property: u32, s: Told<T>)
    requires Walking(told0, starts0, limit, property)
    ensures Walked(told0 + [s], starts0 + [property], limit)
    ensures GoesOn(s, limit) ==> Walking(told0 + [s], starts0 + [property], limit, LastId(Entries(s)) + 1)
  {
    var told := told0 + [s];
    forall i | 0 <= i < |told|
      ensures WentOn(told, starts0 + [property], limit, i)
    {
      assert told[..i] == told0[..i];
      if i < |told0| {
        assert WentOn(told0, starts0, limit, i);
      } else {
        assert told0[..|told0|] == told0;
      }
    }
  }

  /** Success and the two errors of a walk whose exchanges all succeeded. */
  predicate ListCode(rc: int) {
    rc == SUCCESS || rc == ERR_RESPONSE || rc == ERR_ITERATION_LIMIT
  }

  /** How a walk ends: the last exchange decides. A page that makes it go on can only be the last of the 64 allowed. */
  ghost predicate Ended<T(!new)>(told: seq<Told<T>>, starts: seq<u32>, limit: nat, rc: int) {
    && 0 < |told| <= MAX_PAGES && Walked(told, starts, limit)
    && var s := told[|told| - 1];
    match s
    case Failed => ExchangeCode(rc) && rc != SUCCESS && rc != ERR_RESPONSE
    case Garbled(_) => rc == ERR_RESPONSE
    case Listed(_, _) =>
      if GoesOn(s, limit) then rc == ERR_ITERATION_LIMIT && |told| == MAX_PAGES else rc == SUCCESS
  }

  /** What a page read means for the walk: an error ends it, so does more after nothing, and so does a page that has no more
      or reaches the limit; otherwise it goes on. */
  ghost predicate TurnDecides<T(!new)>(told: seq<Told<T>>, starts: seq<u32>, limit: nat,
                                       rc: int, parsed: nat, last: u16, more: bool)
  {
    if rc != SUCCESS then Ended(told, starts, limit, rc)
    else if more && parsed == 0 then Ended(told, starts, limit, ERR_RESPONSE)
    else if more && last < limit then
      Walking(told, starts, limit, last + 1) && (|told| == MAX_PAGES ==> Ended(told, starts, limit, ERR_ITERATION_LIMIT))
    else Ended(told, starts, limit, SUCCESS)
  }

  lemma Decided<T(!new)>(told: seq<Told<T>>, starts: seq<u32>, limit: nat, rc: int, parsed: nat, last: u16, more: bool)
    requires 0 < |told| <= MAX_PAGES && Walked(told, starts, limit)
    requires PageRead(told[|told| - 1], rc, parsed, last, more)
    ensures TurnDecides(told, starts, limit, rc, parsed, last, more)
  {
  }

  /** At the page limit every page made the walk go on. */
  lemma EachGoesOn<T(!new)>(told: seq<Told<T>>, starts: seq<u32>, limit: nat, i: nat)
    requires Ended(told, starts, limit, ERR_ITERATION_LIMIT) && i < |told|
    ensures GoesOn(told[i], limit)
  {
    assert i < |told| - 1 ==> WentOn(told, starts, limit, i + 1);
  }

  /** Each exchange carried the request from the given start, as far as it got. */
  ghost predicate Requested(done: Log, from: nat, starts: seq<u32>, cap: u32) {
    && |done| == from + |starts|
    && forall i :: 0 <= i < |starts| ==> Asked(Watch(done[from + i]), cap, starts[i], PAGE_COUNT)
  }

  lemma RequestedStep(done0: Log, done: Log, from: nat, starts: seq<u32>, cap: u32, property: u32)
    requires Requested(done0, from, starts, cap) && |done| == |done0| + 1 && done[..|done0|] == done0
    requires Asked(Watch(done[|done0|]), cap, property, PAGE_COUNT)
    ensures Requested(done, from, starts + [property], cap)
  {
    forall i | 0 <= i < |starts| + 1
      ensures Asked(Watch(done[from + i]), cap, (starts + [property])[i], PAGE_COUNT)
    {
      if i < |starts| {
        assert done[from + i] == done0[from + i];
      }
    }
  }

  // Walks against a device that answers from a list

  /** Unless the exchange failed, it told a page of this list from `p` on. Unless the list ascends, that is all of it. */
  ghost predicate Conforms<T(!new)>(s: Told<T>, list: seq<Entry<T>>, p: u32) {
    s.Failed? || (s.Listed? && Page(list, p, PAGE_COUNT, s.page, s.more) && (Ascending(list) || !s.more))
  }

  ghost predicate AllConform<T(!new)>(told: seq<Told<T>>, starts: seq<u32>, list: seq<Entry<T>>) {
    |starts| == |told| && forall i :: 0 <= i < |told| ==> Conforms(told[i], list, starts[i])
  }

  lemma AlgsConform(list: seq<Alg>, v: View, p: u32)
    requires Ascending(list) && AlgDevice(list, v) && Asked(v, CAP_ALGS, p, PAGE_COUNT)
    ensures Conforms(AlgsTold(v), list, p)
  {
    if Taken(v) {
      assert AlgReply(Reply(v.served), list, p, PAGE_COUNT);
    }
  }

  lemma BanksConform(list: seq<Bank>, v: View, p: u32)
    requires BankDevice(list, v) && Asked(v, CAP_PCRS, p, PAGE_COUNT)
    ensures Conforms(BanksTold(v), list, p)
  {
    if Taken(v) {
      assert BankReply(Reply(v.served), list, p, PAGE_COUNT);
    }
  }

  /** The first `k` pages read the list from its front up to where the last of them ends. */
  ghost predicate ReadTo<T(!new)>(told: seq<Told<T>>, list: seq<Entry<T>>, k: nat)
    requires k <= |told|
  {
    var e := AllEntries(told[..k]);
    && e <= list
    && (k == 0 ==> e == [])
    && (k > 0 ==>
          var s := told[k - 1];
          && s.Listed? && (s.more <==> |e| < |list|)
          && (s.more ==> Ascending(list) && |e| >= k && s.page != [] && LastId(s.page) == list[|e| - 1].id))
  }

  /** However the device cuts its pages, a walk reads its list piece by piece. */
  lemma {:induction false} WalkReads<T(!new)>(told: seq<Told<T>>, starts: seq<u32>, limit: nat, list: seq<Entry<T>>, k: nat)
    requires Walked(told, starts, limit) && AllConform(told, starts, list) && k <= |told|
    requires k > 0 ==> !told[k - 1].Failed?
    ensures ReadTo(told, list, k)
  {
    if k > 0 {
      assert WentOn(told, starts, limit, k - 1);
      WalkReads(told, starts, limit, list, k - 1);
      WalkReadsStep(told, starts, list, k);
    }
  }

  lemma WalkReadsStep<T(!new)>(told: seq<Told<T>>, starts: seq<u32>, list: seq<Entry<T>>, k: nat)
    requires 0 < k <= |told| == |starts| && Conforms(told[k - 1], list, starts[k - 1]) && !told[k - 1].Failed?
    requires ReadTo(told, list, k - 1) && starts[k - 1] == After(told[..k - 1]) && (k > 1 ==> told[k - 2].more)
    ensures ReadTo(told, list, k)
  {
    var e, s := AllEntries(told[..k - 1]), told[k - 1];
    assert told[..k][..k - 1] == told[..k - 1];
    assert AllEntries(told[..k]) == e + s.page;
    NextPiece(list, e, s.page, s.more);
  }

  /** A page asked for just beyond the front of a list is the piece that follows. */
  lemma NextPiece<T(!new)>(list: seq<Entry<T>>, e: seq<Entry<T>>, page: seq<Entry<T>>, more: bool)
    requires e <= list && (Ascending(list) || e == []) && Page(list, Next(list, |e|), PAGE_COUNT, page, more)
    ensures e + page <= list && (more <==> |e + page| < |list|)
    ensures |e| < |list| ==> page != [] && LastId(page) == list[|e + page| - 1].id
  {
    PageIsNextPiece(list, |e|, PAGE_COUNT, page, more);
    assert list[..|e|] == e;
    assert list[..|e| + |page|] == e + page;
  }

  /** All pages of a walk together. */
  lemma AllRead<T(!new)>(told: seq<Told<T>>, starts: seq<u32>, limit: nat, list: seq<Entry<T>>)
    requires Walked(told, starts, limit) && AllConform(told, starts, list)
    requires told != [] && !told[|told| - 1].Failed?
    ensures var e, s := AllEntries(told), told[|told| - 1];
      && e <= list && s.Listed? && (s.more <==> |e| < |list|)
      && (s.more ==> Ascending(list) && |e| >= |told| && LastId(s.page) == list[|e| - 1].id)
  {
    WalkReads(told, starts, limit, list, |told|);
    assert told[..|told|] == told;
  }

  ghost predicate Increasing(s: seq<u32>) {
    forall i, j :: 0 <= i < j < |s| ==> s[i] < s[j]
  }

  lemma {:induction false} StepsIncrease(s: seq<u32>)
    requires forall i :: 0 < i < |s| ==> s[i - 1] < s[i]
    ensures Increasing(s)
  {
    if |s| > 1 {
      var front := s[..|s| - 1];
      StepsIncrease(front);
      assert forall i :: 0 <= i < |front| ==> s[i] <= front[|front| - 1];
    }
  }

  /** Each request of such a walk starts beyond the ones before. */
  lemma StartsIncrease<T(!new)>(told: seq<Told<T>>, starts: seq<u32>, limit: nat, list: seq<Entry<T>>)
    requires Walked(told, starts, limit) && AllConform(told, starts, list)
    ensures Increasing(starts)
  {
    forall i | 0 < i < |starts|
      ensures starts[i - 1] < starts[i]
    {
      assert WentOn(told, starts, limit, i) && Conforms(told[i - 1], list, starts[i - 1]);
      var page := told[i - 1].page;
      AtLeast(list, starts[i - 1]);
      assert page[|page| - 1] == AtOrAbove(list, starts[i - 1])[|page| - 1];
      assert told[..i][i - 1] == told[i - 1];
    }
    StepsIncrease(starts);
  }

  /** No request but the first starts beyond the limit. */
  lemma StartsWithin<T(!new)>(told: seq<Told<T>>, starts: seq<u32>, limit: nat)
    requires Walked(told, starts, limit)
    ensures forall i :: 0 < i < |starts| ==> starts[i] <= limit
  {
    forall i | 0 < i < |starts|
      ensures starts[i] <= limit
    {
      assert WentOn(told, starts, limit, i);
      assert told[..i][i - 1] == told[i - 1];
    }
  }

  /** What a walk that ended in success has read of the list decides about every id up to the limit. */
  lemma WalkDecides<T(!new)>(told: seq<Told<T>>, starts: seq<u32>, limit: nat, list: seq<Entry<T>>, id: u16)
    requires Ended(told, starts, limit, SUCCESS) && AllConform(told, starts, list) && id <= limit
    ensures AllEntries(told) <= list && !Has(list[|AllEntries(told)|..], id)
    ensures Has(AllEntries(told), id) <==> Has(list, id)
    ensures limit == NO_LIMIT ==> AllEntries(told) == list
  {
    var e := AllEntries(told);
    AllRead(told, starts, limit, list);
    assert list[..|e|] == e;
    PrefixDecides(list, |e|, id);
  }

  /** The page limit ends only a walk over a longer list. */
  lemma WalkLimited<T(!new)>(told: seq<Told<T>>, starts: seq<u32>, limit: nat, list: seq<Entry<T>>)
    requires Ended(told, starts, limit, ERR_ITERATION_LIMIT) && AllConform(told, starts, list)
    ensures AllEntries(told) <= list && |list| > MAX_PAGES
    ensures (forall i :: 0 <= i < |told| ==> |Entries(told[i])| == PAGE_COUNT) ==> |list| > PAGE_COUNT * MAX_PAGES
  {
    AllRead(told, starts, limit, list);
    if forall i :: 0 <= i < |told| ==> |Entries(told[i])| == PAGE_COUNT {
      FullPages(told);
    }
  }

  lemma {:induction false} FullPages<T(!new)>(told: seq<Told<T>>)
    requires forall i :: 0 <= i < |told| ==> |Entries(told[i])| == PAGE_COUNT
    ensures |AllEntries(told)| == PAGE_COUNT * |told|
  {
    if told != [] {
      FullPages(told[..|told| - 1]);
    }
  }
}
