/** What it means for a device to answer capability requests page by page, and what follows for the pages. */
module Paging {
  import opened Bytes
  import opened DeviceView
  import opened Payload

  const ST_NO_SESSIONS: u16 := 0x8001
  const CMD_GET_CAPABILITY: u32 := 0x017A
  const PAGE_COUNT: u32 := 16
  const MAX_PAGES := 64

  /** The wire form of a capability request. */
  function GetCapCommand(cap: u32, property: u32, count: u32): seq<byte> {
    BE16(ST_NO_SESSIONS) + BE32(22) + BE32(CMD_GET_CAPABILITY) + (BE32(cap) + BE32(property) + BE32(count))
  }

  ghost predicate Ascending<T(!new)>(s: seq<Entry<T>>) {
    forall i, j :: 0 <= i < j < |s| ==> s[i].id < s[j].id
  }

  /** The entries whose id is at least `p`, in order. */
  function AtOrAbove<T>(s: seq<Entry<T>>, p: u32): seq<Entry<T>> {
    if s == [] then [] else AtOrAbove(s[..|s| - 1], p) + if s[|s| - 1].id >= p then [s[|s| - 1]] else []
  }

  /** `entries` is an answer to a request from `p` for up to `count` entries: any initial chunk of what is there, empty
      only if nothing is, with `more` telling whether anything is left. */
  ghost predicate Page<T(!new)>(list: seq<Entry<T>>, p: u32, count: u32, entries: seq<Entry<T>>, more: bool) {
    var rest := AtOrAbove(list, p);
    && entries <= rest && |entries| <= count
    && (rest != [] ==> entries != [])
    && (more <==> |entries| < |rest|)
  }

  /** Where the request after the first `m` entries starts. */
  function Next<T>(list: seq<Entry<T>>, m: nat): u32
    requires m <= |list|
  {
    if m == 0 then 0 else list[m - 1].id + 1
  }

  lemma {:induction false} AtLeast<T(!new)>(list: seq<Entry<T>>, p: u32)
    ensures forall i :: 0 <= i < |AtOrAbove(list, p)| ==> AtOrAbove(list, p)[i].id >= p
  {
    if list != [] {
      AtLeast(list[..|list| - 1], p);
    }
  }

  lemma {:induction false} AboveSuffix<T(!new)>(list: seq<Entry<T>>, m: nat, p: u32)
    requires m <= |list|
    requires forall i :: 0 <= i < m ==> list[i].id < p
    requires forall i :: m <= i < |list| ==> list[i].id >= p
    ensures AtOrAbove(list, p) == list[m..]
  {
    if list != [] {
      var last := |list| - 1;
      if m <= last {
        AboveSuffix(list[..last], m, p);
        assert list[..last][m..] + [list[last]] == list[m..];
      } else {
        AboveSuffix(list[..last], last, p);
      }
    }
  }

  /** Pages of an ascending list are consecutive pieces of it, however the device cuts them. */
  lemma PageIsNextPiece<T(!new)>(list: seq<Entry<T>>, m: nat, count: u32, entries: seq<Entry<T>>, more: bool)
    requires m <= |list| && (Ascending(list) || m == 0) && Page(list, Next(list, m), count, entries, more)
    ensures m + |entries| <= |list| && entries == list[m..m + |entries|]
    ensures more <==> m + |entries| < |list|
    ensures m < |list| ==> entries != []
  {
    AboveSuffix(list, m, Next(list, m));
    assert list[m..][..|entries|] == list[m..m + |entries|];
  }

  lemma {:induction false} AllBeyond<T>(s: seq<Entry<T>>, id: u16)
    requires forall i :: 0 <= i < |s| ==> s[i].id > id
    ensures !Has(s, id)
  {
    if s != [] {
      AllBeyond(s[..|s| - 1], id);
    }
  }

  /** Once an ascending list has been read up to an id, that prefix decides about every id up to it. */
  lemma PrefixDecides<T(!new)>(list: seq<Entry<T>>, m: nat, id: u16)
    requires m <= |list| && (m == |list| || (Ascending(list) && m > 0 && id <= list[m - 1].id))
    ensures Has(list[..m], id) <==> Has(list, id)
    ensures m == |list| || !Has(list[m..], id)
  {
    var front, rest := list[..m], list[m..];
    assert list == front + rest;
    HasConcat(front, rest, id);
    if m < |list| {
      forall i | 0 <= i < |rest|
        ensures rest[i].id > id
      {
        assert list[m - 1].id < list[m + i].id;
      }
      AllBeyond(rest, id);
    }
  }

  /** All of a response was read. */
  predicate Complete(served: seq<byte>) {
    |served| >= HEADER_SIZE && Announced(served) <= |served|
  }

  /** A success response of exactly its announced size. */
  predicate SuccessReply(r: seq<byte>) {
    && |r| > HEADER_SIZE && Announced(r) == |r|
    && U16(r[..2]) == ST_NO_SESSIONS && U32(r[6..10]) == 0
  }

  /** The response within what the device handed out. */
  function Reply(served: seq<byte>): seq<byte>
    requires Complete(served)
  {
    served[..Announced(served)]
  }

  predicate MoreFlag(r: seq<byte>)
    requires |r| > HEADER_SIZE
  {
    r[HEADER_SIZE] != 0
  }

  /** The response states a page of the algorithm list. */
  ghost predicate AlgReply(r: seq<byte>, list: seq<Alg>, p: u32, count: u32) {
    && SuccessReply(r)
    && DecodeAlgs(r[HEADER_SIZE..]).Some?
    && var entries := DecodeAlgs(r[HEADER_SIZE..]).value;
    && Page(list, p, count, entries, MoreFlag(r))
  }

  /** In this exchange the device answered as one with this algorithm list does. Only a completely read response is held
      against it. */
  ghost predicate AlgDevice(list: seq<Alg>, v: View) {
    forall p: u32, count: u32 ::
      v.accepted == Some(GetCapCommand(CAP_ALGS, p, count)) && Complete(v.served)
      ==> AlgReply(Reply(v.served), list, p, count)
  }

  /** The response states a page of the bank list. Unless the list ascends, that page has to be all of it. */
  ghost predicate BankReply(r: seq<byte>, list: seq<Bank>, p: u32, count: u32) {
    && SuccessReply(r)
    && DecodeBanks(r[HEADER_SIZE..]).Some?
    && var entries := DecodeBanks(r[HEADER_SIZE..]).value;
    && Page(list, p, count, entries, MoreFlag(r))
    && (Ascending(list) || !MoreFlag(r))
  }

  ghost predicate BankDevice(list: seq<Bank>, v: View) {
    forall p: u32, count: u32 ::
      v.accepted == Some(GetCapCommand(CAP_PCRS, p, count)) && Complete(v.served)
      ==> BankReply(Reply(v.served), list, p, count)
  }

  /** A page that announces more to come holds as many entries as were asked for. */
  ghost predicate FullPage(v: View) {
    Complete(v.served) ==>
      var r := Reply(v.served);
      |r| > HEADER_SIZE && MoreFlag(r) && DecodeAlgs(r[HEADER_SIZE..]).Some?
      ==> |DecodeAlgs(r[HEADER_SIZE..]).value| == PAGE_COUNT
  }

  /** A response buffer that starts with what the device handed out. */
  ghost predicate Holds(resp: seq<byte>, served: seq<byte>) {
    |resp| == MAX_CMDBUF && Complete(served) && Announced(served) <= MAX_CMDBUF && served <= resp
  }

  lemma HeldParams(resp: seq<byte>, served: seq<byte>)
    requires Holds(resp, served) && Announced(served) > HEADER_SIZE
    ensures var r := Reply(served);
      && Announced(resp) == Announced(served) == Announced(r) == |r|
      && Params(resp) == Some(r[HEADER_SIZE..])
      && resp[..2] == r[..2] && resp[6..10] == r[6..10] && resp[HEADER_SIZE] == r[HEADER_SIZE]
  {
    var r := Reply(served);
    assert resp[2..6] == served[2..6] == r[2..6];
    assert resp[HEADER_SIZE..|r|] == r[HEADER_SIZE..];
  }

  /** The response in a buffer is a success with parameters. */
  predicate Succeeded(resp: seq<byte>)
    requires |resp| == MAX_CMDBUF
  {
    U16(resp[..2]) == ST_NO_SESSIONS && U32(resp[6..10]) == 0 && HEADER_SIZE < Announced(resp) <= MAX_CMDBUF
  }

  /** Only a success response passes for one in the buffer. */
  lemma HeldSuccess(resp: seq<byte>, served: seq<byte>)
    requires Holds(resp, served)
    ensures Succeeded(resp) <==> SuccessReply(Reply(served))
  {
    if Announced(served) > HEADER_SIZE {
      HeldParams(resp, served);
    }
  }

  lemma HeldReply(resp: seq<byte>, served: seq<byte>)
    requires Holds(resp, served)
    ensures Announced(resp) == Announced(served) && resp[..Announced(resp)] == Reply(served)
  {
  }
}
