/** Capability lists and responses written out, and that the reference decoders read them back. */
module PayloadFacts {
  import opened Bytes
  import opened DeviceView
  import opened Payload
  import opened BankWire
  import opened Paging

  function AlgBytes(list: seq<Alg>): (r: seq<byte>)
    ensures |r| == 6 * |list|
  {
    if list == [] then []
    else AlgBytes(list[..|list| - 1]) + (BE16(list[|list| - 1].id) + BE32(list[|list| - 1].value))
  }

  lemma AlgDecodes(pre: seq<byte>, e: Alg, post: seq<byte>, i: nat)
    requires |pre| == 9 + 6 * i
    ensures AlgAt(pre + (BE16(e.id) + BE32(e.value)) + post, i) == e
  {
  }

  lemma {:induction false} AlgsDecode(pre: seq<byte>, list: seq<Alg>, post: seq<byte>)
    requires |pre| == 9
    ensures AlgsUpTo(pre + AlgBytes(list) + post, |list|) == list
    decreases |list|
  {
    if list != [] {
      var last := |list| - 1;
      var front, e := list[..last], list[last];
      var bytes := BE16(e.id) + BE32(e.value);
      AlgsDecode(pre, front, bytes + post);
      Assoc(pre, AlgBytes(front), bytes);
      Assoc(pre + AlgBytes(front), bytes, post);
      AlgDecodes(pre + AlgBytes(front), e, post, last);
      assert front + [e] == list;
    }
  }

  /** The parameters of a capability response: flag, capability and count of four bytes each, and what follows. */
  function ListParams(more: byte, cap: seq<byte>, count: seq<byte>, body: seq<byte>): (p: seq<byte>)
    requires |cap| == |count| == 4
    ensures |p| == 9 + |body| && p[0] == more && p[1..5] == cap && p[5..9] == count && p[9..] == body
  {
    [more] + cap + count + body
  }

  /** The reference decoders read back exactly the algorithms that were written, whatever follows them; a count beyond them
      makes the list incomplete, and then its complete entries are those; another capability is no list of algorithms. */
  lemma AlgsRoundTrip(more: byte, cap: seq<byte>, count: seq<byte>, list: seq<Alg>, rest: seq<byte>)
    requires |cap| == |count| == 4 && (U32(count) == |list| || (U32(count) > |list| && |rest| < 6))
    ensures var p := ListParams(more, cap, count, AlgBytes(list) + rest);
      && WholeAlgs(p) == list
      && DecodeAlgs(p) == if U32(cap) == CAP_ALGS && U32(count) == |list| then Some(list) else None
  {
    var p := ListParams(more, cap, count, AlgBytes(list) + rest);
    var pre := [more] + cap + count;
    AlgsDecode(pre, list, rest);
    Assoc(pre, AlgBytes(list), rest);
    AlgsRead(p, U32(cap), U32(count), list);
  }

  lemma AlgsRead(p: seq<byte>, cap: u32, count: u32, list: seq<Alg>)
    requires |p| >= 9 + 6 * |list| && (count == |list| || (count > |list| && |p| < 15 + 6 * |list|))
    requires U32(p[1..5]) == cap && U32(p[5..9]) == count && AlgsUpTo(p, |list|) == list
    ensures WholeAlgs(p) == list
    ensures DecodeAlgs(p) == if cap == CAP_ALGS && count == |list| then Some(list) else None
  {
  }

  /** The same for PCR banks with selections of up to three bytes. */
  lemma BanksRoundTrip(more: byte, cap: seq<byte>, count: seq<byte>, list: seq<Bank>, rest: seq<byte>)
    requires |cap| == |count| == 4 && Legal(list)
    requires U32(count) == |list| || (U32(count) > |list| && NoBank(rest))
    ensures var p := ListParams(more, cap, count, BankBytes(list) + rest);
      && WholeBanks(p) == list
      && DecodeBanks(p) == if U32(cap) == CAP_PCRS && U32(count) == |list| then Some(list) else None
  {
    var p := ListParams(more, cap, count, BankBytes(list) + rest);
    BanksStand(p, BankBytes(list), rest);
    BanksListed(p, 9 + |BankBytes(list)|, U32(count), list);
    BanksRead(p, U32(cap), U32(count), list);
  }

  lemma BanksListed(p: seq<byte>, end: nat, count: u32, list: seq<Bank>)
    requires Legal(list) && |p| >= 9 && StandsAt(p, 9, BankBytes(list)) && end == 9 + |BankBytes(list)|
    requires count == |list| || (count > |list| && NoBank(p[end..]))
    ensures WholeBanksFrom(p, 9, count) == list
  {
    if count > |list| {
      NoneStands(p, end);
    }
    WholeDecode(p, 9, list, count);
  }

  lemma BanksStand(p: seq<byte>, bytes: seq<byte>, rest: seq<byte>)
    requires |p| >= 9 && p[9..] == bytes + rest
    ensures StandsAt(p, 9, bytes) && p[9 + |bytes|..] == rest
  {
    assert p[9..9 + |bytes|] == p[9..][..|bytes|];
    assert p[9 + |bytes|..] == p[9..][|bytes|..];
  }

  lemma BanksRead(p: seq<byte>, cap: u32, count: u32, list: seq<Bank>)
    requires |p| >= 9 && U32(p[1..5]) == cap && U32(p[5..9]) == count && WholeBanksFrom(p, 9, count) == list
    ensures WholeBanks(p) == list
    ensures DecodeBanks(p) == if cap == CAP_PCRS && count == |list| then Some(list) else None
  {
    AllWhole(p, 9, count);
  }

  /** A response: tag, size, response code and parameters. */
  function Response(tag: seq<byte>, size: seq<byte>, code: seq<byte>, p: seq<byte>): (r: seq<byte>)
    requires |tag| == 2 && |size| == |code| == 4
    ensures |r| == 10 + |p| && r[..2] == tag && r[2..6] == size && r[6..10] == code && r[10..] == p
  {
    tag + size + code + p
  }

  /** A response is a success with parameters exactly if it says so and states its size. */
  lemma ResponseShape(tag: seq<byte>, size: seq<byte>, code: seq<byte>, p: seq<byte>)
    requires |tag| == 2 && |size| == |code| == 4
    ensures SuccessReply(Response(tag, size, code, p)) <==>
      U16(tag) == 0x8001 && U32(size) == 10 + |p| && U32(code) == 0 && p != []
  {
  }

  /** However a device cuts its list of algorithms, there is a conforming response for the page, `size` and `n` being the
      bytes of its size and its count. */
  lemma AnyPageHasAReply(list: seq<Alg>, p: u32, count: u32, entries: seq<Alg>, more: bool, size: seq<byte>, n: seq<byte>)
    requires Page(list, p, count, entries, more) && |size| == |n| == 4
    requires U32(size) == 19 + 6 * |entries| && U32(n) == |entries|
    ensures
      var params := ListParams(if more then 1 else 0, [0, 0, 0, 0], n, AlgBytes(entries) + []);
      AlgReply(Response([0x80, 0x01], size, [0, 0, 0, 0], params), list, p, count)
  {
    var flag := if more then 1 else 0;
    var params := ListParams(flag, [0, 0, 0, 0], n, AlgBytes(entries) + []);
    ResponseShape([0x80, 0x01], size, [0, 0, 0, 0], params);
    AlgsRoundTrip(flag, [0, 0, 0, 0], n, entries, []);
  }

  /** The same for PCR banks, as long as the list ascends or is on one page. */
  lemma AnyBankPageHasAReply(list: seq<Bank>, p: u32, count: u32, entries: seq<Bank>, more: bool, size: seq<byte>,
                             n: seq<byte>)
    requires Page(list, p, count, entries, more) && Legal(entries) && (Ascending(list) || !more)
    requires |size| == |n| == 4 && U32(size) == 19 + |BankBytes(entries)| && U32(n) == |entries|
    ensures
      var params := ListParams(if more then 1 else 0, [0, 0, 0, 5], n, BankBytes(entries) + []);
      BankReply(Response([0x80, 0x01], size, [0, 0, 0, 0], params), list, p, count)
  {
    var flag := if more then 1 else 0;
    var params := ListParams(flag, [0, 0, 0, 5], n, BankBytes(entries) + []);
    ResponseShape([0x80, 0x01], size, [0, 0, 0, 0], params);
    BanksRoundTrip(flag, [0, 0, 0, 5], n, entries, []);
  }
}
