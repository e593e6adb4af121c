/** What the responses of a device, written byte by byte, make of the commands that read them. Fields of several bytes are
    sequences, which `U16` and `U32` read. */
module ResponseFacts {
  import opened Bytes
  import opened Codes
  import opened DeviceView
  import opened Payload
  import opened BankWire
  import opened Paging
  import opened PayloadFacts
  import opened Walks
  import opened AlgLookups
  import opened PcrAllocate
  import opened PcrCommands

  /** The exchange read this response. */
  ghost predicate Responded(v: View, tag: seq<byte>, size: seq<byte>, code: seq<byte>, p: seq<byte>) {
    && |tag| == 2 && |size| == |code| == 4
    && Taken(v) && Reply(v.served) == Response(tag, size, code, p)
  }

  /** The size such a response states is its own. */
  lemma SizeStated(v: View, tag: seq<byte>, size: seq<byte>, code: seq<byte>, p: seq<byte>)
    requires Responded(v, tag, size, code, p)
    ensures U32(size) == 10 + |p|
  {
    assert v.served[2..6] == Reply(v.served)[2..6];
  }

  /** Only a success response with parameters tells anything about a list. */
  lemma ToldByResponse(v: View, tag: seq<byte>, size: seq<byte>, code: seq<byte>, p: seq<byte>)
    requires Responded(v, tag, size, code, p)
    ensures AlgsTold(v) ==
      if U16(tag) == 0x8001 && U32(code) == 0 && p != [] then AlgsIn(p, p[0] != 0) else Garbled([])
    ensures BanksTold(v) ==
      if U16(tag) == 0x8001 && U32(code) == 0 && p != [] then BanksIn(p, p[0] != 0) else Garbled([])
  {
    SizeStated(v, tag, size, code, p);
    ResponseShape(tag, size, code, p);
  }

  /** What parameters with this count and these entries tell: a page, if there are as many as counted, and at least one if
      more is announced. */
  function PageOf<T>(more: byte, count: u32, list: seq<Entry<T>>): Told<T> {
    if count == |list| && (more == 0 || list != []) then Listed(list, more != 0) else Garbled(list)
  }

  /** Parameters tell exactly the algorithms written in them, if they are about algorithms. */
  lemma AlgsWritten(more: byte, cap: seq<byte>, count: seq<byte>, list: seq<Alg>, rest: seq<byte>)
    requires |cap| == |count| == 4 && (U32(count) == |list| || (U32(count) > |list| && |rest| < 6))
    ensures AlgsIn(ListParams(more, cap, count, AlgBytes(list) + rest), more != 0) ==
      if U32(cap) == 0 then PageOf(more, U32(count), list) else Garbled([])
  {
    AlgsRoundTrip(more, cap, count, list, rest);
  }

  /** The same for PCR banks. */
  lemma BanksWritten(more: byte, cap: seq<byte>, count: seq<byte>, list: seq<Bank>, rest: seq<byte>)
    requires |cap| == |count| == 4 && Legal(list)
    requires U32(count) == |list| || (U32(count) > |list| && NoBank(rest))
    ensures BanksIn(ListParams(more, cap, count, BankBytes(list) + rest), more != 0) ==
      if U32(cap) == 5 then PageOf(more, U32(count), list) else Garbled([])
  {
    BanksRoundTrip(more, cap, count, list, rest);
  }

  /** The first algorithm written in parameters stands where it is read. */
  lemma FirstWritten(more: byte, cap: seq<byte>, count: seq<byte>, id: seq<byte>, value: seq<byte>, rest: seq<byte>)
    requires |cap| == |count| == |value| == 4 && |id| == 2
    ensures var p := ListParams(more, cap, count, id + value + rest);
      && |p| >= 15 && AlgAt(p, 0) == Entry(U16(id), U32(value))
      && (Announces(p, CAP_ALGS) <==> U32(cap) == 0)
  {
    var p := ListParams(more, cap, count, id + value + rest);
    assert p[9..11] == p[9..][..2] == id && p[11..15] == p[9..][2..6] == value;
  }

  /** A lookup by properties reports the first entry of a success response about algorithms that has room for one. */
  lemma LookupReported(v: View, tag: seq<byte>, size: seq<byte>, code: seq<byte>, p: seq<byte>,
                       id: u16, rc: int, supported: bool, props: u32)
    requires Responded(v, tag, size, code, p) && PropsRead(v, id, rc, supported, props)
    ensures if U16(tag) == 0x8001 && U32(code) == 0 && Announces(p, CAP_ALGS) && |p| >= 15 then
        var e := AlgAt(p, 0);
        rc == SUCCESS && supported == (e.id == id) && props == if e.id == id then e.value else 0
      else rc == ERR_RESPONSE && !supported && props == 0
  {
    SizeStated(v, tag, size, code, p);
    ResponseShape(tag, size, code, p);
  }

  /** The parameters of an allocation response: their size, the outcome, three numbers and what follows. */
  function AllocationParams(psize: seq<byte>, ok: byte, max: seq<byte>, needed: seq<byte>, available: seq<byte>,
                            rest: seq<byte>): (p: seq<byte>)
    requires |psize| == |max| == |needed| == |available| == 4
    ensures |p| == 17 + |rest| && p[4] == ok && p[5..9] == max && p[9..13] == needed && p[13..17] == available
  {
    psize + [ok] + max + needed + available + rest
  }

  lemma ResponseSlice(tag: seq<byte>, size: seq<byte>, code: seq<byte>, p: seq<byte>, a: nat, b: nat)
    requires |tag| == 2 && |size| == |code| == 4 && a <= b <= |p|
    ensures Response(tag, size, code, p)[10 + a..10 + b] == p[a..b]
    ensures forall i :: 0 <= i < |p| ==> Response(tag, size, code, p)[10 + i] == p[i]
  {
    assert Response(tag, size, code, p)[10 + a..10 + b] == Response(tag, size, code, p)[10..][a..b];
  }

  /** The reference decoder reads back every field of a success response with sessions, and nothing else. */
  lemma AllocationRoundTrip(tag: seq<byte>, size: seq<byte>, code: seq<byte>, psize: seq<byte>, ok: byte,
                            max: seq<byte>, needed: seq<byte>, available: seq<byte>, rest: seq<byte>)
    requires |tag| == 2 && |size| == |code| == |psize| == |max| == |needed| == |available| == 4
    ensures DecodeAllocation(Response(tag, size, code, AllocationParams(psize, ok, max, needed, available, rest))) ==
      if U16(tag) == 0x8002 && U32(code) == 0 then Some(Allocation(ok != 0, U32(max), U32(needed), U32(available)))
      else None
  {
    var p := AllocationParams(psize, ok, max, needed, available, rest);
    ResponseSlice(tag, size, code, p, 5, 9);
    ResponseSlice(tag, size, code, p, 9, 13);
    ResponseSlice(tag, size, code, p, 13, 17);
  }

  /** So an allocation reports the numbers the device sent, each as what it is. */
  lemma AllocationReported(v: View, password: seq<byte>, banks: seq<Bank>, rc: int, a: Allocation, tag: seq<byte>,
                           size: seq<byte>, code: seq<byte>, psize: seq<byte>, ok: byte, max: seq<byte>,
                           needed: seq<byte>, available: seq<byte>, rest: seq<byte>)
    requires Allocated(v, password, banks, rc, a) && |psize| == |max| == |needed| == |available| == 4
    requires Responded(v, tag, size, code, AllocationParams(psize, ok, max, needed, available, rest))
    ensures if U16(tag) == 0x8002 && U32(code) == 0 then
        rc == SUCCESS && a == Allocation(ok != 0, U32(max), U32(needed), U32(available))
      else rc == ERR_RESPONSE
  {
    AllocationRoundTrip(tag, size, code, psize, ok, max, needed, available, rest);
  }

  /** The parameters of a PCR read response: update counter, the count of selections, the algorithm, size and bytes of one,
      and the count of digests, size and bytes of one. */
  function DigestParams(counter: seq<byte>, selections: seq<byte>, alg: seq<byte>, select: seq<byte>, digests: seq<byte>,
                        len: seq<byte>, d: seq<byte>): (p: seq<byte>)
    requires |counter| == |selections| == |digests| == 4 && |alg| == |len| == 2 && |select| == 3
    ensures |p| == 20 + |d| && p[18..20] == len && p[20..20 + |d|] == d
  {
    counter + selections + alg + [3] + select + digests + len + d
  }

  /** The reference decoder finds exactly the digest of a success response, if it has at most 48 bytes. */
  lemma DigestRoundTrip(tag: seq<byte>, size: seq<byte>, code: seq<byte>, counter: seq<byte>, selections: seq<byte>,
                        alg: seq<byte>, select: seq<byte>, digests: seq<byte>, len: seq<byte>, d: seq<byte>, room: nat)
    requires |size| == |code| == |counter| == |selections| == |digests| == 4
    requires |tag| == |alg| == |len| == 2 && |select| == 3 && U16(len) == |d|
    ensures var r := Response(tag, size, code, DigestParams(counter, selections, alg, select, digests, len, d));
      && DecodeDigest(r) == (if U32(code) == 0 && |d| <= 48 then Some(d) else None)
      && ReadCode(r, room) ==
         if U32(code) != 0 || |d| > 48 then ERR_RESPONSE else if |d| > room then INVALID_PARAM else SUCCESS
  {
    var p := DigestParams(counter, selections, alg, select, digests, len, d);
    ResponseSlice(tag, size, code, p, 18, 20);
    ResponseSlice(tag, size, code, p, 20, 20 + |d|);
  }

  /** So a read delivers the digest the device sent, with zeros behind it, or tells why not. */
  lemma DigestDelivered(v: View, index: nat, pcrAlg: u16, out: seq<byte>, rc: int, tag: seq<byte>, size: seq<byte>,
                        code: seq<byte>, counter: seq<byte>, selections: seq<byte>, alg: seq<byte>, select: seq<byte>,
                        digests: seq<byte>, len: seq<byte>, d: seq<byte>)
    requires index < 24 && ReadOutcome(v, index, pcrAlg, out, rc)
    requires |counter| == |selections| == |digests| == 4 && |alg| == |len| == 2 && |select| == 3 && U16(len) == |d|
    requires Responded(v, tag, size, code, DigestParams(counter, selections, alg, select, digests, len, d))
    ensures rc == if U32(code) != 0 || |d| > 48 then ERR_RESPONSE else if |d| > |out| then INVALID_PARAM else SUCCESS
    ensures out == if rc == SUCCESS then d + Zeros(|out| - |d|) else Zeros(|out|)
  {
    DigestRoundTrip(tag, size, code, counter, selections, alg, select, digests, len, d, |out|);
  }

  /** An extend succeeds exactly if the device's response code is zero. */
  lemma ExtendReported(v: View, index: u32, alg: u16, digest: seq<byte>, rc: int, tag: seq<byte>, size: seq<byte>,
                       code: seq<byte>, p: seq<byte>)
    requires Extended(v, index, alg, digest, rc) && Responded(v, tag, size, code, p)
    ensures rc == if U32(code) == 0 then SUCCESS else ERR_RESPONSE
  {
    assert v.served[6..10] == Reply(v.served)[6..10];
  }
}
