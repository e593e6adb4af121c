/** The response iterator and the capability parsers (src/tpm2_cmds.c). */
module Parser {
  import opened Bytes
  import opened Codes
  import opened DeviceView
  import opened Payload

  const MAX_ALG_PROPERTIES := 64
  const MAX_PCR_SELECTIONS := 8

  /** A slot of a query: the id asked for and the answer. */
  type AlgSlot = Entry<bool>
  type BankSlot = Bank

  /** Slot `t` is the first terminator among the first `max` slots, or there is none and `t` is `max`. */
  ghost predicate Terminated<T>(q: seq<Entry<T>>, t: nat, max: nat) {
    && t <= max && t <= |q|
    && (forall i :: 0 <= i < t ==> q[i].id != ALG_NULL)
    && (t < max ==> t < |q| && q[t].id == ALG_NULL)
  }

  ghost predicate SameIds<T>(q: seq<Entry<T>>, q0: seq<Entry<T>>) {
    |q| == |q0| && forall i :: 0 <= i < |q| ==> q[i].id == q0[i].id
  }

  /** Reads big-endian fields from `src`, keeping the first error. Bytes consumed and bytes remaining always add up. */
  class Iter {
    const src: seq<byte>
    var pos: nat
    var remain: nat
    var error: int

    ghost predicate Valid()
      reads this
    {
      pos + remain == |src| && (error == SUCCESS || error == ERR_RESPONSE)
    }

    constructor (src: seq<byte>)
      ensures Valid() && this.src == src && pos == 0 && error == SUCCESS
    {
      this.src, pos, remain, error := src, 0, |src|, SUCCESS;
    }

    /** `k` bytes can be read; the state after an attempt to do so. */
    ghost predicate CanRead(k: nat)
      reads this
    {
      error == SUCCESS && remain >= k
    }

    twostate predicate Advanced(k: nat)
      reads this
    {
      && Valid()
      && (old(CanRead(k)) ==> error == SUCCESS && pos == old(pos) + k)
      && (!old(CanRead(k)) ==> error == ERR_RESPONSE && pos == old(pos))
    }

    method ReadPtr(len: nat, current: seq<byte>) returns (out: seq<byte>)
      requires Valid()
      modifies this
      ensures Advanced(len)
      ensures out == if old(CanRead(len)) then src[old(pos)..old(pos) + len] else current
    {
      out := current;
      if error != SUCCESS {
        return;
      }
      if remain < len {
        error := ERR_RESPONSE;
        return;
      }
      out := src[pos..pos + len];
      pos, remain := pos + len, remain - len;
    }

    method ReadU8(current: byte) returns (out: byte)
      requires Valid()
      modifies this
      ensures Advanced(1)
      ensures out == if old(CanRead(1)) then src[old(pos)] else current
    {
      out := current;
      if error != SUCCESS {
        return;
      }
      if remain < 1 {
        error := ERR_RESPONSE;
        return;
      }
      out := src[pos];
      pos, remain := pos + 1, remain - 1;
    }

    method ReadU16(current: u16) returns (out: u16)
      requires Valid()
      modifies this
      ensures Advanced(2)
      ensures out == if old(CanRead(2)) then U16(src[old(pos)..old(pos) + 2]) else current
    {
      out := current;
      if error != SUCCESS {
        return;
      }
      if remain < 2 {
        error := ERR_RESPONSE;
        return;
      }
      out := Join(src[pos], src[pos + 1]);
      pos, remain := pos + 2, remain - 2;
    }

    method ReadU32(current: u32) returns (out: u32)
      requires Valid()
      modifies this
      ensures Advanced(4)
      ensures out == if old(CanRead(4)) then U32(src[old(pos)..old(pos) + 4]) else current
    {
      out := current;
      if error != SUCCESS {
        return;
      }
      if remain < 4 {
        error := ERR_RESPONSE;
        return;
      }
      out := Join(src[pos], src[pos + 1]) * 0x1_0000 + Join(src[pos + 2], src[pos + 3]);
      pos, remain := pos + 4, remain - 4;
    }
  }

  /** Positions an iterator after the capability of a response. */
  method PayloadStart(resp: seq<byte>, cap: u32) returns (rc: int, iter: Iter)
    requires |resp| == MAX_CMDBUF
    ensures fresh(iter) && iter.Valid()
    ensures var p := Params(resp);
      && (rc == SUCCESS <==> p.Some? && Announces(p.value, cap))
      && (rc == SUCCESS ==> iter.src == p.value && iter.pos == 5 && iter.error == SUCCESS)
    ensures rc == SUCCESS || rc == ERR_RESPONSE
  {
    var size := Announced(resp);
    if size < HEADER_SIZE || size > MAX_CMDBUF {
      iter := new Iter([]);
      return ERR_RESPONSE, iter;
    }
    iter := new Iter(resp[HEADER_SIZE..size]);
    var more := iter.ReadU8(0);
    var c := iter.ReadU32(0);
    if iter.error != SUCCESS {
      return iter.error, iter;
    }
    if c != cap {
      return ERR_RESPONSE, iter;
    }
    return SUCCESS, iter;
  }

  /** Slot by slot up to the terminator, an algorithm is enabled if it was before or is in the list. */
  ghost predicate Marked(q: seq<AlgSlot>, q0: seq<AlgSlot>, t: nat, list: seq<Alg>) {
    && SameIds(q, q0)
    && forall i :: 0 <= i < |q| ==> q[i].value == (q0[i].value || (i < t && Has(list, q[i].id)))
  }

  /** Enables the slots with this algorithm, up to the terminator. */
  method MarkAlg(query: array<AlgSlot>, ghost t: nat, alg: u16, ghost props: u32,
                 ghost q0: seq<AlgSlot>, ghost list: seq<Alg>)
    requires Terminated(q0, t, MAX_ALG_PROPERTIES) && Marked(query[..], q0, t, list)
    modifies query
    ensures Marked(query[..], q0, t, list + [Entry(alg, props)])
  {
    ghost var e := Entry(alg, props);
    ghost var before := query[..];
    var q := 0;
    while q < MAX_ALG_PROPERTIES
      invariant 0 <= q <= t
      invariant SameIds(query[..], q0)
      invariant forall i :: 0 <= i < query.Length ==> query[i].value == (before[i].value || (i < q && query[i].id == alg))
    {
      assert q < query.Length ==> query[..][q].id == q0[q].id;
      if query[q].id == ALG_NULL {
        break;
      }
      if query[q].id == alg {
        query[q] := Entry(query[q].id, true);
      }
      q := q + 1;
    }
    forall i | 0 <= i < query.Length
      ensures query[i].value == (q0[i].value || (i < t && Has(list + [e], query[i].id)))
    {
      assert (list + [e])[..|list|] == list;
      assert before[i].id == q0[i].id == query[i].id;
    }
  }

  /** Reads the algorithm entry `i` of a list, if it is complete. */
  method ReadAlg(iter: Iter, alg0: u16, props0: u32, ghost i: nat) returns (alg: u16, props: u32)
    requires iter.Valid() && iter.error == SUCCESS && iter.pos == 9 + 6 * i
    modifies iter
    ensures iter.Valid() && (iter.error == SUCCESS <==> 9 + 6 * (i + 1) <= |iter.src|)
    ensures iter.error == SUCCESS ==> iter.pos == 9 + 6 * (i + 1) && Entry(alg, props) == AlgAt(iter.src, i)
  {
    alg := iter.ReadU16(alg0);
    props := iter.ReadU32(props0);
  }

  /** Where a walk over an algorithm list stands before entry `i`. */
  ghost predicate AtAlg(iter: Iter, count: u32, i: nat)
    reads iter
  {
    && iter.Valid() && i <= count
    && (iter.error == SUCCESS <==> |iter.src| >= 9)
    && (|iter.src| >= 9 ==> iter.pos == 9 + 6 * i && count == U32(iter.src[5..9]))
    && (|iter.src| < 9 ==> count == 0)
  }

  function ParamsLength(resp: seq<byte>): nat
    requires |resp| == MAX_CMDBUF
  {
    if Params(resp).Some? then |Params(resp).value| else 0
  }

  /** What a response lists, if the reference reading finds a complete list in it. */
  function ListedAlgs(resp: seq<byte>): Option<seq<Alg>>
    requires |resp| == MAX_CMDBUF
  {
    if Params(resp).Some? then DecodeAlgs(Params(resp).value) else None
  }

  /** Where the complete entries of a list end. */
  lemma WholeEnds(p: seq<byte>, i: nat)
    requires |p| >= 9 && 9 + 6 * i <= |p| && i <= U32(p[5..9])
    ensures i <= |WholeAlgs(p)| && 9 + 6 * |WholeAlgs(p)| <= |p| && WholeAlgs(p) == AlgsUpTo(p, |WholeAlgs(p)|)
    ensures i == U32(p[5..9]) || 9 + 6 * (i + 1) > |p| ==> |WholeAlgs(p)| == i
    ensures Announces(p, CAP_ALGS) ==> (DecodeAlgs(p).Some? <==> |WholeAlgs(p)| == U32(p[5..9]))
    ensures DecodeAlgs(p).Some? ==> DecodeAlgs(p).value == WholeAlgs(p)
  {
  }

  /** A complete list is all its complete entries. */
  lemma WholeDecoded(p: seq<byte>)
    ensures DecodeAlgs(p).Some? ==> DecodeAlgs(p).value == WholeAlgs(p)
    ensures !Announces(p, CAP_ALGS) ==> DecodeAlgs(p).None?
  {
  }

  /** Enables the queried algorithms a response lists. Succeeds exactly when the reference reading does, and looks at no
      more entries than the parameters have room for, whatever count they claim. On failure the complete entries have
      been marked all the same. */
  method ParseAlgs(resp: seq<byte>, query: array<AlgSlot>, ghost t: nat)
    returns (rc: int, parsed: nat, last: u16, ghost rounds: nat)
    requires |resp| == MAX_CMDBUF && Terminated(query[..], t, MAX_ALG_PROPERTIES)
    modifies query
    ensures SameIds(query[..], old(query[..])) && 6 * rounds <= ParamsLength(resp)
    ensures var p := Params(resp);
      && (p.Some? && Announces(p.value, CAP_ALGS) ==> Marked(query[..], old(query[..]), t, WholeAlgs(p.value)))
      && (!(p.Some? && Announces(p.value, CAP_ALGS)) ==> query[..] == old(query[..]))
    ensures match ListedAlgs(resp)
      case None => rc == ERR_RESPONSE
      case Some(list) =>
        && rc == SUCCESS && parsed == |list| && last == LastId(list)
        && Marked(query[..], old(query[..]), t, list)
  {
    parsed, last, rounds := 0, 0, 0;
    var iter;
    rc, iter := PayloadStart(resp, CAP_ALGS);
    if rc != SUCCESS {
      return;
    }
    var count := iter.ReadU32(0);
    rc, parsed, last, rounds := MarkAlgs(iter, count, query, t);
  }

  lemma AlgsNext(p: seq<byte>, i: nat, seen: seq<Alg>, e: Alg)
    requires 9 + 6 * (i + 1) <= |p| && seen == AlgsUpTo(p, i) && e == AlgAt(p, i)
    ensures seen + [e] == AlgsUpTo(p, i + 1) && LastId(seen + [e]) == e.id
  {
  }

  /** The loop over the entries. */
  method MarkAlgs(iter: Iter, count: u32, query: array<AlgSlot>, ghost t: nat)
    returns (rc: int, parsed: nat, last: u16, ghost rounds: nat)
    requires AtAlg(iter, count, 0) && Announces(iter.src, CAP_ALGS) && Terminated(query[..], t, MAX_ALG_PROPERTIES)
    modifies iter, query
    ensures var p := iter.src;
      && Marked(query[..], old(query[..]), t, WholeAlgs(p)) && 6 * rounds <= |p|
      && (DecodeAlgs(p).None? ==> rc == ERR_RESPONSE)
      && (DecodeAlgs(p).Some? ==>
            rc == SUCCESS && DecodeAlgs(p).value == WholeAlgs(p) && parsed == |WholeAlgs(p)| && last == LastId(WholeAlgs(p)))
  {
    parsed, last, rounds := 0, 0, 0;
    ghost var p, seen: seq<Alg> := iter.src, [];
    var i: nat, alg: u16, properties: u32 := 0, 0, 0;
    while i < count
      invariant AtAlg(iter, count, i) && i == parsed == rounds == |seen|
      invariant |p| >= 9 ==> seen == AlgsUpTo(p, i)
      invariant alg == LastId(seen) && Marked(query[..], old(query[..]), t, seen)
    {
      rounds := rounds + 1;
      alg, properties := ReadAlg(iter, alg, properties, i);
      WholeEnds(p, i);
      if iter.error != SUCCESS {
        rc := iter.error;
        return;
      }
      parsed := parsed + 1;
      AlgsNext(p, i, seen, Entry(alg, properties));
      MarkAlg(query, t, alg, properties, old(query[..]), seen);
      seen := seen + [Entry(alg, properties)];
      i := i + 1;
    }
    if |p| >= 9 {
      WholeEnds(p, i);
    }
    if iter.error != SUCCESS {
      rc := iter.error;
      return;
    }
    last := alg;
    rc := SUCCESS;
  }

  /** Offers one algorithm to the callback if it passes both masks. */
  method Offer(cb: Callback<u32>, mustSet: u32, mustClear: u32, e: Alg, calls0: seq<Alg>,
               ghost base: seq<Alg>, ghost before: seq<Alg>)
    returns (calls: seq<Alg>, found: bool)
    requires Cut(cb, base, Filter(before, mustSet, mustClear), calls0, false)
    ensures Cut(cb, base, Filter(before + [e], mustSet, mustClear), calls, found)
  {
    FilterStep(before, e, mustSet, mustClear);
    calls, found := calls0, false;
    if AllSet(e.value, mustSet) && BitAnd(e.value, mustClear) == 0 {
      CutOne(cb, base, Filter(before, mustSet, mustClear), calls, e);
      calls := calls + [e];
      found := cb(calls);
    } else {
      assert Filter(before, mustSet, mustClear) + [] == Filter(before, mustSet, mustClear);
    }
  }

  /** What calling back for the parameters `p` of a response comes to: exactly the calls for its complete entries that
      pass both masks, cut after the first stop; an error exactly if nothing stopped it before an incomplete entry. */
  ghost predicate Offered(p: seq<byte>, mustSet: u32, mustClear: u32, cb: Callback<u32>, calls0: seq<Alg>,
                          rc: int, parsed: nat, last: u16, found: bool, calls: seq<Alg>)
  {
    && Cut(cb, calls0, Filter(WholeAlgs(p), mustSet, mustClear), calls, found)
    && rc == (if found || DecodeAlgs(p).Some? then SUCCESS else ERR_RESPONSE)
    && (rc == SUCCESS && !found ==> parsed == |WholeAlgs(p)| && (parsed > 0 ==> last == LastId(WholeAlgs(p))))
  }

  /** Calls back for the listed algorithms that pass both masks, until one call asks to stop. */
  method ParseAlgsFind(resp: seq<byte>, mustSet: u32, mustClear: u32, cb: Callback<u32>, calls0: seq<Alg>, last0: u16)
    returns (rc: int, parsed: nat, last: u16, found: bool, calls: seq<Alg>)
    requires |resp| == MAX_CMDBUF
    ensures var p := Params(resp);
      if p.Some? && Announces(p.value, CAP_ALGS) then
        Offered(p.value, mustSet, mustClear, cb, calls0, rc, parsed, last, found, calls)
      else rc == ERR_RESPONSE && !found && calls == calls0
  {
    parsed, last, found, calls := 0, last0, false, calls0;
    var iter;
    rc, iter := PayloadStart(resp, CAP_ALGS);
    if rc != SUCCESS {
      return;
    }
    var count := iter.ReadU32(0);
    rc, parsed, last, found, calls := OfferAlgs(iter, count, mustSet, mustClear, cb, calls0, last0);
  }

  /** The loop over the entries. */
  method OfferAlgs(iter: Iter, count: u32, mustSet: u32, mustClear: u32, cb: Callback<u32>, calls0: seq<Alg>, last0: u16)
    returns (rc: int, parsed: nat, last: u16, found: bool, calls: seq<Alg>)
    requires AtAlg(iter, count, 0) && Announces(iter.src, CAP_ALGS)
    modifies iter
    ensures Offered(iter.src, mustSet, mustClear, cb, calls0, rc, parsed, last, found, calls)
  {
    parsed, last, found, calls := 0, last0, false, calls0;
    ghost var p, seen: seq<Alg> := iter.src, [];
    var i: nat, alg: u16, props: u32 := 0, 0, 0;
    CutEmpty(cb, calls0);
    while i < count
      invariant AtAlg(iter, count, i) && i == parsed == |seen|
      invariant |p| >= 9 ==> seen == AlgsUpTo(p, i)
      invariant i > 0 ==> last == LastId(seen)
      invariant Cut(cb, calls0, Filter(seen, mustSet, mustClear), calls, false)
    {
      alg, props := ReadAlg(iter, alg, props, i);
      WholeEnds(p, i);
      if iter.error != SUCCESS {
        rc := iter.error;
        return;
      }
      parsed, last := parsed + 1, alg;
      calls, found := Offer(cb, mustSet, mustClear, Entry(alg, props), calls, calls0, seen);
      seen := seen + [Entry(alg, props)];
      if found {
        WholeEnds(p, i + 1);
        AlgsPrefix(p, i + 1, |WholeAlgs(p)|);
        FoundEarly(seen, WholeAlgs(p), mustSet, mustClear, cb, calls0, calls);
        return SUCCESS, parsed, last, found, calls;
      }
      i := i + 1;
    }
    if |p| >= 9 {
      WholeEnds(p, i);
    }
    rc := iter.error;
  }

  lemma FilterStep(s: seq<Alg>, e: Alg, mustSet: u32, mustClear: u32)
    ensures Filter(s + [e], mustSet, mustClear) ==
      Filter(s, mustSet, mustClear) + if Matches(e.value, mustSet, mustClear) then [e] else []
  {
  }

  lemma {:induction false} AlgsPrefix(p: seq<byte>, i: nat, n: nat)
    requires i <= n && 9 + 6 * n <= |p|
    ensures AlgsUpTo(p, i) <= AlgsUpTo(p, n)
  {
    if i < n {
      AlgsPrefix(p, i, n - 1);
    }
  }

  /** A stop within the first entries is a stop within all of them. */
  lemma FoundEarly(seen: seq<Alg>, all: seq<Alg>, mustSet: u32, mustClear: u32, cb: Callback<u32>,
                   base: seq<Alg>, calls: seq<Alg>)
    requires seen <= all && Cut(cb, base, Filter(seen, mustSet, mustClear), calls, true)
    ensures Cut(cb, base, Filter(all, mustSet, mustClear), calls, true)
  {
    var rest := all[|seen|..];
    assert all == seen + rest;
    FilterConcat(seen, rest, mustSet, mustClear);
    CutStopped(cb, base, Filter(seen, mustSet, mustClear), calls, Filter(rest, mustSet, mustClear));
  }
}
