/** The PCR bank parsers (parse_pcrs and parse_pcrs_find in src/tpm2_cmds.c). */
module BankParser {
  import opened Bytes
  import opened Codes
  import opened DeviceView
  import opened Payload
  import opened Parser

  /** What a response lists, if the reference reading finds a complete list in it. */
  function ListedBanks(resp: seq<byte>): (r: Option<seq<Bank>>)
    requires |resp| == MAX_CMDBUF
  {
    if Params(resp).Some? then DecodeBanks(Params(resp).value) else None
  }

  /** Reads one bank, if a complete and legal one is next. */
  method ReadBank(iter: Iter, hash0: u16) returns (rc: int, hash: u16, select: seq<byte>)
    requires iter.Valid() && iter.error == SUCCESS
    modifies iter
    ensures var b := BankAt(iter.src, old(iter.pos));
      if b.None? then rc == ERR_RESPONSE
      else
        && rc == SUCCESS && iter.Valid() && iter.error == SUCCESS && b.value == Entry(hash, select)
        && iter.pos == old(iter.pos) + 3 + |select|
  {
    select := [];
    hash := iter.ReadU16(hash0);
    var size := iter.ReadU8(0);
    if iter.error != SUCCESS {
      return iter.error, hash, select;
    }
    if size > PCR_SELECT_SIZE {
      return ERR_RESPONSE, hash, select;
    }
    select := iter.ReadPtr(size, select);
    rc := iter.error;
  }

  /** Before the next bank: `got` has been read and the rest of the list is what is still ahead. */
  ghost predicate AtBank(iter: Iter, count: u32, got: seq<Bank>)
    reads iter
  {
    && iter.Valid() && |got| <= count
    && (iter.error == SUCCESS <==> |iter.src| >= 9)
    && (|iter.src| < 9 ==> count == 0)
    && (|iter.src| >= 9 ==>
          && count == U32(iter.src[5..9]) && iter.pos >= 9 + 3 * |got|
          && Ahead(iter.src, count, iter.pos, got))
  }

  ghost predicate Ahead(p: seq<byte>, count: nat, pos: nat, got: seq<Bank>)
    requires 9 <= |p| && |got| <= count && pos <= |p|
  {
    WholeBanksFrom(p, 9, count) == got + WholeBanksFrom(p, pos, count - |got|)
  }

  lemma AheadStep(p: seq<byte>, count: nat, pos: nat, got: seq<Bank>)
    requires 9 <= |p| && |got| < count && pos <= |p| && Ahead(p, count, pos, got)
    ensures BankAt(p, pos).None? ==> WholeBanksFrom(p, 9, count) == got
    ensures BankAt(p, pos).Some? ==>
      var b := BankAt(p, pos).value; Ahead(p, count, pos + 3 + |b.value|, got + [b])
  {
    if BankAt(p, pos).Some? {
      var b := BankAt(p, pos).value;
      Assoc(got, [b], WholeBanksFrom(p, pos + 3 + |b.value|, count - |got| - 1));
    }
  }

  /** Reads the next bank of a list. */
  method NextBank(iter: Iter, hash0: u16, ghost count: u32, ghost got: seq<Bank>)
    returns (rc: int, hash: u16, select: seq<byte>)
    requires AtBank(iter, count, got) && |got| < count
    modifies iter
    ensures rc == SUCCESS || rc == ERR_RESPONSE
    ensures rc == SUCCESS ==> |select| <= PCR_SELECT_SIZE && AtBank(iter, count, got + [Entry(hash, select)])
    ensures rc != SUCCESS ==> WholeBanks(iter.src) == got
  {
    AheadStep(iter.src, count, iter.pos, got);
    rc, hash, select := ReadBank(iter, hash0);
  }

  /** The complete banks of a list, and when they are all of it. */
  lemma WholeList(iter: Iter, count: u32, got: seq<Bank>)
    requires AtBank(iter, count, got)
    ensures got <= WholeBanks(iter.src)
    ensures |got| == count ==> got == WholeBanks(iter.src)
    ensures Announces(iter.src, CAP_PCRS) ==>
      DecodeBanks(iter.src) ==
        if |iter.src| >= 9 && |WholeBanks(iter.src)| == count then Some(WholeBanks(iter.src)) else None
  {
    if |iter.src| >= 9 {
      AllWhole(iter.src, 9, count);
    }
  }

  /** Slot by slot up to the terminator, the mask is that of the last listed bank with that id. */
  ghost predicate Filled(q: seq<BankSlot>, q0: seq<BankSlot>, t: nat, list: seq<Bank>)
  {
    && SameIds(q, q0)
    && forall i :: 0 <= i < |q| ==> q[i].value == if i < t then LastMask(list, q[i].id, q0[i].value) else q0[i].value
  }

  method FillBank(query: array<BankSlot>, ghost t: nat, hash: u16, select: seq<byte>,
                  ghost q0: seq<BankSlot>, ghost got: seq<Bank>)
    requires Terminated(q0, t, MAX_PCR_SELECTIONS) && |select| <= PCR_SELECT_SIZE
    requires Filled(query[..], q0, t, got)
    modifies query
    ensures Filled(query[..], q0, t, got + [Entry(hash, select)])
  {
    ghost var e: Bank := Entry(hash, select);
    ghost var longer := got + [e];
    assert longer[..|got|] == got && longer[|got|] == e;
    var q := 0;
    while q < MAX_PCR_SELECTIONS
      invariant 0 <= q <= t
      invariant SameIds(query[..], q0)
      invariant forall i :: 0 <= i < query.Length ==>
        query[i].value == if i < t then LastMask(if i < q then longer else got, query[i].id, q0[i].value) else q0[i].value
    {
      assert q < query.Length ==> query[..][q].id == q0[q].id;
      if query[q].id == ALG_NULL {
        break;
      }
      if query[q].id == hash {
        query[q] := Entry(query[q].id, Pad(select));
      }
      q := q + 1;
    }
  }

  /** A complete list is all its complete banks. */
  lemma BanksDecoded(p: seq<byte>)
    ensures DecodeBanks(p).Some? ==> DecodeBanks(p).value == WholeBanks(p)
    ensures !Announces(p, CAP_PCRS) ==> DecodeBanks(p).None?
  {
    if |p| >= 9 {
      AllWhole(p, 9, U32(p[5..9]));
    }
  }

  /** Fills the queried masks from the banks a response lists. Succeeds exactly when the reference reading does, and looks
      at no more entries than the parameters have room for, whatever count they claim. On failure the complete banks have
      been filled in all the same. */
  method ParsePcrs(resp: seq<byte>, query: array<BankSlot>, ghost t: nat)
    returns (rc: int, parsed: nat, last: u16, ghost rounds: nat)
    requires |resp| == MAX_CMDBUF && Terminated(query[..], t, MAX_PCR_SELECTIONS)
    modifies query
    ensures SameIds(query[..], old(query[..])) && 3 * rounds <= ParamsLength(resp)
    ensures var p := Params(resp);
      && (p.Some? && Announces(p.value, CAP_PCRS) ==>
            Filled(query[..], old(query[..]), t, WholeBanks(p.value)))
      && (!(p.Some? && Announces(p.value, CAP_PCRS)) ==> query[..] == old(query[..]))
    ensures match ListedBanks(resp)
      case None => rc == ERR_RESPONSE
      case Some(list) =>
        && rc == SUCCESS && parsed == |list| && last == LastId(list)
        && Filled(query[..], old(query[..]), t, list)
  {
    parsed, last, rounds := 0, 0, 0;
    var iter;
    rc, iter := PayloadStart(resp, CAP_PCRS);
    if rc != SUCCESS {
      return;
    }
    var count := iter.ReadU32(0);
    rc, parsed, last, rounds := FillBanks(iter, count, query, t);
  }

  /** The loop over the banks. */
  method FillBanks(iter: Iter, count: u32, query: array<BankSlot>, ghost t: nat)
    returns (rc: int, parsed: nat, last: u16, ghost rounds: nat)
    requires AtBank(iter, count, []) && Announces(iter.src, CAP_PCRS) && Terminated(query[..], t, MAX_PCR_SELECTIONS)
    modifies iter, query
    ensures var p := iter.src;
      && Filled(query[..], old(query[..]), t, WholeBanks(p)) && 3 * rounds <= |p|
      && (DecodeBanks(p).None? ==> rc == ERR_RESPONSE)
      && (DecodeBanks(p).Some? ==>
            rc == SUCCESS && DecodeBanks(p).value == WholeBanks(p) && parsed == |WholeBanks(p)|
            && last == LastId(WholeBanks(p)))
  {
    parsed, last, rounds := 0, 0, 0;
    ghost var got: seq<Bank> := [];
    var i: nat, hash: u16 := 0, 0;
    while i < count
      invariant AtBank(iter, count, got) && i == parsed == rounds == |got|
      invariant hash == LastId(got) && Filled(query[..], old(query[..]), t, got)
    {
      rounds := rounds + 1;
      WholeList(iter, count, got);
      var select;
      rc, hash, select := NextBank(iter, hash, count, got);
      if rc != SUCCESS {
        return;
      }
      FillBank(query, t, hash, select, old(query[..]), got);
      got := got + [Entry(hash, select)];
      parsed := parsed + 1;
      i := i + 1;
    }
    WholeList(iter, count, got);
    if iter.error != SUCCESS {
      rc := iter.error;
      return;
    }
    last := hash;
    rc := SUCCESS;
  }

  /** What calling back for the parameters `p` of a response comes to: exactly the calls for its complete banks, cut after
      the first stop; an error exactly if nothing stopped it before an incomplete or illegal one. */
  ghost predicate BanksOffered(p: seq<byte>, cb: Callback<seq<byte>>, calls0: seq<Bank>,
                               rc: int, parsed: nat, last: u16, found: bool, calls: seq<Bank>)
  {
    && Cut(cb, calls0, WholeBanks(p), calls, found)
    && rc == (if found || DecodeBanks(p).Some? then SUCCESS else ERR_RESPONSE)
    && (rc == SUCCESS && !found ==>
          DecodeBanks(p).value == WholeBanks(p) && parsed == |WholeBanks(p)| && (parsed > 0 ==> last == LastId(WholeBanks(p))))
  }

  /** Calls back for the listed banks until one call asks to stop. */
  method ParsePcrsFind(resp: seq<byte>, cb: Callback<seq<byte>>, calls0: seq<Bank>, last0: u16)
    returns (rc: int, parsed: nat, last: u16, found: bool, calls: seq<Bank>)
    requires |resp| == MAX_CMDBUF
    ensures var p := Params(resp);
      if p.Some? && Announces(p.value, CAP_PCRS) then
        BanksOffered(p.value, cb, calls0, rc, parsed, last, found, calls)
      else rc == ERR_RESPONSE && !found && calls == calls0
  {
    parsed, last, found, calls := 0, last0, false, calls0;
    var iter;
    rc, iter := PayloadStart(resp, CAP_PCRS);
    if rc != SUCCESS {
      return;
    }
    var count := iter.ReadU32(0);
    rc, parsed, last, found, calls := OfferBanks(iter, count, cb, calls0, last0);
  }

  /** The loop over the banks. */
  method OfferBanks(iter: Iter, count: u32, cb: Callback<seq<byte>>, calls0: seq<Bank>, last0: u16)
    returns (rc: int, parsed: nat, last: u16, found: bool, calls: seq<Bank>)
    requires AtBank(iter, count, []) && Announces(iter.src, CAP_PCRS)
    modifies iter
    ensures BanksOffered(iter.src, cb, calls0, rc, parsed, last, found, calls)
  {
    parsed, last, found, calls := 0, last0, false, calls0;
    ghost var got: seq<Bank> := [];
    CutEmpty(cb, calls0);
    var i: nat, hash: u16 := 0, 0;
    while i < count
      invariant AtBank(iter, count, got) && i == parsed == |got|
      invariant i > 0 ==> last == LastId(got)
      invariant Cut(cb, calls0, got, calls, false)
    {
      WholeList(iter, count, got);
      var select;
      rc, hash, select := NextBank(iter, hash, count, got);
      if rc != SUCCESS {
        return;
      }
      parsed, last := parsed + 1, hash;
      CutOne(cb, calls0, got, calls, Entry(hash, select));
      got := got + [Entry(hash, select)];
      calls := calls + [Entry(hash, select)];
      if cb(calls) {
        found := true;
        FoundEarly(iter, count, got, cb, calls0, calls);
        return;
      }
      i := i + 1;
    }
    WholeList(iter, count, got);
    rc := iter.error;
  }

  lemma FoundEarly(iter: Iter, count: u32, got: seq<Bank>, cb: Callback<seq<byte>>, base: seq<Bank>, calls: seq<Bank>)
    requires AtBank(iter, count, got) && Cut(cb, base, got, calls, true)
    ensures Cut(cb, base, WholeBanks(iter.src), calls, true)
  {
    WholeList(iter, count, got);
    var all := WholeBanks(iter.src);
    assert all == got + all[|got|..];
    CutStopped(cb, base, got, calls, all[|got|..]);
  }
}
