/** Reference reading of capability responses: what the bytes mean, independent of how the library walks them. */
module Payload {
  import opened Bytes
  import opened DeviceView

  const ALG_NULL: u16 := 0x0010
  const CAP_ALGS: u32 := 0
  const CAP_PCRS: u32 := 5
  const PCR_SELECT_SIZE := 3

  /** An entry of a list: an algorithm with its properties, a PCR bank with its selection bytes, or a query with its
      answer. */
  datatype Entry<T> = Entry(id: u16, value: T)

  type Alg = Entry<u32>
  type Bank = Entry<seq<byte>>

  /** The parameters of a response, as its header delimits them. */
  function Params(resp: seq<byte>): Option<seq<byte>>
    requires |resp| == MAX_CMDBUF
  {
    var n := Announced(resp);
    if HEADER_SIZE <= n <= MAX_CMDBUF then Some(resp[HEADER_SIZE..n]) else None
  }

  /** The parameters announce `cap` and are long enough to do so. */
  predicate Announces(p: seq<byte>, cap: u32) {
    |p| >= 5 && U32(p[1..5]) == cap
  }

  function AlgAt(p: seq<byte>, i: nat): Alg
    requires 9 + 6 * (i + 1) <= |p|
  {
    Entry(U16(p[9 + 6 * i..11 + 6 * i]), U32(p[11 + 6 * i..15 + 6 * i]))
  }

  function AlgsUpTo(p: seq<byte>, k: nat): (r: seq<Alg>)
    requires 9 + 6 * k <= |p|
    ensures |r| == k
  {
    if k == 0 then [] else AlgsUpTo(p, k - 1) + [AlgAt(p, k - 1)]
  }

  /** The algorithm list in the parameters of a response, if there is a complete one. */
  function DecodeAlgs(p: seq<byte>): Option<seq<Alg>> {
    if !Announces(p, CAP_ALGS) || |p| < 9 then None
    else
      var count := U32(p[5..9]);
      if 9 + 6 * count > |p| then None else Some(AlgsUpTo(p, count))
  }

  /** The complete entries of an algorithm list: all it claims to have, or as many as there is room for. */
  function WholeAlgs(p: seq<byte>): seq<Alg> {
    if |p| < 9 then []
    else
      var count, room := U32(p[5..9]), (|p| - 9) / 6;
      AlgsUpTo(p, if count <= room then count else room)
  }

  /** A bank at offset `at`, if a complete and legal one is there. */
  function BankAt(p: seq<byte>, at: nat): Option<Bank>
    requires at <= |p|
  {
    if |p| - at < 3 || p[at + 2] > PCR_SELECT_SIZE || |p| - at < 3 + p[at + 2] then None
    else Some(Entry(U16(p[at..at + 2]), p[at + 3..at + 3 + p[at + 2]]))
  }

  /** `k` banks from offset `at` on, if that many complete and legal ones are there. */
  function BanksFrom(p: seq<byte>, at: nat, k: nat): (r: Option<seq<Bank>>)
    requires at <= |p|
    ensures r.Some? ==> |r.value| == k
    decreases k
  {
    if k == 0 then Some([])
    else
      var bank := BankAt(p, at);
      if bank.None? then None
      else
        var rest := BanksFrom(p, at + 3 + |bank.value.value|, k - 1);
        if rest.None? then None else Some([bank.value] + rest.value)
  }

  /** The bank list in the parameters of a response, if there is a complete one. */
  function DecodeBanks(p: seq<byte>): Option<seq<Bank>> {
    if !Announces(p, CAP_PCRS) || |p| < 9 then None else BanksFrom(p, 9, U32(p[5..9]))
  }

  /** The banks from offset `at` on up to the first that is incomplete or illegal, at most `k`. */
  function WholeBanksFrom(p: seq<byte>, at: nat, k: nat): (r: seq<Bank>)
    requires at <= |p|
    decreases k
  {
    if k == 0 || BankAt(p, at).None? then []
    else
      var bank := BankAt(p, at).value;
      [bank] + WholeBanksFrom(p, at + 3 + |bank.value|, k - 1)
  }

  /** The complete banks of a bank list. */
  function WholeBanks(p: seq<byte>): seq<Bank> {
    if |p| < 9 then [] else WholeBanksFrom(p, 9, U32(p[5..9]))
  }

  lemma {:induction false} AllWhole(p: seq<byte>, at: nat, k: nat)
    requires at <= |p|
    ensures BanksFrom(p, at, k) == if |WholeBanksFrom(p, at, k)| == k then Some(WholeBanksFrom(p, at, k)) else None
    ensures |WholeBanksFrom(p, at, k)| <= k
    decreases k
  {
    if k > 0 && BankAt(p, at).Some? {
      AllWhole(p, at + 3 + |BankAt(p, at).value.value|, k - 1);
    }
  }

  /** The list has an entry with this id; `HasIsMembership` says it without recursion. */
  predicate Has<T>(s: seq<Entry<T>>, id: u16) {
    s != [] && (s[|s| - 1].id == id || Has(s[..|s| - 1], id))
  }

  lemma {:induction false} HasIsMembership<T>(s: seq<Entry<T>>, id: u16)
    ensures Has(s, id) <==> exists i :: 0 <= i < |s| && s[i].id == id
  {
    if s != [] {
      var short := s[..|s| - 1];
      HasIsMembership(short, id);
      assert forall i :: 0 <= i < |short| ==> short[i] == s[i];
    }
  }

  lemma {:induction false} HasConcat<T>(a: seq<Entry<T>>, b: seq<Entry<T>>, id: u16)
    ensures Has(a + b, id) <==> Has(a, id) || Has(b, id)
  {
    if b == [] {
      assert a + b == a;
    } else {
      var last := |b| - 1;
      HasConcat(a, b[..last], id);
      assert (a + b)[..|a + b| - 1] == a + b[..last];
    }
  }

  function LastId<T>(s: seq<Entry<T>>): u16 {
    if s == [] then 0 else s[|s| - 1].id
  }

  /** A mask of three bytes holds this selection, with zeros where it has none. */
  predicate Holding(mask: seq<byte>, select: seq<byte>) {
    && |mask| == PCR_SELECT_SIZE
    && forall b :: 0 <= b < PCR_SELECT_SIZE ==> mask[b] == if b < |select| then select[b] else 0
  }

  /** A selection padded with zero bytes to the full three. */
  function Pad(select: seq<byte>): (r: seq<byte>)
    ensures Holding(r, select)
  {
    if |select| <= PCR_SELECT_SIZE then select + Zeros(PCR_SELECT_SIZE - |select|) else select[..PCR_SELECT_SIZE]
  }

  /** The padded selection of the last bank with this id, `otherwise` if there is none. */
  function LastMask(s: seq<Bank>, id: u16, otherwise: seq<byte>): seq<byte> {
    if s == [] then otherwise
    else if s[|s| - 1].id == id then Pad(s[|s| - 1].value)
    else LastMask(s[..|s| - 1], id, otherwise)
  }

  /** Entry `k` is the last one with this id. */
  ghost predicate IsLast<T(!new)>(s: seq<Entry<T>>, id: u16, k: nat) {
    k < |s| && s[k].id == id && forall j :: k < j < |s| ==> s[j].id != id
  }

  /** The mask is what a list of banks states about an id: the selection of its last bank with that id, byte by byte, all
      zero if it has none. */
  ghost predicate Stated(mask: seq<byte>, list: seq<Bank>, id: u16) {
    && (forall k: nat :: IsLast(list, id, k) ==> Holding(mask, list[k].value))
    && ((forall k :: 0 <= k < |list| ==> list[k].id != id) ==> Holding(mask, []))
  }

  /** A bank with another id at the end changes nothing, one with this id decides. */
  lemma StatedStep(mask: seq<byte>, s: seq<Bank>, e: Bank, id: u16)
    ensures e.id == id && Holding(mask, e.value) ==> Stated(mask, s + [e], id)
    ensures e.id != id && Stated(mask, s, id) ==> Stated(mask, s + [e], id)
  {
    var t := s + [e];
    if e.id == id {
      assert t[|s|].id == id;
      assert forall k: nat :: IsLast(t, id, k) ==> k == |s|;
    } else {
      forall k: nat | IsLast(t, id, k)
        ensures IsLast(s, id, k) && s[k] == t[k]
      {
        assert forall j :: k < j < |s| ==> t[j] == s[j];
      }
      if forall k :: 0 <= k < |t| ==> t[k].id != id {
        assert forall k :: 0 <= k < |s| ==> t[k] == s[k];
      }
    }
  }

  /** Banks with other ids after a list change nothing. */
  lemma StatedOn(mask: seq<byte>, e: seq<Bank>, list: seq<Bank>, id: u16)
    requires Stated(mask, e, id) && e <= list && !Has(list[|e|..], id)
    ensures Stated(mask, list, id)
  {
    HasIsMembership(list[|e|..], id);
    forall k | |e| <= k < |list|
      ensures list[k].id != id
    {
      assert list[|e|..][k - |e|] == list[k];
    }
    assert forall k: nat :: IsLast(list, id, k) ==> IsLast(e, id, k);
  }

  lemma {:induction false} LastMaskStated(s: seq<Bank>, id: u16)
    ensures Stated(LastMask(s, id, Zeros(PCR_SELECT_SIZE)), s, id)
  {
    if s != [] {
      var front, e := s[..|s| - 1], s[|s| - 1];
      var mask := LastMask(s, id, Zeros(PCR_SELECT_SIZE));
      assert s == front + [e];
      LastMaskStated(front, id);
      assert if e.id == id then Holding(mask, e.value) else mask == LastMask(front, id, Zeros(PCR_SELECT_SIZE));
      StatedStep(mask, front, e, id);
    }
  }

  predicate Matches(props: u32, mustSet: u32, mustClear: u32) {
    AllSet(props, mustSet) && !AnySet(props, mustClear)
  }

  /** The algorithms whose properties pass both masks, in order. */
  function Filter(s: seq<Alg>, mustSet: u32, mustClear: u32): seq<Alg> {
    if s == [] then []
    else
      var e := s[|s| - 1];
      Filter(s[..|s| - 1], mustSet, mustClear) + if Matches(e.value, mustSet, mustClear) then [e] else []
  }

  /** A callback, given all calls made so far with the current one last; true asks to stop. */
  type Callback<!T> = seq<Entry<T>> -> bool

  /** None of the calls after the first `from` asked to stop. */
  predicate NoStop<T>(cb: Callback<T>, from: nat, calls: seq<Entry<T>>) {
    |calls| <= from || (!cb(calls) && NoStop(cb, from, calls[..|calls| - 1]))
  }

  lemma {:induction false} NoStopAt<T>(cb: Callback<T>, from: nat, calls: seq<Entry<T>>, k: nat)
    requires NoStop(cb, from, calls) && from < k <= |calls|
    ensures !cb(calls[..k])
  {
    if k == |calls| {
      assert calls[..k] == calls;
    } else {
      NoStopAt(cb, from, calls[..|calls| - 1], k);
      assert calls[..|calls| - 1][..k] == calls[..k];
    }
  }

  /** From `base` on, `calls` are the calls for `items` in order, cut just after the first that asks to stop. */
  ghost predicate Cut<T>(cb: Callback<T>, base: seq<Entry<T>>, items: seq<Entry<T>>, calls: seq<Entry<T>>, found: bool) {
    if found then
      base < calls && calls <= base + items && cb(calls) && NoStop(cb, |base|, calls[..|calls| - 1])
    else
      calls == base + items && NoStop(cb, |base|, calls)
  }

  lemma CutEmpty<T>(cb: Callback<T>, base: seq<Entry<T>>)
    ensures Cut(cb, base, [], base, false)
  {
  }

  lemma CutOne<T>(cb: Callback<T>, base: seq<Entry<T>>, items: seq<Entry<T>>, calls: seq<Entry<T>>, e: Entry<T>)
    requires Cut(cb, base, items, calls, false)
    ensures Cut(cb, base, items + [e], calls + [e], cb(calls + [e]))
  {
  }

  lemma {:induction false} NoStopChain<T>(cb: Callback<T>, from: nat, mid: seq<Entry<T>>, calls: seq<Entry<T>>)
    requires from <= |mid| && mid <= calls && NoStop(cb, from, mid) && NoStop(cb, |mid|, calls)
    ensures NoStop(cb, from, calls)
    decreases |calls|
  {
    if |calls| == |mid| {
      assert calls == mid;
    } else {
      NoStopChain(cb, from, mid, calls[..|calls| - 1]);
    }
  }

  /** Going on after an uncut run is one longer run. */
  lemma CutChain<T>(cb: Callback<T>, base: seq<Entry<T>>, a: seq<Entry<T>>, mid: seq<Entry<T>>, b: seq<Entry<T>>,
                    calls: seq<Entry<T>>, found: bool)
    requires Cut(cb, base, a, mid, false) && Cut(cb, mid, b, calls, found)
    ensures Cut(cb, base, a + b, calls, found)
  {
    assert (base + a) + b == base + (a + b);
    NoStopChain(cb, |base|, mid, if found then calls[..|calls| - 1] else calls);
  }

  /** A run that has stopped is the same whatever more there is to offer. */
  lemma CutStopped<T>(cb: Callback<T>, base: seq<Entry<T>>, a: seq<Entry<T>>, calls: seq<Entry<T>>, b: seq<Entry<T>>)
    requires Cut(cb, base, a, calls, true)
    ensures Cut(cb, base, a + b, calls, true)
  {
  }

  lemma CutNotShorter<T>(cb: Callback<T>, base: seq<Entry<T>>, items: seq<Entry<T>>,
                         c: seq<Entry<T>>, found: bool, c': seq<Entry<T>>, found': bool)
    requires Cut(cb, base, items, c, found) && Cut(cb, base, items, c', found')
    ensures |c| >= |c'|
  {
    if |c| < |c'| {
      var front := if found' then c'[..|c'| - 1] else c';
      assert front[..|c|] == c;
      NoStopAt(cb, |base|, front, |c|);
    }
  }

  /** There is only one such sequence of calls. */
  lemma CutUnique<T>(cb: Callback<T>, base: seq<Entry<T>>, items: seq<Entry<T>>,
                     c: seq<Entry<T>>, found: bool, c': seq<Entry<T>>, found': bool)
    requires Cut(cb, base, items, c, found) && Cut(cb, base, items, c', found')
    ensures c == c' && found == found'
  {
    CutNotShorter(cb, base, items, c, found, c', found');
    CutNotShorter(cb, base, items, c', found', c, found);
    assert c == c';
  }

  lemma {:induction false} FilterConcat(a: seq<Alg>, b: seq<Alg>, mustSet: u32, mustClear: u32)
    ensures Filter(a + b, mustSet, mustClear) == Filter(a, mustSet, mustClear) + Filter(b, mustSet, mustClear)
  {
    if b == [] {
      assert a + b == a;
    } else {
      var last := |b| - 1;
      FilterConcat(a, b[..last], mustSet, mustClear);
      assert (a + b)[..|a + b| - 1] == a + b[..last];
    }
  }

  lemma {:induction false} LastMaskConcat(a: seq<Bank>, b: seq<Bank>, id: u16, otherwise: seq<byte>)
    ensures LastMask(a + b, id, otherwise) == LastMask(b, id, LastMask(a, id, otherwise))
  {
    if b == [] {
      assert a + b == a;
    } else {
      var last := |b| - 1;
      LastMaskConcat(a, b[..last], id, otherwise);
      assert (a + b)[..|a + b| - 1] == a + b[..last];
    }
  }

  lemma {:induction false} LastMaskAbsent(s: seq<Bank>, id: u16, otherwise: seq<byte>)
    requires !Has(s, id)
    ensures LastMask(s, id, otherwise) == otherwise
  {
    if s != [] {
      LastMaskAbsent(s[..|s| - 1], id, otherwise);
    }
  }
}
