/** How bank lists are written, in commands and responses alike, and that the reference decoders read them back. */
module BankWire {
  import opened Bytes
  import opened Payload

  predicate Legal(s: seq<Bank>) {
    forall i :: 0 <= i < |s| ==> |s[i].value| <= PCR_SELECT_SIZE
  }

  /** Every selection has the full three bytes. */
  predicate FullBanks(banks: seq<Bank>) {
    forall i :: 0 <= i < |banks| ==> |banks[i].value| == PCR_SELECT_SIZE
  }

  function OneBankBytes(b: Bank): (r: seq<byte>)
    requires |b.value| <= PCR_SELECT_SIZE
    ensures |r| == 3 + |b.value|
  {
    BE16(b.id) + [|b.value|] + b.value
  }

  function BankBytes(banks: seq<Bank>): (r: seq<byte>)
    requires Legal(banks)
    ensures |r| <= 6 * |banks| && (FullBanks(banks) ==> |r| == 6 * |banks|)
  {
    if banks == [] then [] else OneBankBytes(banks[0]) + BankBytes(banks[1..])
  }

  /** These bytes stand at this offset. */
  predicate StandsAt(p: seq<byte>, at: nat, bytes: seq<byte>) {
    at + |bytes| <= |p| && p[at..at + |bytes|] == bytes
  }

  lemma StandParts(p: seq<byte>, at: nat, a: seq<byte>, b: seq<byte>)
    requires StandsAt(p, at, a + b)
    ensures StandsAt(p, at, a) && StandsAt(p, at + |a|, b)
  {
    assert p[at..at + |a|] == (a + b)[..|a|];
    assert p[at + |a|..at + |a| + |b|] == (a + b)[|a|..];
  }

  lemma BankDecodes(p: seq<byte>, at: nat, b: Bank)
    requires |b.value| <= PCR_SELECT_SIZE && StandsAt(p, at, OneBankBytes(b))
    ensures BankAt(p, at) == Some(b)
  {
    StandParts(p, at, BE16(b.id) + [|b.value|], b.value);
    StandParts(p, at, BE16(b.id), [|b.value|]);
    BE16RoundTrip(b.id);
    assert p[at + 2..at + 3][0] == |b.value|;
  }

  /** One after the other, these banks can be read from offset `at` up to `end`. */
  ghost predicate Chain(p: seq<byte>, at: nat, banks: seq<Bank>, end: nat)
    requires at <= |p|
    decreases |banks|
  {
    if banks == [] then at == end
    else BankAt(p, at) == Some(banks[0]) && Chain(p, at + 3 + |banks[0].value|, banks[1..], end)
  }

  lemma FirstStands(p: seq<byte>, at: nat, b: Bank, rest: seq<Bank>, bytes: seq<byte>)
    requires |b.value| <= PCR_SELECT_SIZE && Legal(rest) && bytes == OneBankBytes(b) + BankBytes(rest)
    requires StandsAt(p, at, bytes)
    ensures BankAt(p, at) == Some(b) && StandsAt(p, at + 3 + |b.value|, BankBytes(rest))
    ensures |bytes| == 3 + |b.value| + |BankBytes(rest)|
  {
    StandParts(p, at, OneBankBytes(b), BankBytes(rest));
    BankDecodes(p, at, b);
  }

  lemma {:induction false} WrittenChain(p: seq<byte>, at: nat, banks: seq<Bank>, bytes: seq<byte>, end: nat)
    requires Legal(banks) && bytes == BankBytes(banks) && StandsAt(p, at, bytes) && end == at + |bytes|
    ensures Chain(p, at, banks, end)
    decreases |banks|
  {
    if banks != [] {
      var b, rest := banks[0], banks[1..];
      FirstStands(p, at, b, rest, bytes);
      WrittenChain(p, at + 3 + |b.value|, rest, BankBytes(rest), end);
    }
  }

  lemma {:induction false} ChainRead(p: seq<byte>, at: nat, banks: seq<Bank>, end: nat, k: nat)
    requires at <= |p| && end <= |p| && Chain(p, at, banks, end)
    requires k == |banks| || (k > |banks| && BankAt(p, end).None?)
    ensures WholeBanksFrom(p, at, k) == banks
    decreases |banks|
  {
    if banks != [] {
      ChainRead(p, at + 3 + |banks[0].value|, banks[1..], end, k - 1);
      assert [banks[0]] + banks[1..] == banks;
    }
  }

  /** Among at most `k` banks, the complete ones are those that were written, if no other complete one follows them. */
  lemma WholeDecode(p: seq<byte>, at: nat, banks: seq<Bank>, k: nat)
    requires Legal(banks) && StandsAt(p, at, BankBytes(banks))
    requires k == |banks| || (k > |banks| && BankAt(p, at + |BankBytes(banks)|).None?)
    ensures WholeBanksFrom(p, at, k) == banks
  {
    WrittenChain(p, at, banks, BankBytes(banks), at + |BankBytes(banks)|);
    ChainRead(p, at, banks, at + |BankBytes(banks)|, k);
  }

  /** No complete and legal bank is at the front of these bytes. */
  predicate NoBank(rest: seq<byte>) {
    |rest| < 3 || rest[2] > PCR_SELECT_SIZE || |rest| < 3 + rest[2]
  }

  lemma NoneStands(p: seq<byte>, at: nat)
    requires at <= |p| && NoBank(p[at..])
    ensures BankAt(p, at).None?
  {
  }

  /** A list that was written is read back, whatever stands before and after it. */
  lemma BanksDecode(p: seq<byte>, at: nat, banks: seq<Bank>)
    requires Legal(banks) && StandsAt(p, at, BankBytes(banks))
    ensures BanksFrom(p, at, |banks|) == Some(banks)
  {
    WholeDecode(p, at, banks, |banks|);
    AllWhole(p, at, |banks|);
  }
}
