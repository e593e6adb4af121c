/** PCR read and extend (tpm_pcr_read_single and tpm_pcr_extend in src/tpm2_cmds.c), with reference decoders for sections
    22.4 and 22.2 of TPM 2.0 Library Part 3. */
module PcrCommands {
  import opened Bytes
  import opened Codes
  import opened HostOrder
  import opened DeviceView
  import opened SpiBus
  import opened Fifo
  import opened Exchange
  import opened CommandBuilder
  import opened Payload
  import opened BankWire
  import opened Paging
  import opened GetCapability
  import opened AllocateWire
  import opened AllocateFacts
  import opened PcrAllocate

  const CMD_PCR_READ: u32 := 0x017E
  const CMD_PCR_EXTEND: u32 := 0x0182
  const MAX_DIGEST_SIZE := 48

  /** The PCRs a selection names: PCR 8i + j by bit j of byte i. */
  predicate Selects(select: seq<byte>, pcr: nat) {
    pcr / 8 < |select| && HasBit(select[pcr / 8], pcr % 8)
  }

  function Pow2(n: nat): (r: nat)
    ensures r > 0
  {
    if n == 0 then 1 else 2 * Pow2(n - 1)
  }

  /** The three bytes of 1 << index, least significant first. */
  function Select(index: nat): (r: seq<byte>)
    requires index < 24
    ensures |r| == PCR_SELECT_SIZE
  {
    var mask := Pow2(index);
    [mask % 0x100, mask / 0x100 % 0x100, mask / 0x1_0000 % 0x100]
  }

  lemma {:induction false} Pow2Sum(n: nat, k: nat)
    ensures Pow2(n + k) == Pow2(n) * Pow2(k)
  {
    if k > 0 {
      Pow2Sum(n, k - 1);
      assert Pow2(n + k) == 2 * Pow2(n + k - 1);
    }
  }

  lemma {:induction false} Pow2Grows(n: nat, k: nat)
    requires n < k
    ensures Pow2(n) < Pow2(k)
  {
    if n < k - 1 {
      Pow2Grows(n, k - 1);
    }
  }

  /** Bit `b` is the only one set in 2^b. */
  lemma {:induction false} OneBit(a: nat, b: nat)
    ensures HasBit(Pow2(a), b) <==> a == b
    ensures !HasBit(0, b)
    decreases b
  {
    if b > 0 {
      OneBit(if a == 0 then b else a - 1, b - 1);
    }
  }

  lemma Pow2Bytes()
    ensures Pow2(8) == 0x100 && Pow2(16) == 0x1_0000
  {
  }

  lemma SelectBytes(index: nat)
    requires index < 24
    ensures forall i :: 0 <= i < 3 ==> Select(index)[i] == if i == index / 8 then Pow2(index % 8) else 0
  {
    var r := index % 8;
    Pow2Bytes();
    Pow2Grows(r, 8);
    if index / 8 == 0 {
      MaskBytes(Pow2(r), Pow2(index), 1);
    } else if index / 8 == 1 {
      Pow2Sum(r, 8);
      MaskBytes(Pow2(r), Pow2(index), 0x100);
    } else {
      Pow2Sum(r, 16);
      MaskBytes(Pow2(r), Pow2(index), 0x1_0000);
    }
  }

  /** Where a byte-sized number ends up when shifted by whole bytes. */
  lemma MaskBytes(m: nat, mask: nat, shift: nat)
    requires m < 0x100 && (shift == 1 || shift == 0x100 || shift == 0x1_0000) && mask == m * shift
    ensures mask % 0x100 == if shift == 1 then m else 0
    ensures mask / 0x100 % 0x100 == if shift == 0x100 then m else 0
    ensures mask / 0x1_0000 % 0x100 == if shift == 0x1_0000 then m else 0
  {
    if shift == 1 {
      assert mask == m;
    } else if shift == 0x100 {
      assert mask == 0x100 * m && mask / 0x100 == m;
    } else {
      assert mask == 0x1_0000 * m && mask / 0x1_0000 == m && mask / 0x100 == 0x100 * m;
    }
  }

  /** The selection of an index names exactly that PCR. */
  lemma SelectsOne(index: nat, pcr: nat)
    requires index < 24
    ensures Selects(Select(index), pcr) <==> pcr == index
  {
    SelectBytes(index);
    OneBit(index % 8, pcr % 8);
    if pcr / 8 < 3 {
      assert Select(index)[pcr / 8] == if pcr / 8 == index / 8 then Pow2(index % 8) else 0;
    }
  }

  /** A command without sessions or with one: header and data. */
  function Command(tag: u16, code: u32, data: seq<byte>): seq<byte>
    requires |data| <= MAX_CMD_DATA
  {
    BE16(tag) + BE32(HEADER_SIZE + |data|) + BE32(code) + data
  }

  lemma CommandShape(tag: u16, code: u32, data: seq<byte>)
    requires |data| <= MAX_CMD_DATA
    ensures var s := Command(tag, code, data);
      && |s| == HEADER_SIZE + |data| && s[..2] == BE16(tag) && s[6..10] == BE32(code) && s[10..] == data
      && Announced(s) == |s| && U16(s[..2]) == tag && U32(s[6..10]) == code
  {
  }

  /** A builder whose fields encode to `data` holds the command with that data. */
  lemma BuiltCommand(tag: u16, code: u32, fs: seq<Field>, data: seq<byte>)
    requires Encodes(fs, data)
    ensures Fits(fs) <==> |data| <= MAX_CMD_DATA
    ensures |data| <= MAX_CMD_DATA ==>
      var s, n := Image(tag, code, fs), HEADER_SIZE + |data|;
      Announced(s) == n && s[..n] == Command(tag, code, data)
  {
  }

  // Extend

  function ExtendFields(index: u32, alg: u16, digest: seq<byte>): seq<Field> {
    [Field(index, 4), Field(MIN_AUTH_SIZE, 4), Field(RS_PW, 4)] + [Field(0, 2), Field(0, 1), Field(0, 2)]
    + [Field(1, 4)] + [Field(alg, 2)] + ByteFields(digest)
  }

  function ExtendData(index: u32, alg: u16, digest: seq<byte>): (r: seq<byte>)
    ensures |r| == 23 + |digest|
  {
    BE32(index) + BE32(MIN_AUTH_SIZE) + AuthBytes([]) + BE32(1) + BE16(alg) + digest
  }

  /** Reads an extend off the wire, using `authorizationSize` to skip the authorization area: PCR, algorithm, digest. */
  function DecodeExtend(cmd: seq<byte>): Option<(u32, u16, seq<byte>)> {
    if |cmd| < 18 || U16(cmd[..2]) != ST_SESSIONS || Announced(cmd) != |cmd| || U32(cmd[6..10]) != CMD_PCR_EXTEND then None
    else
      var at := 18 + U32(cmd[14..18]);
      if |cmd| < at + 6 || U32(cmd[at..at + 4]) != 1 then None
      else if DecodeAuth(cmd[18..at]).None? || |DecodeAuth(cmd[18..at]).value| != 0 then None
      else Some((U32(cmd[10..14]), U16(cmd[at + 4..at + 6]), cmd[at + 6..]))
  }

  lemma ExtendHeadEncodes(index: u32)
    ensures Encodes([Field(index, 4), Field(MIN_AUTH_SIZE, 4), Field(RS_PW, 4)] + [Field(0, 2), Field(0, 1), Field(0, 2)],
                    BE32(index) + BE32(MIN_AUTH_SIZE) + AuthBytes([]))
  {
    var f1, f2, f3 := Field(index, 4), Field(MIN_AUTH_SIZE, 4), Field(RS_PW, 4);
    var f4, f5, f6 := Field(0, 2), Field(0, 1), Field(0, 2);
    EncodesThree(f1, f2, f3);
    EncodesThree(f4, f5, f6);
    var x, y := BE32(index) + BE32(MIN_AUTH_SIZE) + BE32(RS_PW), BE16(0) + [0] + BE16(0);
    assert Encode(f1) == BE32(index) && Encode(f2) == BE32(MIN_AUTH_SIZE) && Encode(f3) == BE32(RS_PW);
    assert Encode(f4) == BE16(0) && Encode(f5) == [0] && Encode(f6) == BE16(0);
    EncodesConcat([f1, f2, f3], x, [f4, f5, f6], y);
    Regroup(BE32(index), BE32(MIN_AUTH_SIZE), BE32(RS_PW), BE16(0), []);
    assert x + y + [] == x + y;
  }

  lemma CountEncodes(alg: u16)
    ensures Encodes([Field(1, 4)], BE32(1)) && Encodes([Field(alg, 2)], BE16(alg))
  {
    EncodesOne(Field(1, 4));
    EncodesOne(Field(alg, 2));
  }

  lemma ExtendEncodes(index: u32, alg: u16, digest: seq<byte>)
    ensures Encodes(ExtendFields(index, alg, digest), ExtendData(index, alg, digest))
  {
    var head := [Field(index, 4), Field(MIN_AUTH_SIZE, 4), Field(RS_PW, 4)] + [Field(0, 2), Field(0, 1), Field(0, 2)];
    var x := BE32(index) + BE32(MIN_AUTH_SIZE) + AuthBytes([]);
    ExtendHeadEncodes(index);
    CountEncodes(alg);
    EncodesConcat(head, x, [Field(1, 4)], BE32(1));
    EncodesConcat(head + [Field(1, 4)], x + BE32(1), [Field(alg, 2)], BE16(alg));
    BytesEncode(digest);
    EncodesConcat(head + [Field(1, 4)] + [Field(alg, 2)], x + BE32(1) + BE16(alg), ByteFields(digest), digest);
  }

  /** Slicing an extend: header, index, size, authorization area, count, algorithm and digest. */
  lemma ExtendParts(t: seq<byte>, n: seq<byte>, c: seq<byte>, h: seq<byte>, z: seq<byte>, a: seq<byte>, k: seq<byte>,
                    g: seq<byte>, d: seq<byte>)
    requires |t| == |g| == 2 && |n| == |c| == |h| == |z| == |k| == 4 && |a| == 9
    ensures var s := t + n + c + (h + z + a + k + g + d);
      && |s| == 33 + |d| && s[..2] == t && s[2..6] == n && s[6..10] == c && s[10..14] == h && s[14..18] == z
      && s[18..27] == a && s[27..31] == k && s[31..33] == g && s[33..] == d
  {
  }

  lemma ExtendDecodes(s: seq<byte>, index: u32, alg: u16)
    requires |s| >= 33 && U16(s[..2]) == ST_SESSIONS && U32(s[2..6]) == |s| && U32(s[6..10]) == CMD_PCR_EXTEND
    requires U32(s[10..14]) == index && U32(s[14..18]) == 9 && DecodeAuth(s[18..27]) == Some([])
    requires U32(s[27..31]) == 1 && U16(s[31..33]) == alg
    ensures DecodeExtend(s) == Some((index, alg, s[33..]))
  {
  }

  lemma ExtendRoundTrip(index: u32, alg: u16, digest: seq<byte>)
    requires 33 + |digest| <= MAX_CMDBUF
    ensures DecodeExtend(ExtendCommand(index, alg, digest)) == Some((index, alg, digest))
  {
    var n := 33 + |digest|;
    ExtendParts(BE16(ST_SESSIONS), BE32(n), BE32(CMD_PCR_EXTEND), BE32(index), BE32(MIN_AUTH_SIZE), AuthBytes([]),
                BE32(1), BE16(alg), digest);
    BE16RoundTrip(ST_SESSIONS);
    BE32RoundTrip(n);
    BE32RoundTrip(CMD_PCR_EXTEND);
    BE32RoundTrip(index);
    BE32RoundTrip(MIN_AUTH_SIZE);
    BE32RoundTrip(1);
    BE16RoundTrip(alg);
    AuthDecodes([]);
    ExtendDecodes(ExtendCommand(index, alg, digest), index, alg);
  }

  /** What one extend exchange means: the device was given a command that decodes to this index, algorithm and digest, and
      success is its response code. */
  ghost predicate Extended(v: View, index: u32, alg: u16, digest: seq<byte>, rc: int) {
    && (v.accepted.Some? ==> DecodeExtend(v.accepted.value) == Some((index, alg, digest)))
    && if Taken(v) then v.accepted.Some? && rc == if U32(v.served[6..10]) == 0 then SUCCESS else ERR_RESPONSE
       else ExchangeCode(rc) && rc != SUCCESS && rc != ERR_RESPONSE
  }

  /** Appends the rest of an extend after the session handle. */
  method AppendExtend(b: Builder, alg: u16, digest: seq<byte>)
    requires b.Valid()
    modifies b`error, b`fields, b`taken, b.cmd
    ensures b.Valid()
    ensures b.fields ==
      old(b.fields) + [Field(0, 2), Field(0, 1), Field(0, 2)] + [Field(1, 4)] + [Field(alg, 2)] + ByteFields(digest)
  {
    AppendThree(b, Field(0, 2), Field(0, 1), Field(0, 2));
    var rc := b.Append(1, 4);
    rc := b.Append(alg, 2);
    AppendBytes(b, digest);
  }

  method BuildExtend(host: Order, index: u32, alg: u16, digest: seq<byte>) returns (rc: int, cmd: array<byte>)
    ensures fresh(cmd) && cmd.Length == MAX_CMDBUF
    ensures rc == if 33 + |digest| <= MAX_CMDBUF then SUCCESS else INVALID_PARAM
    ensures rc == SUCCESS ==> SizeOf(cmd) == 33 + |digest|
    ensures rc == SUCCESS ==> cmd[..][..SizeOf(cmd)] == ExtendCommand(index, alg, digest)
  {
    var b := new Builder(host, ST_SESSIONS, CMD_PCR_EXTEND);
    AppendThree(b, Field(index, 4), Field(MIN_AUTH_SIZE, 4), Field(RS_PW, 4));
    assert b.fields == [Field(index, 4), Field(MIN_AUTH_SIZE, 4), Field(RS_PW, 4)];
    AppendExtend(b, alg, digest);
    ExtendEncodes(index, alg, digest);
    BuiltCommand(ST_SESSIONS, CMD_PCR_EXTEND, ExtendFields(index, alg, digest), ExtendData(index, alg, digest));
    rc := b.Finalize();
    cmd := b.cmd;
  }

  /** The wire form of an extend. */
  function ExtendCommand(index: u32, alg: u16, digest: seq<byte>): (r: seq<byte>)
    requires 33 + |digest| <= MAX_CMDBUF
    ensures |r| == 33 + |digest|
  {
    Command(ST_SESSIONS, CMD_PCR_EXTEND, ExtendData(index, alg, digest))
  }

  /** What the response code of an exchange makes of an extend. */
  lemma ExtendedBy(v: View, index: u32, alg: u16, digest: seq<byte>, resp: seq<byte>, rc: int)
    requires 33 + |digest| <= MAX_CMDBUF
    requires v.accepted.Some? ==> v.accepted.value == ExtendCommand(index, alg, digest)
    requires !Taken(v) ==> ExchangeCode(rc) && rc != SUCCESS && rc != ERR_RESPONSE
    requires Taken(v) ==>
      v.accepted.Some? && Holds(resp, v.served) && rc == if U32(resp[6..10]) == 0 then SUCCESS else ERR_RESPONSE
    ensures Extended(v, index, alg, digest, rc)
  {
    if v.accepted.Some? {
      ExtendRoundTrip(index, alg, digest);
    }
    if Taken(v) {
      HeldCode(resp, v.served);
    }
  }

  lemma HeldCode(resp: seq<byte>, served: seq<byte>)
    requires Holds(resp, served)
    ensures resp[6..10] == served[6..10]
  {
  }

  /** Sends a built extend and reads the response code. */
  method ExchangeExtend(bus: Bus, chip: Chip, cmd: array<byte>, ghost index: u32, ghost alg: u16,
                        ghost digest: seq<byte>)
    returns (rc: int)
    requires bus.Valid() && bus.cur == [] && cmd.Length == MAX_CMDBUF && SizeOf(cmd) == 33 + |digest| <= MAX_CMDBUF
    requires cmd[..][..SizeOf(cmd)] == ExtendCommand(index, alg, digest)
    modifies bus
    ensures Appended(bus, old(bus.done), 1)
    ensures Extended(Watch(bus.done[|old(bus.done)|]), index, alg, digest, rc)
    ensures !Taken(Watch(bus.done[|old(bus.done)|])) ==> LastFailed(bus, chip, rc)
  {
    var resp := new byte[MAX_CMDBUF](_ => 0);
    rc := XferBuilt(bus, chip, cmd, ExtendCommand(index, alg, digest), resp);
    if rc == SUCCESS {
      assert resp[6..10] == resp[..][6..10];
      rc := if U32(resp[6..10]) != 0 then ERR_RESPONSE else SUCCESS;
    }
    ExtendedBy(Watch(bus.done[|old(bus.done)|]), index, alg, digest, resp[..], rc);
  }

  method PcrExtend(bus: Bus, chip: Chip, host: Order, index: u32, alg: u16, digest: seq<byte>)
    returns (rc: int)
    requires bus.Valid() && bus.cur == []
    modifies bus
    ensures 33 + |digest| > MAX_CMDBUF ==> rc == INVALID_PARAM && bus.Valid() && bus.done == old(bus.done)
    ensures 33 + |digest| <= MAX_CMDBUF ==>
      && Appended(bus, old(bus.done), 1)
      && Extended(Watch(bus.done[|old(bus.done)|]), index, alg, digest, rc)
      && (!Taken(Watch(bus.done[|old(bus.done)|])) ==> LastFailed(bus, chip, rc))
  {
    var cmd;
    rc, cmd := BuildExtend(host, index, alg, digest);
    if rc < 0 {
      return;
    }
    rc := ExchangeExtend(bus, chip, cmd, index, alg, digest);
  }

  // Read

  function ReadFields(index: nat, alg: u16): seq<Field>
    requires index < 24
  {
    [Field(1, 4)] + OneBankFields(Entry(alg, Select(index)))
  }

  function ReadData(index: nat, alg: u16): seq<byte>
    requires index < 24
  {
    BE32(1) + OneBankBytes(Entry(alg, Select(index)))
  }

  /** Reads a PCR read off the wire: the banks with their selections. */
  function DecodeRead(cmd: seq<byte>): Option<seq<Bank>> {
    if |cmd| < 14 || U16(cmd[..2]) != ST_NO_SESSIONS || Announced(cmd) != |cmd| || U32(cmd[6..10]) != CMD_PCR_READ then None
    else BanksFrom(cmd, 14, U32(cmd[10..14]))
  }

  lemma ReadRoundTrip(index: nat, alg: u16)
    requires index < 24
    ensures DecodeRead(Command(ST_NO_SESSIONS, CMD_PCR_READ, ReadData(index, alg))) == Some([Entry(alg, Select(index))])
  {
    var bank: Bank := Entry(alg, Select(index));
    var data := ReadData(index, alg);
    var s := Command(ST_NO_SESSIONS, CMD_PCR_READ, data);
    CommandShape(ST_NO_SESSIONS, CMD_PCR_READ, data);
    BE32RoundTrip(1);
    assert s[10..14] == BE32(1);
    OneBankStands(s, bank);
  }

  lemma OneBankStands(s: seq<byte>, bank: Bank)
    requires |bank.value| == PCR_SELECT_SIZE && |s| == 20 && s[10..] == BE32(1) + OneBankBytes(bank)
    ensures BanksFrom(s, 14, 1) == Some([bank])
  {
    assert BankBytes([bank]) == OneBankBytes(bank) + [] == OneBankBytes(bank);
    assert s[14..] == s[10..][4..];
    BanksDecode(s, 14, [bank]);
  }

  method BuildRead(host: Order, index: nat, alg: u16) returns (cmd: array<byte>)
    requires index < 24
    ensures fresh(cmd) && cmd.Length == MAX_CMDBUF && SizeOf(cmd) == 20
    ensures cmd[..][..20] == Command(ST_NO_SESSIONS, CMD_PCR_READ, ReadData(index, alg))
  {
    var b := new Builder(host, ST_NO_SESSIONS, CMD_PCR_READ);
    var rc := b.Append(1, 4);
    AppendBank(b, Entry(alg, Select(index)));
    assert b.fields == ReadFields(index, alg);
    EncodesOne(Field(1, 4));
    OneBankEncodes(Entry(alg, Select(index)));
    EncodesConcat([Field(1, 4)], BE32(1), OneBankFields(Entry(alg, Select(index))),
                  OneBankBytes(Entry(alg, Select(index))));
    BuiltCommand(ST_NO_SESSIONS, CMD_PCR_READ, ReadFields(index, alg), ReadData(index, alg));
    rc := b.Finalize();
    cmd := b.cmd;
  }

  /** The digest a read response carries: counter, one selection and one digest of at most 48 bytes, and nothing longer
      than that. */
  function DecodeDigest(r: seq<byte>): Option<seq<byte>> {
    if |r| < 30 || |r| > 30 + MAX_DIGEST_SIZE || U32(r[6..10]) != 0 then None
    else
      var n := U16(r[28..30]);
      if n > MAX_DIGEST_SIZE || 30 + n > |r| then None else Some(r[30..30 + n])
  }

  /** The response is that of a successful read, but the digest it announces fits neither limit. */
  predicate Overlong(r: seq<byte>, room: nat) {
    && 30 <= |r| <= 30 + MAX_DIGEST_SIZE && U32(r[6..10]) == 0
    && (U16(r[28..30]) > MAX_DIGEST_SIZE || U16(r[28..30]) > room)
  }

  /** What a read with room for so many bytes reports of a response. */
  function ReadCode(r: seq<byte>, room: nat): int {
    if Overlong(r, room) then INVALID_PARAM else if DecodeDigest(r).Some? then SUCCESS else ERR_RESPONSE
  }

  /** What one read exchange means for the output buffer, whatever the device does. */
  ghost predicate ReadOutcome(v: View, index: nat, alg: u16, out: seq<byte>, rc: int)
    requires index < 24
  {
    && (v.accepted.Some? ==> DecodeRead(v.accepted.value) == Some([Entry(alg, Select(index))]))
    && (if Taken(v) then
          && v.accepted.Some? && rc == ReadCode(Reply(v.served), |out|)
          && (rc == SUCCESS ==>
                var d := DecodeDigest(Reply(v.served)).value;
                |d| <= |out| && out == d + Zeros(|out| - |d|))
        else ExchangeCode(rc) && rc != SUCCESS && rc != ERR_RESPONSE)
    && (rc != SUCCESS ==> out == Zeros(|out|))
  }

  /** Copies bytes to the front of a zeroed buffer. */
  method CopyFront(out: array<byte>, d: seq<byte>)
    requires |d| <= out.Length && out[..] == Zeros(out.Length)
    modifies out
    ensures out[..] == d + Zeros(out.Length - |d|)
  {
    var i := 0;
    while i < |d|
      invariant i <= |d|
      invariant forall k :: 0 <= k < out.Length ==> out[k] == if k < i then d[k] else 0
    {
      out[i] := d[i];
      i := i + 1;
    }
  }

  /** Copies the digest of a response to the front of a zeroed buffer, if there is one and it fits. */
  method CopyDigest(resp: seq<byte>, out: array<byte>) returns (rc: int)
    requires |resp| == MAX_CMDBUF && Announced(resp) <= MAX_CMDBUF && out[..] == Zeros(out.Length)
    modifies out
    ensures rc == ReadCode(resp[..Announced(resp)], out.Length)
    ensures rc == SUCCESS ==>
      var d := DecodeDigest(resp[..Announced(resp)]).value;
      |d| <= out.Length && out[..] == d + Zeros(out.Length - |d|)
    ensures rc != SUCCESS ==> out[..] == Zeros(out.Length)
  {
    var size := Announced(resp);
    ghost var r := resp[..size];
    if U32(resp[6..10]) != 0 {
      assert size >= 30 ==> r[6..10] == resp[6..10];
      return ERR_RESPONSE;
    }
    if size < 30 || size > 30 + MAX_DIGEST_SIZE {
      return ERR_RESPONSE;
    }
    assert r[6..10] == resp[6..10];
    assert r[28..30] == resp[28..30];
    var n := U16(resp[28..30]);
    if n > MAX_DIGEST_SIZE || n > out.Length {
      return INVALID_PARAM;
    }
    if 30 + n > size {
      return ERR_RESPONSE;
    }
    SliceOfPrefix(resp, size, 30, 30 + n);
    CopyFront(out, resp[30..30 + n]);
    return SUCCESS;
  }

  /** Sends a built read and copies the digest of the response to a zeroed buffer. */
  method ExchangeRead(bus: Bus, chip: Chip, cmd: array<byte>, ghost index: nat, ghost alg: u16, out: array<byte>)
    returns (rc: int)
    requires bus.Valid() && bus.cur == [] && cmd.Length == MAX_CMDBUF && index < 24 && SizeOf(cmd) == 20
    requires cmd[..][..20] == Command(ST_NO_SESSIONS, CMD_PCR_READ, ReadData(index, alg))
    requires out[..] == Zeros(out.Length) && cmd != out
    modifies bus, out
    ensures Appended(bus, old(bus.done), 1)
    ensures ReadOutcome(Watch(bus.done[|old(bus.done)|]), index, alg, out[..], rc)
    ensures !Taken(Watch(bus.done[|old(bus.done)|])) ==> LastFailed(bus, chip, rc)
  {
    ReadRoundTrip(index, alg);
    var resp := new byte[MAX_CMDBUF](_ => 0);
    rc := XferBuilt(bus, chip, cmd, Command(ST_NO_SESSIONS, CMD_PCR_READ, ReadData(index, alg)), resp);
    if rc < 0 {
      return;
    }
    HeldReply(resp[..], Watch(bus.done[|old(bus.done)|]).served);
    rc := CopyDigest(resp[..], out);
  }

  /** Reads one PCR of one bank into `out`. */
  method PcrReadSingle(bus: Bus, chip: Chip, host: Order, index: u32, alg: u16, out: array<byte>)
    returns (rc: int)
    requires bus.Valid() && bus.cur == []
    modifies bus, out
    ensures index >= 24 ==> rc == INVALID_PARAM && bus.Valid() && bus.done == old(bus.done) && out[..] == old(out[..])
    ensures index < 24 ==>
      && Appended(bus, old(bus.done), 1)
      && ReadOutcome(Watch(bus.done[|old(bus.done)|]), index, alg, out[..], rc)
      && (!Taken(Watch(bus.done[|old(bus.done)|])) ==> LastFailed(bus, chip, rc))
  {
    if index >= PCR_SELECT_SIZE * 8 {
      return INVALID_PARAM;
    }
    forall i | 0 <= i < out.Length {
      out[i] := 0;
    }
    assert out[..] == Zeros(out.Length);
    var cmd := BuildRead(host, index, alg);
    rc := ExchangeRead(bus, chip, cmd, index, alg, out);
  }
}
