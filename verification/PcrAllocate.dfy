/** PCR allocation with platform authorization (tpm_pcr_allocate_auth_password in src/tpm2_cmds.c). */
module PcrAllocate {
  import opened Bytes
  import opened Codes
  import opened HostOrder
  import opened DeviceView
  import opened SpiBus
  import opened Fifo
  import opened Exchange
  import opened CommandBuilder
  import opened Payload
  import opened BankWire
  import opened Parser
  import opened Paging
  import opened GetCapability
  import opened AllocateWire
  import opened AllocateFacts

  /** Appends bytes one by one. */
  method AppendBytes(b: Builder, s: seq<byte>)
    requires b.Valid()
    modifies b`error, b`fields, b`taken, b.cmd
    ensures b.Valid() && b.fields == old(b.fields) + ByteFields(s)
  {
    var i := 0;
    while i < |s|
      invariant i <= |s| && b.Valid() && b.fields == old(b.fields) + ByteFields(s[..i])
    {
      Assoc(old(b.fields), ByteFields(s[..i]), [Field(s[i], 1)]);
      var rc := b.Append(s[i], 1);
      assert s[..i + 1][..i] == s[..i];
      i := i + 1;
    }
    assert s[..i] == s;
  }

  method AppendBank(b: Builder, bank: Bank)
    requires b.Valid() && |bank.value| == PCR_SELECT_SIZE
    modifies b`error, b`fields, b`taken, b.cmd
    ensures b.Valid() && b.fields == old(b.fields) + OneBankFields(bank)
  {
    var rc := b.Append(bank.id, 2);
    rc := b.Append(PCR_SELECT_SIZE, 1);
    AppendBytes(b, bank.value);
    Assoc(old(b.fields), [Field(bank.id, 2)], [Field(PCR_SELECT_SIZE, 1)]);
    Assoc(old(b.fields), [Field(bank.id, 2)] + [Field(PCR_SELECT_SIZE, 1)], ByteFields(bank.value));
  }

  method AppendBanks(b: Builder, banks: seq<Bank>)
    requires b.Valid() && FullBanks(banks)
    modifies b`error, b`fields, b`taken, b.cmd
    ensures b.Valid() && b.fields == old(b.fields) + BankFields(banks)
  {
    var i := 0;
    while i < |banks|
      invariant i <= |banks| && b.Valid() && b.fields == old(b.fields) + BankFields(banks[..i])
    {
      Assoc(old(b.fields), BankFields(banks[..i]), OneBankFields(banks[i]));
      AppendBank(b, banks[i]);
      assert banks[..i + 1][..i] == banks[..i];
      i := i + 1;
    }
    assert banks[..i] == banks;
  }

  /** Builds an allocation; it fits exactly when its stated size does. */
  method BuildAllocate(host: Order, password: seq<byte>, banks: seq<Bank>) returns (rc: int, cmd: array<byte>)
    requires |password| < 0x1_0000 && |banks| < 0x1_0000_0000 && FullBanks(banks)
    ensures fresh(cmd) && cmd.Length == MAX_CMDBUF
    ensures rc == if AllocateSize(password, banks) <= MAX_CMDBUF then SUCCESS else INVALID_PARAM
    ensures rc == SUCCESS ==> SizeOf(cmd) == AllocateSize(password, banks)
    ensures rc == SUCCESS ==> cmd[..][..SizeOf(cmd)] == AllocateCommand(password, banks)
  {
    var b := new Builder(host, ST_SESSIONS, CMD_PCR_ALLOCATE);
    AppendAuth(b, |password|);
    AppendBytes(b, password);
    rc := b.Append(|banks|, 4);
    AppendBanks(b, banks);
    assert b.fields == AllocateFields(password, banks);
    AllocateEncodes(password, banks);
    rc := b.Finalize();
    cmd := b.cmd;
    if rc == SUCCESS {
      AllocateImage(password, banks);
    }
  }

  method AppendThree(b: Builder, f: Field, g: Field, h: Field)
    requires b.Valid()
    modifies b`error, b`fields, b`taken, b.cmd
    ensures b.Valid() && b.fields == old(b.fields) + [f, g, h]
  {
    var rc := b.Append(f.value, f.len);
    rc := b.Append(g.value, g.len);
    rc := b.Append(h.value, h.len);
  }

  method AppendAuth(b: Builder, n: u16)
    requires b.Valid() && b.fields == []
    modifies b`error, b`fields, b`taken, b.cmd
    ensures b.Valid() && b.fields == AuthFields(n)
  {
    AppendThree(b, Field(RH_PLATFORM, 4), Field(MIN_AUTH_SIZE + n, 4), Field(RS_PW, 4));
    AppendThree(b, Field(0, 2), Field(0, 1), Field(n, 2));
  }

  /** The result an allocation response reports. */
  datatype Allocation = Allocation(success: bool, maxPcr: u32, sizeNeeded: u32, sizeAvailable: u32)

  /** Reference reading of a session response with the allocation result. */
  function DecodeAllocation(r: seq<byte>): Option<Allocation> {
    if |r| < 27 || U16(r[..2]) != ST_SESSIONS || U32(r[6..10]) != 0 then None
    else Some(Allocation(r[14] != 0, U32(r[15..19]), U32(r[19..23]), U32(r[23..27])))
  }

  method ReadAllocation(resp: array<byte>) returns (rc: int, a: Allocation)
    requires resp.Length == MAX_CMDBUF
    ensures Reported(resp[..], rc, a)
  {
    a := Allocation(false, 0, 0, 0);
    var size := SizeOf(resp);
    ghost var r := resp[..][..if size <= MAX_CMDBUF then size else MAX_CMDBUF];
    if U16(resp[..][..2]) != ST_SESSIONS {
      assert size >= 2 ==> r[..2] == resp[..][..2];
      return ERR_RESPONSE, a;
    }
    if U32(resp[..][6..10]) != 0 {
      assert size >= 10 ==> r[6..10] == resp[..][6..10];
      return ERR_RESPONSE, a;
    }
    if size < HEADER_SIZE + 17 || size > MAX_CMDBUF {
      return ERR_RESPONSE, a;
    }
    assert r[..2] == resp[..][..2] && r[6..10] == resp[..][6..10];
    var src := resp[..][HEADER_SIZE..size];
    assert src[4] == r[14] && src[5..9] == r[15..19] && src[9..13] == r[19..23] && src[13..17] == r[23..27];
    a := ReadResult(src);
    rc := SUCCESS;
  }

  method ReadResult(src: seq<byte>) returns (a: Allocation)
    requires |src| >= 17
    ensures a == Allocation(src[4] != 0, U32(src[5..9]), U32(src[9..13]), U32(src[13..17]))
  {
    var iter := new Iter(src);
    var paramSize := iter.ReadU32(0);
    var ok := iter.ReadU8(0);
    var maxPcr := iter.ReadU32(0);
    var needed := iter.ReadU32(0);
    var available := iter.ReadU32(0);
    assert iter.error == SUCCESS;
    a := Allocation(ok != 0, maxPcr, needed, available);
  }

  method CountBanks(banks: seq<Bank>, ghost t: nat) returns (count: nat)
    requires Terminated(banks, t, MAX_PCR_SELECTIONS)
    ensures count == t
  {
    count := 0;
    while count < MAX_PCR_SELECTIONS
      invariant count <= t
    {
      if banks[count].id == ALG_NULL {
        break;
      }
      count := count + 1;
    }
  }

  /** What one allocation exchange means, whatever the device does: it was given a command that decodes to this password and
      these banks, and the outcome is what its response says, if there is one. */
  ghost predicate Allocated(v: View, password: seq<byte>, banks: seq<Bank>, rc: int, a: Allocation) {
    && (v.accepted.Some? ==> DecodeAllocate(v.accepted.value) == Some((password, banks)))
    && if Taken(v) then
         && v.accepted.Some?
         && match DecodeAllocation(Reply(v.served))
            case Some(d) => rc == SUCCESS && a == d
            case None => rc == ERR_RESPONSE
       else ExchangeCode(rc) && rc != SUCCESS && rc != ERR_RESPONSE
  }


  /** What the response of an exchange makes of an allocation. */
  lemma AllocatedBy(v: View, password: seq<byte>, banks: seq<Bank>, resp: seq<byte>, rc: int, a: Allocation)
    requires FullBanks(banks) && AllocateSize(password, banks) <= MAX_CMDBUF
    requires v.accepted.Some? ==> v.accepted.value == AllocateCommand(password, banks)
    requires !Taken(v) ==> ExchangeCode(rc) && rc != SUCCESS && rc != ERR_RESPONSE
    requires Taken(v) ==> v.accepted.Some? && Holds(resp, v.served) && Reported(resp, rc, a)
    ensures Allocated(v, password, banks, rc, a)
  {
    if v.accepted.Some? {
      AllocateRoundTrip(password, banks);
    }
    if Taken(v) {
      HeldReply(resp, v.served);
    }
  }

  /** The result is what the response in a buffer says; one that is announced to be larger says nothing. */
  ghost predicate Reported(resp: seq<byte>, rc: int, a: Allocation)
    requires |resp| == MAX_CMDBUF
  {
    if Announced(resp) > MAX_CMDBUF then rc == ERR_RESPONSE
    else
      match DecodeAllocation(resp[..Announced(resp)])
      case Some(d) => rc == SUCCESS && a == d
      case None => rc == ERR_RESPONSE
  }

  /** Sends a built allocation and reads the result. */
  method ExchangeAllocate(bus: Bus, chip: Chip, cmd: array<byte>, ghost password: seq<byte>, ghost banks: seq<Bank>)
    returns (rc: int, a: Allocation)
    requires bus.Valid() && bus.cur == [] && cmd.Length == MAX_CMDBUF && FullBanks(banks)
    requires SizeOf(cmd) == AllocateSize(password, banks) <= MAX_CMDBUF
    requires cmd[..][..SizeOf(cmd)] == AllocateCommand(password, banks)
    modifies bus
    ensures Appended(bus, old(bus.done), 1)
    ensures Allocated(Watch(bus.done[|old(bus.done)|]), password, banks, rc, a)
    ensures !Taken(Watch(bus.done[|old(bus.done)|])) ==> LastFailed(bus, chip, rc)
  {
    a := Allocation(false, 0, 0, 0);
    var resp := new byte[MAX_CMDBUF](_ => 0);
    rc := XferBuilt(bus, chip, cmd, AllocateCommand(password, banks), resp);
    if rc == SUCCESS {
      rc, a := ReadAllocation(resp);
    }
    AllocatedBy(Watch(bus.done[|old(bus.done)|]), password, banks, resp[..], rc, a);
  }

  method AllocateAuthPassword(bus: Bus, chip: Chip, host: Order, password: seq<byte>, banks: seq<Bank>, ghost t: nat)
    returns (rc: int, a: Allocation)
    requires bus.Valid() && bus.cur == []
    requires |password| < 0x1_0000 && FullBanks(banks) && Terminated(banks, t, MAX_PCR_SELECTIONS)
    modifies bus
    ensures t == 0 || t == MAX_PCR_SELECTIONS || AllocateSize(password, banks[..t]) > MAX_CMDBUF ==>
      rc == INVALID_PARAM && bus.Valid() && bus.done == old(bus.done)
    ensures 0 < t < MAX_PCR_SELECTIONS && AllocateSize(password, banks[..t]) <= MAX_CMDBUF ==>
      && Appended(bus, old(bus.done), 1)
      && Allocated(Watch(bus.done[|old(bus.done)|]), password, banks[..t], rc, a)
      && (!Taken(Watch(bus.done[|old(bus.done)|])) ==> LastFailed(bus, chip, rc))
  {
    a := Allocation(false, 0, 0, 0);
    var count := CountBanks(banks, t);
    if count == 0 || count >= MAX_PCR_SELECTIONS {
      return INVALID_PARAM, a;
    }
    var cmd;
    rc, cmd := BuildAllocate(host, password, banks[..count]);
    if rc < 0 {
      return;
    }
    rc, a := ExchangeAllocate(bus, chip, cmd, password, banks[..count]);
  }
}
