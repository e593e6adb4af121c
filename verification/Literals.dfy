/** The bytes of every command and the address and bits of every register access, written out. */
module Literals {
  import opened Bytes
  import opened Codes
  import opened SpiWire
  import opened DeviceView
  import opened DeviceFacts
  import opened Faults
  import opened Fifo
  import opened Payload
  import opened BankWire
  import opened Parser
  import opened Paging
  import opened AllocateFacts
  import opened PcrCommands

  /** The 32-bit constants of the commands, byte by byte. */
  lemma Words()
    ensures BE16(0x8001) == [0x80, 0x01] && BE16(0x8002) == [0x80, 0x02]
    ensures BE32(0x017A) == [0, 0, 0x01, 0x7A] && BE32(0x017E) == [0, 0, 0x01, 0x7E]
    ensures BE32(0x0182) == [0, 0, 0x01, 0x82] && BE32(0x012B) == [0, 0, 0x01, 0x2B]
    ensures BE32(0x4000_0009) == [0x40, 0, 0, 0x09] && BE32(0x4000_000C) == [0x40, 0, 0, 0x0C]
    ensures BE32(1) == [0, 0, 0, 1] && BE32(9) == [0, 0, 0, 9] && BE32(16) == [0, 0, 0, 16] && BE32(20) == [0, 0, 0, 20]
    ensures BE32(22) == [0, 0, 0, 22] && BE32(0) == [0, 0, 0, 0] && BE32(5) == [0, 0, 0, 5]
  {
  }

  /** A request for a page of algorithms or of PCR banks. */
  lemma PageBytes(property: u32)
    ensures GetCapCommand(CAP_ALGS, property, PAGE_COUNT) ==
      [0x80, 0x01, 0, 0, 0, 22, 0, 0, 0x01, 0x7A, 0, 0, 0, 0] + BE32(property) + [0, 0, 0, 16]
    ensures GetCapCommand(CAP_PCRS, property, PAGE_COUNT) ==
      [0x80, 0x01, 0, 0, 0, 22, 0, 0, 0x01, 0x7A, 0, 0, 0, 5] + BE32(property) + [0, 0, 0, 16]
  {
    Words();
  }

  lemma ReadBytes(index: nat, alg: u16)
    requires index < 24
    ensures Command(ST_NO_SESSIONS, CMD_PCR_READ, PcrCommands.ReadData(index, alg)) ==
      [0x80, 0x01, 0, 0, 0, 20, 0, 0, 0x01, 0x7E, 0, 0, 0, 1] + BE16(alg) + [3] + Select(index)
  {
    Words();
  }

  lemma ExtendBytes(index: u32, alg: u16, digest: seq<byte>)
    requires 33 + |digest| <= MAX_CMDBUF
    ensures ExtendCommand(index, alg, digest) ==
      [0x80, 0x02] + BE32(33 + |digest|) + [0, 0, 0x01, 0x82] + BE32(index)
      + [0, 0, 0, 9, 0x40, 0, 0, 0x09, 0, 0, 0, 0, 0, 0, 0, 0, 1] + BE16(alg) + digest
  {
    Words();
  }

  lemma AllocateBytes(password: seq<byte>, banks: seq<Bank>)
    requires FullBanks(banks) && AllocateSize(password, banks) <= MAX_CMDBUF
    ensures AllocateCommand(password, banks) ==
      [0x80, 0x02] + BE32(31 + |password| + 6 * |banks|) + [0, 0, 0x01, 0x2B, 0x40, 0, 0, 0x0C] + BE32(9 + |password|)
      + [0x40, 0, 0, 0x09, 0, 0, 0] + BE16(|password|) + password + BE32(|banks|) + BankBytes(banks)
  {
    Words();
    Joined(BE32(31 + |password| + 6 * |banks|), BE32(9 + |password|), BE16(|password|), password, BE32(|banks|),
           BankBytes(banks));
  }

  lemma Joined(n: seq<byte>, z: seq<byte>, l: seq<byte>, w: seq<byte>, k: seq<byte>, b: seq<byte>)
    ensures
      [0x80, 0x02] + n + [0, 0, 0x01, 0x2B] + ([0x40, 0, 0, 0x0C] + z + ([0x40, 0, 0, 0x09] + [0, 0, 0] + l + w) + k + b)
      == [0x80, 0x02] + n + [0, 0, 0x01, 0x2B, 0x40, 0, 0, 0x0C] + z + [0x40, 0, 0, 0x09, 0, 0, 0] + l + w + k + b
  {
  }

  /** The header of a bus transfer, and the bit that ends its wait state. */
  lemma HeaderBytes(write: bool, len: nat, reg: u16, d: seq<byte>)
    requires 1 <= len <= 64
    ensures EncodeHeader(Header(write, len, reg)) ==
      [if write then len - 1 else 0x80 + len - 1, 0xD4, reg / 0x100, reg % 0x100]
    ensures WaitOver(Buf(d)) <==> d != [] && d[|d| - 1] % 2 == 1
  {
  }

  /** The sizes and limits of the library, and the id that ends a list. */
  lemma Limits()
    ensures ENCODE_LIMIT == 64 && RETRY_COUNT == 50 && MAX_CMDBUF == 256 && HEADER_SIZE == 10
    ensures PAGE_COUNT == 16 && MAX_PAGES == 64 && MAX_ALG_PROPERTIES == 64 && MAX_PCR_SELECTIONS == 8
    ensures PCR_SELECT_SIZE == 3 && MAX_DIGEST_SIZE == 48 && ALG_NULL == 0x0010
    ensures [SUCCESS, ERR_RESPONSE, INVALID_PARAM, ERR_TIMEOUT, ERR_TRANSFER, ERR_ITERATION_LIMIT] ==
      [0, -1, -2, -3, -4, -5]
  {
  }

  /** The registers of a locality. */
  lemma Registers(locality: byte)
    ensures var base := 0x1000 * (locality % 16);
      && Addr(locality, REG_ACCESS) == base
      && Addr(locality, REG_STATUS) == base + 0x18
      && Addr(locality, REG_BURST_LO) == base + 0x19
      && Addr(locality, REG_BURST_HI) == base + 0x20
      && Addr(locality, REG_DATA_FIFO) == base + 0x24
  {
  }

  /** What the accesses to them mean: GO and its status, COMMAND_READY as asked for and shown, VALID with EXPECT, and how a
      locality is asked for and shown. */
  lemma AccessBits(a: Access)
    ensures IsGo(a) <==> a.write && a.reg % 0x1000 == 0x18 && a.val == [0x20]
    ensures AsksReady([a], 0) <==> a.write && a.reg % 0x1000 == 0x18 && a.val == [0x40] && a.rc == 0
    ensures ReadyStatus(a) <==>
      !a.write && a.reg % 0x1000 == 0x18 && a.rc == 0 && |a.val| == 1 && Bit(a.val[0], 0x80) && !Bit(a.val[0], 0x08)
    ensures ShowsReady(a) <==> !a.write && a.reg % 0x1000 == 0x18 && a.rc == 0 && |a.val| == 1 && Bit(a.val[0], 0x40)
    ensures Expects([a]) <==>
      !a.write && a.reg % 0x1000 == 0x18 && a.rc == 0 && |a.val| == 1 && Bit(a.val[0], 0x80) && Bit(a.val[0], 0x08)
  {
  }

  /** A locality is granted by this request and an ACCESS register that shows bit 5. */
  lemma GrantBits(log: seq<Access>, locality: byte)
    ensures Fifo.Granted(log, locality) <==>
      && |log| >= 2 && log[0] == Access(true, 0x1000 * (locality % 16), [0x02], 0)
      && var a := log[|log| - 1];
      && !a.write && a.reg == 0x1000 * (locality % 16) && a.rc == 0 && |a.val| == 1 && AllSet(a.val[0], 0x20)
  {
  }
}
