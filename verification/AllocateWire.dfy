/** The PCR allocation command: what the library appends, and a reference decoder for section 22.5 of TPM 2.0 Library
    Part 3. */
module AllocateWire {
  import opened Bytes
  import opened DeviceView
  import opened CommandBuilder
  import opened Payload
  import opened BankWire

  const ST_SESSIONS: u16 := 0x8002
  const CMD_PCR_ALLOCATE: u32 := 0x012B
  const RH_PLATFORM: u32 := 0x4000_000C
  const RS_PW: u32 := 0x4000_0009
  const MIN_AUTH_SIZE := 9

  function ByteFields(s: seq<byte>): seq<Field> {
    if s == [] then [] else ByteFields(s[..|s| - 1]) + [Field(s[|s| - 1], 1)]
  }

  function OneBankFields(b: Bank): seq<Field>
    requires |b.value| == PCR_SELECT_SIZE
  {
    [Field(b.id, 2)] + [Field(PCR_SELECT_SIZE, 1)] + ByteFields(b.value)
  }

  function BankFields(banks: seq<Bank>): seq<Field>
    requires FullBanks(banks)
  {
    if banks == [] then [] else BankFields(banks[..|banks| - 1]) + OneBankFields(banks[|banks| - 1])
  }

  /** The fixed part of the authorization area, up to the size of the password. */
  function AuthFields(n: u16): seq<Field> {
    [Field(RH_PLATFORM, 4), Field(MIN_AUTH_SIZE + n, 4), Field(RS_PW, 4)] + [Field(0, 2), Field(0, 1), Field(n, 2)]
  }

  /** Everything the library appends for an allocation. */
  function AllocateFields(password: seq<byte>, banks: seq<Bank>): seq<Field>
    requires |password| < 0x1_0000 && |banks| < 0x1_0000_0000 && FullBanks(banks)
  {
    AuthFields(|password|) + ByteFields(password) + [Field(|banks|, 4)] + BankFields(banks)
  }

  /** The authorization area of a password session: handle, empty nonce, no attributes, password. */
  function AuthBytes(password: seq<byte>): (r: seq<byte>)
    requires |password| < 0x1_0000
    ensures |r| == MIN_AUTH_SIZE + |password|
  {
    BE32(RS_PW) + [0, 0, 0] + BE16(|password|) + password
  }

  /** The parameters and handles of an allocation on the wire. */
  function AllocateData(password: seq<byte>, banks: seq<Bank>): (r: seq<byte>)
    requires |password| < 0x1_0000 && |banks| < 0x1_0000_0000 && FullBanks(banks)
    ensures |r| == 21 + |password| + 6 * |banks|
  {
    BE32(RH_PLATFORM) + BE32(MIN_AUTH_SIZE + |password|) + AuthBytes(password) + BE32(|banks|) + BankBytes(banks)
  }

  /** Password of an authorization area with one password session. */
  function DecodeAuth(a: seq<byte>): Option<seq<byte>> {
    if |a| < 6 || U32(a[..4]) != RS_PW then None
    else
      var nonce := U16(a[4..6]);
      if |a| < 6 + nonce + 3 then None
      else
        var at := 6 + nonce + 1;
        var n := U16(a[at..at + 2]);
        if |a| != at + 2 + n then None else Some(a[at + 2..])
  }

  /** Reads an allocation off the wire, using `authorizationSize` to skip the authorization area. */
  function DecodeAllocate(cmd: seq<byte>): Option<(seq<byte>, seq<Bank>)> {
    if |cmd| < 18 || U16(cmd[..2]) != ST_SESSIONS || Announced(cmd) != |cmd| || U32(cmd[6..10]) != CMD_PCR_ALLOCATE
       || U32(cmd[10..14]) != RH_PLATFORM
    then None
    else
      var at := 18 + U32(cmd[14..18]);
      if |cmd| < at + 4 then None
      else
        var password := DecodeAuth(cmd[18..at]);
        var banks := BanksFrom(cmd, at + 4, U32(cmd[at..at + 4]));
        if password.None? || banks.None? then None else Some((password.value, banks.value))
  }

  lemma {:induction false} FieldsConcat(a: seq<Field>, b: seq<Field>)
    ensures Total(a + b) == Total(a) + Total(b)
    ensures EncodeAll(a + b) == EncodeAll(a) + EncodeAll(b)
  {
    if b == [] {
      assert a + b == a;
    } else {
      var last := |b| - 1;
      FieldsConcat(a, b[..last]);
      assert (a + b)[..|a + b| - 1] == a + b[..last];
      Assoc(EncodeAll(a), EncodeAll(b[..last]), Encode(b[last]));
    }
  }
}
