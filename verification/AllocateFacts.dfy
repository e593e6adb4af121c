/** The allocation command can be read back. */
module AllocateFacts {
  import opened Bytes
  import opened DeviceView
  import opened CommandBuilder
  import opened Payload
  import opened BankWire
  import opened AllocateWire

  ghost predicate AllLegal(fs: seq<Field>) {
    forall i :: 0 <= i < |fs| ==> LegalLen(fs[i].len)
  }

  /** The fields are legal and encode to these bytes. */
  ghost predicate Encodes(fs: seq<Field>, bytes: seq<byte>) {
    AllLegal(fs) && EncodeAll(fs) == bytes && Total(fs) == |bytes|
  }

  lemma EncodesConcat(a: seq<Field>, x: seq<byte>, b: seq<Field>, y: seq<byte>)
    requires Encodes(a, x) && Encodes(b, y)
    ensures Encodes(a + b, x + y)
  {
    FieldsConcat(a, b);
  }

  lemma EncodesOne(f: Field)
    requires LegalLen(f.len)
    ensures Encodes([f], Encode(f))
  {
  }

  lemma ByteEncodes(x: byte)
    ensures Encodes([Field(x, 1)], [x])
  {
    EncodesOne(Field(x, 1));
    assert Encode(Field(x, 1)) == [x];
  }

  lemma {:induction false} BytesEncode(s: seq<byte>)
    ensures Encodes(ByteFields(s), s)
  {
    if s != [] {
      var last := |s| - 1;
      BytesEncode(s[..last]);
      ByteEncodes(s[last]);
      EncodesConcat(ByteFields(s[..last]), s[..last], [Field(s[last], 1)], [s[last]]);
      assert s[..last] + [s[last]] == s;
    }
  }

  lemma OneBankEncodes(b: Bank)
    requires |b.value| == PCR_SELECT_SIZE
    ensures Encodes(OneBankFields(b), OneBankBytes(b))
  {
    EncodesOne(Field(b.id, 2));
    EncodesOne(Field(PCR_SELECT_SIZE, 1));
    EncodesConcat([Field(b.id, 2)], BE16(b.id), [Field(PCR_SELECT_SIZE, 1)], [3]);
    BytesEncode(b.value);
    EncodesConcat([Field(b.id, 2)] + [Field(PCR_SELECT_SIZE, 1)], BE16(b.id) + [3], ByteFields(b.value), b.value);
  }

  lemma {:induction false} BankBytesSnoc(banks: seq<Bank>)
    requires FullBanks(banks) && banks != []
    ensures BankBytes(banks) == BankBytes(banks[..|banks| - 1]) + OneBankBytes(banks[|banks| - 1])
  {
    var last := |banks| - 1;
    var front, rest := banks[..last], banks[1..];
    if last > 0 {
      BankBytesSnoc(rest);
      assert rest[..last - 1] == front[1..];
      Assoc(OneBankBytes(banks[0]), BankBytes(front[1..]), OneBankBytes(banks[last]));
      assert BankBytes(front) == OneBankBytes(banks[0]) + BankBytes(front[1..]);
    } else {
      assert front == [] && rest == [];
      assert OneBankBytes(banks[0]) + [] == [] + OneBankBytes(banks[0]);
    }
  }

  lemma {:induction false} BanksEncode(banks: seq<Bank>)
    requires FullBanks(banks)
    ensures Encodes(BankFields(banks), BankBytes(banks))
  {
    if banks != [] {
      var last := |banks| - 1;
      BanksEncode(banks[..last]);
      OneBankEncodes(banks[last]);
      EncodesConcat(BankFields(banks[..last]), BankBytes(banks[..last]),
                    OneBankFields(banks[last]), OneBankBytes(banks[last]));
      BankBytesSnoc(banks);
    }
  }

  lemma EncodesThree(f: Field, g: Field, h: Field)
    requires LegalLen(f.len) && LegalLen(g.len) && LegalLen(h.len)
    ensures Encodes([f, g, h], Encode(f) + Encode(g) + Encode(h))
  {
    EncodesOne(f);
    EncodesOne(g);
    EncodesOne(h);
    EncodesConcat([f], Encode(f), [g], Encode(g));
    EncodesConcat([f] + [g], Encode(f) + Encode(g), [h], Encode(h));
    assert [f] + [g] + [h] == [f, g, h];
  }

  /** The bytes of the fixed authorization fields. */
  function AuthHead(n: u16): seq<byte> {
    (BE32(RH_PLATFORM) + BE32(MIN_AUTH_SIZE + n) + BE32(RS_PW)) + (BE16(0) + [0] + BE16(n))
  }

  lemma AuthEncodes(n: u16)
    ensures Encodes(AuthFields(n), AuthHead(n))
  {
    var f1, f2, f3 := Field(RH_PLATFORM, 4), Field(MIN_AUTH_SIZE + n, 4), Field(RS_PW, 4);
    var f4, f5, f6 := Field(0, 2), Field(0, 1), Field(n, 2);
    EncodesThree(f1, f2, f3);
    EncodesThree(f4, f5, f6);
    var x, y := Encode(f1) + Encode(f2) + Encode(f3), Encode(f4) + Encode(f5) + Encode(f6);
    EncodesConcat([f1, f2, f3], x, [f4, f5, f6], y);
    assert x + y == AuthHead(n) by {
      assert Encode(f1) == BE32(RH_PLATFORM) && Encode(f2) == BE32(MIN_AUTH_SIZE + n) && Encode(f3) == BE32(RS_PW);
      assert Encode(f4) == BE16(0) && Encode(f5) == [0] && Encode(f6) == BE16(n);
    }
  }

  lemma Regroup(h: seq<byte>, z: seq<byte>, r: seq<byte>, n: seq<byte>, p: seq<byte>)
    ensures (h + z + r) + (BE16(0) + [0] + n) + p == h + z + (r + [0, 0, 0] + n + p)
  {
  }

  /** The appends of an allocation encode to its wire form, and fit exactly when 31 bytes, the password and six bytes a
      bank do not exceed the buffer. */
  lemma AllocateEncodes(password: seq<byte>, banks: seq<Bank>)
    requires |password| < 0x1_0000 && |banks| < 0x1_0000_0000 && FullBanks(banks)
    ensures Encodes(AllocateFields(password, banks), AllocateData(password, banks))
    ensures Fits(AllocateFields(password, banks)) <==> 31 + |password| + 6 * |banks| <= MAX_CMDBUF
  {
    var n := |password|;
    AuthEncodes(n);
    BytesEncode(password);
    EncodesConcat(AuthFields(n), AuthHead(n), ByteFields(password), password);
    EncodesOne(Field(|banks|, 4));
    EncodesConcat(AuthFields(n) + ByteFields(password), AuthHead(n) + password, [Field(|banks|, 4)], BE32(|banks|));
    BanksEncode(banks);
    EncodesConcat(AuthFields(n) + ByteFields(password) + [Field(|banks|, 4)], AuthHead(n) + password + BE32(|banks|),
                  BankFields(banks), BankBytes(banks));
    Regroup(BE32(RH_PLATFORM), BE32(MIN_AUTH_SIZE + n), BE32(RS_PW), BE16(n), password);
  }

  lemma AuthDecodes(password: seq<byte>)
    requires |password| < 0x1_0000
    ensures DecodeAuth(AuthBytes(password)) == Some(password)
  {
  }

  /** The size, as the command states it, of an allocation. */
  function AllocateSize(password: seq<byte>, banks: seq<Bank>): nat {
    31 + |password| + 6 * |banks|
  }

  function AllocateCommand(password: seq<byte>, banks: seq<Bank>): (r: seq<byte>)
    requires FullBanks(banks) && AllocateSize(password, banks) <= MAX_CMDBUF
    ensures |r| == AllocateSize(password, banks)
  {
    BE16(ST_SESSIONS) + BE32(AllocateSize(password, banks)) + BE32(CMD_PCR_ALLOCATE) + AllocateData(password, banks)
  }

  /** The start of a command made of a ten-byte header, two words, an area and the rest. */
  lemma CommandParts(t: seq<byte>, n: seq<byte>, c: seq<byte>, h: seq<byte>, z: seq<byte>, a: seq<byte>, k: seq<byte>,
                     b: seq<byte>)
    requires |t| == 2 && |n| == |c| == |h| == |z| == |k| == 4
    ensures var s := t + n + c + (h + z + a + k + b); var at := 18 + |a|;
      && s[..2] == t && s[2..6] == n && s[6..10] == c && s[10..14] == h && s[14..18] == z
      && s[18..at] == a && s[at..at + 4] == k && s == s[..at + 4] + b
  {
  }

  /** Decoding what an allocation puts on the wire gives back its password and its banks. */
  lemma AllocateRoundTrip(password: seq<byte>, banks: seq<Bank>)
    requires FullBanks(banks) && AllocateSize(password, banks) <= MAX_CMDBUF
    ensures DecodeAllocate(AllocateCommand(password, banks)) == Some((password, banks))
  {
    var s := AllocateCommand(password, banks);
    var at := 18 + MIN_AUTH_SIZE + |password|;
    CommandParts(BE16(ST_SESSIONS), BE32(|s|), BE32(CMD_PCR_ALLOCATE), BE32(RH_PLATFORM),
                 BE32(MIN_AUTH_SIZE + |password|), AuthBytes(password), BE32(|banks|), BankBytes(banks));
    BE16RoundTrip(ST_SESSIONS);
    BE32RoundTrip(|s|);
    BE32RoundTrip(CMD_PCR_ALLOCATE);
    BE32RoundTrip(RH_PLATFORM);
    BE32RoundTrip(MIN_AUTH_SIZE + |password|);
    BE32RoundTrip(|banks|);
    AuthDecodes(password);
    assert StandsAt(s, at + 4, BankBytes(banks));
    BanksDecode(s, at + 4, banks);
  }

  /** The builder's image of an allocation starts with its wire form. */
  lemma AllocateImage(password: seq<byte>, banks: seq<Bank>)
    requires FullBanks(banks) && AllocateSize(password, banks) <= MAX_CMDBUF
    ensures var fs := AllocateFields(password, banks); var n := AllocateSize(password, banks);
      && Fits(fs) && Announced(Image(ST_SESSIONS, CMD_PCR_ALLOCATE, fs)) == n
      && Image(ST_SESSIONS, CMD_PCR_ALLOCATE, fs)[..n] == AllocateCommand(password, banks)
  {
    AllocateEncodes(password, banks);
    ImageShape(ST_SESSIONS, CMD_PCR_ALLOCATE, AllocateFields(password, banks));
  }
}
