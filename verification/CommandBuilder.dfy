/** The command builder (tpm_cmd_init, tpm_update_buffer, tpm_builder_finalize in src/tpm2_cmds.c). */
module CommandBuilder {
  import opened Bytes
  import opened Codes
  import opened HostOrder
  import opened DeviceView

  const MAX_CMD_DATA := MAX_CMDBUF - HEADER_SIZE

  /** An append request: a value and the number of bytes it is asked to take. */
  datatype Field = Field(value: u32, len: nat)

  predicate LegalLen(len: nat) {
    len == 1 || len == 2 || len == 4
  }

  function Encode(f: Field): seq<byte>
  {
    if f.len == 1 then [f.value % 0x100]
    else if f.len == 2 then BE16(f.value % 0x1_0000)
    else if f.len == 4 then BE32(f.value)
    else []
  }

  function Total(fs: seq<Field>): nat {
    if fs == [] then 0 else Total(fs[..|fs| - 1]) + fs[|fs| - 1].len
  }

  /** The big-endian encodings one after the other. */
  function EncodeAll(fs: seq<Field>): seq<byte> {
    if fs == [] then [] else EncodeAll(fs[..|fs| - 1]) + Encode(fs[|fs| - 1])
  }

  /** All requests are legal and together fit the data area. */
  predicate Fits(fs: seq<Field>) {
    (forall i :: 0 <= i < |fs| ==> LegalLen(fs[i].len)) && Total(fs) <= MAX_CMD_DATA
  }

  lemma {:induction false} TotalPrefix(fs: seq<Field>, k: nat)
    requires k <= |fs|
    ensures Total(fs[..k]) <= Total(fs)
  {
    if k < |fs| {
      TotalPrefix(fs[..|fs| - 1], k);
      assert fs[..|fs| - 1][..k] == fs[..k];
    } else {
      assert fs[..k] == fs;
    }
  }

  lemma FitsPrefix(fs: seq<Field>, k: nat)
    requires k <= |fs| && Fits(fs)
    ensures Fits(fs[..k])
  {
    TotalPrefix(fs, k);
  }

  lemma Extend(fs: seq<Field>, f: Field)
    ensures Total(fs + [f]) == Total(fs) + f.len
    ensures EncodeAll(fs + [f]) == EncodeAll(fs) + Encode(f)
    ensures Fits(fs + [f]) <==> Fits(fs) && LegalLen(f.len) && Total(fs) + f.len <= MAX_CMD_DATA
  {
    var all := fs + [f];
    assert all[..|fs|] == fs && all[|fs|] == f;
    if Fits(all) {
      FitsPrefix(all, |fs|);
    }
  }

  lemma {:induction false} EncodedLength(fs: seq<Field>)
    requires forall i :: 0 <= i < |fs| ==> LegalLen(fs[i].len)
    ensures |EncodeAll(fs)| == Total(fs)
  {
    if fs != [] {
      EncodedLength(fs[..|fs| - 1]);
    }
  }

  /** `k` requests go in: those before the first that makes the total too large or has an illegal length. */
  ghost predicate Accepts(fs: seq<Field>, k: nat) {
    k <= |fs| && Fits(fs[..k]) && (k < |fs| ==> !Fits(fs[..k + 1]))
  }

  lemma AcceptsUnique(fs: seq<Field>, j: nat, k: nat)
    requires Accepts(fs, j) && Accepts(fs, k)
    ensures j == k
  {
    if j < k {
      assert fs[..k][..j + 1] == fs[..j + 1];
      FitsPrefix(fs[..k], j + 1);
    } else if k < j {
      assert fs[..j][..k + 1] == fs[..k + 1];
      FitsPrefix(fs[..j], k + 1);
    }
  }

  /** The command buffer after the requests `fs` were accepted. It does not depend on the host. */
  function Image(tag: u16, code: u32, fs: seq<Field>): (s: seq<byte>)
    requires Fits(fs)
    ensures |s| == MAX_CMDBUF
  {
    EncodedLength(fs);
    Assemble(BE16(tag), BE32(HEADER_SIZE + Total(fs)), BE32(code), EncodeAll(fs))
  }

  /** Tag, size, code and data, padded with zeros to the size of the buffer. */
  function Assemble(t: seq<byte>, n: seq<byte>, c: seq<byte>, d: seq<byte>): (s: seq<byte>)
    requires |t| == 2 && |n| == |c| == 4 && |d| <= MAX_CMD_DATA
    ensures |s| == MAX_CMDBUF
  {
    t + n + c + d + Zeros(MAX_CMD_DATA - |d|)
  }

  lemma Parts(t: seq<byte>, n: seq<byte>, c: seq<byte>, d: seq<byte>)
    requires |t| == 2 && |n| == |c| == 4 && |d| <= MAX_CMD_DATA
    ensures var s := Assemble(t, n, c, d); var k := HEADER_SIZE + |d|;
      && s[..2] == t && s[2..6] == n && s[6..10] == c && s[10..k] == d
      && s[k..] == Zeros(MAX_CMDBUF - k) && s[..k] == t + n + c + d
  {
  }

  lemma ImageShape(tag: u16, code: u32, fs: seq<Field>)
    requires Fits(fs)
    ensures var s := Image(tag, code, fs); var n := HEADER_SIZE + Total(fs);
      && s[..2] == BE16(tag) && s[2..6] == BE32(n) && s[6..10] == BE32(code)
      && s[10..n] == EncodeAll(fs) && s[n..] == Zeros(MAX_CMDBUF - n)
      && Announced(s) == n
      && s[..n] == BE16(tag) + BE32(n) + BE32(code) + EncodeAll(fs)
  {
    EncodedLength(fs);
    var n := HEADER_SIZE + Total(fs);
    BE32RoundTrip(n);
    Parts(BE16(tag), BE32(n), BE32(code), EncodeAll(fs));
  }

  function Splice(s: seq<byte>, at: nat, bytes: seq<byte>): (r: seq<byte>)
    requires at + |bytes| <= |s|
    ensures |r| == |s|
  {
    s[..at] + bytes + s[at + |bytes|..]
  }

  lemma SpliceFresh(t: seq<byte>, n: seq<byte>, c: seq<byte>)
    requires |t| == 2 && |n| == |c| == 4
    ensures Splice(Splice(Splice(Zeros(MAX_CMDBUF), 0, t), 2, n), 6, c) == Assemble(t, n, c, [])
  {
    var s1 := Splice(Zeros(MAX_CMDBUF), 0, t);
    assert s1 == t + Zeros(MAX_CMDBUF - 2);
    var s2 := Splice(s1, 2, n);
    assert s2 == t + n + Zeros(MAX_CMDBUF - 6);
  }

  lemma AssembleGrows(t: seq<byte>, n: seq<byte>, c: seq<byte>, d: seq<byte>, e: seq<byte>, n': seq<byte>)
    requires |t| == 2 && |n| == |n'| == |c| == 4 && |d| + |e| <= MAX_CMD_DATA
    ensures Splice(Splice(Assemble(t, n, c, d), HEADER_SIZE + |d|, e), 2, n') == Assemble(t, n', c, d + e)
  {
  }

  /** Writing the new bytes and then the new size turns one image into the next. */
  lemma ImageGrows(tag: u16, code: u32, fs: seq<Field>, f: Field)
    requires Fits(fs) && LegalLen(f.len) && Total(fs) + f.len <= MAX_CMD_DATA
    ensures Fits(fs + [f]) && |Encode(f)| == f.len
    ensures var n := HEADER_SIZE + Total(fs);
      Splice(Splice(Image(tag, code, fs), n, Encode(f)), 2, BE32(n + f.len)) == Image(tag, code, fs + [f])
  {
    Extend(fs, f);
    EncodedLength(fs);
    AssembleGrows(BE16(tag), BE32(HEADER_SIZE + Total(fs)), BE32(code), EncodeAll(fs), Encode(f),
                  BE32(HEADER_SIZE + Total(fs + [f])));
  }

  class Builder {
    const host: Order
    const cmd: array<byte>
    var error: int
    ghost const tag: u16
    ghost const code: u32
    ghost var fields: seq<Field>   // every append asked for so far
    ghost var taken: nat           // how many of them are in the buffer

    ghost predicate Valid()
      reads this, cmd
    {
      && cmd.Length == MAX_CMDBUF
      && Accepts(fields, taken)
      && cmd[..] == Image(tag, code, fields[..taken])
      && error == (if taken == |fields| then SUCCESS else INVALID_PARAM)
    }

    constructor (host: Order, tag: u16, code: u32)
      ensures Valid() && fresh(cmd) && fields == [] && this.tag == tag && this.code == code && this.host == host
    {
      this.host, this.tag, this.code := host, tag, code;
      error, fields, taken := SUCCESS, [], 0;
      cmd := new byte[MAX_CMDBUF](_ => 0);
      new;
      ghost var cmd0 := cmd[..];
      StoreHtobe16(host, tag);
      StoreHtobe32(host, HEADER_SIZE);
      StoreHtobe32(host, code);
      Put(0, Store16(host, Htobe16(host, tag)));
      Put(2, Store32(host, Htobe32(host, HEADER_SIZE)));
      Put(6, Store32(host, Htobe32(host, code)));
      assert cmd0 == Zeros(MAX_CMDBUF);
      SpliceFresh(BE16(tag), BE32(HEADER_SIZE), BE32(code));
    }

    /** Copies bytes into the buffer. */
    method Put(at: nat, bytes: seq<byte>)
      requires at + |bytes| <= cmd.Length
      modifies cmd
      ensures cmd[..] == Splice(old(cmd[..]), at, bytes)
    {
      var i := 0;
      while i < |bytes|
        invariant i <= |bytes|
        invariant forall k :: 0 <= k < cmd.Length ==>
          cmd[k] == if at <= k < at + i then bytes[k - at] else old(cmd[k])
      {
        cmd[at + i] := bytes[i];
        i := i + 1;
      }
    }

    /** The bytes of a field as the host lays them out. */
    method HostBytes(value: u32, len: nat) returns (bytes: seq<byte>)
      requires LegalLen(len)
      ensures bytes == Encode(Field(value, len)) && |bytes| == len
    {
      if len == 1 {
        bytes := [value % 0x100];
      } else if len == 2 {
        StoreHtobe16(host, value % 0x1_0000);
        bytes := Store16(host, Htobe16(host, value % 0x1_0000));
      } else {
        StoreHtobe32(host, value);
        bytes := Store32(host, Htobe32(host, value));
      }
    }

    /** The size field as the host reads it. */
    method CurrentSize(ghost fs: seq<Field>) returns (size: u32)
      requires cmd.Length == MAX_CMDBUF && Fits(fs) && cmd[..] == Image(tag, code, fs)
      ensures size == HEADER_SIZE + Total(fs)
    {
      ImageShape(tag, code, fs);
      assert cmd[2..6] == cmd[..][2..6];
      BE32RoundTrip(HEADER_SIZE + Total(fs));
      BetohLoad32(host, cmd[2..6]);
      size := Betoh32(host, Load32(host, cmd[2..6]));
    }

    /** Writes a field after the last one and updates the size. */
    method Store(size: u32, value: u32, len: nat, ghost fs: seq<Field>)
      requires cmd.Length == MAX_CMDBUF && Fits(fs) && cmd[..] == Image(tag, code, fs)
      requires size == HEADER_SIZE + Total(fs) && LegalLen(len) && size + len <= MAX_CMDBUF
      modifies cmd
      ensures Fits(fs + [Field(value, len)]) && cmd[..] == Image(tag, code, fs + [Field(value, len)])
    {
      ImageGrows(tag, code, fs, Field(value, len));
      var bytes := HostBytes(value, len);
      Put(size, bytes);
      StoreHtobe32(host, size + len);
      Put(2, Store32(host, Htobe32(host, size + len)));
    }

    /** Appends a field, or leaves the buffer alone for good once one append has failed. */
    method Append(value: u32, len: nat) returns (rc: int)
      requires Valid()
      modifies this`error, this`fields, this`taken, cmd
      ensures Valid() && fields == old(fields) + [Field(value, len)]
      ensures rc == error == if Fits(fields) then SUCCESS else INVALID_PARAM
      ensures rc != SUCCESS ==> cmd[..] == old(cmd[..])
    {
      Grow(Field(value, len));
      if error != SUCCESS {
        return error;
      }
      assert old(fields)[..taken] == old(fields);
      var size := CurrentSize(old(fields));
      if size + len > MAX_CMDBUF {
        error := INVALID_PARAM;
        return error;
      }
      if len != 1 && len != 2 && len != 4 {
        error := INVALID_PARAM;
        return error;
      }
      Store(size, value, len, old(fields));
      taken := taken + 1;
      assert fields[..taken] == fields;
      return SUCCESS;
    }

    /** Ghost bookkeeping: one more request, which goes in only if everything so far fits. */
    ghost method Grow(f: Field)
      requires Accepts(fields, taken)
      modifies this`fields
      ensures fields == old(fields) + [f] && fields[..taken] == old(fields[..taken])
      ensures Total(fields) == Total(old(fields)) + f.len
      ensures EncodeAll(fields) == EncodeAll(old(fields)) + Encode(f)
      ensures Fits(fields) <==> taken == |old(fields)| && LegalLen(f.len) && Total(fields) <= MAX_CMD_DATA
      ensures !Fits(fields) ==> Accepts(fields, taken)
      ensures Fits(fields) ==> Accepts(fields, taken + 1)
    {
      Extend(fields, f);
      var all := fields + [f];
      assert all[..taken] == fields[..taken];
      if taken < |fields| {
        assert all[..taken + 1] == fields[..taken + 1];
        if Fits(all) {
          FitsPrefix(all, taken + 1);
        }
      } else {
        assert fields[..taken] == fields && all[..taken + 1] == all;
      }
      fields := all;
    }

    /** Succeeds exactly when every length was legal and the total fits. */
    method Finalize() returns (rc: int)
      requires Valid()
      ensures rc == if Fits(fields) then SUCCESS else INVALID_PARAM
      ensures rc == SUCCESS ==> cmd[..] == Image(tag, code, fields)
    {
      if taken == |fields| {
        assert fields[..taken] == fields;
      } else if Fits(fields) {
        FitsPrefix(fields, taken + 1);
        assert false;
      }
      rc := error;
    }
  }

  /** Two builders that were asked for the same fields hold the same bytes and the same error, whatever their hosts. */
  lemma HostsAgree(a: Builder, b: Builder)
    requires a.Valid() && b.Valid() && a.tag == b.tag && a.code == b.code && a.fields == b.fields
    ensures a.cmd[..] == b.cmd[..] && a.error == b.error
  {
    AcceptsUnique(a.fields, a.taken, b.taken);
  }

  /** What any sequence of appends leaves in the buffer. */
  lemma BuilderContents(b: Builder)
    requires b.Valid()
    ensures var n := Announced(b.cmd[..]);
      && HEADER_SIZE <= n <= MAX_CMDBUF
      && b.taken <= |b.fields|
      && b.cmd[..][HEADER_SIZE..n] == EncodeAll(b.fields[..b.taken])
      && b.cmd[..][n..] == Zeros(MAX_CMDBUF - n)
    ensures b.error == SUCCESS <==> Fits(b.fields)
  {
    ImageShape(b.tag, b.code, b.fields[..b.taken]);
    if b.taken == |b.fields| {
      assert b.fields[..b.taken] == b.fields;
    } else if Fits(b.fields) {
      FitsPrefix(b.fields, b.taken + 1);
      assert false;
    }
  }
}
