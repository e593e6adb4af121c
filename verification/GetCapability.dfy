/** One capability request and its response (getcap_raw in src/tpm2_cmds.c). */
module GetCapability {
  import opened Bytes
  import opened Codes
  import opened HostOrder
  import opened DeviceView
  import opened SpiBus
  import opened Fifo
  import opened Exchange
  import opened CommandBuilder
  import opened AllocateFacts
  import opened Paging

  /** Between exchanges, `n` of them having been added to the log `before`. */
  ghost predicate Appended(bus: Bus, before: seq<seq<SpiWire.Access>>, n: nat)
    reads bus
  {
    bus.Valid() && bus.cur == [] && |bus.done| == |before| + n && bus.done[..|before|] == before
  }

  /** What the callers of an exchange use of it, `wire` being the command in its buffer. */
  ghost predicate Exchanged(v: View, wire: seq<byte>, resp: seq<byte>, rc: int) {
    && ExchangeCode(rc) && rc != ERR_RESPONSE && v.written <= wire
    && (v.accepted.Some? ==> v.accepted.value == wire)
    && (rc == SUCCESS <==> Taken(v))
    && (rc == SUCCESS ==> v.accepted.Some? && Holds(resp, v.served))
  }

  lemma ExchangedBuilt(v: View, wire: seq<byte>, cmd: seq<byte>, resp: seq<byte>, before: seq<byte>, rc: int)
    requires |cmd| == |resp| == MAX_CMDBUF && ExchangeOutcome(v, cmd, resp, before, rc)
    requires WellSized(cmd) && cmd[..Announced(cmd)] == wire
    ensures Exchanged(v, wire, resp, rc)
    ensures rc == INVALID_PARAM ==> Oversized(v)
    ensures rc == OUT_OF_BOUNDS ==> Overrun(v)
  {
  }

  /** The exchange of a command whose size field is right. */
  method XferBuilt(bus: Bus, chip: Chip, cmd: array<byte>, ghost wire: seq<byte>, resp: array<byte>) returns (rc: int)
    requires bus.Valid() && bus.cur == [] && cmd != resp && cmd.Length == resp.Length == MAX_CMDBUF
    requires HEADER_SIZE <= SizeOf(cmd) <= MAX_CMDBUF && cmd[..][..SizeOf(cmd)] == wire
    modifies bus, resp
    ensures Appended(bus, old(bus.done), 1)
    ensures Exchanged(Watch(bus.done[|old(bus.done)|]), wire, resp[..], rc)
    ensures rc != SUCCESS ==> LastFailed(bus, chip, rc)
  {
    rc := Xfer(bus, chip, cmd, resp);
    ExchangedBuilt(Watch(bus.done[|old(bus.done)|]), wire, cmd[..], resp[..], old(resp[..]), rc);
  }

  /** The builder's image of a capability request is the request's wire form. */
  lemma GetCapImage(cap: u32, property: u32, count: u32)
    ensures var fs := [Field(cap, 4), Field(property, 4), Field(count, 4)];
      && Fits(fs) && Total(fs) == 12
      && Announced(Image(ST_NO_SESSIONS, CMD_GET_CAPABILITY, fs)) == 22
      && Image(ST_NO_SESSIONS, CMD_GET_CAPABILITY, fs)[..22] == GetCapCommand(cap, property, count)
  {
    GetCapFields(cap, property, count);
    ImageShape(ST_NO_SESSIONS, CMD_GET_CAPABILITY, [Field(cap, 4), Field(property, 4), Field(count, 4)]);
  }

  lemma GetCapFields(cap: u32, property: u32, count: u32)
    ensures var fs := [Field(cap, 4), Field(property, 4), Field(count, 4)];
      Fits(fs) && Total(fs) == 12 && EncodeAll(fs) == BE32(cap) + BE32(property) + BE32(count)
  {
    EncodesThree(Field(cap, 4), Field(property, 4), Field(count, 4));
  }

  /** The device was sent at most this request, and accepted nothing else. */
  ghost predicate Asked(v: View, cap: u32, property: u32, count: u32) {
    var wire := GetCapCommand(cap, property, count);
    v.written <= wire && (v.accepted.Some? ==> v.accepted.value == wire) && (Taken(v) ==> v.accepted.Some?)
  }

  /** What a raw capability request leaves behind. */
  ghost predicate RawOutcome(v: View, cap: u32, property: u32, count: u32, resp: seq<byte>, rc: int, more: bool)
    requires |resp| == MAX_CMDBUF
  {
    && Asked(v, cap, property, count) && ExchangeCode(rc)
    && if Taken(v) then
         && Holds(resp, v.served)
         && rc == (if Succeeded(resp) then SUCCESS else ERR_RESPONSE)
         && (rc == SUCCESS ==> more == (resp[HEADER_SIZE] != 0))
       else rc != SUCCESS && rc != ERR_RESPONSE
  }

  method BuildGetCap(host: Order, cap: u32, property: u32, count: u32) returns (cmd: array<byte>)
    ensures fresh(cmd) && cmd.Length == MAX_CMDBUF
    ensures SizeOf(cmd) == 22 && cmd[..22] == GetCapCommand(cap, property, count)
  {
    var b := new Builder(host, ST_NO_SESSIONS, CMD_GET_CAPABILITY);
    var rc := b.Append(cap, 4);
    rc := b.Append(property, 4);
    rc := b.Append(count, 4);
    assert b.fields == [Field(cap, 4), Field(property, 4), Field(count, 4)];
    GetCapImage(cap, property, count);
    rc := b.Finalize();
    assert rc == SUCCESS;
    cmd := b.cmd;
    assert cmd[..22] == cmd[..][..22];
  }

  method CheckHeader(resp: array<byte>) returns (rc: int, more: bool)
    requires resp.Length == MAX_CMDBUF
    ensures rc == if Succeeded(resp[..]) then SUCCESS else ERR_RESPONSE
    ensures rc == SUCCESS ==> more == (resp[HEADER_SIZE] != 0)
  {
    more := false;
    assert resp[..2] == resp[..][..2] && resp[6..10] == resp[..][6..10];
    if U16(resp[..2]) != ST_NO_SESSIONS {
      return ERR_RESPONSE, more;
    }
    if U32(resp[6..10]) != 0 {
      return ERR_RESPONSE, more;
    }
    var size := SizeOf(resp);
    if size < HEADER_SIZE + 1 || size > MAX_CMDBUF {
      return ERR_RESPONSE, more;
    }
    return SUCCESS, resp[HEADER_SIZE] != 0;
  }

  method GetcapRaw(bus: Bus, chip: Chip, host: Order, cap: u32, property: u32, count: u32, resp: array<byte>)
    returns (rc: int, more: bool)
    requires bus.Valid() && bus.cur == [] && resp.Length == MAX_CMDBUF
    modifies bus, resp
    ensures Appended(bus, old(bus.done), 1)
    ensures RawOutcome(Watch(bus.done[|old(bus.done)|]), cap, property, count, resp[..], rc, more)
    ensures !Taken(Watch(bus.done[|old(bus.done)|])) ==> LastFailed(bus, chip, rc)
  {
    more := false;
    forall i | 0 <= i < resp.Length {
      resp[i] := 0;
    }
    var cmd := BuildGetCap(host, cap, property, count);
    assert cmd[..][..22] == cmd[..22];
    rc := XferBuilt(bus, chip, cmd, GetCapCommand(cap, property, count), resp);
    if rc < 0 {
      return;
    }
    rc, more := CheckHeader(resp);
  }
}
