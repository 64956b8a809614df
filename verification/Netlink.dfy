/** Finding the default route in a netlink dump: a walk over length-type-value attributes that are
    padded to four bytes. Multi-byte fields are little-endian. */
module Netlink {
  import opened Options

  type Byte = b: nat | b < 256

  const NLMSGHDR_SIZEOF: nat := 16
  const RTMSG_SIZEOF: nat := 12
  const RTATTR_SIZEOF: nat := 4

  const AF_INET: nat := 2
  const AF_INET6: nat := 10
  const RT_TABLE_MAIN: nat := 254
  const RTA_OIF: nat := 4
  const RTA_GATEWAY: nat := 5
  const RTA_MAX: nat := 31

  /** nlmsgAlign: the next multiple of four. */
  function Align(n: nat): (r: nat)
    ensures n <= r < n + 4 && r % 4 == 0
  {
    (n + 3) / 4 * 4
  }

  /** Clearing the two lowest bits, as the source does, rounds down to a multiple of four. */
  lemma MaskRoundsDown(x: bv64)
    ensures x & !(3 as bv64) == x / 4 * 4
  {
  }

  function U16(lo: Byte, hi: Byte): nat {
    lo + 256 * hi
  }

  function I32(b: seq<Byte>): int
    requires |b| == 4
  {
    var u: int := b[0] as int + 256 * b[1] as int + 65536 * b[2] as int + 16777216 * b[3] as int;
    if u < 0x8000_0000 then u else u - 0x1_0000_0000
  }

  /** Info: Gateway nil is None, no interface is index 0 and an empty name. */
  datatype Info = Info(gateway: Option<seq<Byte>>, ifIndex: int, ifName: string)

  const Cleared := Info(None, 0, "")

  predicate ValidInfo(info: Info) {
    info.gateway.Some? && info.ifIndex > 0 && info.ifName != ""
  }

  /** What net.InterfaceByIndex knows: a device's index and name. */
  type Devices = int -> Option<(int, string)>

  /** OutOfBounds stands for a read past the end of the message. */
  datatype Outcome<T> = Ok(value: T) | Error | OutOfBounds

  // ---------------------------------------------------------------- the walk on bytes

  /** What one attribute does to the info, once its type and data are known. */
  function Absorb(devices: Devices, info: Info, typ: nat, data: seq<Byte>): Outcome<Info> {
    if typ >= RTA_MAX then Error
    else if typ == RTA_OIF then
      if |data| != 4 then Error
      else
        var dev := devices(I32(data));
        if dev.None? then Error else Ok(info.(ifIndex := dev.value.0, ifName := dev.value.1))
    else if typ == RTA_GATEWAY then
      if |data| == 4 || |data| == 16 then Ok(info.(gateway := Some(data))) else Error
    else Ok(info)
  }

  /** Only the data of these attributes is read. */
  predicate ReadsData(typ: nat, len: nat) {
    (typ == RTA_OIF && len == 4) || (typ == RTA_GATEWAY && (len == 4 || len == 16))
  }

  /** One round of the walk at the cursor: the info and the length to advance by. */
  function WalkOne(devices: Devices, bs: seq<Byte>, cursor: nat, info: Info): (r: Outcome<(Info, nat)>)
    ensures r.Ok? ==> r.value.1 >= 4
  {
    if cursor + 2 > |bs| then OutOfBounds
    else
      var len := U16(bs[cursor], bs[cursor + 1]);
      if len < RTATTR_SIZEOF then Error
      else if cursor + RTATTR_SIZEOF > |bs| then OutOfBounds
      else
        var typ, dataLen := U16(bs[cursor + 2], bs[cursor + 3]), len - RTATTR_SIZEOF;
        if typ >= RTA_MAX then Error
        else if !ReadsData(typ, dataLen) then
          if typ == RTA_OIF || typ == RTA_GATEWAY then Error else Ok((info, Align(len)))
        else if cursor + len > |bs| then OutOfBounds
        else
          match Absorb(devices, info, typ, bs[cursor + RTATTR_SIZEOF..cursor + len])
          case Ok(next) => Ok((next, Align(len)))
          case Error => Error
          case OutOfBounds => OutOfBounds
  }

  /** The walk from the cursor on; bs is the message after its route header. */
  function WalkFrom(devices: Devices, bs: seq<Byte>, cursor: nat, info: Info): Outcome<Info>
    decreases |bs| - cursor
  {
    if cursor >= |bs| then if cursor == |bs| then Ok(info) else Error
    else
      match WalkOne(devices, bs, cursor, info)
      case Ok((next, step)) => WalkFrom(devices, bs, cursor + step, next)
      case Error => Error
      case OutOfBounds => OutOfBounds
  }

  method Walk(devices: Devices, bs: seq<Byte>, start: Info) returns (r: Outcome<Info>)
    ensures r == WalkFrom(devices, bs, 0, start)
  {
    var info, cursor := start, 0;
    while cursor < |bs|
      invariant WalkFrom(devices, bs, cursor, info) == WalkFrom(devices, bs, 0, start)
    {
      var one := WalkOne(devices, bs, cursor, info);
      WalkNext(devices, bs, cursor, info, one);
      if one.Error? {
        return Error;
      } else if one.OutOfBounds? {
        return OutOfBounds;
      }
      info, cursor := one.value.0, cursor + one.value.1;
    }
    if cursor != |bs| {
      return Error;
    }
    return Ok(info);
  }

  lemma WalkNext(devices: Devices, bs: seq<Byte>, cursor: nat, info: Info, one: Outcome<(Info, nat)>)
    requires cursor < |bs| && one == WalkOne(devices, bs, cursor, info)
    ensures one.Error? ==> WalkFrom(devices, bs, cursor, info) == Error
    ensures one.OutOfBounds? ==> WalkFrom(devices, bs, cursor, info) == OutOfBounds
    ensures one.Ok? ==> WalkFrom(devices, bs, cursor, info) == WalkFrom(devices, bs, cursor + one.value.1, one.value.0)
  {
  }

  /** A message as the netlink library returns it. */
  datatype Message = Message(length: nat, data: seq<Byte>)

  /** The route header is of a family and table that qualify; its first bytes must be there. */
  function Qualifies(data: seq<Byte>): Outcome<bool> {
    if |data| < 1 then OutOfBounds
    else if data[0] != AF_INET && data[0] != AF_INET6 then Ok(false)
    else if |data| < 5 then OutOfBounds
    else Ok(data[4] == RT_TABLE_MAIN)
  }

  /** The info of one message, None if it does not qualify. */
  function Entry(devices: Devices, m: Message): Outcome<Option<Info>> {
    if m.length != NLMSGHDR_SIZEOF + |m.data| then Error
    else
      match Qualifies(m.data)
      case Error => Error
      case OutOfBounds => OutOfBounds
      case Ok(false) => Ok(None)
      case Ok(true) =>
        if |m.data| < RTMSG_SIZEOF then Error
        else
          match WalkFrom(devices, m.data[RTMSG_SIZEOF..], 0, Cleared)
          case Ok(info) => Ok(Some(info))
          case Error => Error
          case OutOfBounds => OutOfBounds
  }

  /** The first message with a complete info; None is ErrDefaultRouteNotFound. */
  function RouteFrom(devices: Devices, ms: seq<Message>): Outcome<Option<Info>> {
    if ms == [] then Ok(None)
    else
      match Entry(devices, ms[0])
      case Error => Error
      case OutOfBounds => OutOfBounds
      case Ok(entry) =>
        if entry.Some? && ValidInfo(entry.value) then Ok(entry) else RouteFrom(devices, ms[1..])
  }

  /** The loop over the messages, with the one info struct that it reuses. */
  method GetDefaultRoute(devices: Devices, ms: seq<Message>) returns (r: Outcome<Option<Info>>)
    ensures r == RouteFrom(devices, ms)
  {
    var info := Cleared;
    for i := 0 to |ms|
      invariant RouteFrom(devices, ms[i..]) == RouteFrom(devices, ms)
    {
      var msg := ms[i];
      assert ms[i..][0] == msg && ms[i..][1..] == ms[i + 1..];
      if msg.length != NLMSGHDR_SIZEOF + |msg.data| {
        return Error;
      }
      var ok := Qualifies(msg.data);
      if ok.OutOfBounds? {
        return OutOfBounds;
      }
      if !ok.value {
        continue;
      }
      var attrTotalLen := msg.length - Align(NLMSGHDR_SIZEOF + RTMSG_SIZEOF);
      if attrTotalLen < 0 {
        return Error;
      }
      info := Cleared;
      var walked := Walk(devices, msg.data[RTMSG_SIZEOF..], info);
      match walked {
        case Error => return Error;
        case OutOfBounds => return OutOfBounds;
        case Ok(found) => info := found;
      }
      if ValidInfo(info) {
        return Ok(Some(info));
      }
    }
    return Ok(None);
  }

  // ---------------------------------------------------------------- the encoder

  /** An attribute with the bytes that pad it, which may be anything. */
  datatype Attr = Attr(typ: nat, data: seq<Byte>, pad: seq<Byte>)

  ghost predicate Encodable(a: Attr) {
    && a.typ < 65536 && RTATTR_SIZEOF + |a.data| < 65536
    && |a.pad| == Align(RTATTR_SIZEOF + |a.data|) - (RTATTR_SIZEOF + |a.data|)
  }

  function Encode(a: Attr): (bs: seq<Byte>)
    requires Encodable(a)
    ensures |bs| == Align(RTATTR_SIZEOF + |a.data|)
  {
    var len := RTATTR_SIZEOF + |a.data|;
    [len % 256, len / 256, a.typ % 256, a.typ / 256] + a.data + a.pad
  }

  ghost predicate AllEncodable(attrs: seq<Attr>) {
    forall i :: 0 <= i < |attrs| ==> Encodable(attrs[i])
  }

  function EncodeAll(attrs: seq<Attr>): seq<Byte>
    requires AllEncodable(attrs)
  {
    if attrs == [] then [] else Encode(attrs[0]) + EncodeAll(attrs[1..])
  }

  /** The attributes absorbed one after the other, without any bytes. */
  function Fold(devices: Devices, info: Info, attrs: seq<Attr>): Outcome<Info>
    decreases |attrs|
  {
    if attrs == [] then Ok(info)
    else
      match Absorb(devices, info, attrs[0].typ, attrs[0].data)
      case Ok(next) => Fold(devices, next, attrs[1..])
      case Error => Error
      case OutOfBounds => OutOfBounds
  }

  lemma SliceOfSlice(bs: seq<Byte>, i: nat, n: nat, j: nat, k: nat)
    requires i + n <= |bs| && j <= k <= n
    ensures bs[i..i + n][j..k] == bs[i + j..i + k]
  {
    var x, y := bs[i..i + n][j..k], bs[i + j..i + k];
    forall m | 0 <= m < k - j
      ensures x[m] == y[m]
    {
      assert x[m] == bs[i..i + n][j + m] == bs[i + j + m];
    }
  }

  /** How long an attribute is with its padding. */
  function Room(a: Attr): (n: nat)
    ensures n >= RTATTR_SIZEOF + |a.data|
  {
    Align(RTATTR_SIZEOF + |a.data|)
  }

  /** What is read at the cursor is this attribute. */
  ghost predicate ReadsAs(bs: seq<Byte>, cursor: nat, a: Attr) {
    && cursor + Room(a) <= |bs|
    && U16(bs[cursor], bs[cursor + 1]) == RTATTR_SIZEOF + |a.data| && U16(bs[cursor + 2], bs[cursor + 3]) == a.typ
    && bs[cursor + RTATTR_SIZEOF..cursor + RTATTR_SIZEOF + |a.data|] == a.data
  }

  lemma EncodedReads(bs: seq<Byte>, cursor: nat, a: Attr)
    requires Encodable(a) && cursor + Room(a) <= |bs| && bs[cursor..cursor + Room(a)] == Encode(a)
    ensures ReadsAs(bs, cursor, a)
  {
    var e, len := bs[cursor..cursor + Room(a)], RTATTR_SIZEOF + |a.data|;
    assert bs[cursor] == e[0] && bs[cursor + 1] == e[1] && bs[cursor + 2] == e[2] && bs[cursor + 3] == e[3];
    SliceOfSlice(bs, cursor, Room(a), RTATTR_SIZEOF, len);
    assert Encode(a)[RTATTR_SIZEOF..len] == a.data;
  }

  lemma WalkOneReads(devices: Devices, bs: seq<Byte>, cursor: nat, a: Attr, info: Info)
    requires ReadsAs(bs, cursor, a)
    ensures var r := WalkOne(devices, bs, cursor, info);
            match Absorb(devices, info, a.typ, a.data)
            case Ok(next) => r == Ok((next, Room(a)))
            case Error => r.Error?
            case OutOfBounds => r.OutOfBounds?
  {
  }

  lemma WalkStep(devices: Devices, bs: seq<Byte>, cursor: nat, a: Attr, info: Info)
    requires ReadsAs(bs, cursor, a)
    ensures WalkFrom(devices, bs, cursor, info)
         == match Absorb(devices, info, a.typ, a.data)
            case Ok(next) => WalkFrom(devices, bs, cursor + Room(a), next)
            case Error => Error
            case OutOfBounds => OutOfBounds
  {
    WalkOneReads(devices, bs, cursor, a, info);
  }

  /** The attributes lie one behind the other from the cursor on. */
  ghost predicate LaidOut(bs: seq<Byte>, cursor: nat, attrs: seq<Attr>)
    decreases |attrs|
  {
    attrs == [] || (ReadsAs(bs, cursor, attrs[0]) && LaidOut(bs, cursor + Room(attrs[0]), attrs[1..]))
  }

  function TotalRoom(attrs: seq<Attr>): nat {
    if attrs == [] then 0 else Room(attrs[0]) + TotalRoom(attrs[1..])
  }

  lemma {:induction false} EncodedRoom(attrs: seq<Attr>)
    requires AllEncodable(attrs)
    ensures |EncodeAll(attrs)| == TotalRoom(attrs)
  {
    if attrs != [] {
      EncodedRoom(attrs[1..]);
    }
  }

  lemma SliceJoined(bs: seq<Byte>, cursor: nat, x: seq<Byte>, y: seq<Byte>, z: seq<Byte>)
    requires cursor <= |bs| && bs[cursor..] == (x + y) + z
    ensures cursor + |x| <= |bs| && bs[cursor..cursor + |x|] == x && bs[cursor + |x|..] == y + z
  {
    assert bs[cursor..cursor + |x|] == bs[cursor..][..|x|];
    assert bs[cursor + |x|..] == bs[cursor..][|x|..];
  }

  /** The first of the attributes is read at the cursor, and the others lie behind it. */
  lemma EncodedHead(bs: seq<Byte>, cursor: nat, attrs: seq<Attr>, rest: seq<Byte>)
    requires AllEncodable(attrs) && attrs != [] && cursor <= |bs| && bs[cursor..] == EncodeAll(attrs) + rest
    ensures ReadsAs(bs, cursor, attrs[0])
    ensures bs[cursor + Room(attrs[0])..] == EncodeAll(attrs[1..]) + rest
  {
    SliceJoined(bs, cursor, Encode(attrs[0]), EncodeAll(attrs[1..]), rest);
    EncodedReads(bs, cursor, attrs[0]);
  }

  /** That is how they are encoded. */
  lemma {:induction false} EncodedLaidOut(bs: seq<Byte>, cursor: nat, attrs: seq<Attr>, rest: seq<Byte>)
    requires AllEncodable(attrs) && cursor <= |bs| && bs[cursor..] == EncodeAll(attrs) + rest
    ensures LaidOut(bs, cursor, attrs)
    decreases |attrs|
  {
    if attrs != [] {
      EncodedHead(bs, cursor, attrs, rest);
      EncodedLaidOut(bs, cursor + Room(attrs[0]), attrs[1..], rest);
    }
  }

  lemma EncodingLaidOut(bs: seq<Byte>, attrs: seq<Attr>, rest: seq<Byte>)
    requires AllEncodable(attrs) && bs == EncodeAll(attrs) + rest
    ensures LaidOut(bs, 0, attrs) && |EncodeAll(attrs)| == TotalRoom(attrs)
  {
    assert bs[0..] == bs;
    EncodedLaidOut(bs, 0, attrs, rest);
    EncodedRoom(attrs);
  }

  /** The walk goes over them. */
  lemma {:induction false} WalkLaidOut(devices: Devices, bs: seq<Byte>, cursor: nat, attrs: seq<Attr>, end: nat, info: Info)
    requires LaidOut(bs, cursor, attrs) && end == cursor + TotalRoom(attrs)
    ensures WalkFrom(devices, bs, cursor, info)
         == match Fold(devices, info, attrs)
            case Ok(next) => WalkFrom(devices, bs, end, next)
            case Error => Error
            case OutOfBounds => OutOfBounds
    decreases |attrs|
  {
    if attrs != [] {
      WalkStep(devices, bs, cursor, attrs[0], info);
      match Absorb(devices, info, attrs[0].typ, attrs[0].data) {
        case Ok(next) => WalkLaidOut(devices, bs, cursor + Room(attrs[0]), attrs[1..], end, next);
        case _ =>
      }
    }
  }

  lemma WalkEncoded(devices: Devices, bs: seq<Byte>, attrs: seq<Attr>, rest: seq<Byte>, info: Info)
    requires AllEncodable(attrs) && bs == EncodeAll(attrs) + rest
    ensures WalkFrom(devices, bs, 0, info)
         == match Fold(devices, info, attrs)
            case Ok(next) => WalkFrom(devices, bs, |EncodeAll(attrs)|, next)
            case Error => Error
            case OutOfBounds => OutOfBounds
  {
    EncodingLaidOut(bs, attrs, rest);
    WalkLaidOut(devices, bs, 0, attrs, |EncodeAll(attrs)|, info);
  }

  /** Walking any encoded list of attributes absorbs exactly those attributes in order and ends at
      their total length; it never reads out of bounds. */
  lemma WalkIsFold(devices: Devices, attrs: seq<Attr>, info: Info)
    requires AllEncodable(attrs)
    ensures WalkFrom(devices, EncodeAll(attrs), 0, info) == Fold(devices, info, attrs)
    ensures !WalkFrom(devices, EncodeAll(attrs), 0, info).OutOfBounds?
  {
    assert EncodeAll(attrs) + [] == EncodeAll(attrs);
    WalkEncoded(devices, EncodeAll(attrs), attrs, [], info);
    FoldInBounds(devices, info, attrs);
  }

  lemma {:induction false} FoldInBounds(devices: Devices, info: Info, attrs: seq<Attr>)
    ensures !Fold(devices, info, attrs).OutOfBounds?
    decreases |attrs|
  {
    if attrs != [] {
      match Absorb(devices, info, attrs[0].typ, attrs[0].data) {
        case Ok(next) => FoldInBounds(devices, next, attrs[1..]);
        case _ =>
      }
    }
  }

  // ---------------------------------------------------------------- what the fold returns

  /** The last attribute of a type. */
  function Last(attrs: seq<Attr>, typ: nat): (r: Option<Attr>)
    ensures r.Some? ==> r.value in attrs && r.value.typ == typ
  {
    if attrs == [] then None
    else if attrs[|attrs| - 1].typ == typ then Some(attrs[|attrs| - 1])
    else Last(attrs[..|attrs| - 1], typ)
  }

  lemma {:induction false} FoldSnoc(devices: Devices, info: Info, attrs: seq<Attr>, a: Attr)
    ensures Fold(devices, info, attrs + [a])
         == match Fold(devices, info, attrs)
            case Ok(next) => Absorb(devices, next, a.typ, a.data)
            case Error => Error
            case OutOfBounds => OutOfBounds
    decreases |attrs|
  {
    if attrs == [] {
      assert [a][1..] == [];
    } else {
      assert (attrs + [a])[1..] == attrs[1..] + [a];
      match Absorb(devices, info, attrs[0].typ, attrs[0].data) {
        case Ok(next) => FoldSnoc(devices, next, attrs[1..], a);
        case _ =>
      }
    }
  }

  /** A successful walk returns the last gateway and the device of the last output interface, and
      what it started with where there is none. */
  lemma {:induction false} FoldIsLast(devices: Devices, info: Info, attrs: seq<Attr>)
    requires Fold(devices, info, attrs).Ok?
    ensures var r := Fold(devices, info, attrs).value;
            && r.gateway == (match Last(attrs, RTA_GATEWAY) case Some(a) => Some(a.data) case None => info.gateway)
            && (match Last(attrs, RTA_OIF)
                case Some(a) => |a.data| == 4 && devices(I32(a.data)) == Some((r.ifIndex, r.ifName))
                case None => r.ifIndex == info.ifIndex && r.ifName == info.ifName)
    decreases |attrs|
  {
    if attrs != [] {
      var before, a := attrs[..|attrs| - 1], attrs[|attrs| - 1];
      assert attrs == before + [a];
      FoldSnoc(devices, info, before, a);
      FoldIsLast(devices, info, before);
    }
  }

  /** A 32-bit number as four little-endian bytes, least significant first. */
  function EncodeI32(n: int): (b: seq<Byte>)
    requires -0x8000_0000 <= n < 0x8000_0000
    ensures |b| == 4
  {
    var u := if n >= 0 then n else n + 0x1_0000_0000;
    [u % 256, u / 256 % 256, u / 65536 % 256, u / 16777216]
  }

  lemma I32RoundTrip(n: int)
    requires -0x8000_0000 <= n < 0x8000_0000
    ensures I32(EncodeI32(n)) == n
  {
    var u := if n >= 0 then n else n + 0x1_0000_0000;
    assert u / 256 == u / 65536 * 256 + u / 256 % 256;
    assert u / 65536 == u / 16777216 * 256 + u / 65536 % 256;
  }

  lemma I32Bytes(b: seq<Byte>)
    requires |b| == 4
    ensures -0x8000_0000 <= I32(b) < 0x8000_0000 && EncodeI32(I32(b)) == b
  {
    var u: int := b[0] as int + 256 * b[1] as int + 65536 * b[2] as int + 16777216 * b[3] as int;
    assert u / 256 == b[1] as int + 256 * b[2] as int + 65536 * b[3] as int;
    assert u / 65536 == b[2] as int + 256 * b[3] as int;
    assert u / 16777216 == b[3] as int;
  }

  /** So a successful walk names the device of the index that the last output interface encodes. */
  lemma FoldNamesDevice(devices: Devices, info: Info, attrs: seq<Attr>, index: int)
    requires Fold(devices, info, attrs).Ok? && Last(attrs, RTA_OIF).Some?
    requires -0x8000_0000 <= index < 0x8000_0000 && Last(attrs, RTA_OIF).value.data == EncodeI32(index)
    ensures var r := Fold(devices, info, attrs).value; devices(index) == Some((r.ifIndex, r.ifName))
  {
    FoldIsLast(devices, info, attrs);
    I32RoundTrip(index);
  }

  /** A known type, an output interface that is four bytes and exists, a gateway that is an IPv4 or an
      IPv6 address. */
  predicate WellFormed(devices: Devices, a: Attr) {
    && a.typ < 31
    && (a.typ == RTA_OIF ==> |a.data| == 4 && devices(I32(a.data)).Some?)
    && (a.typ == RTA_GATEWAY ==> |a.data| == 4 || |a.data| == 16)
  }

  /** A walk fails exactly when one of the attributes is not well formed, wherever it is. */
  lemma {:induction false} FoldSucceedsExactly(devices: Devices, info: Info, attrs: seq<Attr>)
    ensures Fold(devices, info, attrs).Ok? <==> forall i :: 0 <= i < |attrs| ==> WellFormed(devices, attrs[i])
    decreases |attrs|
  {
    if attrs != [] {
      assert Absorb(devices, info, attrs[0].typ, attrs[0].data).Ok? <==> WellFormed(devices, attrs[0]);
      if WellFormed(devices, attrs[0]) {
        FoldSucceedsExactly(devices, Absorb(devices, info, attrs[0].typ, attrs[0].data).value, attrs[1..]);
        assert forall i :: 0 < i < |attrs| ==> attrs[i] == attrs[1..][i - 1];
      }
    }
  }

  // ---------------------------------------------------------------- arbitrary bytes

  /** The bytes end within the length of an attribute, or the length is valid and they end within the
      type or within data that is read. */
  predicate Truncated(rest: seq<Byte>) {
    if |rest| < 2 then rest != []
    else
      var len := U16(rest[0], rest[1]);
      RTATTR_SIZEOF <= len && (|rest| < RTATTR_SIZEOF
                               || (|rest| < len && ReadsData(U16(rest[2], rest[3]), len - RTATTR_SIZEOF)))
  }

  ghost predicate AllWellFormed(devices: Devices, attrs: seq<Attr>) {
    AllEncodable(attrs) && forall i :: 0 <= i < |attrs| ==> WellFormed(devices, attrs[i])
  }

  /** The attribute that a step of the walk has gone over, if it ends within the bytes. */
  function Decoded(bs: seq<Byte>, cursor: nat, step: nat): Attr
    requires cursor + RTATTR_SIZEOF <= cursor + step <= |bs|
    requires RTATTR_SIZEOF <= U16(bs[cursor], bs[cursor + 1]) <= step
  {
    var len := U16(bs[cursor], bs[cursor + 1]);
    Attr(U16(bs[cursor + 2], bs[cursor + 3]), bs[cursor + RTATTR_SIZEOF..cursor + len], bs[cursor + len..cursor + step])
  }

  lemma SplitBytes(lo: Byte, hi: Byte)
    ensures U16(lo, hi) < 65536 && U16(lo, hi) % 256 == lo && U16(lo, hi) / 256 == hi
  {
  }

  lemma DecodedEncodes(bs: seq<Byte>, cursor: nat, step: nat)
    requires cursor + RTATTR_SIZEOF <= cursor + step <= |bs|
    requires RTATTR_SIZEOF <= U16(bs[cursor], bs[cursor + 1]) && step == Align(U16(bs[cursor], bs[cursor + 1]))
    ensures var a := Decoded(bs, cursor, step); Encodable(a) && Encode(a) == bs[cursor..cursor + step]
  {
    var len := U16(bs[cursor], bs[cursor + 1]);
    SplitBytes(bs[cursor], bs[cursor + 1]);
    SplitBytes(bs[cursor + 2], bs[cursor + 3]);
    assert bs[cursor..cursor + step]
        == [bs[cursor], bs[cursor + 1], bs[cursor + 2], bs[cursor + 3]]
           + bs[cursor + RTATTR_SIZEOF..cursor + len] + bs[cursor + len..cursor + step];
  }

  lemma WalkOneDecoded(devices: Devices, bs: seq<Byte>, cursor: nat, info: Info, step: nat, next: Info)
    requires cursor <= |bs| && WalkOne(devices, bs, cursor, info) == Ok((next, step)) && cursor + step <= |bs|
    ensures RTATTR_SIZEOF <= U16(bs[cursor], bs[cursor + 1]) && step == Align(U16(bs[cursor], bs[cursor + 1]))
    ensures WellFormed(devices, Decoded(bs, cursor, step))
  {
  }

  /** Attributes and what follows them. */
  ghost predicate Parts(devices: Devices, bs: seq<Byte>, attrs: seq<Attr>, rest: seq<Byte>) {
    AllWellFormed(devices, attrs) && bs == EncodeAll(attrs) + rest
  }

  lemma PartsCons(devices: Devices, bs: seq<Byte>, cursor: nat, step: nat, a: Attr, attrs: seq<Attr>, rest: seq<Byte>)
    requires cursor + step <= |bs| && Encodable(a) && Encode(a) == bs[cursor..cursor + step] && WellFormed(devices, a)
    requires Parts(devices, bs[cursor + step..], attrs, rest)
    ensures Parts(devices, bs[cursor..], [a] + attrs, rest)
  {
    assert ([a] + attrs)[1..] == attrs;
    assert bs[cursor..] == bs[cursor..cursor + step] + bs[cursor + step..];
    assert Encode(a) + (EncodeAll(attrs) + rest) == (Encode(a) + EncodeAll(attrs)) + rest;
  }

  /** A walk that succeeds, or that reads past the end, has gone over well-formed attributes to the
      end, or to bytes that are truncated. */
  lemma {:induction false} WalkParts(devices: Devices, bs: seq<Byte>, cursor: nat, info: Info)
    returns (attrs: seq<Attr>, rest: seq<Byte>)
    requires cursor <= |bs| && !WalkFrom(devices, bs, cursor, info).Error?
    ensures Parts(devices, bs[cursor..], attrs, rest)
    ensures if WalkFrom(devices, bs, cursor, info).Ok? then rest == [] else Truncated(rest)
    decreases |bs| - cursor
  {
    attrs, rest := [], bs[cursor..];
    if cursor < |bs| {
      match WalkOne(devices, bs, cursor, info) {
        case OutOfBounds =>
          StopsTruncated(devices, bs, cursor, info);
        case Ok((next, step)) =>
          attrs, rest := WalkParts(devices, bs, cursor + step, next);
          WalkOneDecoded(devices, bs, cursor, info, step, next);
          DecodedEncodes(bs, cursor, step);
          var a := Decoded(bs, cursor, step);
          PartsCons(devices, bs, cursor, step, a, attrs, rest);
          attrs := [a] + attrs;
      }
    }
  }

  lemma StopsTruncated(devices: Devices, bs: seq<Byte>, cursor: nat, info: Info)
    requires cursor < |bs|
    ensures WalkOne(devices, bs, cursor, info).OutOfBounds? <==> Truncated(bs[cursor..])
  {
    var rest := bs[cursor..];
    if |rest| >= 2 {
      assert rest[0] == bs[cursor] && rest[1] == bs[cursor + 1];
    }
    if |rest| >= RTATTR_SIZEOF {
      assert rest[2] == bs[cursor + 2] && rest[3] == bs[cursor + 3];
    }
  }

  lemma WalkEnd(devices: Devices, bs: seq<Byte>, cursor: nat, info: Info)
    requires cursor <= |bs|
    ensures bs[cursor..] == [] ==> WalkFrom(devices, bs, cursor, info).Ok?
    ensures Truncated(bs[cursor..]) ==> WalkFrom(devices, bs, cursor, info).OutOfBounds?
  {
    if cursor < |bs| {
      StopsTruncated(devices, bs, cursor, info);
    }
  }

  lemma WalkOver(devices: Devices, bs: seq<Byte>, attrs: seq<Attr>, rest: seq<Byte>, info: Info)
    requires Parts(devices, bs, attrs, rest)
    ensures rest == [] ==> WalkFrom(devices, bs, 0, info).Ok?
    ensures Truncated(rest) ==> WalkFrom(devices, bs, 0, info).OutOfBounds?
  {
    assert bs[|EncodeAll(attrs)|..] == rest;
    WalkEncoded(devices, bs, attrs, rest, info);
    FoldSucceedsExactly(devices, info, attrs);
    WalkEnd(devices, bs, |EncodeAll(attrs)|, Fold(devices, info, attrs).value);
  }

  /** Of all byte strings, the walk accepts exactly the encodings of well-formed attributes, and reads
      past the end exactly of those that go on with something truncated. */
  lemma WalkExactly(devices: Devices, bs: seq<Byte>, info: Info)
    ensures WalkFrom(devices, bs, 0, info).Ok? <==> exists attrs :: Parts(devices, bs, attrs, [])
    ensures WalkFrom(devices, bs, 0, info).OutOfBounds?
            <==> exists attrs, rest :: Parts(devices, bs, attrs, rest) && Truncated(rest)
  {
    assert bs[0..] == bs;
    if !WalkFrom(devices, bs, 0, info).Error? {
      var attrs, rest := WalkParts(devices, bs, 0, info);
    }
    if attrs :| Parts(devices, bs, attrs, []) {
      WalkOver(devices, bs, attrs, [], info);
    }
    if attrs, rest :| Parts(devices, bs, attrs, rest) && Truncated(rest) {
      WalkOver(devices, bs, attrs, rest, info);
    }
  }

  // ---------------------------------------------------------------- whole dumps

  /** A route entry: the bytes of its header and its attributes. */
  datatype Route = Route(header: seq<Byte>, attrs: seq<Attr>)

  ghost predicate EncodableRoute(m: Route) {
    |m.header| == RTMSG_SIZEOF && AllEncodable(m.attrs)
  }

  function EncodeRoute(m: Route): Message
    requires EncodableRoute(m)
  {
    Message(NLMSGHDR_SIZEOF + RTMSG_SIZEOF + |EncodeAll(m.attrs)|, m.header + EncodeAll(m.attrs))
  }

  predicate MainRoute(m: Route)
    requires |m.header| == RTMSG_SIZEOF
  {
    (m.header[0] == AF_INET || m.header[0] == AF_INET6) && m.header[4] == RT_TABLE_MAIN
  }

  ghost predicate AllRoutes(routes: seq<Route>) {
    forall i :: 0 <= i < |routes| ==> EncodableRoute(routes[i])
  }

  function EncodeDump(routes: seq<Route>): seq<Message>
    requires AllRoutes(routes)
  {
    if routes == [] then [] else [EncodeRoute(routes[0])] + EncodeDump(routes[1..])
  }

  /** The answer in terms of routes: each main route is folded from scratch. */
  function DefaultRoute(devices: Devices, routes: seq<Route>): Outcome<Option<Info>>
    requires AllRoutes(routes)
  {
    if routes == [] then Ok(None)
    else if !MainRoute(routes[0]) then DefaultRoute(devices, routes[1..])
    else
      match Fold(devices, Cleared, routes[0].attrs)
      case Ok(info) => if ValidInfo(info) then Ok(Some(info)) else DefaultRoute(devices, routes[1..])
      case Error => Error
      case OutOfBounds => OutOfBounds
  }

  lemma EntryEncoded(devices: Devices, m: Route)
    requires EncodableRoute(m)
    ensures Entry(devices, EncodeRoute(m))
         == if !MainRoute(m) then Ok(None)
            else match Fold(devices, Cleared, m.attrs)
                 case Ok(info) => Ok(Some(info))
                 case Error => Error
                 case OutOfBounds => OutOfBounds
  {
    var data := EncodeRoute(m).data;
    assert data[0] == m.header[0] && data[4] == m.header[4];
    assert data[RTMSG_SIZEOF..] == EncodeAll(m.attrs);
    WalkIsFold(devices, m.attrs, Cleared);
  }

  /** For every encoded dump the answer is the first main route, in order, whose own attributes give
      a gateway and a device, unless an attribute before that is malformed. Nothing is carried over
      from one message to the next although they share one struct. */
  lemma {:induction false} RouteOfDump(devices: Devices, routes: seq<Route>)
    requires AllRoutes(routes)
    ensures RouteFrom(devices, EncodeDump(routes)) == DefaultRoute(devices, routes)
    decreases |routes|
  {
    if routes != [] {
      EntryEncoded(devices, routes[0]);
      RouteOfDump(devices, routes[1..]);
      assert EncodeDump(routes)[1..] == EncodeDump(routes[1..]);
    }
  }

  /** A route that is found is complete, it is the fold of one main route alone, and every main route
      before that one folded without error to something incomplete. */
  lemma {:induction false} FoundRoute(devices: Devices, routes: seq<Route>, info: Info) returns (i: nat)
    requires AllRoutes(routes) && RouteFrom(devices, EncodeDump(routes)) == Ok(Some(info))
    ensures i < |routes| && MainRoute(routes[i]) && Fold(devices, Cleared, routes[i].attrs) == Ok(info)
    ensures info.gateway.Some? && info.ifIndex > 0 && info.ifName != ""
    ensures forall j :: 0 <= j < i && MainRoute(routes[j]) ==>
              var f := Fold(devices, Cleared, routes[j].attrs);
              f.Ok? && (f.value.gateway.None? || f.value.ifIndex <= 0 || f.value.ifName == "")
    decreases |routes|
  {
    RouteOfDump(devices, routes);
    if MainRoute(routes[0]) && ValidInfo(Fold(devices, Cleared, routes[0].attrs).value) {
      i := 0;
    } else {
      RouteOfDump(devices, routes[1..]);
      var k := FoundRoute(devices, routes[1..], info);
      i := k + 1;
      forall j | 0 <= j < i && MainRoute(routes[j])
        ensures Fold(devices, Cleared, routes[j].attrs).Ok? && !ValidInfo(Fold(devices, Cleared, routes[j].attrs).value)
      {
        assert j > 0 ==> routes[j] == routes[1..][j - 1];
      }
    }
  }

  // ---------------------------------------------------------------- messages that are no routes

  lemma {:induction false} AfterIncomplete(devices: Devices, before: seq<Message>, ms: seq<Message>)
    requires RouteFrom(devices, before) == Ok(None)
    ensures RouteFrom(devices, before + ms) == RouteFrom(devices, ms)
    decreases |before|
  {
    if before == [] {
      assert before + ms == ms;
    } else {
      assert (before + ms)[1..] == before[1..] + ms;
      AfterIncomplete(devices, before[1..], ms);
    }
  }

  /** Wherever it comes before a complete route, a message whose header does not give its length is an
      error, and so is one of the main table that ends within its route header of twelve bytes. */
  lemma BadMessageIsError(devices: Devices, before: seq<Message>, m: Message, after: seq<Message>)
    requires RouteFrom(devices, before) == Ok(None)
    requires m.length != 16 + |m.data|
             || (5 <= |m.data| < 12 && m.data[0] in {2, 10} && m.data[4] == 254)
    ensures RouteFrom(devices, before + ([m] + after)) == Error
  {
    AfterIncomplete(devices, before, [m] + after);
  }

  /** A dump as it is on the wire: one IPv4 route of the main table with a gateway attribute, an output
      interface, and one attribute that does not matter. */
  lemma OnTheWire(devices: Devices)
    requires devices(2) == Some((2, "eth0"))
    ensures RouteFrom(devices,
              [Message(52, [2, 0, 0, 0, 254, 3, 0, 1, 0, 0, 0, 0]
                           + [8, 0, 5, 0, 192, 168, 1, 1]
                           + [8, 0, 4, 0, 2, 0, 0, 0]
                           + [5, 0, 30, 0, 7, 0, 0, 0])])
         == Ok(Some(Info(Some([192, 168, 1, 1]), 2, "eth0")))
  {
    WireBytes();
    ThreeFolded(devices, WireGateway, WireOif, WireOther);
    OneRoute(devices, WireRoute);
  }

  const WireGateway := Attr(5, [192, 168, 1, 1], [])
  const WireOif := Attr(4, [2, 0, 0, 0], [])
  const WireOther := Attr(30, [7], [0, 0, 0])
  const WireRoute := Route([2, 0, 0, 0, 254, 3, 0, 1, 0, 0, 0, 0], [WireGateway, WireOif, WireOther])

  lemma WireBytes()
    ensures EncodableRoute(WireRoute)
    ensures EncodeRoute(WireRoute)
         == Message(52, [2, 0, 0, 0, 254, 3, 0, 1, 0, 0, 0, 0]
                        + [8, 0, 5, 0, 192, 168, 1, 1]
                        + [8, 0, 4, 0, 2, 0, 0, 0]
                        + [5, 0, 30, 0, 7, 0, 0, 0])
  {
    WireAttrs();
    ThreeAttrs(WireGateway, WireOif, WireOther);
    Behind(WireRoute.header, Encode(WireGateway), Encode(WireOif), Encode(WireOther));
  }

  lemma Behind(h: seq<Byte>, a: seq<Byte>, b: seq<Byte>, c: seq<Byte>)
    ensures h + (a + b + c) == h + a + b + c
  {
  }

  lemma WireAttrs()
    ensures Encodable(WireGateway) && Encode(WireGateway) == [8, 0, 5, 0, 192, 168, 1, 1]
    ensures Encodable(WireOif) && Encode(WireOif) == [8, 0, 4, 0, 2, 0, 0, 0]
    ensures Encodable(WireOther) && Encode(WireOther) == [5, 0, 30, 0, 7, 0, 0, 0]
  {
  }

  lemma ThreeAttrs(a: Attr, b: Attr, c: Attr)
    requires Encodable(a) && Encodable(b) && Encodable(c)
    ensures AllEncodable([a, b, c]) && EncodeAll([a, b, c]) == Encode(a) + Encode(b) + Encode(c)
  {
    assert [a, b, c][1..] == [b, c] && [b, c][1..] == [c] && [c][1..] == [];
    assert EncodeAll([c]) == Encode(c) + [];
    assert EncodeAll([b, c]) == Encode(b) + EncodeAll([c]);
  }

  lemma ThreeFolded(devices: Devices, gateway: Attr, oif: Attr, other: Attr)
    requires gateway.typ == 5 && |gateway.data| == 4 && oif.typ == 4 && oif.data == [2, 0, 0, 0] && other.typ == 30
    requires devices(2) == Some((2, "eth0"))
    ensures Fold(devices, Cleared, [gateway, oif, other]) == Ok(Info(Some(gateway.data), 2, "eth0"))
  {
    var attrs := [gateway, oif, other];
    assert attrs[1..] == [oif, other] && attrs[1..][1..] == [other] && attrs[1..][1..][1..] == [];
    var first := Cleared.(gateway := Some(gateway.data));
    assert Absorb(devices, Cleared, 5, gateway.data) == Ok(first);
    var second := Info(Some(gateway.data), 2, "eth0");
    assert Absorb(devices, first, 4, oif.data) == Ok(second);
    assert Absorb(devices, second, 30, other.data) == Ok(second);
    assert Fold(devices, second, [other]) == Ok(second);
    assert Fold(devices, first, [oif, other]) == Ok(second);
  }

  lemma OneRoute(devices: Devices, m: Route)
    requires EncodableRoute(m) && MainRoute(m)
    requires Fold(devices, Cleared, m.attrs).Ok? && ValidInfo(Fold(devices, Cleared, m.attrs).value)
    ensures RouteFrom(devices, [EncodeRoute(m)]) == Ok(Some(Fold(devices, Cleared, m.attrs).value))
  {
    EntryEncoded(devices, m);
  }
}
