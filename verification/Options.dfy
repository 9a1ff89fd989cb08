/** The DHCP option area: the server's writer and reader, and the client's own
    reader. Options are encoded as code, length, data and closed by END, as section
    2 of RFC 2132 lays down. */
module Options {
  import opened Wrappers
  import LeaseMap

  const AREA_SIZE := 308

  const PAD: byte := 0
  const SUBNET_MASK: byte := 1
  const ROUTER: byte := 3
  const DNS_SERVER: byte := 6
  const REQUESTED_IP: byte := 50
  const LEASE_TIME: byte := 51
  const MESSAGE_TYPE: byte := 53
  const SERVER_ID: byte := 54
  const END: byte := 255

  const DISCOVER: byte := 1
  const OFFER: byte := 2
  const REQUEST: byte := 3
  const DECLINE: byte := 4
  const ACK: byte := 5
  const NAK: byte := 6

  /** One item of an option list: a padding byte, or an option proper. */
  datatype ItemRaw = Pad | Opt(code: byte, data: seq<byte>)
  type Item = o: ItemRaw | o.Opt? ==> o.code != PAD && o.code != END && |o.data| <= 255 witness Pad

  /** Number of bytes the items take. */
  function Size(os: seq<Item>): nat {
    if os == [] then 0 else SizeOne(os[0]) + Size(os[1..])
  }

  function SizeOne(o: Item): nat {
    if o.Pad? then 1 else 2 + |o.data|
  }

  /** The bytes of one item at position `p`: PAD, or code, length and data. */
  ghost predicate ItemAt(area: seq<byte>, p: nat, o: Item) {
    && p + SizeOne(o) <= |area|
    && match o
       case Pad => area[p] == PAD
       case Opt(code, data) => area[p] == code && area[p + 1] == |data| && area[p + 2..p + 2 + |data|] == data
  }

  /** From position `p` on the area holds the items and then END. */
  ghost predicate Carries(area: seq<byte>, p: nat, os: seq<Item>)
    decreases |os|
  {
    if os == [] then p < |area| && area[p] == END
    else ItemAt(area, p, os[0]) && Carries(area, p + SizeOne(os[0]), os[1..])
  }

  /** The bytes determine the list. */
  lemma {:induction false} CarriesUnique(area: seq<byte>, p: nat, os: seq<Item>, os': seq<Item>)
    requires Carries(area, p, os) && Carries(area, p, os')
    ensures os == os'
    decreases |os|
  {
    if os != [] && os' != [] {
      assert os[0] == os'[0];
      CarriesUnique(area, p + SizeOne(os[0]), os[1..], os'[1..]);
      assert os == [os[0]] + os[1..] && os' == [os'[0]] + os'[1..];
    }
  }

  /** The data of the first option with the code. */
  function Lookup(os: seq<Item>, code: byte): Option<seq<byte>> {
    if os == [] then None
    else if os[0].Opt? && os[0].code == code then Some(os[0].data)
    else Lookup(os[1..], code)
  }

  // ----- The server's reader and writer ------------------------------------

  /** Position of the END marker. */
  method FindEnd(area: array<byte>, ghost os: seq<Item>) returns (p: nat)
    requires Carries(area[..], 0, os)
    ensures p == Size(os) < area.Length
  {
    p := 0;
    ghost var rest := os;
    while p < area.Length && area[p] != END
      invariant Carries(area[..], p, rest) && p + Size(rest) == Size(os)
      decreases |rest|
    {
      if area[p] == PAD {
        p := p + 1;
      } else {
        p := p + 2 + area[p + 1];
      }
      rest := rest[1..];
    }
  }

  method PutOption(area: array<byte>, p: nat, o: Item)
    requires o.Opt? && p + SizeOne(o) <= area.Length
    modifies area
    ensures area[..p] == old(area[..p]) && ItemAt(area[..], p, o)
  {
    area[p] := o.code;
    area[p + 1] := |o.data|;
    for j := 0 to |o.data|
      invariant area[p] == o.code && area[p + 1] == |o.data|
      invariant area[..p] == old(area[..p]) && area[p + 2..p + 2 + j] == o.data[..j]
    {
      area[p + 2 + j] := o.data[j];
    }
  }

  lemma ItemKept(before: seq<byte>, after: seq<byte>, p: nat, o: Item, end: nat)
    requires ItemAt(before, p, o) && |before| == |after| && p + SizeOne(o) <= end <= |before|
    requires before[..end] == after[..end]
    ensures ItemAt(after, p, o)
  {
    assert forall i | p <= i < end :: after[i] == after[..end][i] == before[..end][i] == before[i];
  }

  method WriteOption(area: array<byte>, p: nat, o: Item)
    requires o.Opt? && p + SizeOne(o) < area.Length
    modifies area
    ensures area[..p] == old(area[..p])
    ensures ItemAt(area[..], p, o) && area[p + SizeOne(o)] == END
  {
    PutOption(area, p, o);
    ghost var before := area[..];
    area[p + 2 + |o.data|] := END;
    ItemKept(before, area[..], p, o, p + SizeOne(o));
  }

  lemma {:induction false} CarriesAppended(before: seq<byte>, after: seq<byte>, p: nat, os: seq<Item>, o: Item)
    requires Carries(before, p, os) && |before| == |after|
    requires var end := p + Size(os);
             end <= |after| && after[..end] == before[..end]
             && ItemAt(after, end, o) && Carries(after, end + SizeOne(o), [])
    ensures Carries(after, p, os + [o])
    decreases |os|
  {
    if os == [] {
      assert os + [o] == [o] && [o][1..] == [];
    } else {
      var q, end := p + SizeOne(os[0]), p + Size(os);
      ItemKept(before, after, p, os[0], end);
      CarriesAppended(before, after, q, os[1..], o);
      assert (os + [o])[1..] == os[1..] + [o];
    }
  }

  /** Adds an option at the end if there is room for it and for END. An area that
      starts with 0 is taken as new. */
  method AddOption(area: array<byte>, o: Item, ghost os: seq<Item>) returns (added: bool)
    requires area.Length == AREA_SIZE && o.Opt?
    requires if area[0] == 0 then os == [] else Carries(area[..], 0, os)
    modifies area
    ensures added <==> Size(os) + SizeOne(o) + 1 <= AREA_SIZE
    ensures Carries(area[..], 0, Added(os, o))
  {
    if area[0] == 0 {
      area[0] := END;
    }
    ghost var before := area[..];
    var p := FindEnd(area, os);
    if p + 2 + |o.data| + 1 > AREA_SIZE {
      return false;
    }
    WriteOption(area, p, o);
    CarriesAppended(before, area[..], 0, os, o);
    return true;
  }

  /** Reads the first option with the code. */
  method GetOption(area: array<byte>, code: byte, ghost os: seq<Item>) returns (r: Option<seq<byte>>)
    requires Carries(area[..], 0, os) && code != END && code != PAD
    ensures r == Lookup(os, code)
  {
    var p: nat := 0;
    ghost var rest := os;
    while area[p] != END
      invariant p < area.Length && Carries(area[..], p, rest) && Lookup(os, code) == Lookup(rest, code)
      decreases |rest|
    {
      if area[p] == code {
        return Some(area[p + 2..p + 2 + area[p + 1]]);
      }
      if area[p] == PAD {
        p := p + 1;
      } else {
        p := p + 2 + area[p + 1];
      }
      rest := rest[1..];
      assert rest == [] || ItemAt(area[..], p, rest[0]);
    }
    r := None;
  }

  lemma {:induction false} CarriesInside(area: seq<byte>, p: nat, os: seq<Item>)
    requires Carries(area, p, os)
    ensures p + Size(os) < |area|
    ensures area[p] == PAD <==> os != [] && os[0].Pad?
    decreases |os|
  {
    if os != [] {
      CarriesInside(area, p + SizeOne(os[0]), os[1..]);
    }
  }

  lemma {:induction false} SizeAppend(os: seq<Item>, o: Item)
    ensures Size(os + [o]) == Size(os) + SizeOne(o)
    decreases |os|
  {
    if os == [] {
      assert os + [o] == [o];
    } else {
      SizeAppend(os[1..], o);
      assert (os + [o])[1..] == os[1..] + [o];
    }
  }

  /** The list after an attempt to add `o`. */
  function Added(os: seq<Item>, o: Item): seq<Item> {
    if Size(os) + SizeOne(o) + 1 <= AREA_SIZE then os + [o] else os
  }

  /** The list after attempts to add all of `items` to a new area. */
  function AddedAll(items: seq<Item>): seq<Item> {
    if items == [] then [] else Added(AddedAll(items[..|items| - 1]), items[|items| - 1])
  }

  lemma {:induction false} LookupAppend(os: seq<Item>, o: Item, code: byte)
    ensures Lookup(os + [o], code) ==
            if Lookup(os, code).Some? then Lookup(os, code) else if o.Opt? && o.code == code then Some(o.data) else None
    decreases |os|
  {
    if os == [] {
      assert os + [o] == [o];
    } else {
      LookupAppend(os[1..], o, code);
      assert (os + [o])[1..] == os[1..] + [o];
    }
  }

  /** Whatever is added, the list with its END stays within the area; a list that
      fits is kept whole. */
  lemma {:induction false} AddedAllFits(items: seq<Item>)
    ensures Size(AddedAll(items)) < AREA_SIZE
    ensures Size(items) < 308 ==> AddedAll(items) == items
    decreases |items|
  {
    if items != [] {
      var front, last := items[..|items| - 1], items[|items| - 1];
      AddedAllFits(front);
      assert items == front + [last];
      SizeAppend(AddedAll(front), last);
      SizeAppend(front, last);
    }
  }

  /** The first value added for a code stays the one that is found. */
  lemma {:induction false} FirstValueWins(items: seq<Item>, more: seq<Item>, code: byte)
    requires Lookup(AddedAll(items), code).Some?
    ensures Lookup(AddedAll(items + more), code) == Lookup(AddedAll(items), code)
    decreases |more|
  {
    if more == [] {
      assert items + more == items;
    } else {
      var front, last := more[..|more| - 1], more[|more| - 1];
      FirstValueWins(items, front, code);
      assert (items + more)[..|items + more| - 1] == items + front;
      LookupAppend(AddedAll(items + front), last, code);
    }
  }

  lemma {:induction false} AddedAllOptions(items: seq<Item>)
    requires forall i | 0 <= i < |items| :: items[i].Opt?
    ensures forall i | 0 <= i < |AddedAll(items)| :: AddedAll(items)[i].Opt?
  {
    if items != [] {
      AddedAllOptions(items[..|items| - 1]);
    }
  }

  /** Any sequence of additions to a new area: the area holds what the list of the
      additions that fit says. */
  method AddAll(area: array<byte>, items: seq<Item>)
    requires area.Length == AREA_SIZE && area[0] == 0
    requires items != [] && forall i | 0 <= i < |items| :: items[i].Opt?
    modifies area
    ensures Carries(area[..], 0, AddedAll(items))
  {
    var _ := AddOption(area, items[0], []);
    assert items[..1][..0] == [];
    for i := 1 to |items|
      invariant Carries(area[..], 0, AddedAll(items[..i]))
    {
      AddedAllOptions(items[..i]);
      CarriesInside(area[..], 0, AddedAll(items[..i]));
      var _ := AddOption(area, items[i], AddedAll(items[..i]));
      assert items[..i + 1][..i] == items[..i];
    }
    assert items[..|items|] == items;
  }

  /** The value a code had after some additions is still read back after more. */
  method ReadBack(area: array<byte>, code: byte, items: seq<Item>, more: seq<Item>) returns (r: Option<seq<byte>>)
    requires Carries(area[..], 0, AddedAll(items + more)) && code != END && code != PAD
    requires Lookup(AddedAll(items), code).Some?
    ensures r == Lookup(AddedAll(items), code)
  {
    FirstValueWins(items, more, code);
    r := GetOption(area, code, AddedAll(items + more));
  }

  // ----- The server's messages ---------------------------------------------

  /** Four bytes, most significant first. */
  function ToBytes(x: uint32): (r: seq<byte>)
    ensures |r| == 4
    ensures x == ((r[0] as int * 256 + r[1]) * 256 + r[2]) * 256 + r[3]
  {
    [x / 0x100_0000, x / 0x1_0000 % 256, x / 256 % 256, x % 256]
  }

  function FromBytes(b: seq<byte>): uint32
    requires |b| == 4
  {
    0x100_0000 * (b[0] as int) + 0x1_0000 * (b[1] as int) + 256 * (b[2] as int) + b[3]
  }

  lemma BytesRoundTrip(x: uint32)
    ensures FromBytes(ToBytes(x)) == x
  {
    assert x / 256 / 256 == x / 0x1_0000 && x / 0x1_0000 / 256 == x / 0x100_0000;
  }

  datatype Config = Config(serverIp: uint32, subnetMask: uint32, gatewayIp: uint32, dnsIp: uint32, leaseTime: uint32)

  /** The options of an OFFER or ACK, in the order the server writes them. */
  function ReplyOptions(kind: byte, cfg: Config): seq<Item> {
    [Opt(MESSAGE_TYPE, [kind]), Opt(SERVER_ID, ToBytes(cfg.serverIp)), Opt(SUBNET_MASK, ToBytes(cfg.subnetMask)),
     Opt(ROUTER, ToBytes(cfg.gatewayIp)), Opt(DNS_SERVER, ToBytes(cfg.dnsIp)), Opt(LEASE_TIME, ToBytes(cfg.leaseTime))]
  }

  method Append(area: array<byte>, o: Item, ghost os: seq<Item>) returns (ghost os': seq<Item>)
    requires area.Length == AREA_SIZE && o.Opt? && Size(os) + SizeOne(o) < AREA_SIZE
    requires if os == [] then area[0] == 0 else os[0].Opt? && Carries(area[..], 0, os)
    modifies area
    ensures os' == os + [o] && Carries(area[..], 0, os') && Size(os') == Size(os) + SizeOne(o)
  {
    os' := os + [o];
    SizeAppend(os, o);
    if os != [] {
      CarriesInside(area[..], 0, os);
    }
    var _ := AddOption(area, o, os);
  }

  /** Fills a zeroed area with the options of an OFFER or ACK. */
  method BuildReply(area: array<byte>, kind: byte, cfg: Config)
    requires area.Length == AREA_SIZE && area[0] == 0
    modifies area
    ensures Carries(area[..], 0, ReplyOptions(kind, cfg))
    ensures forall os: seq<Item> | Carries(area[..], 0, os) :: ReplyMeans(os, kind, cfg)
  {
    ghost var os := Append(area, Opt(MESSAGE_TYPE, [kind]), []);
    os := Append(area, Opt(SERVER_ID, ToBytes(cfg.serverIp)), os);
    os := Append(area, Opt(SUBNET_MASK, ToBytes(cfg.subnetMask)), os);
    os := Append(area, Opt(ROUTER, ToBytes(cfg.gatewayIp)), os);
    os := Append(area, Opt(DNS_SERVER, ToBytes(cfg.dnsIp)), os);
    os := Append(area, Opt(LEASE_TIME, ToBytes(cfg.leaseTime)), os);
    assert os == ReplyOptions(kind, cfg);
    ReplyIsMeant(kind, cfg);
    forall os': seq<Item> | Carries(area[..], 0, os') ensures ReplyMeans(os', kind, cfg) {
      CarriesUnique(area[..], 0, os', os);
    }
  }

  /** What a reply says, by option number: message type, server, mask, router, name server
      and lease time. */
  ghost predicate ReplyMeans(os: seq<Item>, kind: byte, cfg: Config) {
    && Lookup(os, 53) == Some([kind])
    && Lookup(os, 54) == Some(ToBytes(cfg.serverIp))
    && Lookup(os, 1) == Some(ToBytes(cfg.subnetMask))
    && Lookup(os, 3) == Some(ToBytes(cfg.gatewayIp))
    && Lookup(os, 6) == Some(ToBytes(cfg.dnsIp))
    && Lookup(os, 51) == Some(ToBytes(cfg.leaseTime))
  }

  lemma {:induction false} LookupAt(os: seq<Item>, code: byte, i: nat)
    requires i < |os| && os[i].Opt? && os[i].code == code
    requires forall j | 0 <= j < i :: os[j].Opt? && os[j].code != code
    ensures Lookup(os, code) == Some(os[i].data)
    decreases i
  {
    if i > 0 {
      LookupAt(os[1..], code, i - 1);
    }
  }

  lemma ReplyIsMeant(kind: byte, cfg: Config)
    ensures ReplyMeans(ReplyOptions(kind, cfg), kind, cfg)
  {
    var os := ReplyOptions(kind, cfg);
    LookupAt(os, 53, 0);
    LookupAt(os, 54, 1);
    LookupAt(os, 1, 2);
    LookupAt(os, 3, 3);
    LookupAt(os, 6, 4);
    LookupAt(os, 51, 5);
  }

  /** A NAK carries its type alone. */
  method BuildNak(area: array<byte>)
    requires area.Length == AREA_SIZE
    modifies area
    ensures Carries(area[..], 0, [Opt(MESSAGE_TYPE, [NAK])])
  {
    for i := 0 to area.Length
    {
      area[i] := 0;
    }
    area[0], area[1], area[2], area[3] := MESSAGE_TYPE, 1, NAK, END;
    assert area[2..3] == [NAK];
  }

  /** The message a list of options stands for on the server. */
  function Decoded(os: seq<Item>, mac: LeaseMap.Mac): LeaseMap.Message {
    var kind := match Lookup(os, MESSAGE_TYPE) case Some(d) => (if |d| >= 1 then d[0] else 0) case None => 0;
    if kind == DISCOVER then LeaseMap.Discover(mac)
    else if kind == REQUEST then
      LeaseMap.Request(mac, match Lookup(os, REQUESTED_IP)
                            case Some(d) => (if |d| == 4 then Some(FromBytes(d)) else None)
                            case None => None)
    else if kind == DECLINE then LeaseMap.Decline(mac)
    else LeaseMap.Other(mac)
  }

  /** What the server makes of the first option 53: 1, 3 and 4 are DISCOVER, REQUEST and
      DECLINE, all else is no message; the address of a REQUEST is the first option 50, if
      that has four bytes. */
  lemma DecodedMeans(os: seq<Item>, mac: LeaseMap.Mac)
    ensures var kind, ip := Lookup(os, 53), Lookup(os, 50);
            Decoded(os, mac) ==
            if kind.None? || kind.value == [] then LeaseMap.Other(mac)
            else if kind.value[0] == 1 then LeaseMap.Discover(mac)
            else if kind.value[0] == 4 then LeaseMap.Decline(mac)
            else if kind.value[0] != 3 then LeaseMap.Other(mac)
            else if ip.Some? && |ip.value| == 4 then LeaseMap.Request(mac, Some(FromBytes(ip.value)))
            else LeaseMap.Request(mac, None)
  {
  }

  method DecodeRequest(area: array<byte>, mac: LeaseMap.Mac, ghost os: seq<Item>) returns (msg: LeaseMap.Message)
    requires Carries(area[..], 0, os)
    ensures msg == Decoded(os, mac)
  {
    var t := GetOption(area, MESSAGE_TYPE, os);
    var kind := if t.Some? && |t.value| >= 1 then t.value[0] else 0;
    if kind == DISCOVER {
      return LeaseMap.Discover(mac);
    } else if kind == REQUEST {
      var ip := GetOption(area, REQUESTED_IP, os);
      return LeaseMap.Request(mac, if ip.Some? && |ip.value| == 4 then Some(FromBytes(ip.value)) else None);
    } else if kind == DECLINE {
      return LeaseMap.Decline(mac);
    }
    return LeaseMap.Other(mac);
  }

  // ----- The client --------------------------------------------------------

  /** What the client keeps of a reply's options. */
  datatype Meta = Meta(kind: byte, serverIp: seq<byte>, subnetMask: seq<byte>, leaseTime: uint32)

  function Absorbed(m: Meta, o: Item): Meta {
    match o
    case Pad => m
    case Opt(code, data) =>
      if code == MESSAGE_TYPE && |data| == 1 then m.(kind := data[0])
      else if code == SERVER_ID && |data| == 4 then m.(serverIp := data)
      else if code == LEASE_TIME && |data| == 4 then m.(leaseTime := FromBytes(data))
      else if code == SUBNET_MASK && |data| == 4 then m.(subnetMask := data)
      else m
  }

  function ClientView(os: seq<Item>, m: Meta): Meta {
    if os == [] then m else ClientView(os[1..], Absorbed(m, os[0]))
  }

  /** The items that can be read from position `i` on in any bytes: up to END, the end of the
      bytes, or an option that is cut off. */
  function Readable(opts: seq<byte>, i: nat): seq<Item>
    decreases |opts| - i
  {
    if i >= |opts| then []
    else if opts[i] == PAD then [Pad] + Readable(opts, i + 1)
    else if opts[i] == END || i + 1 >= |opts| || i + 2 + opts[i + 1] > |opts| then []
    else [Opt(opts[i], opts[i + 2..i + 2 + opts[i + 1]])] + Readable(opts, i + 2 + opts[i + 1])
  }

  /** Of a well-formed list that is all of it. */
  lemma {:induction false} CarriedIsReadable(opts: seq<byte>, p: nat, os: seq<Item>)
    requires Carries(opts, p, os)
    ensures Readable(opts, p) == os
    decreases |os|
  {
    if os != [] {
      CarriedIsReadable(opts, p + SizeOne(os[0]), os[1..]);
      assert os == [os[0]] + os[1..];
    }
  }

  lemma ViewNext(o: Item, rest: seq<Item>, m: Meta)
    ensures ClientView([o] + rest, m) == ClientView(rest, Absorbed(m, o))
  {
    assert ([o] + rest)[1..] == rest;
  }

  /** The client's walk stays inside the received bytes whatever they are, and takes in every
      item that can be read. */
  method WalkOptions(opts: seq<byte>, m0: Meta) returns (m: Meta)
    ensures m == ClientView(Readable(opts, 0), m0)
  {
    m := m0;
    var i: nat := 0;
    while i < |opts|
      invariant i <= |opts| && ClientView(Readable(opts, 0), m0) == ClientView(Readable(opts, i), m)
      decreases |opts| - i
    {
      var t := opts[i];
      i := i + 1;
      if t == PAD {
        ViewNext(Pad, Readable(opts, i), m);
        continue;
      }
      if t == END || i >= |opts| {
        break;
      }
      var len := opts[i];
      i := i + 1;
      if i + len > |opts| {
        break;
      }
      var data := opts[i..i + len];
      ViewNext(Opt(t, data), Readable(opts, i + len), m);
      m := TakeIn(m, t, data);
      i := i + len;
    }
  }

  /** The switch of that loop. */
  method TakeIn(m0: Meta, t: byte, data: seq<byte>) returns (m: Meta)
    requires t != PAD && t != END && |data| <= 255
    ensures m == Absorbed(m0, Opt(t, data))
  {
    m := m0;
    if t == MESSAGE_TYPE {
      if |data| == 1 {
        m := m.(kind := data[0]);
      }
    } else if t == SERVER_ID {
      if |data| == 4 {
        m := m.(serverIp := data);
      }
    } else if t == LEASE_TIME {
      if |data| == 4 {
        m := m.(leaseTime := FromBytes(data));
      }
    } else if t == SUBNET_MASK {
      if |data| == 4 {
        m := m.(subnetMask := data);
      }
    }
  }

  /** The data of the last option with the code and length, or `default`. */
  function LastOf(os: seq<Item>, code: byte, len: nat, default: seq<byte>): (r: seq<byte>)
    ensures |default| == len ==> |r| == len
  {
    if os == [] then default
    else
      var here := os[0].Opt? && os[0].code == code && |os[0].data| == len;
      LastOf(os[1..], code, len, if here then os[0].data else default)
  }

  /** Of options given more than once the client, unlike the server, believes the last, and
      it passes over those of a wrong length: options 53 of one byte and 54, 1 and 51 of
      four. */
  lemma {:induction false} ClientTakesLast(os: seq<Item>, m: Meta)
    ensures var v := ClientView(os, m);
            && [v.kind] == LastOf(os, 53, 1, [m.kind])
            && v.serverIp == LastOf(os, 54, 4, m.serverIp)
            && v.subnetMask == LastOf(os, 1, 4, m.subnetMask)
            && v.leaseTime == FromBytes(LastOf(os, 51, 4, ToBytes(m.leaseTime)))
    decreases |os|
  {
    BytesRoundTrip(m.leaseTime);
    if os != [] {
      var m1 := Absorbed(m, os[0]);
      ClientTakesLast(os[1..], m1);
      if os[0].Opt? && os[0].code == LEASE_TIME && |os[0].data| == 4 {
        BytesBack(os[0].data);
      }
      if os[0].Opt? && os[0].code == MESSAGE_TYPE && |os[0].data| == 1 {
        assert os[0].data == [os[0].data[0]];
      }
    }
  }

  lemma BytesBack(b: seq<byte>)
    requires |b| == 4
    ensures ToBytes(FromBytes(b)) == b
  {
  }

  /** The client reads the server's replies as they were meant. */
  lemma ClientReadsReply(kind: byte, cfg: Config, m: Meta)
    ensures ClientView(ReplyOptions(kind, cfg), m)
            == Meta(kind, ToBytes(cfg.serverIp), ToBytes(cfg.subnetMask), cfg.leaseTime)
  {
    var o := ReplyOptions(kind, cfg);
    BytesRoundTrip(cfg.leaseTime);
    assert o[1..][1..] == o[2..] && o[2..][1..] == o[3..];
    assert o[3..][1..] == o[4..] && o[4..][1..] == o[5..] && o[5..][1..] == [];
    var m1 := Absorbed(m, o[0]);
    var m2 := Absorbed(m1, o[1]);
    var m3 := Absorbed(m2, o[2]);
    assert ClientView(o[5..], m3) == Absorbed(m3, o[5]);
    assert ClientView(o[3..], m3) == ClientView(o[4..], m3) == ClientView(o[5..], m3);
    assert ClientView(o, m) == ClientView(o[1..], m1) == ClientView(o[2..], m2) == ClientView(o[3..], m3);
  }

  lemma ClientReadsNak(m: Meta)
    ensures ClientView([Opt(MESSAGE_TYPE, [NAK])], m) == m.(kind := NAK)
  {
  }

  /** The options of the client's frames. */
  function ClientOptions(kind: byte, requested: uint32, server: uint32): seq<Item> {
    if kind == REQUEST then
      [Opt(MESSAGE_TYPE, [kind]), Opt(REQUESTED_IP, ToBytes(requested)), Opt(SERVER_ID, ToBytes(server))]
    else [Opt(MESSAGE_TYPE, [kind])]
  }

  /** Writes the options of a client's frame. */
  method BuildClientOptions(opts: array<byte>, kind: byte, requested: uint32, server: uint32)
    requires opts.Length >= 16
    modifies opts
    ensures Carries(opts[..], 0, ClientOptions(kind, requested, server))
  {
    var items := ClientOptions(kind, requested, server);
    PutOption(opts, 0, items[0]);
    ghost var first := opts[..];
    if kind == REQUEST {
      PutOption(opts, 3, items[1]);
      ghost var second := opts[..];
      PutOption(opts, 9, items[2]);
      ghost var third := opts[..];
      opts[15] := END;
      ItemKept(first, opts[..], 0, items[0], 3);
      ItemKept(second, opts[..], 3, items[1], 9);
      ItemKept(third, opts[..], 9, items[2], 15);
      assert items[1..][1..] == [items[2]] && [items[2]][1..] == [];
      assert Carries(opts[..], 9, [items[2]]);
      assert Carries(opts[..], 3, items[1..]);
    } else {
      opts[3] := END;
      ItemKept(first, opts[..], 0, items[0], 3);
      assert items[1..] == [];
    }
  }

  /** The server reads the client's frames as they were meant. */
  lemma ServerReadsClient(requested: uint32, server: uint32, mac: LeaseMap.Mac)
    ensures Decoded(ClientOptions(DISCOVER, requested, server), mac) == LeaseMap.Discover(mac)
    ensures Decoded(ClientOptions(REQUEST, requested, server), mac) == LeaseMap.Request(mac, Some(requested))
    ensures Lookup(ClientOptions(REQUEST, requested, server), 54) == Some(ToBytes(server))
  {
    BytesRoundTrip(requested);
    var o := ClientOptions(REQUEST, requested, server);
    assert o[1..][0] == o[1];
    assert Lookup(o[1..], REQUESTED_IP) == Some(ToBytes(requested));
    LookupAt(o, 54, 2);
  }
}
