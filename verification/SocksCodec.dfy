/**
 * The SOCKS5 address and UDP request formats (sections 5 and 7 of RFC 1928), their reused buffers, and the two
 * loops that read relayed datagrams.
 *
 * Host text is a sequence of bytes, as a Go string is. Parsing and printing of IP addresses belong to the platform
 * library and are passed in.
 */
module SocksCodec {
  import opened Outcomes

  type Byte = b: int | 0 <= b < 256
  type Bytes = seq<Byte>

  const IPV4: Byte := 1
  const DOMAIN: Byte := 3
  const IPV6: Byte := 4
  const COLON: Byte := 58
  const DOT: Byte := 46

  /** Three bytes of datagram prefix, the largest domain address, and its port. */
  const MAX_ENVELOPE := 3 + 1 + 1 + 255 + 2
  const MAX_DATAGRAM := 65507

  datatype Target = Target(host: Bytes, port: int)

  datatype Error = PortRange | DomainLength | DomainColon | UnexpectedEnd | EmptyDomain | BadType | BadPrefix | TooLong

  /** The platform's address parser, unmapped and without zones, and its printer. */
  datatype Addresses = Addresses(parse: Bytes -> Option<Bytes>, format: Bytes -> Bytes)

  predicate MayBeIPAddress(host: Bytes) {
    host != [] && (COLON in host || forall k :: 0 <= k < |host| ==> host[k] == DOT || 48 <= host[k] <= 57)
  }

  /** The address bytes a host is sent as, or None for a domain. */
  function AddressOf(ip: Addresses, host: Bytes): (r: Option<Bytes>)
    ensures r.Some? ==> |r.value| == 4 || |r.value| == 16
  {
    if MayBeIPAddress(host) && ip.parse(host).Some? && |ip.parse(host).value| in {4, 16} then ip.parse(host) else None
  }

  function PortBytes(port: int): Bytes
    requires 0 <= port <= 65535
  {
    [port / 256, port % 256]
  }

  function PortOf(high: int, low: int): int {
    256 * high + low
  }

  function EncodeAddress(ip: Addresses, t: Target): (r: Result<Bytes, Error>)
    ensures r.Ok? ==> 3 <= |r.value| <= MAX_ENVELOPE - 3
  {
    if t.port < 0 || t.port > 65535 then Err(PortRange)
    else match AddressOf(ip, t.host)
      case Some(address) => Ok([if |address| == 4 then IPV4 else IPV6] + address + PortBytes(t.port))
      case None =>
        if |t.host| == 0 || |t.host| > 255 then Err(DomainLength)
        else if COLON in t.host then Err(DomainColon)
        else Ok([DOMAIN, |t.host|] + t.host + PortBytes(t.port))
  }

  /** The host field: its text, and how many bytes it took after the type byte. */
  function ReadHost(ip: Addresses, kind: Byte, input: Bytes): Result<(Bytes, nat), Error> {
    if kind == IPV4 then (if |input| < 4 then Err(UnexpectedEnd) else Ok((ip.format(input[..4]), 4)))
    else if kind == IPV6 then (if |input| < 16 then Err(UnexpectedEnd) else Ok((ip.format(input[..16]), 16)))
    else if kind == DOMAIN then
      if |input| == 0 then Err(UnexpectedEnd)
      else if input[0] == 0 then Err(EmptyDomain)
      else
        var end: int := 1 + input[0] as int;
        if |input| < end then Err(UnexpectedEnd) else Ok((input[1..end], end))
    else Err(BadType)
  }

  /** One address off the front of a byte stream, and how many bytes it took. */
  function ReadAddress(ip: Addresses, input: Bytes): (r: Result<(Target, nat), Error>)
    ensures r.Ok? ==> r.value.1 <= |input| && r.value.1 <= MAX_ENVELOPE - 3
  {
    if |input| == 0 then Err(UnexpectedEnd)
    else match ReadHost(ip, input[0], input[1..])
      case Err(e) => Err(e)
      case Ok((host, n)) =>
        if |input| < 1 + n + 2 then Err(UnexpectedEnd)
        else Ok((Target(host, PortOf(input[1 + n], input[2 + n])), n + 3))
  }

  function EncodeDatagram(ip: Addresses, t: Target, payload: Bytes): Result<Bytes, Error> {
    match EncodeAddress(ip, t)
    case Err(e) => Err(e)
    case Ok(address) => if |payload| > MAX_DATAGRAM - (3 + |address|) then Err(TooLong)
      else Ok([0, 0, 0] + address + payload)
  }

  function ParseDatagram(ip: Addresses, packet: Bytes): Result<(Bytes, Target), Error> {
    if |packet| < 4 || packet[0] != 0 || packet[1] != 0 || packet[2] != 0 then Err(BadPrefix)
    else match ReadAddress(ip, packet[3..])
      case Err(e) => Err(e)
      case Ok((target, n)) => Ok((packet[3 + n..], target))
  }

  // ----- round trip -----

  /** The target a peer reads back: an IP address in the library's own spelling, a domain as it was. */
  function Spelled(ip: Addresses, t: Target): Target {
    match AddressOf(ip, t.host)
    case Some(address) => t.(host := ip.format(address))
    case None => t
  }

  lemma HostReadsBack(ip: Addresses, t: Target, rest: Bytes)
    requires EncodeAddress(ip, t).Ok?
    ensures var bytes := EncodeAddress(ip, t).value + rest;
            ReadHost(ip, bytes[0], bytes[1..]) == Ok((Spelled(ip, t).host, |EncodeAddress(ip, t).value| - 3))
  {
    var bytes := EncodeAddress(ip, t).value + rest;
    match AddressOf(ip, t.host) {
      case Some(address) => assert bytes[1..][..|address|] == address;
      case None => assert bytes[1..][1..1 + |t.host|] == t.host;
    }
  }

  lemma PortReadsBack(ip: Addresses, t: Target, rest: Bytes)
    requires EncodeAddress(ip, t).Ok?
    ensures var encoded := EncodeAddress(ip, t).value;
            var bytes := encoded + rest;
            PortOf(bytes[|encoded| - 2], bytes[|encoded| - 1]) == t.port
  {
    var encoded := EncodeAddress(ip, t).value;
    assert encoded[|encoded| - 2..] == PortBytes(t.port);
    assert encoded[|encoded| - 2] == PortBytes(t.port)[0] && encoded[|encoded| - 1] == PortBytes(t.port)[1];
  }

  /** An encoded address, followed by anything, reads back as itself. */
  lemma AddressRoundTrip(ip: Addresses, t: Target, rest: Bytes)
    requires EncodeAddress(ip, t).Ok?
    ensures ReadAddress(ip, EncodeAddress(ip, t).value + rest) == Ok((Spelled(ip, t), |EncodeAddress(ip, t).value|))
  {
    HostReadsBack(ip, t, rest);
    PortReadsBack(ip, t, rest);
  }

  /**
   * Parsing an encoded datagram gives back the payload and the target, byte for byte unless the host is a differently
   * spelled IP.
   */
  lemma DatagramRoundTrip(ip: Addresses, t: Target, payload: Bytes)
    requires EncodeDatagram(ip, t, payload).Ok?
    ensures ParseDatagram(ip, EncodeDatagram(ip, t, payload).value) == Ok((payload, Spelled(ip, t)))
    ensures Spelled(ip, t) == t <==> AddressOf(ip, t.host).None? || ip.format(AddressOf(ip, t.host).value) == t.host
    ensures |EncodeDatagram(ip, t, payload).value| <= MAX_DATAGRAM
  {
    var address := EncodeAddress(ip, t).value;
    var packet := EncodeDatagram(ip, t, payload).value;
    assert packet[3..] == address + payload;
    AddressRoundTrip(ip, t, payload);
    assert packet[3 + |address|..] == payload;
  }

  // ----- the layout on the wire -----

  /**
   * Sections 4 and 5 of RFC 1928: type byte 1 and four address bytes, type byte 4 and sixteen, or type byte 3, a length
   * and that many bytes of name; then the port, high byte first.
   */
  lemma WireLayout(ip: Addresses, t: Target)
    requires EncodeAddress(ip, t).Ok?
    ensures var b := EncodeAddress(ip, t).value;
            && (match AddressOf(ip, t.host)
                case Some(address) =>
                  && b[0] == (if |address| == 4 then 1 else 4) && |b| == 1 + |address| + 2
                  && b[1..1 + |address|] == address
                case None =>
                  && b[0] == 3 && b[1] == |t.host| && |b| == 2 + |t.host| + 2
                  && b[2..2 + |t.host|] == t.host)
            && b[|b| - 2] == t.port / 256 && b[|b| - 1] == t.port % 256
  {
    var b := EncodeAddress(ip, t).value;
    assert b[|b| - 2..] == PortBytes(t.port);
    assert b[|b| - 2] == PortBytes(t.port)[0] && b[|b| - 1] == PortBytes(t.port)[1];
  }

  /** What can be sent at all. */
  lemma EncodableExactly(ip: Addresses, t: Target)
    ensures EncodeAddress(ip, t).Ok? <==>
            && 0 <= t.port <= 65535
            && (AddressOf(ip, t.host).Some? || (1 <= |t.host| <= 255 && COLON !in t.host))
  {
  }

  /** Section 7 of RFC 1928: two reserved bytes, no fragmentation, the address, the payload. */
  lemma DatagramLayout(ip: Addresses, t: Target, payload: Bytes)
    requires EncodeDatagram(ip, t, payload).Ok?
    ensures EncodeDatagram(ip, t, payload).value == [0, 0, 0] + EncodeAddress(ip, t).value + payload
  {
  }

  /**
   * Only such datagrams are accepted: reserved bytes and fragment number zero, a complete address of one of the three
   * types, a name of at least one byte, a port; everything behind it is the payload.
   */
  lemma ParsedLayout(ip: Addresses, packet: Bytes)
    requires ParseDatagram(ip, packet).Ok?
    ensures var (payload, target) := ParseDatagram(ip, packet).value;
            && |packet| >= 7 && packet[0] == 0 && packet[1] == 0 && packet[2] == 0
            && packet[3] in {1, 3, 4} && (packet[3] == 3 ==> packet[4] > 0)
            && var host := if packet[3] == 1 then 4 else if packet[3] == 4 then 16 else 1 + packet[4] as int;
               && |packet| == 4 + host + 2 + |payload| && payload == packet[6 + host..]
               && target.port == 256 * (packet[4 + host] as int) + packet[5 + host] as int
               && target.host == if packet[3] == 3 then packet[5..4 + host] else ip.format(packet[4..4 + host])
  {
    var input := packet[3..];
    assert forall k :: 0 <= k < |input| ==> input[k] == packet[3 + k];
    var rest := input[1..];
    assert rest == packet[4..];
    var (host, n) := ReadHost(ip, input[0], rest).value;
    assert rest[..n] == packet[4..4 + n] && rest[1..n] == packet[5..4 + n];
    assert input[1 + n] == packet[4 + n] && input[2 + n] == packet[5 + n];
  }

  /** Texts an address parser can accept: with a colon, or of digits and dots. */
  ghost predicate ParsesAddressesOnly(ip: Addresses) {
    forall host :: ip.parse(host).Some? ==>
        host != [] && (COLON in host || forall c <- host :: c == DOT || 48 <= c <= 57)
  }

  /** The quick look before parsing never costs an address: whatever the parser accepts is sent as an address. */
  lemma QuickLookIsHarmless(ip: Addresses, host: Bytes)
    requires ParsesAddressesOnly(ip)
    ensures AddressOf(ip, host) ==
            if ip.parse(host).Some? && |ip.parse(host).value| in {4, 16} then ip.parse(host) else None
  {
    if ip.parse(host).Some? && COLON !in host {
      forall k | 0 <= k < |host| ensures host[k] == DOT || 48 <= host[k] <= 57 {
        assert host[k] in host;
      }
    }
  }

  // ----- buffers -----

  function Clamp(required: int): nat {
    if required > MAX_DATAGRAM then MAX_DATAGRAM else if required < 0 then 0 else required
  }

  /** The storage an encode asks for. */
  function EncodeSize(payload: nat): nat {
    if payload <= MAX_DATAGRAM - MAX_ENVELOPE then payload + MAX_ENVELOPE else MAX_DATAGRAM
  }

  /** The buffer a read of at most `payload` bytes uses: one byte more than the largest envelope needs. */
  function ReadSize(payload: nat): nat {
    if payload <= MAX_DATAGRAM - MAX_ENVELOPE - 1 then payload + MAX_ENVELOPE + 1 else MAX_DATAGRAM
  }

  /** Grows by doubling, never past the largest datagram; keeps storage that is already big enough. */
  method ResizeBuffer(storage: array<Byte>, required: int) returns (buffer: array<Byte>)
    ensures buffer.Length >= Clamp(required)
    ensures storage.Length >= Clamp(required) ==> buffer == storage
    ensures storage.Length < Clamp(required) ==>
            fresh(buffer) && buffer.Length <= MAX_DATAGRAM && buffer.Length >= Clamp(required)
    ensures storage.Length < Clamp(required) && 2 * storage.Length <= MAX_DATAGRAM ==>
            buffer.Length >= 2 * storage.Length
  {
    var want := Clamp(required);
    buffer := storage;
    if storage.Length < want {
      var capacity := storage.Length * 2;
      if capacity < want {
        capacity := want;
      }
      if capacity > MAX_DATAGRAM {
        capacity := MAX_DATAGRAM;
      }
      buffer := new Byte[capacity];
    }
  }

  /** append() within capacity: the bytes land at `at` and nothing before them moves. */
  method AppendInto(buffer: array<Byte>, at: nat, bytes: Bytes) returns (end: nat)
    requires at + |bytes| <= buffer.Length
    modifies buffer
    ensures end == at + |bytes| && buffer[..end] == old(buffer[..at]) + bytes
  {
    for k := 0 to |bytes|
      invariant buffer[..at + k] == old(buffer[..at]) + bytes[..k]
    {
      buffer[at + k] := bytes[k];
      assert buffer[..at + k + 1] == buffer[..at + k] + [bytes[k]];
      assert bytes[..k + 1] == bytes[..k] + [bytes[k]];
    }
    end := at + |bytes|;
  }

  /** Encodes in place: the packet never outgrows the resized storage, so nothing is reallocated on the way. */
  method EncodeInto(ip: Addresses, storage: array<Byte>, t: Target, payload: Bytes)
    returns (r: Result<nat, Error>, buffer: array<Byte>)
    modifies storage
    ensures buffer == storage || fresh(buffer)
    ensures buffer.Length <= storage.Length || buffer.Length <= MAX_DATAGRAM
    ensures r.Ok? <==> EncodeDatagram(ip, t, payload).Ok?
    ensures r.Ok? ==> r.value <= EncodeSize(|payload|) <= buffer.Length
    ensures r.Ok? ==> buffer[..r.value] == EncodeDatagram(ip, t, payload).value
    ensures r.Err? ==> r == Err(EncodeDatagram(ip, t, payload).error)
  {
    buffer := ResizeBuffer(storage, EncodeSize(|payload|));
    var n := AppendInto(buffer, 0, [0, 0, 0]);
    assert buffer[..n] == [0, 0, 0];
    var address := EncodeAddress(ip, t);
    if address.Err? {
      return Err(address.error), buffer;
    }
    n := AppendInto(buffer, n, address.value);
    if |payload| > MAX_DATAGRAM - n {
      return Err(TooLong), buffer;
    }
    n := AppendInto(buffer, n, payload);
    r := Ok(n);
  }

  // ----- reading -----

  datatype Source = Source(ip: Bytes, port: int)

  datatype Arrival = Arrival(source: Source, datagram: Bytes)

  /** What a socket hands over of a datagram when the buffer has room for `size` bytes. */
  function Received(datagram: Bytes, size: nat): Bytes {
    if |datagram| <= size then datagram else datagram[..size]
  }

  /** The payload and target a read would deliver, if the datagram is one it delivers. */
  function Deliverable(ip: Addresses, packet: Bytes, room: nat): Option<(Bytes, Target)> {
    match ParseDatagram(ip, packet)
    case Err(_) => None
    case Ok((payload, target)) => if |payload| > room then None else Some((payload, target))
  }

  lemma CutAgrees(s: Bytes, k: nat, from: nat, to: nat)
    requires 0 < k <= |s| && from <= to < k
    ensures s[..k][1..][from..to] == s[1..][from..to]
  {
    forall i | 0 <= i < to - from
      ensures s[..k][1..][from..to][i] == s[1..][from..to][i]
    {
      assert s[..k][1..][from + i] == s[1 + from + i] == s[1..][from + i];
    }
  }

  /** An address takes at most 259 bytes, so a longer prefix reads the same. */
  lemma AddressIgnoresTail(ip: Addresses, input: Bytes, k: nat)
    requires MAX_ENVELOPE - 3 <= k <= |input|
    ensures ReadAddress(ip, input[..k]) == ReadAddress(ip, input)
  {
    assert input[..k][0] == input[0];
    CutAgrees(input, k, 0, 4);
    CutAgrees(input, k, 0, 16);
    CutAgrees(input, k, 1, 1 + input[1] as int);
  }

  /**
   * A read buffer that cannot cut a payload short: it is the largest datagram there is, or it has room for every
   * envelope, the whole payload, and one byte more.
   */
  predicate RoomToTell(room: nat, longest: nat) {
    longest <= MAX_DATAGRAM || room < MAX_DATAGRAM - MAX_ENVELOPE
  }

  /** A datagram cut off by the read buffer is never delivered, and a deliverable one is never cut off. */
  lemma TruncationIsDropped(ip: Addresses, datagram: Bytes, room: nat)
    requires RoomToTell(room, |datagram|)
    ensures Deliverable(ip, Received(datagram, ReadSize(room)), room) == Deliverable(ip, datagram, room)
    ensures |datagram| > ReadSize(room) ==> Deliverable(ip, datagram, room).None?
  {
    var size := ReadSize(room);
    if |datagram| > size {
      var short := Received(datagram, size);
      assert short[3..] == datagram[3..][..size - 3];
      AddressIgnoresTail(ip, datagram[3..], size - 3);
      assert short[0] == datagram[0] && short[1] == datagram[1] && short[2] == datagram[2];
    }
  }

  /** Datagrams up to `longest` bytes are delivered whole or not at all. */
  ghost predicate NeverShort(ip: Addresses, room: nat, longest: nat) {
    forall datagram: Bytes :: |datagram| <= longest ==>
      Deliverable(ip, Received(datagram, ReadSize(room)), room) == Deliverable(ip, datagram, room)
  }

  /** One byte over the limit under the largest envelope: the cut leaves a shorter payload that looks complete. */
  function Oversized(): (d: Bytes)
    ensures |d| == MAX_DATAGRAM + 1
  {
    [0, 0, 0, DOMAIN, 255] + seq(255, i => DOT) + [0, 0] + seq(MAX_DATAGRAM + 1 - MAX_ENVELOPE, i => 0)
  }

  lemma OversizedReads(ip: Addresses, n: nat)
    requires MAX_ENVELOPE <= n <= MAX_DATAGRAM + 1
    ensures var packet := Oversized()[..n];
            ParseDatagram(ip, packet).Ok? && |ParseDatagram(ip, packet).value.0| == n - MAX_ENVELOPE
  {
    var packet := Oversized()[..n];
    assert packet[3] == DOMAIN && packet[4] == 255;
    assert packet[3..][1..][0] == 255;
  }

  /** Exactly when no datagram is delivered short. IPv4 cannot carry one over 65507 bytes; a wider path could. */
  lemma NeverShortExactly(ip: Addresses, room: nat, longest: nat)
    ensures NeverShort(ip, room, longest) <==> RoomToTell(room, longest)
  {
    if RoomToTell(room, longest) {
      forall datagram: Bytes | |datagram| <= longest
        ensures Deliverable(ip, Received(datagram, ReadSize(room)), room) == Deliverable(ip, datagram, room)
      {
        TruncationIsDropped(ip, datagram, room);
      }
    } else {
      var d := Oversized();
      OversizedReads(ip, MAX_DATAGRAM);
      OversizedReads(ip, MAX_DATAGRAM + 1);
      assert d[..MAX_DATAGRAM + 1] == d;
      assert Received(d, ReadSize(room)) == d[..MAX_DATAGRAM];
      assert Deliverable(ip, d[..MAX_DATAGRAM], room).Some?;
      assert Deliverable(ip, d[..MAX_DATAGRAM], room) != Deliverable(ip, d, room);
    }
  }

  /** What the fixed upstream connection accepts. */
  function AcceptFixed(ip: Addresses, a: Arrival, relay: Source, port: int, room: nat): Option<Bytes> {
    if a.source != relay then None
    else match Deliverable(ip, a.datagram, room)
      case None => None
      case Some((payload, target)) => if target.port != port then None else Some(payload)
  }

  /**
   * What a peer sends through the relay arrives: whole, at a reader with room for it, for the right port and only then.
   */
  lemma EncodedIsAccepted(ip: Addresses, source: Source, relay: Source, t: Target, port: int, payload: Bytes, room: nat)
    requires EncodeDatagram(ip, t, payload).Ok?
    ensures AcceptFixed(ip, Arrival(source, EncodeDatagram(ip, t, payload).value), relay, port, room) ==
            if source == relay && t.port == port && |payload| <= room then Some(payload) else None
  {
    DatagramRoundTrip(ip, t, payload);
  }

  /**
   * fixedSOCKSPacketConn.ReadFrom: the first arrival from the relay that parses in full, names the right port and fits,
   * delivered whole. The read buffer's size cannot be told from the outside.
   */
  method ReadFixed(ip: Addresses, arrivals: seq<Arrival>, relay: Source, port: int,
      room: nat) returns (r: Option<(nat, Bytes)>)
    requires forall k :: 0 <= k < |arrivals| ==> RoomToTell(room, |arrivals[k].datagram|)
    ensures r.Some? ==>
              && r.value.0 < |arrivals| && AcceptFixed(ip, arrivals[r.value.0], relay, port, room) == Some(r.value.1)
              && forall k :: 0 <= k < r.value.0 ==> AcceptFixed(ip, arrivals[k], relay, port, room).None?
    ensures r.None? ==> forall k :: 0 <= k < |arrivals| ==> AcceptFixed(ip, arrivals[k], relay, port, room).None?
  {
    var size := ReadSize(room);
    for k := 0 to |arrivals|
      invariant forall j :: 0 <= j < k ==> AcceptFixed(ip, arrivals[j], relay, port, room).None?
    {
      TruncationIsDropped(ip, arrivals[k].datagram, room);
      var packet := Received(arrivals[k].datagram, size);
      if arrivals[k].source == relay {
        var parsed := ParseDatagram(ip, packet);
        if parsed.Ok? && parsed.value.1.port == port && |parsed.value.0| <= room {
          return Some((k, parsed.value.0));
        }
      }
    }
    return None;
  }

  /** The first source with the allowed address is kept for good. */
  function PinnedBy(relay: Option<Source>, a: Arrival, allowedIP: Bytes): Option<Source> {
    if relay.None? && a.source.ip == allowedIP then Some(a.source) else relay
  }

  function Pinned(relay: Option<Source>, arrivals: seq<Arrival>, n: nat, allowedIP: Bytes): Option<Source>
    requires n <= |arrivals|
  {
    if n == 0 then relay else PinnedBy(Pinned(relay, arrivals, n - 1, allowedIP), arrivals[n - 1], allowedIP)
  }

  /** The relay is the first allowed source ever seen, and never changes again. */
  lemma {:induction false} PinnedOnce(relay: Option<Source>, arrivals: seq<Arrival>, n: nat, allowedIP: Bytes)
    requires n <= |arrivals|
    ensures relay.Some? ==> Pinned(relay, arrivals, n, allowedIP) == relay
    ensures relay.None? ==>
              match Pinned(relay, arrivals, n, allowedIP)
              case None => forall k :: 0 <= k < n ==> arrivals[k].source.ip != allowedIP
              case Some(source) => exists k :: 0 <= k < n && arrivals[k].source == source && source.ip == allowedIP &&
                                               forall j :: 0 <= j < k ==> arrivals[j].source.ip != allowedIP
  {
    if n > 0 {
      PinnedOnce(relay, arrivals, n - 1, allowedIP);
    }
  }

  function AcceptServer(ip: Addresses, a: Arrival, pinned: Option<Source>, allowedIP: Bytes, allows: Target -> bool,
      room: nat): Option<(Bytes, Target)> {
    if a.source.ip != allowedIP || pinned != Some(a.source) then None
    else match Deliverable(ip, a.datagram, room)
      case None => None
      case Some((payload, target)) => if allows(target) then Some((payload, target)) else None
  }

  /** The same at the server's end, from the pinned source and to an allowed target. */
  lemma EncodedIsServed(
    ip: Addresses, source: Source, pinned: Option<Source>, allowedIP: Bytes, allows: Target -> bool,
    t: Target, payload: Bytes, room: nat)
    requires EncodeDatagram(ip, t, payload).Ok?
    ensures AcceptServer(ip, Arrival(source, EncodeDatagram(ip, t, payload).value), pinned, allowedIP, allows, room) ==
            if source.ip == allowedIP && pinned == Some(source) && |payload| <= room && allows(Spelled(ip, t))
            then Some((payload, Spelled(ip, t))) else None
  {
    DatagramRoundTrip(ip, t, payload);
  }

  /** Arrival `k` is passed over by a connection that was pinned to `relay` before the first of them. */
  predicate PassedOver(ip: Addresses, relay: Option<Source>, arrivals: seq<Arrival>, k: nat, allowedIP: Bytes,
      allows: Target -> bool, room: nat)
    requires k < |arrivals|
  {
    AcceptServer(ip, arrivals[k], Pinned(relay, arrivals, k + 1, allowedIP), allowedIP, allows, room).None?
  }

  class ServerConn {
    const ip: Addresses
    const allowedIP: Bytes
    const allows: Target -> bool
    var relay: Option<Source>

    constructor (ip: Addresses, allowedIP: Bytes, allows: Target -> bool)
      ensures this.ip == ip && this.allowedIP == allowedIP && this.allows == allows && relay == None
    {
      this.ip, this.allowedIP, this.allows, relay := ip, allowedIP, allows, None;
    }

    /** One turn of the loop, over a buffer of `ReadSize(room)` bytes. */
    method Look(a: Arrival, room: nat) returns (r: Option<(Bytes, Target)>)
      requires RoomToTell(room, |a.datagram|)
      modifies this
      ensures relay == PinnedBy(old(relay), a, allowedIP)
      ensures r == AcceptServer(ip, a, relay, allowedIP, allows, room)
    {
      TruncationIsDropped(ip, a.datagram, room);
      var packet := Received(a.datagram, ReadSize(room));
      if a.source.ip != allowedIP {
        return None;
      }
      if relay.None? {
        relay := Some(a.source);
      }
      if relay != Some(a.source) {
        return None;
      }
      var parsed := ParseDatagram(ip, packet);
      if parsed.Err? || !allows(parsed.value.1) || |parsed.value.0| > room {
        return None;
      }
      r := Some(parsed.value);
    }

    /** socksServerPacketConn.ReadFrom: pins the first source from the allowed address and serves only that one. */
    method ReadFrom(arrivals: seq<Arrival>, room: nat) returns (r: Option<(Bytes, Target)>, seen: nat)
      requires forall k :: 0 <= k < |arrivals| ==> RoomToTell(room, |arrivals[k].datagram|)
      modifies this
      ensures seen <= |arrivals| && relay == Pinned(old(relay), arrivals, seen, allowedIP)
      ensures r.None? ==> seen == |arrivals|
      ensures r.Some? ==> seen > 0 && AcceptServer(ip, arrivals[seen - 1], relay, allowedIP, allows, room) == r
      ensures forall k :: 0 <= k < (if r.Some? then seen - 1 else seen) ==>
                PassedOver(ip, old(relay), arrivals, k, allowedIP, allows, room)
    {
      r, seen := None, 0;
      while r.None? && seen < |arrivals|
        invariant seen <= |arrivals| && relay == Pinned(old(relay), arrivals, seen, allowedIP)
        invariant r.Some? ==> seen > 0 && AcceptServer(ip, arrivals[seen - 1], relay, allowedIP, allows, room) == r
        invariant forall k :: 0 <= k < (if r.Some? then seen - 1 else seen) ==>
                    PassedOver(ip, old(relay), arrivals, k, allowedIP, allows, room)
        decreases |arrivals| - seen
      {
        r := Look(arrivals[seen], room);
        seen := seen + 1;
      }
    }
  }
}
