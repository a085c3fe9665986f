/** The address field of SOCKS5 messages (section 5 of RFC 1928): writer, parser and length. */
module Socks5 {
  import opened Machine

  const ADDR_TYPE_IPV4: byte := 0x01
  const ADDR_TYPE_DOMAIN_NAME: byte := 0x03
  const ADDR_TYPE_IPV6: byte := 0x04

  datatype SocketAddr =
    | V4(octets: seq<byte>, port: u16)
    | V6(segments: seq<u16>, port: u16, flowinfo: u32, scope: u32)

  /** A domain name is kept as its UTF-8 bytes. */
  datatype Address = SocketAddress(addr: SocketAddr) | DomainNameAddress(name: seq<byte>, port: u16)

  datatype ParseError = Truncated | InvalidEncoding | TypeNotSupported

  datatype Parsed = Parsed(address: Address) | Failed(error: ParseError)

  // ---------- UTF-8 (section 4 of RFC 3629)

  predicate Tail(x: byte) {
    0x80 <= x <= 0xBF
  }

  /** The length of the well-formed character at the front, or 0. */
  function CharLength(b: seq<byte>): nat {
    if b == [] then 0
    else if b[0] <= 0x7F then 1
    else if |b| >= 2 && 0xC2 <= b[0] <= 0xDF && Tail(b[1]) then 2
    else if |b| >= 3 && 0xE0 <= b[0] <= 0xEF && Tail(b[1]) && Tail(b[2])
            && (b[0] == 0xE0 ==> b[1] >= 0xA0) && (b[0] == 0xED ==> b[1] <= 0x9F) then 3
    else if |b| >= 4 && 0xF0 <= b[0] <= 0xF4 && Tail(b[1]) && Tail(b[2]) && Tail(b[3])
            && (b[0] == 0xF0 ==> b[1] >= 0x90) && (b[0] == 0xF4 ==> b[1] <= 0x8F) then 4
    else 0
  }

  predicate Utf8(b: seq<byte>)
    decreases |b|
  {
    b == [] || (0 < CharLength(b) <= |b| && Utf8(b[CharLength(b)..]))
  }

  /** What the types of the program guarantee. */
  predicate WellFormed(a: Address) {
    match a
    case SocketAddress(V4(octets, _)) => |octets| == 4
    case SocketAddress(V6(segments, _, _, _)) => |segments| == 8
    case DomainNameAddress(name, _) => Utf8(name)
  }

  /** What the wire format can carry: no IPv6 flow label or scope, and a name whose length fits a byte. */
  predicate Representable(a: Address) {
    match a
    case SocketAddress(V4(_, _)) => true
    case SocketAddress(V6(_, _, flowinfo, scope)) => flowinfo == 0 && scope == 0
    case DomainNameAddress(name, _) => |name| <= 0xFF
  }

  // ---------- The format

  function Words(ws: seq<u16>): seq<byte> {
    if ws == [] then [] else Be16(ws[0]) + Words(ws[1..])
  }

  function Encode(a: Address): seq<byte> {
    match a
    case SocketAddress(V4(octets, port)) => [ADDR_TYPE_IPV4] + octets + Be16(port)
    case SocketAddress(V6(segments, port, _, _)) => [ADDR_TYPE_IPV6] + Words(segments) + Be16(port)
    case DomainNameAddress(name, port) => [ADDR_TYPE_DOMAIN_NAME] + [|name| % 0x100] + name + Be16(port)
  }

  /** The number of bytes an address takes. */
  function AddrLen(a: Address): nat {
    match a
    case SocketAddress(V4(_, _)) => 1 + 4 + 2
    case SocketAddress(V6(_, _, _, _)) => 1 + 8 * 2 + 2
    case DomainNameAddress(name, _) => 1 + 1 + |name| + 2
  }

  function ReadWords(b: seq<byte>): (r: seq<u16>)
    requires |b| % 2 == 0
    ensures |r| == |b| / 2
  {
    if b == [] then [] else [ReadBe16(b)] + ReadWords(b[2..])
  }

  /** The parser on the bytes that remain in a stream: its result, and the bytes it leaves. A read that finds too
      few bytes takes what there is. */
  function Decode(b: seq<byte>): (Parsed, seq<byte>) {
    if |b| < 1 then (Failed(Truncated), [])
    else if b[0] == ADDR_TYPE_IPV4 then DecodeV4(b[1..])
    else if b[0] == ADDR_TYPE_IPV6 then DecodeV6(b[1..])
    else if b[0] == ADDR_TYPE_DOMAIN_NAME then DecodeDomain(b[1..])
    else (Failed(TypeNotSupported), b[1..])
  }

  function DecodeV4(b: seq<byte>): (Parsed, seq<byte>) {
    if |b| < 6 then (Failed(Truncated), [])
    else (Parsed(SocketAddress(V4(b[..4], ReadBe16(b[4..])))), b[6..])
  }

  function DecodeV6(b: seq<byte>): (Parsed, seq<byte>) {
    if |b| < 18 then (Failed(Truncated), [])
    else (Parsed(SocketAddress(V6(ReadWords(b[..16]), ReadBe16(b[16..]), 0, 0))), b[18..])
  }

  function DecodeDomain(b: seq<byte>): (Parsed, seq<byte>) {
    if |b| < 1 then (Failed(Truncated), [])
    else
      var length: nat := b[0];
      if |b| - 1 < length + 2 then (Failed(Truncated), [])
      else
        var name, rest := b[1..1 + length], b[length + 3..];
        if !Utf8(name) then (Failed(InvalidEncoding), rest)
        else (Parsed(DomainNameAddress(name, ReadBe16(b[1 + length..]))), rest)
  }

  // ---------- Round trips

  lemma {:induction false} WordsLength(ws: seq<u16>)
    ensures |Words(ws)| == 2 * |ws|
  {
    if ws != [] { WordsLength(ws[1..]); }
  }

  lemma {:induction false} ReadUndoesWords(ws: seq<u16>)
    ensures |Words(ws)| % 2 == 0 && ReadWords(Words(ws)) == ws
  {
    WordsLength(ws);
    if ws != [] {
      ReadUndoesWords(ws[1..]);
      var b := Words(ws);
      assert b[2..] == Words(ws[1..]);
      assert b[0] == Be16(ws[0])[0] && b[1] == Be16(ws[0])[1];
      Read16UndoesWrite(ws[0]);
    }
  }

  lemma {:induction false} WordsUndoesRead(b: seq<byte>)
    requires |b| % 2 == 0
    ensures Words(ReadWords(b)) == b
    decreases |b|
  {
    if b != [] {
      WordsUndoesRead(b[2..]);
      WriteUndoesRead(b[..2]);
      assert ReadBe16(b) == ReadBe16(b[..2]);
      assert b == b[..2] + b[2..];
    }
  }

  /** The length function agrees with the writer. */
  lemma LengthAgrees(a: Address)
    requires WellFormed(a)
    ensures |Encode(a)| == AddrLen(a)
  {
    if a.SocketAddress? && a.addr.V6? {
      WordsLength(a.addr.segments);
    }
  }

  lemma ReadAt(b: seq<byte>, at: nat, x: u16)
    requires at + 2 <= |b| && b[at..at + 2] == Be16(x)
    ensures ReadBe16(b[at..]) == x
  {
    var word := b[at..at + 2];
    assert b[at..][0] == word[0] && b[at..][1] == word[1];
    Read16UndoesWrite(x);
  }

  lemma DecodeV4UndoesEncode(octets: seq<byte>, port: u16, rest: seq<byte>)
    requires |octets| == 4
    ensures DecodeV4(octets + Be16(port) + rest) == (Parsed(SocketAddress(V4(octets, port))), rest)
  {
    var b := octets + Be16(port) + rest;
    assert b[..4] == octets && b[4..6] == Be16(port) && b[6..] == rest;
    ReadAt(b, 4, port);
  }

  lemma DecodeV6UndoesEncode(segments: seq<u16>, port: u16, rest: seq<byte>)
    requires |segments| == 8
    ensures DecodeV6(Words(segments) + Be16(port) + rest) == (Parsed(SocketAddress(V6(segments, port, 0, 0))), rest)
  {
    var b := Words(segments) + Be16(port) + rest;
    WordsLength(segments);
    assert b[..16] == Words(segments) && b[16..18] == Be16(port) && b[18..] == rest;
    ReadUndoesWords(segments);
    ReadAt(b, 16, port);
  }

  lemma DecodeDomainUndoesEncode(name: seq<byte>, port: u16, rest: seq<byte>)
    requires |name| <= 0xFF && Utf8(name)
    ensures DecodeDomain([|name|] + name + Be16(port) + rest) == (Parsed(DomainNameAddress(name, port)), rest)
  {
    hide Utf8;
    var b, n := [|name|] + name + Be16(port) + rest, |name|;
    assert b[1..1 + n] == name && b[1 + n..n + 3] == Be16(port) && b[n + 3..] == rest;
    ReadAt(b, 1 + n, port);
  }

  /** Parsing undoes writing, whatever follows in the stream; only what the format cannot carry is lost. */
  lemma DecodeUndoesEncode(a: Address, rest: seq<byte>)
    requires WellFormed(a) && (a.DomainNameAddress? ==> |a.name| <= 0xFF)
    ensures Decode(Encode(a) + rest) == (Parsed(Carried(a)), rest)
    ensures Representable(a) ==> Decode(Encode(a) + rest) == (Parsed(a), rest)
  {
    hide Utf8, DecodeV4, DecodeV6, DecodeDomain, Words;
    var b := Encode(a) + rest;
    match a
    case SocketAddress(V4(octets, port)) =>
      DecodeV4UndoesEncode(octets, port, rest);
      assert b[1..] == octets + Be16(port) + rest;
    case SocketAddress(V6(segments, port, flowinfo, scope)) =>
      DecodeV6UndoesEncode(segments, port, rest);
      assert b[1..] == Words(segments) + Be16(port) + rest;
    case DomainNameAddress(name, port) =>
      DecodeDomainUndoesEncode(name, port, rest);
      assert b[1..] == [|name|] + name + Be16(port) + rest;
  }

  /** The part of an address that is on the wire. */
  function Carried(a: Address): Address {
    match a
    case SocketAddress(V6(segments, port, _, _)) => SocketAddress(V6(segments, port, 0, 0))
    case _ => a
  }

  lemma EncodeUndoesDecodeV4(c: seq<byte>)
    requires |c| >= 6
    ensures c == c[..4] + Be16(ReadBe16(c[4..])) + c[6..]
  {
    Be16Back(c, 4);
  }

  lemma EncodeUndoesDecodeV6(c: seq<byte>)
    requires |c| >= 18
    ensures |ReadWords(c[..16])| == 8
    ensures c == Words(ReadWords(c[..16])) + Be16(ReadBe16(c[16..])) + c[18..]
  {
    Be16Back(c, 16);
    WordsUndoesRead(c[..16]);
  }

  lemma EncodeUndoesDecodeDomain(c: seq<byte>)
    requires |c| >= 1 && |c| - 1 >= c[0] as int + 2
    ensures var n: nat := c[0]; c == [n] + c[1..1 + n] + Be16(ReadBe16(c[1 + n..])) + c[n + 3..]
  {
    var n: nat := c[0];
    Be16Back(c, 1 + n);
  }

  /** Writing undoes parsing: the bytes taken from the stream are the one encoding of the address returned, which
      is well formed and representable. */
  lemma EncodeUndoesDecode(b: seq<byte>)
    requires Decode(b).0.Parsed?
    ensures var (r, rest) := Decode(b);
            WellFormed(r.address) && Representable(r.address) && b == Encode(r.address) + rest
  {
    hide Utf8, Words, ReadWords, Be16, ReadBe16;
    var c := b[1..];
    assert b == [b[0]] + c;
    if b[0] == ADDR_TYPE_IPV4 {
      EncodeUndoesDecodeV4(c);
    } else if b[0] == ADDR_TYPE_IPV6 {
      EncodeUndoesDecodeV6(c);
    } else {
      EncodeUndoesDecodeDomain(c);
    }
  }

  lemma Be16Back(c: seq<byte>, at: nat)
    requires at + 2 <= |c|
    ensures Be16(ReadBe16(c[at..])) == c[at..at + 2]
  {
    WriteUndoesRead(c[at..at + 2]);
    assert ReadBe16(c[at..]) == ReadBe16(c[at..at + 2]);
  }

  /** The parser succeeds exactly on the streams that begin with an encoding. */
  lemma DecodeSucceedsIff(b: seq<byte>)
    ensures Decode(b).0.Parsed? <==>
            exists a, rest :: WellFormed(a) && Representable(a) && b == Encode(a) + rest
  {
    if Decode(b).0.Parsed? {
      EncodeUndoesDecode(b);
    }
    forall a, rest | WellFormed(a) && Representable(a) && b == Encode(a) + rest
      ensures Decode(b).0.Parsed?
    {
      DecodeUndoesEncode(a, rest);
    }
  }

  /** No encoding is a proper prefix of another. */
  lemma EncodePrefixFree(a: Address, c: Address, x: seq<byte>, y: seq<byte>)
    requires WellFormed(a) && Representable(a) && WellFormed(c) && Representable(c)
    requires Encode(a) + x == Encode(c) + y
    ensures a == c && x == y
  {
    DecodeUndoesEncode(a, x);
    DecodeUndoesEncode(c, y);
  }

  function EncodeList(addresses: seq<Address>): seq<byte> {
    if addresses == [] then [] else Encode(addresses[0]) + EncodeList(addresses[1..])
  }

  ghost predicate AllRepresentable(addresses: seq<Address>) {
    forall i :: 0 <= i < |addresses| ==> WellFormed(addresses[i]) && Representable(addresses[i])
  }

  lemma EncodingNotEmpty(a: Address)
    ensures Encode(a) != []
  {
  }

  /** Addresses written one after another decode in one way only. */
  lemma {:induction false} ListsDecodeUniquely(xs: seq<Address>, ys: seq<Address>)
    requires AllRepresentable(xs) && AllRepresentable(ys) && EncodeList(xs) == EncodeList(ys)
    ensures xs == ys
  {
    hide Encode, AddrLen, WellFormed, Representable;
    if xs == [] || ys == [] {
      if xs != [] { EncodingNotEmpty(xs[0]); }
      if ys != [] { EncodingNotEmpty(ys[0]); }
    } else {
      EncodePrefixFree(xs[0], ys[0], EncodeList(xs[1..]), EncodeList(ys[1..]));
      ListsDecodeUniquely(xs[1..], ys[1..]);
      assert xs == [xs[0]] + xs[1..] && ys == [ys[0]] + ys[1..];
    }
  }

  // ---------- Writer

  /** A growing byte buffer. */
  class Buffer {
    var bytes: seq<byte>

    constructor ()
      ensures bytes == []
    {
      bytes := [];
    }

    method PutU8(x: byte)
      modifies this
      ensures bytes == old(bytes) + [x]
    {
      bytes := bytes + [x];
    }

    method PutU16(x: u16)
      modifies this
      ensures bytes == old(bytes) + Be16(x)
    {
      bytes := bytes + Be16(x);
    }

    method PutSlice(s: seq<byte>)
      modifies this
      ensures bytes == old(bytes) + s
    {
      bytes := bytes + s;
    }
  }

  method WriteIpv4Address(octets: seq<byte>, port: u16, buf: Buffer)
    modifies buf
    ensures buf.bytes == old(buf.bytes) + Encode(SocketAddress(V4(octets, port)))
  {
    buf.PutU8(ADDR_TYPE_IPV4);
    buf.PutSlice(octets);
    buf.PutU16(port);
  }

  lemma {:induction false} WordsSnoc(ws: seq<u16>, x: u16)
    ensures Words(ws + [x]) == Words(ws) + Be16(x)
  {
    if ws == [] {
      assert Words([x]) == Be16(x) + Words([]);
    } else {
      WordsSnoc(ws[1..], x);
      assert (ws + [x])[1..] == ws[1..] + [x];
    }
  }

  method WriteIpv6Address(addr: SocketAddr, buf: Buffer)
    requires addr.V6?
    modifies buf
    ensures buf.bytes == old(buf.bytes) + Encode(SocketAddress(addr))
  {
    hide Words;
    ghost var start := buf.bytes + [ADDR_TYPE_IPV6];
    buf.PutU8(ADDR_TYPE_IPV6);
    WriteWords(addr.segments, buf);
    buf.PutU16(addr.port);
    assert buf.bytes == start + Words(addr.segments) + Be16(addr.port);
  }

  method WriteWords(segments: seq<u16>, buf: Buffer)
    modifies buf
    ensures buf.bytes == old(buf.bytes) + Words(segments)
  {
    ghost var start := buf.bytes;
    for i := 0 to |segments|
      invariant buf.bytes == start + Words(segments[..i])
    {
      WordsSnoc(segments[..i], segments[i]);
      assert segments[..i + 1] == segments[..i] + [segments[i]];
      buf.PutU16(segments[i]);
    }
    assert segments[..|segments|] == segments;
  }

  /** The writer insists that the length of a name fits a byte. */
  method WriteDomainNameAddress(name: seq<byte>, port: u16, buf: Buffer)
    requires |name| <= 0xFF
    modifies buf
    ensures buf.bytes == old(buf.bytes) + Encode(DomainNameAddress(name, port))
  {
    ghost var start, n := buf.bytes, [|name|];
    buf.PutU8(ADDR_TYPE_DOMAIN_NAME);
    buf.PutU8(|name|);
    buf.PutSlice(name);
    buf.PutU16(port);
    assert buf.bytes == start + ([ADDR_TYPE_DOMAIN_NAME] + n + name + Be16(port));
  }

  /** Writes an address behind what the buffer holds; its bytes are as many as announced. */
  method WriteAddress(a: Address, buf: Buffer)
    requires WellFormed(a) && (a.DomainNameAddress? ==> |a.name| <= 0xFF)
    modifies buf
    ensures buf.bytes == old(buf.bytes) + Encode(a)
    ensures |buf.bytes| == |old(buf.bytes)| + AddrLen(a)
  {
    LengthAgrees(a);
    match a
    case SocketAddress(V4(octets, port)) => WriteIpv4Address(octets, port, buf);
    case SocketAddress(V6(_, _, _, _)) => WriteIpv6Address(a.addr, buf);
    case DomainNameAddress(name, port) => WriteDomainNameAddress(name, port, buf);
  }

  // ---------- Parser

  /** A byte stream that has ended or will end after the bytes `pending`. */
  class Stream {
    var pending: seq<byte>

    constructor (bytes: seq<byte>)
      ensures pending == bytes
    {
      pending := bytes;
    }

    /** Reads exactly `n` bytes, or takes what there is and fails. */
    method ReadExact(n: nat) returns (r: Option<seq<byte>>)
      modifies this
      ensures |old(pending)| >= n ==> r == Some(old(pending)[..n]) && pending == old(pending)[n..]
      ensures |old(pending)| < n ==> r == None && pending == []
    {
      if |pending| < n {
        pending := [];
        return None;
      }
      r := Some(pending[..n]);
      pending := pending[n..];
    }
  }

  /** Reads one address from a stream. */
  method ReadFrom(stream: Stream) returns (r: Parsed)
    modifies stream
    ensures (r, stream.pending) == Decode(old(stream.pending))
  {
    var addrType := stream.ReadExact(1);
    if addrType.None? {
      return Failed(Truncated);
    }
    if addrType.value[0] == ADDR_TYPE_IPV4 {
      r := ReadIpv4(stream);
    } else if addrType.value[0] == ADDR_TYPE_IPV6 {
      r := ReadIpv6(stream);
    } else if addrType.value[0] == ADDR_TYPE_DOMAIN_NAME {
      r := ReadDomainName(stream);
    } else {
      r := Failed(TypeNotSupported);
    }
  }

  method ReadIpv4(stream: Stream) returns (r: Parsed)
    modifies stream
    ensures (r, stream.pending) == DecodeV4(old(stream.pending))
  {
    ghost var was := stream.pending;
    var read := stream.ReadExact(6);
    if read.None? {
      return Failed(Truncated);
    }
    var buf := read.value;
    assert buf[..4] == was[..4] && ReadBe16(buf[4..]) == ReadBe16(was[4..]);
    return Parsed(SocketAddress(V4(buf[..4], ReadBe16(buf[4..]))));
  }

  method ReadIpv6(stream: Stream) returns (r: Parsed)
    modifies stream
    ensures (r, stream.pending) == DecodeV6(old(stream.pending))
  {
    ghost var was := stream.pending;
    var read := stream.ReadExact(18);
    if read.None? {
      return Failed(Truncated);
    }
    var buf := read.value;
    assert buf[..16] == was[..16] && ReadBe16(buf[16..]) == ReadBe16(was[16..]);
    return Parsed(SocketAddress(V6(ReadWords(buf[..16]), ReadBe16(buf[16..]), 0, 0)));
  }

  method ReadDomainName(stream: Stream) returns (r: Parsed)
    modifies stream
    ensures (r, stream.pending) == DecodeDomain(old(stream.pending))
  {
    hide Utf8;
    ghost var was := stream.pending;
    var lengthBuf := stream.ReadExact(1);
    if lengthBuf.None? {
      return Failed(Truncated);
    }
    var length: nat := lengthBuf.value[0];
    var read := stream.ReadExact(length + 2);
    if read.None? {
      return Failed(Truncated);
    }
    var buf := read.value;
    var name := buf[..length];
    assert name == was[1..1 + length] && ReadBe16(buf[length..]) == ReadBe16(was[1 + length..]);
    assert stream.pending == was[length + 3..];
    if !Utf8(name) {
      return Failed(InvalidEncoding);
    }
    return Parsed(DomainNameAddress(name, ReadBe16(buf[length..])));
  }
}
