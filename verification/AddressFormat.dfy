/** The SOCKS5 address field byte by byte (section 5 of RFC 1928), in numerals, for the writer and for the parser, and
    the names it can carry (section 3 of RFC 3629). */
module AddressFormat {
  import opened Machine
  import opened Socks5

  // ---------- Where each byte goes

  /** At `at` stands the 16-bit word `x`, high byte first. */
  predicate WordAt(b: seq<byte>, at: nat, x: u16) {
    at + 2 <= |b| && b[at] == x / 256 && b[at + 1] == x % 256
  }

  /** `b` begins with the address `a`: type, address and port. */
  predicate LaidOut(a: Address, b: seq<byte>) {
    match a
    case SocketAddress(V4(octets, port)) =>
      |b| >= 7 && b[0] == 1 && b[1..5] == octets && WordAt(b, 5, port)
    case SocketAddress(V6(segments, port, _, _)) =>
      && |b| >= 19 && b[0] == 4 && |segments| == 8
      && (forall i :: 0 <= i < 8 ==> WordAt(b, 1 + 2 * i, segments[i]))
      && WordAt(b, 17, port)
    case DomainNameAddress(name, port) =>
      var n := |name|;
      |b| >= n + 4 && b[0] == 3 && b[1] == n && b[2..2 + n] == name && WordAt(b, 2 + n, port)
  }

  /** How many bytes that is. */
  function Size(a: Address): nat {
    match a
    case SocketAddress(V4(_, _)) => 7
    case SocketAddress(V6(_, _, _, _)) => 19
    case DomainNameAddress(name, _) => |name| + 4
  }

  lemma {:induction false} WordsLaidOut(ws: seq<u16>, i: nat)
    requires i < |ws|
    ensures |Words(ws)| == 2 * |ws| && Words(ws)[2 * i] == ws[i] / 256 && Words(ws)[2 * i + 1] == ws[i] % 256
  {
    WordsLength(ws);
    WordsLength(ws[1..]);
    var w, rest := Be16(ws[0]), Words(ws[1..]);
    assert Words(ws) == w + rest;
    if i > 0 {
      WordsLaidOut(ws[1..], i - 1);
      assert (w + rest)[2 * i] == rest[2 * (i - 1)] && (w + rest)[2 * i + 1] == rest[2 * (i - 1) + 1];
    } else {
      assert (w + rest)[0] == w[0] && (w + rest)[1] == w[1];
    }
  }

  lemma SegmentsLayout(segments: seq<u16>, port: u16)
    requires |segments| == 8
    ensures var b := [4] + Words(segments) + Be16(port);
            && |b| == 19 && b[0] == 4
            && (forall i :: 0 <= i < 8 ==> WordAt(b, 1 + 2 * i, segments[i])) && WordAt(b, 17, port)
  {
    hide Words;
    var w, b := Words(segments), [4] + Words(segments) + Be16(port);
    WordsLength(segments);
    forall i | 0 <= i < 8 ensures WordAt(b, 1 + 2 * i, segments[i]) {
      WordsLaidOut(segments, i);
      assert b[1 + 2 * i] == w[2 * i] && b[2 + 2 * i] == w[2 * i + 1];
    }
    assert b[17..] == Be16(port);
  }

  /** The writer's bytes: the type is 1, 3 or 4; an IPv4 address is its octets, a name its length and its bytes, an IPv6
      address its segments high byte first; the port is last, high byte first; and there is nothing else. */
  lemma WriterLayout(a: Address)
    requires WellFormed(a) && (a.DomainNameAddress? ==> |a.name| <= 255)
    ensures LaidOut(a, Encode(a)) && |Encode(a)| == Size(a)
  {
    hide Utf8, Words;
    LengthAgrees(a);
    match a
    case SocketAddress(V4(octets, port)) =>
      assert Encode(a)[1..5] == octets;
    case SocketAddress(V6(segments, port, _, _)) => SegmentsLayout(segments, port);
    case DomainNameAddress(name, port) =>
      var n := |name|;
      assert Encode(a)[2..2 + n] == name;
      assert Encode(a)[2 + n..] == Be16(port);
  }

  /** Bytes in front of the stream that do not belong to the address do not matter to its layout. */
  lemma LaidOutInFront(a: Address, b: seq<byte>, rest: seq<byte>)
    requires LaidOut(a, b)
    ensures LaidOut(a, b + rest)
  {
    var c := b + rest;
    assert forall i :: 0 <= i < |b| ==> c[i] == b[i];
    match a
    case SocketAddress(V4(octets, _)) => assert c[1..5] == b[1..5];
    case SocketAddress(V6(segments, _, _, _)) =>
      forall i | 0 <= i < 8 ensures WordAt(c, 1 + 2 * i, segments[i]) {
        assert WordAt(b, 1 + 2 * i, segments[i]);
      }
    case DomainNameAddress(name, _) => assert c[2..2 + |name|] == b[2..2 + |name|];
  }

  /** The parser's result, when there is one, is the address that the bytes lay out, and it leaves exactly the bytes
      behind it. */
  lemma ParserLayout(b: seq<byte>)
    requires Decode(b).0.Parsed?
    ensures var (r, rest) := Decode(b);
            LaidOut(r.address, b) && Size(r.address) <= |b| && rest == b[Size(r.address)..]
  {
    hide Utf8, Words, ReadWords, LaidOut;
    var (r, rest) := Decode(b);
    EncodeUndoesDecode(b);
    WriterLayout(r.address);
    LaidOutInFront(r.address, Encode(r.address), rest);
    assert (Encode(r.address) + rest)[Size(r.address)..] == rest;
  }

  /** Why there is no result, and what is left of the stream then. */
  lemma ParserErrors(b: seq<byte>)
    ensures var need := if |b| == 0 then 1
                        else if b[0] == 1 then 7
                        else if b[0] == 4 then 19
                        else if b[0] == 3 then (if |b| == 1 then 2 else b[1] as int + 4)
                        else 1;
            && (Decode(b).0 == Failed(Truncated) <==> |b| < need)
            && (Decode(b).0 == Failed(TypeNotSupported) <==> |b| >= 1 && b[0] !in {1, 3, 4})
            && (Decode(b).0 == Failed(InvalidEncoding) <==>
                  |b| >= need && need >= 4 && b[0] == 3 && !Utf8(b[2..need - 2]))
            && (|b| < need ==> Decode(b).1 == [])
            && (|b| >= need ==> Decode(b).1 == b[need..])
  {
    hide Utf8, ReadWords, ReadBe16;
    if |b| >= 2 && b[0] == 3 && |b| >= b[1] as int + 4 {
      var n: nat := b[1];
      assert b[1..][1..1 + n] == b[2..2 + n];
      assert b[1..][n + 3..] == b[n + 4..];
    } else if |b| >= 7 && b[0] == 1 {
      assert b[1..][6..] == b[7..];
    } else if |b| >= 19 && b[0] == 4 {
      assert b[1..][18..] == b[19..];
    }
  }

  // ---------- UTF-8 by code point

  /** A Unicode scalar value: not a surrogate, and not above the last plane. */
  predicate Scalar(c: nat) {
    c < 0xD800 || 0xE000 <= c <= 0x10FFFF
  }

  /** Its bytes: seven, eleven, sixteen or twenty-one bits, six to a byte behind the first. */
  function CharBytes(c: nat): (b: seq<byte>)
    requires Scalar(c)
    ensures 1 <= |b| <= 4
  {
    if c < 0x80 then [c]
    else if c < 0x800 then [0xC0 + c / 64, 0x80 + c % 64]
    else if c < 0x1_0000 then [0xE0 + c / 4_096, 0x80 + c / 64 % 64, 0x80 + c % 64]
    else [0xF0 + c / 262_144, 0x80 + c / 4_096 % 64, 0x80 + c / 64 % 64, 0x80 + c % 64]
  }

  ghost predicate AllScalar(cs: seq<nat>) {
    forall i :: 0 <= i < |cs| ==> Scalar(cs[i])
  }

  function TextBytes(cs: seq<nat>): seq<byte>
    requires AllScalar(cs)
  {
    if cs == [] then []
    else
      assert AllScalar(cs[1..]);
      CharBytes(cs[0]) + TextBytes(cs[1..])
  }

  /** Two base-64 digits put together and taken apart again. */
  lemma Digits(high: nat, low: nat)
    requires low < 64
    ensures (high * 64 + low) / 64 == high && (high * 64 + low) % 64 == low
  {
  }

  lemma LargeDigits(c: nat)
    ensures c / 4_096 == c / 64 / 64 && c / 262_144 == c / 64 / 64 / 64
  {
  }

  /** A number and six more bits. */
  function Continued(high: nat, x: byte): nat
    requires Tail(x)
  {
    high * 64 + (x as int - 0x80)
  }

  lemma OneMore(high: nat, x: byte)
    requires Tail(x)
    ensures Continued(high, x) / 64 == high && Continued(high, x) % 64 == x as int - 0x80
  {
    Digits(high, x as int - 0x80);
  }

  /** A well-formed character at the front is the bytes of some scalar value. */
  lemma FrontIsChar(b: seq<byte>) returns (c: nat)
    requires CharLength(b) > 0
    ensures CharLength(b) <= |b| && Scalar(c) && CharBytes(c) == b[..CharLength(b)]
  {
    var n := CharLength(b);
    if n == 1 {
      c := b[0] as int;
    } else if n == 2 {
      c := Continued(b[0] as int - 0xC0, b[1]);
      OneMore(b[0] as int - 0xC0, b[1]);
    } else if n == 3 {
      c := ThreeBytes(b[0] as int - 0xE0, b[1], b[2]);
    } else {
      c := FourBytes(b[0] as int - 0xF0, b[1], b[2], b[3]);
    }
  }

  lemma ThreeBytes(high: nat, x: byte, y: byte) returns (c: nat)
    requires Tail(x) && Tail(y)
    ensures c == high * 4_096 + (x as int - 0x80) * 64 + (y as int - 0x80)
    ensures c / 4_096 == high && c / 64 % 64 == x as int - 0x80 && c % 64 == y as int - 0x80
  {
    var m := Continued(high, x);
    OneMore(high, x);
    c := Continued(m, y);
    OneMore(m, y);
    LargeDigits(c);
  }

  lemma FourBytes(high: nat, x: byte, y: byte, z: byte) returns (c: nat)
    requires Tail(x) && Tail(y) && Tail(z)
    ensures c == high * 262_144 + (x as int - 0x80) * 4_096 + (y as int - 0x80) * 64 + (z as int - 0x80)
    ensures c / 262_144 == high && c / 4_096 % 64 == x as int - 0x80
    ensures c / 64 % 64 == y as int - 0x80 && c % 64 == z as int - 0x80
  {
    var m := ThreeBytes(high, x, y);
    c := Continued(m, z);
    OneMore(m, z);
    LargeDigits(c);
    LargeDigits(m);
  }

  lemma CharIsFront(c: nat, rest: seq<byte>)
    requires Scalar(c)
    ensures CharLength(CharBytes(c) + rest) == |CharBytes(c)|
  {
    hide CharLength;
    var b := CharBytes(c) + rest;
    if c < 0x80 {
      FrontOf(b, 1);
    } else if c < 0x800 {
      FrontOf(b, 2);
    } else if c < 0x1_0000 {
      FrontOf(b, 3);
    } else {
      FrontOf(b, 4);
    }
  }

  /** The length of a character depends on its first bytes only. */
  lemma FrontOf(b: seq<byte>, n: nat)
    requires |b| >= n && 1 <= n <= 4 && forall i :: 1 <= i < n ==> Tail(b[i])
    requires n == 1 ==> b[0] < 0x80
    requires n == 2 ==> 0xC2 <= b[0] < 0xE0
    requires n == 3 ==> 0xE0 <= b[0] < 0xF0 && (b[0] == 0xE0 ==> b[1] >= 0xA0) && (b[0] == 0xED ==> b[1] < 0xA0)
    requires n == 4 ==> 0xF0 <= b[0] < 0xF5 && (b[0] == 0xF0 ==> b[1] >= 0x90) && (b[0] == 0xF4 ==> b[1] < 0x90)
    ensures CharLength(b) == n
  {
  }

  /** A name is well formed exactly when its bytes are those of some scalar values. */
  lemma {:induction false} Utf8IsText(b: seq<byte>)
    ensures Utf8(b) <==> exists cs :: AllScalar(cs) && TextBytes(cs) == b
    decreases |b|
  {
    if Utf8(b) {
      var cs := TextOf(b);
    }
    forall cs | AllScalar(cs) && TextBytes(cs) == b ensures Utf8(b) {
      TextIsUtf8(cs);
    }
  }

  lemma {:induction false} TextOf(b: seq<byte>) returns (cs: seq<nat>)
    requires Utf8(b)
    ensures AllScalar(cs) && TextBytes(cs) == b
    decreases |b|
  {
    hide CharBytes, CharLength, Scalar;
    if b == [] {
      cs := [];
    } else {
      var n := CharLength(b);
      var c := FrontIsChar(b);
      var rest := TextOf(b[n..]);
      cs := [c] + rest;
      assert cs[1..] == rest;
      assert b == b[..n] + b[n..];
    }
  }

  lemma {:induction false} TextIsUtf8(cs: seq<nat>)
    requires AllScalar(cs)
    ensures Utf8(TextBytes(cs))
  {
    hide CharBytes, CharLength, Scalar;
    if cs != [] {
      var c, rest := CharBytes(cs[0]), TextBytes(cs[1..]);
      TextIsUtf8(cs[1..]);
      CharIsFront(cs[0], rest);
      assert (c + rest)[|c|..] == rest;
    }
  }
}
