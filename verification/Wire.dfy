/** The segment and its 24-byte little-endian header. */
module Wire {
  import opened Machine

  const OVERHEAD := 24

  const CMD_PUSH: byte := 81
  const CMD_ACK: byte := 82
  const CMD_WASK: byte := 83
  const CMD_WINS: byte := 84

  datatype Segment = Segment(
    conv: u32, cmd: byte, frg: byte, wnd: nat, ts: u32, sn: nat, una: nat,
    resendts: u32, rto: nat, fastack: nat, xmit: nat, data: seq<byte>)

  /** A segment with every field zero, as a default-constructed one. */
  const BLANK := Segment(0, 0, 0, 0, 0, 0, 0, 0, 0, 0, 0, [])

  predicate KnownCommand(cmd: byte) {
    cmd == CMD_PUSH || cmd == CMD_ACK || cmd == CMD_WASK || cmd == CMD_WINS
  }

  /** The header writes each field truncated to its width on the wire. */
  function Encode(s: Segment): (r: seq<byte>)
    ensures |r| == OVERHEAD + |s.data|
  {
    Le32(s.conv) + [s.cmd] + [s.frg] + Le16(s.wnd) + Le32(s.ts) + Le32(s.sn) + Le32(s.una)
    + Le32(|s.data|) + s.data
  }

  function EncodeAll(segs: seq<Segment>): seq<byte> {
    if segs == [] then [] else Encode(segs[0]) + EncodeAll(segs[1..])
  }

  datatype Header = Header(conv: u32, cmd: byte, frg: byte, wnd: u16, ts: u32, sn: u32, una: u32, len: u32)

  function DecodeHeader(b: seq<byte>): Header
    requires |b| >= OVERHEAD
  {
    Header(ReadLe32(b), b[4], b[5], ReadLe16(b[6..]), ReadLe32(b[8..]), ReadLe32(b[12..]),
           ReadLe32(b[16..]), ReadLe32(b[20..]))
  }

  /** The segment a receiver builds from a header and its payload. */
  function Arrived(h: Header, data: seq<byte>): Segment {
    BLANK.(conv := h.conv, cmd := h.cmd, frg := h.frg, wnd := h.wnd, ts := h.ts, sn := h.sn, una := h.una,
           data := data)
  }

  /** What a receiver can see of a segment: the sender's retransmission bookkeeping is not on the wire. */
  function OnWire(s: Segment): Segment {
    s.(resendts := 0, rto := 0, fastack := 0, xmit := 0)
  }

  /** No field is truncated by the header. */
  predicate Encodable(s: Segment) {
    s.wnd < 0x1_0000 && s.sn < U32_LIMIT && s.una < U32_LIMIT && |s.data| < U32_LIMIT
  }

  lemma HeaderLayout(s: Segment, rest: seq<byte>)
    ensures |Encode(s) + rest| >= OVERHEAD
    ensures var b := Encode(s) + rest;
            && b[0..4] == Le32(s.conv) && b[4] == s.cmd && b[5] == s.frg && b[6..8] == Le16(s.wnd)
            && b[8..12] == Le32(s.ts) && b[12..16] == Le32(s.sn) && b[16..20] == Le32(s.una)
            && b[20..24] == Le32(|s.data|)
    ensures (Encode(s) + rest)[24..] == s.data + rest
  {
  }

  /** Decoding undoes encoding: the header comes back, followed by the payload and then the trailing bytes. */
  lemma DecodeUndoesEncode(s: Segment, rest: seq<byte>)
    requires Encodable(s)
    ensures |Encode(s) + rest| >= OVERHEAD
    ensures var h := DecodeHeader(Encode(s) + rest);
            && h == Header(s.conv, s.cmd, s.frg, s.wnd, s.ts, s.sn, s.una, |s.data|)
            && Arrived(h, s.data) == OnWire(s)
    ensures (Encode(s) + rest)[OVERHEAD..] == s.data + rest
  {
    var b := Encode(s) + rest;
    HeaderLayout(s, rest);
    ReadAt(b, 0, s.conv);
    assert b[0..] == b;
    ReadAt16(b, 6, s.wnd);
    ReadAt(b, 8, s.ts);
    ReadAt(b, 12, s.sn);
    ReadAt(b, 16, s.una);
    ReadAt(b, 20, |s.data|);
  }

  lemma ReadAt(b: seq<byte>, at: nat, x: nat)
    requires at + 4 <= |b| && b[at..at + 4] == Le32(x) && x < U32_LIMIT
    ensures ReadLe32(b[at..]) == x
  {
    var word := b[at..at + 4];
    assert forall k :: 0 <= k < 4 ==> b[at..][k] == word[k];
    Read32UndoesWrite(x);
  }

  lemma ReadAt16(b: seq<byte>, at: nat, x: nat)
    requires at + 2 <= |b| && b[at..at + 2] == Le16(x) && x < 0x1_0000
    ensures ReadLe16(b[at..]) == x
  {
    var word := b[at..at + 2];
    assert forall k :: 0 <= k < 2 ==> b[at..][k] == word[k];
    Read16UndoesWrite(x);
  }

  /** No encoding is a proper prefix of another: a byte stream has at most one first segment. */
  lemma EncodePrefixFree(s: Segment, t: Segment, x: seq<byte>, y: seq<byte>)
    requires Encodable(s) && Encodable(t)
    requires Encode(s) + x == Encode(t) + y
    ensures OnWire(s) == OnWire(t) && x == y
  {
    DecodeUndoesEncode(s, x);
    DecodeUndoesEncode(t, y);
    assert s.data + x == t.data + y;
    assert (s.data + x)[..|s.data|] == s.data && (t.data + y)[..|t.data|] == t.data;
    assert (s.data + x)[|s.data|..] == x && (t.data + y)[|t.data|..] == y;
  }

  // ---------- Where each byte goes

  /** At `at` stands `x`, cut to 32 bits, low byte first. */
  predicate Little32(b: seq<byte>, at: nat, x: nat) {
    && at + 4 <= |b| && b[at] == x % 256 && b[at + 1] == x / 256 % 256
    && b[at + 2] == x / 65_536 % 256 && b[at + 3] == x / 16_777_216 % 256
  }

  lemma Le32Layout(x: nat)
    ensures Little32(Le32(x), 0, x)
  {
    assert x / 0x1_0000 / 0x100 == x / 16_777_216;
  }

  /** The 24 bytes of the header, field by field, and the payload behind it. */
  lemma SegmentLayout(s: Segment)
    ensures var b := Encode(s);
            && |b| == 24 + |s.data|
            && Little32(b, 0, s.conv) && b[4] == s.cmd && b[5] == s.frg
            && b[6] == s.wnd % 256 && b[7] == s.wnd / 256 % 256
            && Little32(b, 8, s.ts) && Little32(b, 12, s.sn) && Little32(b, 16, s.una) && Little32(b, 20, |s.data|)
            && b[24..] == s.data
  {
    hide Le32, Le16;
    var b := Encode(s);
    HeaderLayout(s, []);
    assert b + [] == b && s.data + [] == s.data;
    LittleAt(b, 0, s.conv);
    LittleAt(b, 8, s.ts);
    LittleAt(b, 12, s.sn);
    LittleAt(b, 16, s.una);
    LittleAt(b, 20, |s.data|);
    assert b[6..8][0] == b[6] && b[6..8][1] == b[7];
    Le16Layout(s.wnd);
  }

  lemma Le16Layout(x: nat)
    ensures Le16(x)[0] == x % 256 && Le16(x)[1] == x / 256 % 256
  {
  }

  lemma LittleAt(b: seq<byte>, at: nat, x: nat)
    requires at + 4 <= |b| && b[at..at + 4] == Le32(x)
    ensures Little32(b, at, x)
  {
    hide Le32;
    Le32Layout(x);
    var word := b[at..at + 4];
    assert word[0] == b[at] && word[1] == b[at + 1] && word[2] == b[at + 2] && word[3] == b[at + 3];
  }

  /** The 32-bit word that stands at `at`, low byte first. */
  function LittleWord(b: seq<byte>, at: nat): int
    requires at + 4 <= |b|
  {
    b[at] as int + 256 * b[at + 1] as int + 65_536 * b[at + 2] as int + 16_777_216 * b[at + 3] as int
  }

  /** What the parser reads from the 24 bytes of a header. */
  lemma HeaderByPosition(b: seq<byte>)
    requires |b| >= 24
    ensures var h := DecodeHeader(b);
            && h.conv == LittleWord(b, 0) && h.cmd == b[4] && h.frg == b[5]
            && h.wnd == b[6] as int + 256 * b[7] as int
            && h.ts == LittleWord(b, 8) && h.sn == LittleWord(b, 12) && h.una == LittleWord(b, 16)
            && h.len == LittleWord(b, 20)
  {
  }
}
