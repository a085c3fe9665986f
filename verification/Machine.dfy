/** Machine words: the fixed-width integers, the wrapping clock difference and the byte orders that the
    protocol code relies on. Words are subset types of `int`; wherever the program's arithmetic can wrap,
    the wrap is written out with `W32`. */
module Machine {

  const U32_LIMIT := 0x1_0000_0000
  const I32_LIMIT := 0x8000_0000

  type byte = x: int | 0 <= x < 0x100
  type u16 = x: int | 0 <= x < 0x1_0000
  type u32 = x: int | 0 <= x < U32_LIMIT

  datatype Option<+T> = None | Some(value: T)

  datatype Error = InvalidData | UnexpectedEof | InvalidInput | EndOfFile

  datatype Result<+T> = Ok(value: T) | Err(error: Error)

  function Min(x: int, y: int): int {
    if x <= y then x else y
  }

  function Max(x: int, y: int): int {
    if x <= y then y else x
  }

  lemma Monotone(a: int, b: int, m: nat)
    requires a <= b
    ensures a * m <= b * m
  {
  }

  /** Truncation to 32 bits. */
  function W32(x: int): u32 {
    x % U32_LIMIT
  }

  /** The wrapping signed difference of two 32-bit clock readings. */
  function TimeDiff(later: u32, earlier: u32): int {
    var d := W32(later - earlier);
    if d < I32_LIMIT then d else d - U32_LIMIT
  }

  /** `TimeDiff` is the one number in the signed 32-bit range that leads from `earlier` to `later` on the
      32-bit circle. */
  lemma TimeDiffIsSignedDistance(later: u32, earlier: u32, d: int)
    requires -I32_LIMIT <= d < I32_LIMIT
    ensures TimeDiff(later, earlier) == d <==> W32(earlier + d) == later
  {
  }

  lemma AddWrapped(z: int, i: int)
    ensures W32(W32(z) + i) == W32(z + i)
  {
  }

  /** Moving the later reading by `k` moves the difference by `k`, as long as the result is in range. */
  lemma TimeDiffShift(later: u32, earlier: u32, k: int)
    requires -I32_LIMIT <= TimeDiff(later, earlier) + k < I32_LIMIT
    ensures TimeDiff(W32(later + k), earlier) == TimeDiff(later, earlier) + k
  {
    var d := TimeDiff(later, earlier);
    TimeDiffIsSignedDistance(later, earlier, d);
    AddWrapped(earlier + d, k);
    TimeDiffIsSignedDistance(W32(later + k), earlier, d + k);
  }

  lemma OnceAround(x: int)
    ensures W32(x - U32_LIMIT) == W32(x)
  {
  }

  lemma Untruncated(x: int)
    requires 0 <= x < U32_LIMIT
    ensures W32(x) == x
  {
  }

  /** The difference of two moments less than half the circle apart, given by their distances from a third. */
  lemma TimeDiffOf(a: int, x: int, y: int)
    requires -I32_LIMIT <= x - y < I32_LIMIT
    ensures TimeDiff(W32(a + x), W32(a + y)) == x - y
  {
    AddWrapped(a + y, x - y);
    TimeDiffIsSignedDistance(W32(a + x), W32(a + y), x - y);
  }

  function Le16(x: int): (r: seq<byte>)
    ensures |r| == 2
  {
    [x % 0x100, x / 0x100 % 0x100]
  }

  function Le32(x: int): (r: seq<byte>)
    ensures |r| == 4
  {
    Le16(x) + Le16(x / 0x1_0000)
  }

  function Be16(x: int): (r: seq<byte>)
    ensures |r| == 2
  {
    [x / 0x100 % 0x100, x % 0x100]
  }

  function ReadLe16(b: seq<byte>): u16
    requires |b| >= 2
  {
    b[0] as int + 0x100 * b[1] as int
  }

  function ReadLe32(b: seq<byte>): u32
    requires |b| >= 4
  {
    ReadLe16(b) as int + 0x1_0000 * ReadLe16(b[2..]) as int
  }

  function ReadBe16(b: seq<byte>): u16
    requires |b| >= 2
  {
    0x100 * b[0] as int + b[1] as int
  }

  /** A 16-bit word read back is the number written, truncated to 16 bits. */
  lemma Read16UndoesWrite(x: int)
    ensures ReadLe16(Le16(x)) == ReadBe16(Be16(x)) == x % 0x1_0000
  {
    assert x / 0x100 % 0x100 == x % 0x1_0000 / 0x100;
  }

  /** A 32-bit word read back is the number written, truncated to 32 bits. */
  lemma Read32UndoesWrite(x: int)
    ensures ReadLe32(Le32(x)) == W32(x)
  {
    Read16UndoesWrite(x);
    Read16UndoesWrite(x / 0x1_0000);
    ReadHalves(Le16(x), Le16(x / 0x1_0000));
    TwoHalves(x);
  }

  lemma ReadHalves(low: seq<byte>, high: seq<byte>)
    requires |low| == 2 && |high| == 2
    ensures ReadLe32(low + high) == ReadLe16(low) as int + 0x1_0000 * ReadLe16(high) as int
  {
  }

  lemma TwoHalves(x: int)
    ensures W32(x) == x % 0x1_0000 + 0x1_0000 * (x / 0x1_0000 % 0x1_0000)
  {
    var h := x / 0x1_0000;
    assert x == 0x1_0000 * h + x % 0x1_0000;
    assert h == 0x1_0000 * (h / 0x1_0000) + h % 0x1_0000;
    assert x == U32_LIMIT * (h / 0x1_0000) + (x % 0x1_0000 + 0x1_0000 * (h % 0x1_0000));
  }

  /** Writing back a read 16-bit word gives the bytes it was read from. */
  lemma WriteUndoesRead(b: seq<byte>)
    requires |b| == 2
    ensures Be16(ReadBe16(b)) == b
    ensures Le16(ReadLe16(b)) == b
  {
  }
}
