/**
 * Bytes on the Fronius serial link and the frame layout shared by both
 * directions:
 *
 *   80 80 80 LEN DEV NUM CMD [LEN data bytes] CHECKSUM
 *
 * The frame is LEN + 8 bytes long and CHECKSUM is the low byte of the sum
 * of the bytes from offset 3 (the length byte) up to, not including, the
 * checksum itself.
 */
module Wire {

  /** An unsigned char. */
  type byte = x: int | 0 <= x < 256

  /** The synchronisation byte that opens every frame. */
  const SYNC: byte := 0x80

  /** Largest number of inverters on one bus; also the largest length byte processComm accepts. */
  const MAXINVERTERS: nat := 12

  /** Size of the serial accumulation buffer (fronius.c:195). */
  const BUFSIZE: nat := 10 + 12 + MAXINVERTERS

  /** The low byte of an integer, as a store into an unsigned char gives it. */
  function LowByte(x: int): (b: byte)
    ensures (x - b) % 256 == 0
  {
    x % 256
  }

  /** Sum of bytes, taken from the back so that a loop adding one byte at a time matches it. */
  function Sum(s: seq<byte>): nat
  {
    if s == [] then 0 else Sum(s[..|s| - 1]) + s[|s| - 1]
  }

  /** The frame checksum of a range of bytes: the low byte of their sum. */
  function Checksum(s: seq<byte>): byte
  {
    LowByte(Sum(s))
  }

  lemma {:induction false} SumConcat(a: seq<byte>, b: seq<byte>)
    ensures Sum(a + b) == Sum(a) + Sum(b)
    decreases |b|
  {
    if b == [] {
      assert a + b == a;
    } else {
      assert (a + b)[..|a + b| - 1] == a + b[..|b| - 1];
      SumConcat(a, b[..|b| - 1]);
    }
  }

  lemma SumSnoc(s: seq<byte>, x: byte)
    ensures Sum(s + [x]) == Sum(s) + x
  {
    assert (s + [x])[..|s|] == s;
  }

  /** Sum of a four-byte range such as LEN DEV NUM CMD. */
  lemma Sum4(a: byte, b: byte, c: byte, d: byte)
    ensures Sum([a, b, c, d]) == a as int + b as int + c as int + d as int
  {
    Sum2(a, b);
    SumSnoc([a, b], c);
    assert [a, b] + [c] == [a, b, c];
    SumSnoc([a, b, c], d);
    assert [a, b, c] + [d] == [a, b, c, d];
  }

  lemma Sum2(a: byte, b: byte)
    ensures Sum([a, b]) == a as int + b as int
  {
    assert [a][..0] == [];
    assert Sum([a]) == a;
    SumSnoc([a], b);
    assert [a] + [b] == [a, b];
  }

  /** Adding to a low byte and taking the low byte again is taking the low byte of the full sum. */
  lemma LowByteAdd(a: int, b: int)
    ensures LowByte(LowByte(a) + b) == LowByte(a + b)
  {
  }

  /** Moving an integer by a non-zero amount smaller than 256 changes its low byte. */
  lemma LowByteShift(s: int, d: int)
    requires -256 < d < 256 && d != 0
    ensures LowByte(s + d) != LowByte(s)
  {
  }

  /** The three sync bytes lead the frame. */
  predicate HasSync(f: seq<byte>)
  {
    |f| >= 3 && f[0] == SYNC && f[1] == SYNC && f[2] == SYNC
  }

  /**
   * The length byte accounts for the whole frame and the trailing byte is
   * the checksum of bytes [3, LEN + 7): the test processComm applies at
   * fronius.c:703-708 and processPacket at fronius.c:788-791.
   */
  predicate ChecksumOk(f: seq<byte>)
  {
    |f| >= 8 && f[3] as int + 8 == |f| && f[|f| - 1] == Checksum(f[3..|f| - 1])
  }

  predicate WellFormed(f: seq<byte>)
  {
    HasSync(f) && ChecksumOk(f)
  }

  /**
   * Changing any one byte of a well-formed frame from the length byte on
   * makes it fail the checksum test: a changed length no longer accounts
   * for the frame, a changed data byte moves the sum by less than 256, and
   * a changed checksum byte no longer matches the unchanged sum.
   */
  lemma SingleByteCorruptionDetected(f: seq<byte>, j: nat, x: byte)
    requires WellFormed(f)
    requires 3 <= j < |f| && x != f[j]
    ensures !ChecksumOk(f[j := x])
  {
    var g := f[j := x];
    var n := |f|;
    assert |g| == n && g[n - 1] == (if j == n - 1 then x else f[n - 1]);
    if j == 3 {
      assert g[3] != f[3];
    } else if j == n - 1 {
      assert g[3..n - 1] == f[3..n - 1];
    } else {
      DataByteChangesSum(f[3..n - 1], g[3..n - 1], j - 3, x);
      LowByteShift(Sum(f[3..n - 1]), x as int - f[j] as int);
    }
  }

  /** Replacing one byte of a range moves its sum by exactly the difference. */
  lemma DataByteChangesSum(a: seq<byte>, b: seq<byte>, k: nat, x: byte)
    requires k < |a| && b == a[k := x]
    ensures Sum(b) == Sum(a) + (x as int - a[k] as int)
  {
    var pre, post := a[..k], a[k + 1..];
    assert a == pre + [a[k]] + post;
    assert b == pre + [x] + post;
    SumConcat(pre + [a[k]], post);
    SumConcat(pre + [x], post);
    SumSnoc(pre, a[k]);
    SumSnoc(pre, x);
  }
}
