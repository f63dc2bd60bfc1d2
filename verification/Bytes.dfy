/** Octets and the big-endian integers every wire format of the program uses. */
module Bytes {

  type Byte = b: int | 0 <= b < 0x100

  function Be16(n: nat): (s: seq<Byte>)
    requires n < 0x1_0000
    ensures |s| == 2
  {
    [n / 0x100, n % 0x100]
  }

  function FromBe16(hi: Byte, lo: Byte): (n: nat)
    ensures n < 0x1_0000 && Be16(n) == [hi, lo]
  {
    hi * 0x100 + lo
  }

  /** Truncates to 32 bits first, as a cast to u32 does. */
  function Be32(n: nat): (s: seq<Byte>)
    ensures |s| == 4
  {
    var m := n % 0x1_0000_0000;
    [m / 0x100_0000, m / 0x1_0000 % 0x100, m / 0x100 % 0x100, m % 0x100]
  }

  function FromBe32(s: seq<Byte>): (n: nat)
    requires |s| == 4
    ensures n < 0x1_0000_0000
  {
    var (a: int, b: int, c: int, d: int) := (s[0], s[1], s[2], s[3]);
    a * 0x100_0000 + b * 0x1_0000 + c * 0x100 + d
  }

  /** The high octet comes first. */
  lemma BigEndian16(n: nat)
    requires n < 65536
    ensures Be16(n) == [n / 256, n % 256] && FromBe16(n / 256, n % 256) == n
  {
  }

  lemma FromBe16Is(high: Byte, low: Byte)
    ensures FromBe16(high, low) == 256 * high + low
  {
  }

  lemma BigEndian32(n: nat)
    requires n < 4294967296
    ensures Be32(n) == [n / 16777216, n / 65536 % 256, n / 256 % 256, n % 256]
  {
  }

  lemma DivTwice(n: nat)
    ensures n / 65536 == n / 256 / 256 && n / 16777216 == n / 65536 / 256
  {
  }

  lemma Push8(high: nat, low: Byte)
    ensures (high * 256 + low) / 256 == high && (high * 256 + low) % 256 == low
  {
  }

  /** The octets of a number that is put together from octets. */
  lemma OctetsOf(a: Byte, b: Byte, c: Byte, d: Byte)
    ensures var n: nat := ((a as int * 256 + b) * 256 + c) * 256 + d;
            n < 4294967296 && Be32(n) == [a, b, c, d]
  {
    var x: nat := a as int * 256 + b;
    var y: nat := x * 256 + c;
    var n: nat := y * 256 + d;
    Push8(a, b);
    Push8(x, c);
    Push8(y, d);
    DivTwice(n);
    BigEndian32(n);
    hide Be32;
  }

  lemma FromBe32Is(a: Byte, b: Byte, c: Byte, d: Byte)
    ensures FromBe32([a, b, c, d]) == ((a * 256 + b) * 256 + c) * 256 + d
  {
  }

  lemma Be32RoundTrip(n: nat)
    ensures FromBe32(Be32(n)) == n % 0x1_0000_0000
  {
    var m := n % 0x1_0000_0000;
    assert m / 0x100 == m / 0x1_0000 * 0x100 + m / 0x100 % 0x100;
    assert m / 0x1_0000 == m / 0x100_0000 * 0x100 + m / 0x1_0000 % 0x100;
  }
}
