/** Number formatting as Rust's `{}` and `{:x}` print it, and why printed numbers can be told apart. */
module Text {

  datatype Base = Ten | Sixteen {
    /** The last digit of a number, and the number before it. */
    function Split(n: nat): (parts: (nat, nat))
      ensures parts.1 < 16 && (n > 0 ==> parts.0 < n)
    {
      match this
      case Ten => (n / 10, n % 10)
      case Sixteen => (n / 16, n % 16)
    }
  }

  function Digit(d: nat): (c: char)
    requires d < 16
    ensures IsDigit(c)
  {
    if d < 10 then '0' + d as char else 'a' + (d - 10) as char
  }

  predicate IsDigit(c: char) { '0' <= c <= '9' || 'a' <= c <= 'f' }

  function Numeral(n: nat, base: Base): (s: string)
    ensures |s| > 0 && forall c :: c in s ==> IsDigit(c)
    decreases n
  {
    var (rest, last) := base.Split(n);
    if rest == 0 then [Digit(last)] else Numeral(rest, base) + [Digit(last)]
  }

  function Decimal(n: nat): string { Numeral(n, Ten) }

  function Hex(n: nat): string { Numeral(n, Sixteen) }

  lemma {:induction false} NumeralInjective(m: nat, n: nat, base: Base)
    requires Numeral(m, base) == Numeral(n, base)
    ensures m == n
    decreases m
  {
    var s := Numeral(m, base);
    var (p, c) := base.Split(m);
    var (q, d) := base.Split(n);
    assert s[|s| - 1] == Digit(c) == Digit(d);
    if p != 0 && q != 0 {
      assert s[..|s| - 1] == Numeral(p, base) == Numeral(q, base);
      NumeralInjective(p, q, base);
    }
  }

  /** A separator that occurs in neither head splits two equal texts at the same place. */
  lemma SplitAtSeparator(a: string, b: string, x: string, y: string, sep: char)
    requires sep !in a && sep !in b
    requires a + [sep] + x == b + [sep] + y
    ensures a == b && x == y
  {
    var s := a + [sep] + x;
    assert s[|a|] == sep && s[|b|] == sep;
    assert a == s[..|a|] && b == s[..|b|];
    assert x == s[|a| + 1..] && y == s[|b| + 1..];
  }

  // ---- What the digits say

  /** The number that a text of digits stands for. */
  function Value(s: string, radix: nat): int
    requires forall c :: c in s ==> IsDigit(c)
  {
    if s == "" then 0
    else
      var c := s[|s| - 1];
      assert c in s;
      Value(s[..|s| - 1], radix) * radix + if c <= '9' then c as nat - '0' as nat else c as nat - 'a' as nat + 10
  }

  /** A printed number is the number in its base, without leading zeros. */
  lemma {:induction false} NumeralIsValue(n: nat, base: Base)
    ensures Value(Numeral(n, base), if base.Ten? then 10 else 16) == n
    ensures n > 0 ==> Numeral(n, base)[0] != '0'
    ensures n == 0 ==> Numeral(n, base) == "0"
    decreases n
  {
    var (rest, last) := base.Split(n);
    if rest == 0 {
      assert Value("", if base.Ten? then 10 else 16) == 0;
      assert Numeral(n, base)[..0] == "";
    } else {
      NumeralIsValue(rest, base);
      assert Numeral(n, base)[..|Numeral(rest, base)|] == Numeral(rest, base);
    }
  }
}
