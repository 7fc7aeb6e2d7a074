/** Fixed-width integers and their little-endian byte encodings. */
module Bytes {

  type byte = x: int | 0 <= x < 0x100
  type u16 = x: int | 0 <= x < 0x1_0000
  type u32 = x: int | 0 <= x < 0x1_0000_0000
  type i64 = x: int | -0x8000_0000_0000_0000 <= x < 0x8000_0000_0000_0000

  /** How many values an unsigned 32-bit word has. */
  const WORD := 0x1_0000_0000

  datatype Option<+T> = None | Some(value: T)

  /** The low `n` bytes of `v`, least significant first. */
  function ToLe(v: nat, n: nat): (bs: seq<byte>)
    ensures |bs| == n
  {
    if n == 0 then [] else [v % 0x100] + ToLe(v / 0x100, n - 1)
  }

  function FromLe(bs: seq<byte>): (v: nat)
  {
    if |bs| == 0 then 0 else bs[0] + 0x100 * FromLe(bs[1..])
  }

  function Pow256(n: nat): (p: nat)
    ensures p > 0
  {
    if n == 0 then 1 else 0x100 * Pow256(n - 1)
  }

  /** Reading back an `n`-byte encoding gives the value modulo 256^n. */
  lemma {:induction false} LeRoundTrip(v: nat, n: nat)
    requires v < Pow256(n)
    ensures FromLe(ToLe(v, n)) == v
  {
    if n > 0 {
      LeRoundTrip(v / 0x100, n - 1);
      assert ToLe(v, n)[1..] == ToLe(v / 0x100, n - 1);
    }
  }

  /** Two values that fit in `n` bytes and encode alike are equal. */
  lemma LeInjective(a: nat, b: nat, n: nat)
    requires a < Pow256(n) && b < Pow256(n)
    requires ToLe(a, n) == ToLe(b, n)
    ensures a == b
  {
    LeRoundTrip(a, n);
    LeRoundTrip(b, n);
  }

  lemma U16Injective(a: u16, b: u16)
    requires ToLe(a, 2) == ToLe(b, 2)
    ensures a == b
  {
    assert Pow256(2) == 0x1_0000;
    LeInjective(a, b, 2);
  }

  lemma U32Injective(a: u32, b: u32)
    requires ToLe(a, 4) == ToLe(b, 4)
    ensures a == b
  {
    assert Pow256(4) == 0x1_0000_0000;
    LeInjective(a, b, 4);
  }

  lemma I64Injective(a: i64, b: i64)
    requires ToLe(AsU64(a), 8) == ToLe(AsU64(b), 8)
    ensures a == b
  {
    assert Pow256(8) == 0x1_0000_0000_0000_0000;
    hide ToLe, Pow256;
    LeInjective(AsU64(a), AsU64(b), 8);
    PatternOf(a);
    PatternOf(b);
    hide AsU64;
  }

  lemma PatternOf(v: i64)
    ensures AsU64(v) == if v >= 0 then v else v + 0x1_0000_0000_0000_0000
  {
  }

  /** A concatenation with a known split point determines both parts. */
  lemma SplitAt<T>(a: seq<T>, b: seq<T>, c: seq<T>, d: seq<T>)
    requires a + b == c + d && |a| == |c|
    ensures a == c && b == d
  {
    assert a == (a + b)[..|a|] == c;
    assert b == (a + b)[|a|..] == d;
  }

  /** The unsigned 64-bit pattern of a signed value (a C cast). */
  function AsU64(v: i64): (r: nat)
    ensures r < 0x1_0000_0000_0000_0000
  {
    v % 0x1_0000_0000_0000_0000
  }

  function Min(a: int, b: int): (m: int)
    ensures m <= a && m <= b && (m == a || m == b)
  {
    if a < b then a else b
  }

  function Max(a: int, b: int): (m: int)
    ensures m >= a && m >= b && (m == a || m == b)
  {
    if a > b then a else b
  }
}
