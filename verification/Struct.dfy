/** The fixed-width integers of Python's `struct` module that the wire and file formats use. */
module Struct {

  type Byte = x: int | 0 <= x < 256 witness 0
  type Bytes = seq<Byte>

  const TWO_16 := 0x1_0000
  const TWO_31 := 0x8000_0000
  const TWO_32 := 0x1_0000_0000

  /** '!H'. */
  function Pack16(n: nat): (r: Bytes)
    requires n < TWO_16
    ensures |r| == 2
  {
    [n / 256, n % 256]
  }

  function Unpack16(b: Bytes): (n: nat)
    requires |b| == 2
    ensures n < TWO_16
  {
    b[0] as int * 256 + b[1]
  }

  /** '!I'. */
  function Pack32(n: nat): (r: Bytes)
    requires n < TWO_32
    ensures |r| == 4
  {
    [n / 0x100_0000, n / 0x1_0000 % 256, n / 256 % 256, n % 256]
  }

  function Unpack32(b: Bytes): (n: nat)
    requires |b| == 4
    ensures n < TWO_32
  {
    b[0] as int * 0x100_0000 + b[1] as int * 0x1_0000 + b[2] as int * 256 + b[3]
  }

  /** Two's complement, '!i' and '<i'. */
  function ToUnsigned(n: int): nat
    requires -TWO_31 <= n < TWO_31
  {
    if n < 0 then n + TWO_32 else n
  }

  function ToSigned(n: nat): int
    requires n < TWO_32
  {
    if n >= TWO_31 then n - TWO_32 else n
  }

  function Reverse(b: Bytes): (r: Bytes)
    requires |b| == 4
    ensures |r| == 4
  {
    [b[3], b[2], b[1], b[0]]
  }

  lemma Unpack16Pack(n: nat)
    requires n < TWO_16
    ensures Unpack16(Pack16(n)) == n
  {
  }

  lemma Unpack32Pack(n: nat)
    requires n < TWO_32
    ensures Unpack32(Pack32(n)) == n
  {
    var q := n / 256;
    assert n / 0x1_0000 == q / 256 && n / 0x100_0000 == q / 0x1_0000;
    assert q / 0x1_0000 == q / 256 / 256;
  }

  /** `b[lo:hi]` as Python cuts it: bounds past the end are moved to the end. */
  function Slice(b: Bytes, lo: nat, hi: nat): Bytes
    requires lo <= hi
  {
    b[if lo < |b| then lo else |b|..if hi < |b| then hi else |b|]
  }

  /** The first byte in which the two strings differ is smaller in `a`. */
  predicate Before(a: Bytes, b: Bytes)
    requires |a| == |b|
  {
    exists i :: 0 <= i < |a| && a[i] < b[i] && a[..i] == b[..i]
  }

  /** Network order: the bytes compare as the numbers do. */
  lemma NetworkOrder16(m: nat, n: nat)
    requires m < TWO_16 && n < TWO_16
    ensures m < n ==> Before(Pack16(m), Pack16(n))
  {
    var a, b := Pack16(m), Pack16(n);
    if m < n {
      assert m == 256 * (m / 256) + m % 256 && n == 256 * (n / 256) + n % 256;
      var i := if a[0] < b[0] then 0 else 1;
      assert a[i] < b[i] && a[..i] == b[..i];
    }
  }

  lemma NetworkOrder32(m: nat, n: nat)
    requires m < TWO_32 && n < TWO_32
    ensures m < n ==> Before(Pack32(m), Pack32(n))
  {
    hide Pack32;
    var a, b := Pack32(m), Pack32(n);
    if m < n {
      Unpack32Pack(m);
      Unpack32Pack(n);
      var i := if a[0] != b[0] then 0 else if a[1] != b[1] then 1 else if a[2] != b[2] then 2 else 3;
      assert a[i] < b[i] && a[..i] == b[..i];
    }
  }

  /** Two's complement: the same number modulo 2 to the 32, and back. */
  lemma TwosComplement(n: int)
    requires -0x8000_0000 <= n < 0x8000_0000
    ensures 0 <= ToUnsigned(n) < 0x1_0000_0000 && (ToUnsigned(n) - n) % 0x1_0000_0000 == 0
    ensures ToSigned(ToUnsigned(n)) == n
  {
  }
}
