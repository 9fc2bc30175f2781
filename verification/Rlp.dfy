/**
 * Recursive Length Prefix encoding as Appendix B of the Ethereum Yellow Paper
 * defines it: the reference against which encoder and decoder are proved.
 */
module Rlp {
  import opened Wrappers

  type Byte = b: int | 0 <= b < 256
  type Bytes = seq<Byte>

  /** One past the largest size a header can announce. */
  const LIMIT: nat := 0x1_0000_0000_0000_0000

  datatype Item = Str(bytes: Bytes) | List(items: seq<Item>)

  // ----- big-endian numbers -----

  /** The shortest big-endian form; zero has no digits. */
  function BigEndian(n: nat): Bytes {
    if n == 0 then [] else BigEndian(n / 256) + [n % 256]
  }

  function Value(b: Bytes): nat {
    if b == [] then 0 else Value(b[..|b|-1]) * 256 + b[|b|-1]
  }

  function Pow256(k: nat): (p: nat)
    ensures p > 0
  {
    if k == 0 then 1 else 256 * Pow256(k - 1)
  }

  lemma {:induction false} ValueOfBigEndian(n: nat)
    ensures Value(BigEndian(n)) == n
    ensures n > 0 ==> |BigEndian(n)| > 0 && BigEndian(n)[0] != 0
  {
    if n > 0 {
      ValueOfBigEndian(n / 256);
      var b := BigEndian(n);
      assert b[..|b|-1] == BigEndian(n / 256);
      if n / 256 == 0 {
        assert b == [n % 256];
      }
    }
  }

  lemma {:induction false} BigEndianOfValue(b: Bytes)
    requires b != [] ==> b[0] != 0
    ensures BigEndian(Value(b)) == b && (b != [] ==> Value(b) > 0)
  {
    if b != [] {
      var front := b[..|b|-1];
      BigEndianOfValue(front);
      assert b == front + [b[|b|-1]];
    }
  }

  /** A number has at most k digits exactly when it is below 256^k. */
  lemma {:induction false} DigitCount(n: nat, k: nat)
    ensures |BigEndian(n)| <= k <==> n < Pow256(k)
  {
    if n > 0 && k > 0 {
      DigitCount(n / 256, k - 1);
    }
    if k == 0 {
      assert Pow256(0) == 1;
    }
  }

  /** The number shifted right by k bytes. */
  function ShiftRight(n: nat, k: nat): nat {
    if k == 0 then n else ShiftRight(n / 256, k - 1)
  }

  /** The digits, one by one. */
  lemma {:induction false} Digit(n: nat, j: nat)
    requires j < |BigEndian(n)|
    ensures BigEndian(n)[|BigEndian(n)| - 1 - j] == ShiftRight(n, j) % 256
  {
    if j > 0 {
      Digit(n / 256, j - 1);
    }
  }

  // ----- headers -----

  datatype Kind = ByteKind | StringKind | ListKind

  function SmallTag(k: Kind): int { if k.ListKind? then 0xC0 else 0x80 }
  function LargeTag(k: Kind): int { if k.ListKind? then 0xF7 else 0xB7 }

  function HeadSize(size: nat): nat {
    if size < 56 then 1 else 1 + |BigEndian(size)|
  }

  /** The header of a string or list with the given content size. */
  function Head(k: Kind, size: nat): (h: Bytes)
    requires size < LIMIT && !k.ByteKind?
    ensures |h| == HeadSize(size) && 1 <= |h| <= 9
  {
    DigitCount(size, 8);
    assert Pow256(8) == LIMIT by { PowEight(); }
    if size < 56 then [SmallTag(k) + size]
    else [LargeTag(k) + |BigEndian(size)|] + BigEndian(size)
  }

  lemma PowEight()
    ensures Pow256(8) == LIMIT && Pow256(7) == LIMIT / 256 && Pow256(1) == 256
    ensures Pow256(2) == 0x1_0000 && Pow256(3) == 0x100_0000 && Pow256(4) == 0x1_0000_0000
    ensures Pow256(5) == 0x100_0000_0000 && Pow256(6) == 0x1_0000_0000_0000
  {
    assert Pow256(1) == 256;
    assert Pow256(2) == 0x1_0000;
    assert Pow256(3) == 0x100_0000;
    assert Pow256(4) == 0x1_0000_0000;
    assert Pow256(5) == 0x100_0000_0000;
    assert Pow256(6) == 0x1_0000_0000_0000;
  }

  // ----- items -----

  function Size(i: Item): nat
    decreases i, 1
  {
    match i
    case Str(b) => if |b| == 1 && b[0] < 0x80 then 1 else HeadSize(|b|) + |b|
    case List(items) => HeadSize(SizeAll(items)) + SizeAll(items)
  }

  function SizeAll(items: seq<Item>): nat
    decreases items, 0
  {
    if items == [] then 0 else Size(items[0]) + SizeAll(items[1..])
  }

  /** No string or list in the item is too large for a header. */
  predicate Fits(i: Item)
    decreases i, 1
  {
    match i
    case Str(b) => |b| < LIMIT
    case List(items) => SizeAll(items) < LIMIT && FitsAll(items)
  }

  predicate FitsAll(items: seq<Item>)
    decreases items, 0
  {
    items == [] || (Fits(items[0]) && FitsAll(items[1..]))
  }

  function Encode(i: Item): (e: Bytes)
    requires Fits(i)
    ensures |e| == Size(i) && |e| >= 1
    decreases i, 1
  {
    match i
    case Str(b) => if |b| == 1 && b[0] < 0x80 then b else Head(StringKind, |b|) + b
    case List(items) => Head(ListKind, SizeAll(items)) + EncodeAll(items)
  }

  function EncodeAll(items: seq<Item>): (e: Bytes)
    requires FitsAll(items)
    ensures |e| == SizeAll(items)
    decreases items, 0
  {
    if items == [] then [] else Encode(items[0]) + EncodeAll(items[1..])
  }

  // ----- parsing one header -----

  /** What stands at the front of some input: the kind, the length of the
      header and the length of the content. A single byte has no header. */
  datatype Front = Front(kind: Kind, tag: nat, size: nat)

  /** The size announced by n size bytes after the first byte, if canonical. */
  function LongSize(b: Bytes, n: nat): Option<nat>
    requires b != [] && n >= 1
  {
    if |b| < 1 + n || b[1] == 0 || Value(b[1..1+n]) < 56 then None
    else Some(Value(b[1..1+n]))
  }

  function Header(b: Bytes): Option<Front> {
    if b == [] then None
    else if b[0] < 0x80 then Some(Front(ByteKind, 0, 1))
    else if b[0] < 0xB8 then Some(Front(StringKind, 1, b[0] - 0x80))
    else if b[0] < 0xC0 then Long(StringKind, b, b[0] - 0xB7)
    else if b[0] < 0xF8 then Some(Front(ListKind, 1, b[0] - 0xC0))
    else Long(ListKind, b, b[0] - 0xF7)
  }

  function Long(k: Kind, b: Bytes, n: nat): Option<Front>
    requires b != [] && n >= 1
  {
    match LongSize(b, n)
    case None => None
    case Some(size) => Some(Front(k, 1 + n, size))
  }

  /** The front value of the input: a canonical header followed by its content. */
  function Split(b: Bytes): (f: Option<Front>)
    ensures f.Some? ==> f.value.tag + f.value.size <= |b| && f.value.tag + f.value.size >= 1
  {
    match Header(b)
    case None => None
    case Some(f) => if f.tag + f.size <= |b| then Some(f) else None
  }
}
