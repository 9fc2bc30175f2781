/**
 * The encoder: a flat buffer of string data with the list headers kept aside
 * until the end, and the three ways of reading it out (rlp/encode.go).
 */
module RlpEncoder {
  import opened Rlp
  import opened RlpTheory

  // ----- integers and headers -----

  /** intsize: the number of bytes needed, at least one. */
  method IntSize(i: nat) returns (size: nat)
    ensures size == |IntForm(i)|
  {
    size := 1;
    var n: nat := i / 256;
    while n != 0
      invariant i > 0 ==> size + |BigEndian(n)| == |BigEndian(i)|
      invariant i == 0 ==> n == 0 && size == 1
    {
      n := n / 256;
      size := size + 1;
    }
  }

  /** headsize. */
  method HeadSizeOf(size: nat) returns (n: nat)
    ensures n == HeadSize(size)
  {
    if size < 56 {
      return 1;
    }
    n := IntSize(size);
    n := n + 1;
  }

  /** The byte i >> 8*k. */
  function ByteAt(i: nat, k: nat): Byte {
    ShiftRight(i, k) % 256
  }

  lemma DigitsAre(i: nat, n: nat)
    requires 1 <= n <= 8 && (n == 1 || i >= Pow256(n - 1)) && 0 < i < Pow256(n)
    ensures |BigEndian(i)| == n
    ensures forall j :: 0 <= j < n ==> BigEndian(i)[n - 1 - j] == ByteAt(i, j)
  {
    DigitCount(i, n);
    DigitCount(i, n - 1);
    forall j | 0 <= j < n ensures BigEndian(i)[n - 1 - j] == ByteAt(i, j) {
      Digit(i, j);
    }
  }

  /** The bytes putint writes: one case per length. */
  function ShortForm(i: nat): Bytes {
    if i < 0x100 then [ByteAt(i, 0)]
    else if i < 0x10000 then [ByteAt(i, 1), ByteAt(i, 0)]
    else if i < 0x1000000 then [ByteAt(i, 2), ByteAt(i, 1), ByteAt(i, 0)]
    else if i < 0x100000000 then [ByteAt(i, 3), ByteAt(i, 2), ByteAt(i, 1), ByteAt(i, 0)]
    else if i < 0x10000000000 then [ByteAt(i, 4), ByteAt(i, 3), ByteAt(i, 2), ByteAt(i, 1), ByteAt(i, 0)]
    else if i < 0x1000000000000 then [ByteAt(i, 5), ByteAt(i, 4), ByteAt(i, 3), ByteAt(i, 2), ByteAt(i, 1), ByteAt(i, 0)]
    else if i < 0x100000000000000 then [ByteAt(i, 6), ByteAt(i, 5), ByteAt(i, 4), ByteAt(i, 3), ByteAt(i, 2), ByteAt(i, 1), ByteAt(i, 0)]
    else [ByteAt(i, 7), ByteAt(i, 6), ByteAt(i, 5), ByteAt(i, 4), ByteAt(i, 3), ByteAt(i, 2), ByteAt(i, 1), ByteAt(i, 0)]
  }

  /** The shortest big-endian form, with one digit for zero. */
  function IntForm(i: nat): Bytes {
    if i == 0 then [0] else BigEndian(i)
  }

  lemma ShortFormIsBigEndian(i: nat)
    requires i < LIMIT
    ensures ShortForm(i) == IntForm(i)
  {
    hide BigEndian, Pow256;
    PowEight();
    if i == 0 {
      assert ByteAt(i, 0) == 0;
    } else if i < 0x100 {
      DigitsAre(i, 1);
    } else if i < 0x10000 {
      DigitsAre(i, 2);
    } else if i < 0x1000000 {
      DigitsAre(i, 3);
    } else if i < 0x100000000 {
      DigitsAre(i, 4);
    } else if i < 0x10000000000 {
      DigitsAre(i, 5);
    } else if i < 0x1000000000000 {
      DigitsAre(i, 6);
    } else if i < 0x100000000000000 {
      DigitsAre(i, 7);
    } else {
      DigitsAre(i, 8);
    }
  }

  /** putint: writes the shortest big-endian form from the given offset on. */
  method PutInt(b: array<Byte>, at: nat, i: nat) returns (size: nat)
    requires i < LIMIT && at + |IntForm(i)| <= b.Length
    modifies b
    ensures size == |IntForm(i)| && b[at..at+size] == IntForm(i)
    ensures forall j :: 0 <= j < b.Length && !(at <= j < at + size) ==> b[j] == old(b[j])
  {
    ShortFormIsBigEndian(i);
    size := Copy(b, at, ShortForm(i));
  }

  /** copy(b[at:], data). */
  method Copy(b: array<Byte>, at: nat, data: Bytes) returns (n: nat)
    requires at + |data| <= b.Length
    modifies b
    ensures n == |data| && b[at..at+n] == data
    ensures forall j :: 0 <= j < b.Length && !(at <= j < at + n) ==> b[j] == old(b[j])
  {
    for i := 0 to |data|
      invariant b[at..at+i] == data[..i]
      invariant forall j :: 0 <= j < b.Length && !(at <= j < at + i) ==> b[j] == old(b[j])
    {
      b[at + i] := data[i];
    }
    n := |data|;
  }

  /** A long header is its tag in front of the size as an integer. */
  lemma LongHead(k: Kind, size: nat)
    requires 56 <= size < LIMIT && !k.ByteKind?
    ensures |IntForm(size)| <= 8 && HeadSize(size) == 1 + |IntForm(size)|
    ensures Head(k, size) == [LargeTag(k) + |IntForm(size)|] + IntForm(size)
  {
    hide BigEndian;
    assert |Head(k, size)| <= 9;
  }

  lemma ShortHead(k: Kind, size: nat)
    requires size < 56 && !k.ByteKind?
    ensures HeadSize(size) == 1 && Head(k, size) == [SmallTag(k) + size]
  {
    hide BigEndian;
  }

  /** puthead. */
  method PutHead(b: array<Byte>, at: nat, k: Kind, size: nat) returns (n: nat)
    requires size < LIMIT && !k.ByteKind? && at + HeadSize(size) <= b.Length
    modifies b
    ensures n == HeadSize(size) && b[at..at+n] == Head(k, size)
    ensures forall j :: 0 <= j < b.Length && !(at <= j < at + n) ==> b[j] == old(b[j])
  {
    hide Head, HeadSize, IntForm;
    if size < 56 {
      ShortHead(k, size);
      b[at] := SmallTag(k) + size;
      n := 1;
    } else {
      LongHead(k, size);
      var sizesize := PutInt(b, at + 1, size);
      ghost var digits := b[at+1..at+1+sizesize];
      b[at] := LargeTag(k) + sizesize;
      n := sizesize + 1;
      assert b[at+1..at+n] == digits;
      assert b[at..at+n] == [b[at]] + b[at+1..at+n];
    }
  }

  // ----- what the flat buffer holds -----

  /** A list header to be put in front of str[offset]. */
  datatype ListHead = ListHead(offset: nat, size: nat)

  /** The string data of an item: its encoding without list headers. */
  function Strings(i: Item): (s: Bytes)
    requires Fits(i)
    decreases i, 1
  {
    match i
    case Str(_) => Encode(i)
    case List(items) => StringsAll(items)
  }

  function StringsAll(items: seq<Item>): (s: Bytes)
    requires FitsAll(items)
    decreases items, 0
  {
    if items == [] then [] else Strings(items[0]) + StringsAll(items[1..])
  }

  /** The list headers of an item whose string data starts at the offset. */
  function Heads(i: Item, offset: nat): seq<ListHead>
    requires Fits(i)
    decreases i, 1
  {
    match i
    case Str(_) => []
    case List(items) => [ListHead(offset, SizeAll(items))] + HeadsAll(items, offset)
  }

  function HeadsAll(items: seq<Item>, offset: nat): seq<ListHead>
    requires FitsAll(items)
    decreases items, 0
  {
    if items == [] then []
    else Heads(items[0], offset) + HeadsAll(items[1..], offset + |Strings(items[0])|)
  }

  function HeadsSize(heads: seq<ListHead>): nat {
    if heads == [] then 0 else HeadSize(heads[0].size) + HeadsSize(heads[1..])
  }

  lemma {:induction false} HeadsSizeConcat(a: seq<ListHead>, b: seq<ListHead>)
    ensures HeadsSize(a + b) == HeadsSize(a) + HeadsSize(b)
  {
    if a == [] {
      assert a + b == b;
    } else {
      assert (a + b)[1..] == a[1..] + b;
      HeadsSizeConcat(a[1..], b);
    }
  }

  lemma NoHeads()
    ensures HeadsSize([]) == 0
  {
  }

  lemma HeadsSizeCons(head: ListHead, heads: seq<ListHead>)
    ensures HeadsSize([head] + heads) == HeadSize(head.size) + HeadsSize(heads)
  {
    assert ([head] + heads)[1..] == heads;
  }

  /** String data and list headers together account for the whole encoding. */
  lemma {:induction false} Accounting(i: Item, offset: nat)
    requires Fits(i)
    ensures |Strings(i)| + HeadsSize(Heads(i, offset)) == Size(i)
    decreases i, 1
  {
    match i {
      case Str(_) =>
      case List(items) =>
        AccountingAll(items, offset);
        HeadsSizeConcat([ListHead(offset, SizeAll(items))], HeadsAll(items, offset));
    }
  }

  lemma {:induction false} AccountingAll(items: seq<Item>, offset: nat)
    requires FitsAll(items)
    ensures |StringsAll(items)| + HeadsSize(HeadsAll(items, offset)) == SizeAll(items)
    decreases items, 0
  {
    if items != [] {
      var next := offset + |Strings(items[0])|;
      Accounting(items[0], offset);
      AccountingAll(items[1..], next);
      HeadsSizeConcat(Heads(items[0], offset), HeadsAll(items[1..], next));
    }
  }

  /** Headers in order, within the string data, and small enough to encode. */
  predicate Ordered(str: Bytes, from: nat, heads: seq<ListHead>)
    decreases heads
  {
    from <= |str| && (heads == [] ||
      (from <= heads[0].offset <= |str| && heads[0].size < LIMIT && Ordered(str, heads[0].offset, heads[1..])))
  }

  /** The output: string data from a position on, with the headers put in. */
  function Interleave(str: Bytes, from: nat, heads: seq<ListHead>): Bytes
    requires Ordered(str, from, heads)
    decreases heads
  {
    if heads == [] then str[from..]
    else str[from..heads[0].offset] + Head(ListKind, heads[0].size) + Interleave(str, heads[0].offset, heads[1..])
  }

  lemma {:induction false} InterleaveLength(str: Bytes, from: nat, heads: seq<ListHead>)
    requires Ordered(str, from, heads)
    ensures |Interleave(str, from, heads)| == |str| - from + HeadsSize(heads)
    decreases heads
  {
    if heads != [] {
      InterleaveLength(str, heads[0].offset, heads[1..]);
    }
  }

  /** The output from the k-th header on, one step at a time. */
  lemma InterleaveStep(str: Bytes, from: nat, heads: seq<ListHead>, k: nat)
    requires k < |heads| && Ordered(str, from, heads[k..])
    ensures from <= heads[k].offset <= |str| && heads[k].size < LIMIT
    ensures Ordered(str, heads[k].offset, heads[k+1..])
    ensures Interleave(str, from, heads[k..])
         == str[from..heads[k].offset] + (Head(ListKind, heads[k].size) + Interleave(str, heads[k].offset, heads[k+1..]))
  {
    hide HeadSize, BigEndian;
    assert heads[k..][1..] == heads[k+1..];
  }

  lemma SkipTo(str: Bytes, from: nat, heads: seq<ListHead>, k: nat)
    requires k < |heads| && Ordered(str, from, heads[k..])
    ensures Ordered(str, heads[k].offset, heads[k..])
    ensures Interleave(str, from, heads[k..]) == str[from..heads[k].offset] + Interleave(str, heads[k].offset, heads[k..])
  {
    hide HeadSize, BigEndian;
    InterleaveSkip(str, from, heads[k].offset, heads[k..]);
  }

  lemma EndAt(str: Bytes, heads: seq<ListHead>)
    ensures Ordered(str, |str|, heads[|heads|..]) && Interleave(str, |str|, heads[|heads|..]) == []
  {
  }

  lemma InterleaveEnd(str: Bytes, from: nat, heads: seq<ListHead>)
    requires Ordered(str, from, heads[|heads|..])
    ensures from <= |str| && Interleave(str, from, heads[|heads|..]) == str[from..]
  {
  }

  /** String data in front of the next header can be taken out first. */
  lemma {:induction false} InterleaveSkip(str: Bytes, from: nat, to: nat, heads: seq<ListHead>)
    requires from <= to && Ordered(str, to, heads)
    ensures Ordered(str, from, heads)
    ensures Interleave(str, from, heads) == str[from..to] + Interleave(str, to, heads)
  {
    hide HeadSize, BigEndian;
    if heads == [] {
      assert str[from..] == str[from..to] + str[to..];
    } else {
      var gap, tail := str[to..heads[0].offset], Interleave(str, heads[0].offset, heads[1..]);
      assert str[from..heads[0].offset] == str[from..to] + gap;
      assert Interleave(str, from, heads) == (str[from..to] + gap) + Head(ListKind, heads[0].size) + tail;
      assert (str[from..to] + gap) + Head(ListKind, heads[0].size) + tail
          == str[from..to] + (gap + Head(ListKind, heads[0].size) + tail);
    }
  }

  lemma InterleaveHead(str: Bytes, from: nat, size: nat, heads: seq<ListHead>)
    requires Ordered(str, from, heads) && size < LIMIT
    ensures Ordered(str, from, [ListHead(from, size)] + heads)
    ensures Interleave(str, from, [ListHead(from, size)] + heads) == Head(ListKind, size) + Interleave(str, from, heads)
  {
    hide HeadSize, BigEndian;
    var all := [ListHead(from, size)] + heads;
    assert all[1..] == heads;
    assert str[from..from] + Head(ListKind, size) == Head(ListKind, size);
  }

  /** An item's part of a larger buffer comes out as its encoding. */
  lemma {:induction false} InterleaveItem(i: Item, str: Bytes, from: nat, rest: seq<ListHead>)
    requires Fits(i) && from + |Strings(i)| <= |str| && str[from..from+|Strings(i)|] == Strings(i)
    requires Ordered(str, from + |Strings(i)|, rest)
    ensures Ordered(str, from, Heads(i, from) + rest)
    ensures Interleave(str, from, Heads(i, from) + rest) == Encode(i) + Interleave(str, from + |Strings(i)|, rest)
    decreases i, 1
  {
    hide HeadSize, BigEndian, Size, SizeAll, Head, Interleave, Ordered;
    match i {
      case Str(_) =>
        assert Heads(i, from) + rest == rest;
        InterleaveSkip(str, from, from + |Strings(i)|, rest);
      case List(items) =>
        InterleaveItems(items, str, from, rest);
        var head := ListHead(from, SizeAll(items));
        var heads := Heads(i, from) + rest;
        InterleaveHead(str, from, SizeAll(items), HeadsAll(items, from) + rest);
        assert heads == [head] + (HeadsAll(items, from) + rest);
        var tail := Interleave(str, from + |StringsAll(items)|, rest);
        assert Head(ListKind, SizeAll(items)) + (EncodeAll(items) + tail)
            == (Head(ListKind, SizeAll(items)) + EncodeAll(items)) + tail;
    }
  }

  lemma {:induction false} InterleaveItems(items: seq<Item>, str: Bytes, from: nat, rest: seq<ListHead>)
    requires FitsAll(items) && from + |StringsAll(items)| <= |str|
    requires str[from..from+|StringsAll(items)|] == StringsAll(items)
    requires Ordered(str, from + |StringsAll(items)|, rest)
    ensures Ordered(str, from, HeadsAll(items, from) + rest)
    ensures Interleave(str, from, HeadsAll(items, from) + rest)
         == EncodeAll(items) + Interleave(str, from + |StringsAll(items)|, rest)
    decreases items, 0
  {
    hide HeadSize, BigEndian, Size, SizeAll, Head, Interleave, Ordered, Strings, Heads, Encode, Fits;
    if items == [] {
      assert HeadsAll(items, from) + rest == rest;
    } else {
      var s := Strings(items[0]);
      var next := from + |s|;
      var all := StringsAll(items);
      assert str[from..next] == str[from..from+|all|][..|s|] == s;
      assert str[next..from+|all|] == str[from..from+|all|][|s|..] == StringsAll(items[1..]);
      InterleaveItems(items[1..], str, next, rest);
      InterleaveItem(items[0], str, from, HeadsAll(items[1..], next) + rest);
      assert HeadsAll(items, from) + rest == Heads(items[0], from) + (HeadsAll(items[1..], next) + rest);
      var tail := Interleave(str, from + |all|, rest);
      assert Encode(items[0]) + (EncodeAll(items[1..]) + tail) == (Encode(items[0]) + EncodeAll(items[1..])) + tail;
    }
  }

  /** The flat form of an item, read out, is its encoding. */
  lemma FlatIsEncode(i: Item)
    requires Fits(i)
    ensures Ordered(Strings(i), 0, Heads(i, 0))
    ensures Interleave(Strings(i), 0, Heads(i, 0)) == Encode(i)
  {
    InterleaveItem(i, Strings(i), 0, []);
    assert Heads(i, 0) + [] == Heads(i, 0);
    assert Strings(i)[|Strings(i)|..] == [];
  }
}
