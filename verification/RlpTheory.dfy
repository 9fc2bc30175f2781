/**
 * What the RLP definition implies: headers are parsed back uniquely, no
 * encoding is a prefix of another, and a concatenation of encodings comes
 * apart in one way only.
 */
module RlpTheory {
  import opened Wrappers
  import opened Rlp

  lemma HeaderOfHead(k: Kind, size: nat, rest: Bytes)
    requires size < LIMIT && !k.ByteKind?
    ensures Header(Head(k, size) + rest) == Some(Front(k, HeadSize(size), size))
  {
    var b := Head(k, size) + rest;
    if size >= 56 {
      var n := |BigEndian(size)|;
      assert b[1..1+n] == BigEndian(size);
      ValueOfBigEndian(size);
      assert b[1] == BigEndian(size)[0];
    }
  }

  lemma HeadOfHeader(b: Bytes)
    requires Header(b).Some? && !Header(b).value.kind.ByteKind?
    ensures var f := Header(b).value;
            && f.size < LIMIT && f.tag == HeadSize(f.size) && f.tag <= |b|
            && b[..f.tag] == Head(f.kind, f.size)
  {
    var f := Header(b).value;
    if f.tag > 1 {
      var digits := b[1..f.tag];
      BigEndianOfValue(digits);
      DigitCount(f.size, 8);
      PowEight();
      assert b[..f.tag] == [b[0]] + digits;
    } else {
      assert b[..1] == [b[0]];
    }
  }

  /** The header of an item's encoding says what the item is. */
  function FrontOf(i: Item): Front {
    match i
    case Str(b) => if |b| == 1 && b[0] < 0x80 then Front(ByteKind, 0, 1) else Front(StringKind, HeadSize(|b|), |b|)
    case List(items) => Front(ListKind, HeadSize(SizeAll(items)), SizeAll(items))
  }

  /** The digits of a size behind a long header. */
  ghost predicate IsSize(digits: Bytes, size: nat) {
    1 <= |digits| <= 8 && digits[0] != 0 && Value(digits) == size
  }

  lemma LongForm(k: Kind, size: nat) returns (digits: Bytes)
    requires !k.ByteKind? && 55 < size < LIMIT
    ensures IsSize(digits, size) && |digits| <= 8
    ensures Head(k, size) == [(if k.ListKind? then 0xF7 else 0xB7) + |digits|] + digits
  {
    digits := BigEndian(size);
    assert |Head(k, size)| <= 9;
    ValueOfBigEndian(size);
  }

  /** A string in one of three forms: a single small byte as it is; up to 55 bytes behind one tag;
      more behind a tag and the size. */
  lemma StringForm(b: Bytes)
    requires |b| < LIMIT
    ensures |b| == 1 && b[0] < 0x80 ==> Encode(Str(b)) == b
    ensures |b| <= 55 && !(|b| == 1 && b[0] < 0x80) ==> Encode(Str(b)) == [0x80 + |b|] + b
    ensures |b| > 55 ==>
              exists digits :: IsSize(digits, |b|) && Encode(Str(b)) == [0xB7 + |digits|] + digits + b
  {
    hide BigEndian, Value;
    if |b| > 55 {
      var digits := LongForm(StringKind, |b|);
      assert Encode(Str(b)) == [0xB7 + |digits|] + digits + b;
    }
  }

  /** A list in one of two forms, by the size of its content. */
  lemma ListForm(items: seq<Item>)
    requires Fits(Item.List(items))
    ensures var content := EncodeAll(items); |content| <= 55 ==> Encode(Item.List(items)) == [0xC0 + |content|] + content
    ensures var content := EncodeAll(items); |content| > 55 ==>
              exists digits :: IsSize(digits, |content|) && Encode(Item.List(items)) == [0xF7 + |digits|] + digits + content
  {
    hide BigEndian, Value;
    var content := EncodeAll(items);
    if |content| > 55 {
      var digits := LongForm(ListKind, |content|);
      assert Encode(Item.List(items)) == [0xF7 + |digits|] + digits + content;
    }
  }

  lemma SplitOfEncode(i: Item, rest: Bytes)
    requires Fits(i)
    ensures Split(Encode(i) + rest) == Some(FrontOf(i))
    ensures FrontOf(i).tag + FrontOf(i).size == |Encode(i)|
  {
    hide BigEndian, HeadSize, Head, Long, LongSize;
    match i {
      case Str(b) =>
        if !(|b| == 1 && b[0] < 0x80) {
          HeaderOfHead(StringKind, |b|, b + rest);
          assert Encode(i) + rest == Head(StringKind, |b|) + (b + rest);
        }
      case List(items) =>
        HeaderOfHead(ListKind, SizeAll(items), EncodeAll(items) + rest);
        assert Encode(i) + rest == Head(ListKind, SizeAll(items)) + (EncodeAll(items) + rest);
    }
  }

  /** The content of an encoding, behind its header. */
  lemma ContentOfEncode(i: Item)
    requires Fits(i)
    ensures FrontOf(i).tag <= |Encode(i)|
    ensures Encode(i)[FrontOf(i).tag..] == (if i.Str? then i.bytes else EncodeAll(i.items))
  {
    hide BigEndian, HeadSize;
    assert i.List? ==> Encode(i) == Head(ListKind, SizeAll(i.items)) + EncodeAll(i.items);
  }

  /** Encodings that start the same input are equal and have equal headers. */
  lemma SameEncoding(x: Item, y: Item, b: Bytes)
    requires Fits(x) && Fits(y) && Encode(x) <= b && Encode(y) <= b
    ensures FrontOf(x) == FrontOf(y) && Encode(x) == Encode(y)
  {
    hide Encode, Split, FrontOf;
    var ex, ey := Encode(x), Encode(y);
    SplitOfEncode(x, b[|ex|..]);
    SplitOfEncode(y, b[|ey|..]);
    assert ex + b[|ex|..] == b == ey + b[|ey|..];
    assert ex == b[..|ex|] && ey == b[..|ey|];
  }

  /** Two items whose encodings start the same input are the same item. */
  lemma {:induction false} Unique(x: Item, y: Item, b: Bytes)
    requires Fits(x) && Fits(y) && Encode(x) <= b && Encode(y) <= b
    ensures x == y
    decreases x, 1
  {
    hide Encode, EncodeAll;
    SameEncoding(x, y, b);
    ContentOfEncode(x);
    ContentOfEncode(y);
    if x.List? {
      UniqueAll(x.items, y.items);
    }
  }

  lemma {:induction false} UniqueAll(xs: seq<Item>, ys: seq<Item>)
    requires FitsAll(xs) && FitsAll(ys) && EncodeAll(xs) == EncodeAll(ys)
    ensures xs == ys
    decreases xs, 0
  {
    hide Encode, Size, SizeAll;
    if xs != [] && ys != [] {
      var e := EncodeAll(xs);
      Unique(xs[0], ys[0], e);
      assert EncodeAll(xs[1..]) == e[|Encode(xs[0])|..];
      assert EncodeAll(ys[1..]) == e[|Encode(ys[0])|..];
      UniqueAll(xs[1..], ys[1..]);
      assert xs == [xs[0]] + xs[1..] && ys == [ys[0]] + ys[1..];
    }
  }

  lemma {:induction false} EncodeAllAppend(xs: seq<Item>, x: Item)
    requires FitsAll(xs) && Fits(x)
    ensures FitsAll(xs + [x]) && EncodeAll(xs + [x]) == EncodeAll(xs) + Encode(x)
  {
    hide Encode, Fits, Size, SizeAll;
    if xs == [] {
      assert xs + [x] == [x];
      assert [x][1..] == [];
    } else {
      assert (xs + [x])[1..] == xs[1..] + [x];
      EncodeAllAppend(xs[1..], x);
    }
  }

  /** A sequence of items that encodes to a proper prefix of another sequence's
      encoding is a proper prefix of it, and the next item starts right there. */
  lemma {:induction false} NextItem(done: seq<Item>, all: seq<Item>)
    requires FitsAll(done) && FitsAll(all)
    requires EncodeAll(done) <= EncodeAll(all) && |EncodeAll(done)| < |EncodeAll(all)|
    ensures |done| < |all| && Fits(all[|done|])
    ensures Encode(all[|done|]) <= EncodeAll(all)[|EncodeAll(done)|..]
  {
    hide Encode, Size, SizeAll;
    var e := EncodeAll(all);
    if done == [] {
      assert e[0..] == e;
    } else {
      Unique(done[0], all[0], e);
      var n := |Encode(done[0])|;
      assert EncodeAll(done[1..]) == EncodeAll(done)[n..];
      assert EncodeAll(all[1..]) == e[n..];
      NextItem(done[1..], all[1..]);
      var m := |EncodeAll(done[1..])|;
      assert e[n..][m..] == e[n+m..];
    }
  }

  /** The encoding of an unsigned integer: its digits as a string. */
  function UintForm(n: nat): Bytes
    requires |BigEndian(n)| < LIMIT
  {
    Encode(Str(BigEndian(n)))
  }

  lemma UintFits(n: nat)
    ensures n < LIMIT <==> |BigEndian(n)| <= 8
  {
    DigitCount(n, 8);
    PowEight();
  }
}
