/**
 * Taking raw RLP apart without decoding it (rlp/raw.go): it sees the same
 * values as the stream decoder.
 */
module RlpRaw {
  import opened Wrappers
  import opened Rlp
  import opened RlpTheory
  import opened RlpStream

  /** The value at the front, if its header is canonical and it is complete. */
  function RawFront(b: Bytes): (f: Option<Front>)
    ensures f.Some? ==> f == Split(b)
  {
    match Split(b)
    case None => None
    case Some(f) => if f.kind.StringKind? && f.size == 1 && b[1] < 0x80 then None else Some(f)
  }

  function ByteAsInt(b: Bytes, i: nat): int
    requires i < |b|
  {
    b[i]
  }

  /** Up to eight bytes joined by shifts, one case per length. */
  function Joined(b: Bytes): int
    requires 1 <= |b| <= 8
  {
    var at := (i: int) requires 0 <= i < |b| => ByteAsInt(b, i);
    match |b|
    case 1 => at(0)
    case 2 => at(0) * 0x100 + at(1)
    case 3 => at(0) * 0x1_0000 + at(1) * 0x100 + at(2)
    case 4 => at(0) * 0x100_0000 + at(1) * 0x1_0000 + at(2) * 0x100 + at(3)
    case 5 => at(0) * 0x1_0000_0000 + at(1) * 0x100_0000 + at(2) * 0x1_0000 + at(3) * 0x100 + at(4)
    case 6 => at(0) * 0x100_0000_0000 + at(1) * 0x1_0000_0000 + at(2) * 0x100_0000 + at(3) * 0x1_0000
              + at(4) * 0x100 + at(5)
    case 7 => at(0) * 0x1_0000_0000_0000 + at(1) * 0x100_0000_0000 + at(2) * 0x1_0000_0000 + at(3) * 0x100_0000
              + at(4) * 0x1_0000 + at(5) * 0x100 + at(6)
    case _ => at(0) * 0x100_0000_0000_0000 + at(1) * 0x1_0000_0000_0000 + at(2) * 0x100_0000_0000 + at(3) * 0x1_0000_0000
              + at(4) * 0x100_0000 + at(5) * 0x1_0000 + at(6) * 0x100 + at(7)
  }

  lemma {:induction false} JoinedIsValue(b: Bytes)
    requires 1 <= |b| <= 8
    ensures Joined(b) == Value(b)
  {
    if |b| > 1 {
      JoinedIsValue(b[..|b| - 1]);
      JoinedStep(b);
    }
  }

  lemma JoinedStep(b: Bytes)
    requires 2 <= |b| <= 8
    ensures Joined(b) == Joined(b[..|b| - 1]) * 256 + ByteAsInt(b, |b| - 1)
  {
    hide Value;
    assert forall i :: 0 <= i < |b| - 1 ==> ByteAsInt(b[..|b| - 1], i) == ByteAsInt(b, i);
  }

  /** The bytes are the shortest form of a size that needs a header of its own. */
  ghost predicate IsLongSize(b: Bytes, n: nat) {
    n >= 56 && BigEndian(n) == b
  }

  lemma LongSizeIs(b: Bytes)
    requires b != []
    ensures b[0] != 0 && Value(b) >= 56 ==> IsLongSize(b, Value(b))
    ensures forall n :: IsLongSize(b, n) ==> n == Value(b) && b[0] != 0 && Value(b) >= 56
  {
    if b[0] != 0 {
      BigEndianOfValue(b);
    }
    forall n | IsLongSize(b, n) ensures n == Value(b) && b[0] != 0 && Value(b) >= 56 {
      ValueOfBigEndian(n);
    }
  }

  /** readSize: succeeds exactly when the bytes are what an encoder writes for a size behind a
      long header, and gives that size. */
  method ReadSize(b: Bytes, slen: nat) returns (r: Result<nat>)
    requires 1 <= slen <= 8
    ensures r.Ok? ==> slen <= |b| && IsLongSize(b[..slen], r.value)
    ensures r.Err? ==> slen > |b| || forall n :: !IsLongSize(b[..slen], n)
    ensures r.Err? ==> r.error == if slen > |b| then UnexpectedEnd else CanonSize
  {
    hide Value, BigEndian, Joined, IsLongSize;
    if slen > |b| {
      return Err(UnexpectedEnd);
    }
    var s := Joined(b[..slen]);
    JoinedIsValue(b[..slen]);
    LongSizeIs(b[..slen]);
    if s < 56 || b[0] == 0 {
      return Err(CanonSize);
    }
    return Ok(s);
  }

  lemma SizeBytes(buf: Bytes, n: nat)
    requires buf != [] && n >= 1
    ensures |buf| > n ==>
              var digits := buf[1..1 + n];
              && buf[1..][..n] == digits
              && (buf[1] != 0 && Value(digits) >= 56 ==> IsLongSize(digits, Value(digits)))
              && forall k :: IsLongSize(digits, k) ==> k == Value(digits) && buf[1] != 0 && k >= 56
  {
    if |buf| > n {
      LongSizeIs(buf[1..1 + n]);
    }
  }

  /** readKind. */
  method ReadFront(buf: Bytes) returns (r: Result<Front>)
    ensures r.Ok? <==> RawFront(buf).Some?
    ensures r.Ok? ==> RawFront(buf) == Some(r.value)
    ensures r == Err(UnexpectedEnd) <==> buf == [] || CutShort(buf)
    ensures r == Err(ValueTooLarge) <==> Header(buf).Some? && Split(buf).None?
    ensures r.Err? ==> r.error in {UnexpectedEnd, ValueTooLarge, CanonSize}
  {
    hide Value, IsLongSize, BigEndian;
    if buf == [] {
      return Err(UnexpectedEnd);
    }
    var b := buf[0];
    var f;
    if b < 0x80 {
      f := Front(ByteKind, 0, 1);
    } else if b < 0xB8 {
      f := Front(StringKind, 1, b - 0x80);
      if f.size == 1 && |buf| > 1 && buf[1] < 0x80 {
        return Err(CanonSize);
      }
    } else if b < 0xC0 {
      SizeBytes(buf, b - 0xB7);
      var size := ReadSize(buf[1..], b - 0xB7);
      if size.Err? {
        return Err(size.error);
      }
      f := Front(StringKind, b - 0xB7 + 1, size.value);
    } else if b < 0xF8 {
      f := Front(ListKind, 1, b - 0xC0);
    } else {
      SizeBytes(buf, b - 0xF7);
      var size := ReadSize(buf[1..], b - 0xF7);
      if size.Err? {
        return Err(size.error);
      }
      f := Front(ListKind, b - 0xF7 + 1, size.value);
    }
    if f.size > |buf| - f.tag {
      return Err(ValueTooLarge);
    }
    return Ok(f);
  }

  /** What is accepted is the encoding of a string, or a list header with its content. */
  lemma FrontIsValue(b: Bytes, f: Front)
    requires RawFront(b) == Some(f)
    ensures f.tag + f.size <= |b| && f.size < LIMIT
    ensures var content := b[f.tag..f.tag + f.size];
            b[..f.tag + f.size] == if f.kind.ListKind? then Head(ListKind, f.size) + content else Encode(Str(content))
  {
    hide BigEndian, HeadSize, Head, LongSize;
    var content := b[f.tag..f.tag + f.size];
    if f.kind.ByteKind? {
      assert b[..1] == [b[0]] == content;
    } else {
      HeadOfHeader(b);
      assert b[..f.tag + f.size] == b[..f.tag] + content;
      if f.size == 1 {
        OneByteHead(f.kind);
        assert content[0] == b[1];
      }
    }
  }

  lemma OneByteHead(k: Kind)
    requires !k.ByteKind?
    ensures |Head(k, 1)| == 1 && HeadSize(1) == 1
  {
  }

  lemma ListFront(b: Bytes, content: Bytes)
    requires |content| < LIMIT && Head(ListKind, |content|) + content <= b
    ensures RawFront(b) == Some(Front(ListKind, |Head(ListKind, |content|)|, |content|))
  {
    hide BigEndian, HeadSize, Head, Header;
    var head := Head(ListKind, |content|);
    assert b == head + b[|head|..];
    HeaderOfHead(ListKind, |content|, b[|head|..]);
  }

  lemma EncodedFront(x: Item, b: Bytes)
    requires Fits(x) && Encode(x) <= b
    ensures RawFront(b).Some?
    ensures var f := RawFront(b).value;
            && f.tag + f.size == |Encode(x)|
            && b[f.tag..|Encode(x)|] == if x.Str? then x.bytes else EncodeAll(x.items)
  {
    hide RawFront, Encode, EncodeAll, Split, Header, FrontOf;
    RawFrontOfEncode(x, b);
    FrontIs(b, x);
    ContentOfEncode(x);
    assert Encode(x)[FrontOf(x).tag..] == b[FrontOf(x).tag..|Encode(x)|];
  }

  /** Split: kind, content and the bytes behind the first value. Header, content
      and rest together are the input again. */
  method SplitValue(b: Bytes) returns (r: Result<(Kind, Bytes, Bytes)>)
    ensures r.Ok? <==> RawFront(b).Some?
    ensures r.Ok? ==> var (k, content, rest) := r.value;
              && |content| < LIMIT
              && b == (if k.ListKind? then Head(ListKind, |content|) + content else Encode(Str(content))) + rest
    ensures forall content :: |content| < LIMIT && Head(ListKind, |content|) + content <= b ==>
              r == Ok((ListKind, content, b[|Head(ListKind, |content|) + content|..]))
    ensures forall x :: Fits(x) && Encode(x) <= b ==>
              r.Ok? && r.value.2 == b[|Encode(x)|..] && r.value.1 == (if x.Str? then x.bytes else EncodeAll(x.items))
  {
    hide Value, Encode, EncodeAll, HeadSize, BigEndian, Head, RawFront, FrontOf, Split, Header;
    var f := ReadFront(b);
    forall x | Fits(x) && Encode(x) <= b
      ensures f.Ok? && f.value.tag <= f.value.tag + f.value.size == |Encode(x)|
      ensures b[f.value.tag..|Encode(x)|] == if x.Str? then x.bytes else EncodeAll(x.items)
    {
      EncodedFront(x, b);
    }
    forall content | |content| < LIMIT && Head(ListKind, |content|) + content <= b
      ensures var head := Head(ListKind, |content|);
              f == Ok(Front(ListKind, |head|, |content|)) && b[|head|..|head| + |content|] == content
    {
      ListFront(b, content);
    }
    if f.Err? {
      return Err(f.error);
    }
    var Front(k, ts, cs) := f.value;
    FrontIsValue(b, f.value);
    assert b == b[..ts+cs] + b[ts+cs..];
    return Ok((k, b[ts..ts+cs], b[ts+cs..]));
  }

  /** The number of values the bytes fall into, header by header. */
  ghost function Values(b: Bytes): Option<nat>
    decreases |b|
  {
    if b == [] then Some(0)
    else match RawFront(b)
      case None => None
      case Some(f) => match Values(b[f.tag + f.size..])
        case None => None
        case Some(n) => Some(n + 1)
  }

  /** A concatenation of encodings falls into just these. */
  lemma {:induction false} ValuesOfEncodings(xs: seq<Item>)
    requires FitsAll(xs)
    ensures Values(EncodeAll(xs)) == Some(|xs|)
  {
    hide RawFront, Encode, FrontOf;
    if xs != [] {
      FirstOf(xs);
      ValuesOfEncodings(xs[1..]);
    }
  }

  /** One value: the encoding of a string, or a list header with its content. */
  ghost predicate IsPiece(p: Bytes) {
    || (exists s :: |s| < LIMIT && p == Encode(Str(s)))
    || (exists content :: |content| < LIMIT && p == Head(ListKind, |content|) + content)
  }

  ghost predicate AllPieces(ps: seq<Bytes>) {
    forall i :: 0 <= i < |ps| ==> IsPiece(ps[i])
  }

  ghost function Concat(ps: seq<Bytes>): Bytes {
    if ps == [] then [] else ps[0] + Concat(ps[1..])
  }

  lemma PieceFront(p: Bytes, rest: Bytes)
    requires IsPiece(p)
    ensures p != [] && RawFront(p + rest).Some?
    ensures var f := RawFront(p + rest).value; f.tag + f.size == |p|
  {
    hide Encode, Head, RawFront;
    var b := p + rest;
    if s :| |s| < LIMIT && p == Encode(Str(s)) {
      RawFrontOfEncode(Str(s), b);
      SplitOfEncode(Str(s), rest);
    } else {
      var content :| |content| < LIMIT && p == Head(ListKind, |content|) + content;
      ListFront(b, content);
    }
  }

  /** Bytes that are so many values, one after the other, are counted as such. */
  lemma {:induction false} PiecesAreValues(ps: seq<Bytes>)
    requires AllPieces(ps)
    ensures Values(Concat(ps)) == Some(|ps|)
  {
    hide IsPiece, RawFront;
    if ps != [] {
      PieceFront(ps[0], Concat(ps[1..]));
      PiecesAreValues(ps[1..]);
      assert Concat(ps)[|ps[0]|..] == Concat(ps[1..]);
    }
  }

  /** And bytes that can be counted are so many values. */
  lemma {:induction false} ValuesArePieces(b: Bytes) returns (ps: seq<Bytes>)
    requires Values(b).Some?
    ensures AllPieces(ps) && Concat(ps) == b && |ps| == Values(b).value
    decreases |b|
  {
    hide RawFront, IsPiece;
    if b == [] {
      return [];
    }
    var f := RawFront(b).value;
    FrontIsPiece(b, f);
    var first, rest := b[..f.tag + f.size], b[f.tag + f.size..];
    var more := ValuesArePieces(rest);
    ps := [first] + more;
    assert ps[1..] == more && b == first + rest;
  }

  lemma FrontIsPiece(b: Bytes, f: Front)
    requires RawFront(b) == Some(f)
    ensures 0 < f.tag + f.size <= |b| && IsPiece(b[..f.tag + f.size])
  {
    hide RawFront, Encode, Head, IsPiece;
    FrontIsValue(b, f);
    var content := b[f.tag..f.tag + f.size];
    if f.kind.ListKind? {
      ListPiece(content);
    } else {
      StringPiece(content);
    }
    PieceNotEmpty(b[..f.tag + f.size]);
  }

  lemma StringPiece(s: Bytes)
    requires |s| < LIMIT
    ensures IsPiece(Encode(Str(s)))
  {
    hide Encode, Head;
  }

  lemma ListPiece(content: Bytes)
    requires |content| < LIMIT
    ensures IsPiece(Head(ListKind, |content|) + content)
  {
    hide Encode, Head;
  }

  lemma PieceNotEmpty(p: Bytes)
    ensures IsPiece(p) ==> p != []
  {
    if IsPiece(p) {
      PieceFront(p, []);
    }
  }

  /** CountValues: how many values there are; on a concatenation of encodings, how many
      were concatenated. */
  method CountValues(b: Bytes) returns (r: Result<nat>)
    ensures r.Ok? ==> exists ps :: AllPieces(ps) && Concat(ps) == b && |ps| == r.value
    ensures forall ps :: AllPieces(ps) && Concat(ps) == b ==> r == Ok(|ps|)
    ensures forall xs :: FitsAll(xs) && EncodeAll(xs) == b ==> r == Ok(|xs|)
  {
    hide RawFront, Values, FitsAll, EncodeAll, Concat, AllPieces, Split, Header;
    CountIsValues(b);
    NoValues();
    var rest, i := b, 0;
    while |rest| > 0
      invariant if Values(rest).Some? then Values(b) == Some(i + Values(rest).value) else Values(b).None?
      decreases |rest|
    {
      ValuesStep(rest);
      var f := ReadFront(rest);
      if f.Err? {
        return Err(f.error);
      }
      rest := rest[f.value.tag + f.value.size..];
      i := i + 1;
    }
    ghost var ps := ValuesArePieces(b);
    return Ok(i);
  }

  lemma NoValues()
    ensures Values([]) == Some(0)
  {
  }

  lemma ValuesStep(b: Bytes)
    requires b != []
    ensures RawFront(b).None? ==> Values(b).None?
    ensures RawFront(b).Some? ==>
              var f := RawFront(b).value;
              && 0 < f.tag + f.size <= |b|
              && var more := Values(b[f.tag + f.size..]);
                 Values(b) == if more.Some? then Some(more.value + 1) else None
  {
    hide RawFront;
    if RawFront(b).Some? {
      FrontIsPiece(b, RawFront(b).value);
    }
  }

  lemma CountIsValues(b: Bytes)
    ensures forall ps :: AllPieces(ps) && Concat(ps) == b ==> Values(b) == Some(|ps|)
    ensures forall xs :: FitsAll(xs) && EncodeAll(xs) == b ==> Values(b) == Some(|xs|)
  {
    hide Values, AllPieces, Concat, FitsAll, EncodeAll;
    forall ps | AllPieces(ps) && Concat(ps) == b {
      PiecesAreValues(ps);
    }
    forall xs | FitsAll(xs) && EncodeAll(xs) == b {
      ValuesOfEncodings(xs);
    }
  }

  /** The front of a non-empty concatenation is its first item. */
  lemma FirstOf(xs: seq<Item>)
    requires FitsAll(xs) && xs != []
    ensures EncodeAll(xs) != []
    ensures RawFront(EncodeAll(xs)) == Some(FrontOf(xs[0]))
    ensures FitsAll(xs[1..])
    ensures EncodeAll(xs[1..]) == EncodeAll(xs)[FrontOf(xs[0]).tag + FrontOf(xs[0]).size..]
  {
    hide Encode, BigEndian, HeadSize;
    var e := EncodeAll(xs);
    FrontIs(e, xs[0]);
    ContentOfEncode(xs[0]);
    RawFrontOfEncode(xs[0], e);
  }

  lemma RawFrontOfEncode(x: Item, b: Bytes)
    requires Fits(x) && Encode(x) <= b
    ensures RawFront(b) == Some(FrontOf(x))
  {
    hide BigEndian, HeadSize, Header;
    FrontIs(b, x);
    ContentOfEncode(x);
    var f := FrontOf(x);
    if f.kind.StringKind? && f.size == 1 {
      assert x.bytes == Encode(x)[f.tag..] && f.tag == 1 by { OneByteTag(x); }
    }
  }

  lemma OneByteTag(x: Item)
    requires x.Str? && |x.bytes| == 1 && FrontOf(x).kind.StringKind?
    ensures FrontOf(x).tag == 1
  {
  }
}
