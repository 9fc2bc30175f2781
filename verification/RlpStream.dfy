/**
 * The decoder: a stream over input bytes with a stack of open lists
 * (rlp/decode.go, Stream, decodeInterface, DecodeBytes).
 */
module RlpStream {
  import opened Wrappers
  import opened Rlp
  import opened RlpTheory
  import opened RlpEncoder

  datatype Error =
    | EndOfList | EndOfInput | UnexpectedEnd
    | ExpectedString | ExpectedList
    | CanonInt | CanonSize | UintOverflow
    | ElemTooLarge | ValueTooLarge
    | MoreThanOneValue | NotInList | NotAtEndOfList

  datatype Result<+T> = Ok(value: T) | Err(error: Error)

  /** An open list: how much of its content has been consumed, and its size. */
  datatype ListPos = ListPos(pos: nat, size: nat)

  /** Lists nest: an inner list fits into what is left of the one around it. The
      content of an inner list counts for the outer one only when it is closed. */
  ghost predicate Nested(stack: seq<ListPos>, remaining: nat) {
    stack == [] || (
      var top, below := stack[|stack|-1], stack[..|stack|-1];
      && top.pos <= top.size && top.size - top.pos <= remaining
      && Nested(below, remaining + top.pos)
      && (below != [] ==> below[|below|-1].pos + top.size <= below[|below|-1].size)
    )
  }

  /** The stack after n more bytes of the innermost list. */
  function Advance(stack: seq<ListPos>, n: nat): seq<ListPos> {
    if stack == [] then []
    else stack[|stack|-1 := ListPos(stack[|stack|-1].pos + n, stack[|stack|-1].size)]
  }

  lemma AdvanceNested(stack: seq<ListPos>, remaining: nat, n: nat)
    requires Nested(stack, remaining) && n <= remaining
    requires stack != [] ==> stack[|stack|-1].pos + n <= stack[|stack|-1].size
    ensures Nested(Advance(stack, n), remaining - n)
  {
    if stack != [] {
      assert Advance(stack, n)[..|stack|-1] == stack[..|stack|-1];
    }
  }

  /** The input ends within the size of a long header. */
  predicate CutShort(w: Bytes) {
    && w != []
    && |w| <= (if 0xB8 <= w[0] <= 0xBF then w[0] - 0xB7 else if w[0] >= 0xF8 then w[0] - 0xF7 else 0)
  }

  class Stream {
    const input: Bytes
    var pos: nat
    var remaining: nat
    var stack: seq<ListPos>

    /** The value ahead, once its header has been read. */
    var kind: Option<Kind>
    var size: nat
    var byteval: Byte
    var kinderr: Option<Error>
    /** The header bytes of the value ahead. */
    ghost var head: Bytes

    /** NewStream over bytes: the input length is the limit. */
    constructor (input: Bytes)
      ensures Ready() && this.input == input && pos == 0 && stack == []
    {
      this.input := input;
      pos, remaining, stack := 0, |input|, [];
      kind, size, byteval, kinderr, head := None, 0, 0, None, [];
    }

    ghost predicate Valid()
      reads this
    {
      pos + remaining == |input| && Nested(stack, remaining)
    }

    /** No header has been read ahead. */
    ghost predicate Ready()
      reads this
    {
      Valid() && kind.None?
    }

    /** Bytes left in the innermost list, or in the input outside of lists. */
    function Left(): int
      reads this
    {
      if stack == [] then remaining else stack[|stack|-1].size - stack[|stack|-1].pos
    }

    /** Those bytes. */
    ghost function Window(): (w: Bytes)
      requires Valid()
      reads this
      ensures |w| == Left()
    {
      input[pos..pos+Left()]
    }

    /** The header of the value ahead has been read and its content is there. */
    ghost predicate Armed()
      reads this
    {
      && Valid() && kind.Some? && kinderr.None? && size <= Left()
      && match kind.value {
           case ByteKind => size == 0 && head == [byteval] && byteval < 0x80
           case _ => size < LIMIT && head == Head(kind.value, size)
         }
    }

    method WillRead(n: nat) returns (err: Option<Error>)
      requires Valid()
      modifies this`kind, this`stack, this`remaining
      ensures kind.None?
      ensures err.None? <==> n <= old(Left())
      ensures err.None? ==> stack == Advance(old(stack), n) && remaining == old(remaining) - n
      ensures err.Some? ==> stack == old(stack) && err.value == if old(stack) == [] then ValueTooLarge else ElemTooLarge
      ensures err.None? ==> n <= old(remaining) && Nested(stack, remaining)
    {
      kind := None;
      if stack != [] {
        var tos := stack[|stack|-1];
        if n > tos.size - tos.pos {
          return Some(ElemTooLarge);
        }
        AdvanceNested(stack, remaining, n);
        stack := Advance(stack, n);
      }
      if n > remaining {
        return Some(ValueTooLarge);
      }
      remaining := remaining - n;
      return None;
    }

    /** readFull: the next n bytes. */
    method ReadFull(n: nat) returns (r: Result<Bytes>)
      requires Valid()
      modifies this`kind, this`stack, this`remaining, this`pos
      ensures r.Ok? <==> n <= old(Left())
      ensures r.Ok? ==> Ready() && pos == old(pos) + n && stack == Advance(old(stack), n)
      ensures r.Ok? ==> r.value == input[old(pos)..pos] && |r.value| == n
      ensures r.Err? ==> r.error == if old(stack) == [] then ValueTooLarge else ElemTooLarge
    {
      var err := WillRead(n);
      if err.Some? {
        return Err(err.value);
      }
      var from := pos;
      pos := pos + n;
      return Ok(input[from..pos]);
    }

    method ReadByte() returns (r: Result<Byte>)
      requires Valid()
      modifies this`kind, this`stack, this`remaining, this`pos
      ensures r.Ok? <==> 1 <= old(Left())
      ensures r.Ok? ==> Ready() && pos == old(pos) + 1 && stack == Advance(old(stack), 1)
      ensures r.Ok? ==> r.value == input[old(pos)]
      ensures r.Err? ==> stack == old(stack) && r.error == if old(stack) == [] then ValueTooLarge else ElemTooLarge
    {
      var err := WillRead(1);
      if err.Some? {
        return Err(err.value);
      }
      pos := pos + 1;
      return Ok(input[pos-1]);
    }

    /** readUint: a big-endian number of up to eight bytes, without leading
        zeroes when there are at least two. */
    method ReadUint(n: nat) returns (r: Result<nat>)
      requires Valid() && n <= 8
      modifies this`kind, this`stack, this`remaining, this`pos
      ensures r.Ok? <==> n <= old(Left()) && (n >= 2 ==> input[old(pos)] != 0)
      ensures n <= old(Left()) ==> pos == old(pos) + n && stack == Advance(old(stack), n) && Ready()
      ensures r.Ok? ==> r.value == Value(input[old(pos)..pos])
      ensures n <= old(Left()) && r.Err? ==> r.error == CanonSize
      ensures n > old(Left()) ==> r.error == if old(stack) == [] then ValueTooLarge else ElemTooLarge
    {
      if n == 0 {
        kind := None;
        assert Advance(stack, 0) == stack;
        return Ok(0);
      } else if n == 1 {
        var b := ReadByte();
        if b.Err? {
          return Err(b.error);
        }
        assert input[old(pos)..pos] == [b.value];
        assert Value([b.value]) == b.value by { assert [b.value][..0] == []; }
        return Ok(b.value);
      } else {
        var b := ReadFull(n);
        if b.Err? {
          return Err(b.error);
        }
        if b.value[0] == 0 {
          return Err(CanonSize);
        }
        return Ok(Value(b.value));
      }
    }

    /** The kind, and the size as the stream counts it: a single byte has none. */
    ghost predicate Announces(w: Bytes, k: Kind, n: nat)
    {
      && Header(w).Some? && Header(w).value.kind == k
      && n == (if k.ByteKind? then 0 else Header(w).value.size)
    }

    /** readKind: one header. */
    method ReadKind() returns (r: Result<(Kind, nat)>)
      requires Ready()
      modifies this`kind, this`stack, this`remaining, this`pos, this`byteval, this`head
      ensures r.Ok? <==> Header(old(Window())).Some?
      ensures r.Ok? ==> Announces(old(Window()), r.value.0, r.value.1) && r.value.1 < LIMIT
      ensures r.Ok? ==> Ready() && head <= old(Window())
      ensures r.Ok? ==> pos == old(pos) + |head| && stack == Advance(old(stack), |head|)
      ensures r.Ok? && r.value.0.ByteKind? ==> head == [byteval] && byteval < 0x80
      ensures r.Ok? && !r.value.0.ByteKind? ==> head == Head(r.value.0, r.value.1)
      ensures r == Err(EndOfInput) <==> old(stack) == [] && old(Window()) == []
      ensures r == Err(CanonSize) <==> Header(old(Window())).None? && old(Window()) != [] && !CutShort(old(Window()))
      ensures r.Err? && r.error != EndOfInput && r.error != CanonSize ==>
                r.error == if old(stack) == [] then ValueTooLarge else ElemTooLarge
    {
      ghost var w := Window();
      var b := ReadByte();
      if b.Err? {
        return Err(if stack == [] then EndOfInput else b.error);
      }
      byteval := 0;
      assert b.value == w[0];
      if b.value < 0x80 {
        byteval := b.value;
        head := [b.value];
        return Ok((ByteKind, 0));
      } else if b.value < 0xB8 {
        HeadOfHeader(w);
        head := w[..1];
        return Ok((StringKind, b.value - 0x80));
      } else if b.value < 0xC0 {
        r := ReadLong(StringKind, b.value - 0xB7, w, old(stack));
      } else if b.value < 0xF8 {
        HeadOfHeader(w);
        head := w[..1];
        return Ok((ListKind, b.value - 0xC0));
      } else {
        r := ReadLong(ListKind, b.value - 0xF7, w, old(stack));
      }
    }

    /** The size bytes of a long header whose first byte has been read. */
    method ReadLong(k: Kind, n: nat, ghost w: Bytes, ghost stack0: seq<ListPos>) returns (r: Result<(Kind, nat)>)
      requires Ready() && !k.ByteKind? && 1 <= n <= 8
      requires w != [] && w[0] == LargeTag(k) + n && Window() == w[1..] && stack == Advance(stack0, 1)
      modifies this`kind, this`stack, this`remaining, this`pos, this`head
      ensures r.Ok? <==> Header(w).Some?
      ensures r.Ok? ==> Announces(w, r.value.0, r.value.1) && r.value.0 == k && r.value.1 < LIMIT
      ensures r.Ok? ==> Ready() && head <= w && head == Head(k, r.value.1)
      ensures r.Ok? ==> pos == old(pos) + |head| - 1 && stack == Advance(stack0, |head|)
      ensures r.Err? ==> r.error == if |w| > n then CanonSize else if stack0 == [] then ValueTooLarge else ElemTooLarge
    {
      hide Value, Header, Head;
      LongHeader(k, n, w);
      ghost var rest := Window();
      ghost var from := pos;
      assert n <= |rest| ==> rest[..n] == input[from..from+n] && rest[0] == input[from];
      SliceOfSlice(w, rest, n);
      var size := ReadUint(n);
      if size.Err? {
        return Err(size.error);
      }
      if size.value < 56 {
        return Err(CanonSize);
      }
      head := w[..1+n];
      AdvanceTwice(stack0, 1, n);
      return Ok((k, size.value));
    }

    /** Kind: reads the header of the next value unless that has been done, and
        checks that its content is there. */
    method NextKind() returns (r: Result<(Kind, nat)>)
      requires Ready() || Armed()
      modifies this
      ensures old(Armed()) ==> r == Ok((old(kind).value, size)) && unchanged(this)
      ensures old(Ready()) ==> (r.Ok? <==> Split(old(Window())).Some?)
      ensures r.Ok? ==> Armed() && r.value == (kind.value, size)
      ensures old(Ready()) && r.Ok? ==> Announces(old(Window()), kind.value, size) && head + Window() == old(Window())
      ensures old(Ready()) && r.Ok? ==> pos == old(pos) + |head| && stack == Advance(old(stack), |head|)
      ensures old(Ready()) && r.Ok? ==> var f := Split(old(Window())).value; |head| + size == f.tag + f.size
      ensures r == Err(EndOfList) <==> old(Ready()) && old(stack) != [] && old(Left()) == 0
      ensures r == Err(EndOfList) ==> Ready() && pos == old(pos) && stack == old(stack)
      ensures r == Err(EndOfInput) <==> old(Ready()) && old(stack) == [] && old(Left()) == 0
      ensures r == Err(CanonSize) <==>
                old(Ready()) && Header(old(Window())).None? && old(Left()) > 0 && !CutShort(old(Window()))
      ensures r.Err? && r.error !in {EndOfList, EndOfInput, CanonSize} ==>
                r.error == if old(stack) == [] then ValueTooLarge else ElemTooLarge
    {
      hide Value, BigEndian, HeadSize, Header, Split, Head, Nested, Advance, Announces, CutShort;
      if kind.None? {
        kinderr := None;
        if stack != [] && stack[|stack|-1].pos == stack[|stack|-1].size {
          NothingAhead();
          return Err(EndOfList);
        }
        LookAhead();
      }
      return if kinderr.Some? then Err(kinderr.value) else Ok((kind.value, size));
    }

    /** Reads a header and checks its size against what is left. */
    method LookAhead()
      requires Ready() && kinderr.None?
      modifies this
      ensures kind.Some? && (kinderr.None? <==> Split(old(Window())).Some?)
      ensures kinderr.None? ==> Armed() && Announces(old(Window()), kind.value, size)
      ensures kinderr.None? ==> head + Window() == old(Window())
      ensures kinderr.None? ==> pos == old(pos) + |head| && stack == Advance(old(stack), |head|)
      ensures kinderr.None? ==> var f := Split(old(Window())).value; |head| + size == f.tag + f.size
      ensures kinderr == Some(EndOfInput) <==> old(stack) == [] && old(Left()) == 0
      ensures kinderr == Some(CanonSize) <==> Header(old(Window())).None? && old(Left()) > 0 && !CutShort(old(Window()))
      ensures kinderr.Some? && kinderr.value !in {EndOfInput, CanonSize} ==>
                kinderr.value == if old(stack) == [] then ValueTooLarge else ElemTooLarge
    {
      hide Value, BigEndian, HeadSize, Header, Split, Head;
      ghost var w := Window();
      var h := ReadKind();
      if h.Err? {
        kind, size, kinderr := Some(ByteKind), 0, Some(h.error);
        NotSplitWithout(w);
        return;
      }
      kind, size := Some(h.value.0), h.value.1;
      SplitAfterHeader(w, head, kind.value, size);
      if stack == [] {
        if size > remaining {
          kinderr := Some(ValueTooLarge);
        }
      } else if size > stack[|stack|-1].size - stack[|stack|-1].pos {
        kinderr := Some(ElemTooLarge);
      }
    }

    /** Bytes: a string value. It fails exactly when no string's encoding starts here. */
    method Bytes() returns (r: Result<Bytes>)
      requires Ready() || Armed()
      modifies this
      ensures old(Ready()) && r.Ok? ==> Ready() && |r.value| < LIMIT && Encode(Str(r.value)) <= old(Window())
      ensures old(Ready()) && r.Ok? ==>
                pos == old(pos) + |Encode(Str(r.value))| && stack == Advance(old(stack), |Encode(Str(r.value))|)
      ensures old(Ready()) && r.Err? ==> NoString(old(Window()))
      ensures old(Ready()) && old(Left()) == 0 ==> r == Err(if old(stack) == [] then EndOfInput else EndOfList)
      ensures old(Ready()) ==> (r == Err(ExpectedString) <==>
                Split(old(Window())).Some? && Header(old(Window())).value.kind.ListKind?)
      ensures old(Armed() && kind.value.ListKind?) ==> r == Err(ExpectedString) && unchanged(this)
      ensures old(Armed() && !kind.value.ListKind?) ==>
                StringRead(old(head), old(pos), old(size), old(stack), old(kind.value), r)
    {
      hide Value, BigEndian, HeadSize, Split, Header, Encode, Head;
      ghost var w, stack0 := Window(), stack;
      var h := NextKind();
      if h.Err? {
        NoFrontNoString(w);
        return Err(h.error);
      }
      if h.value.0.ListKind? {
        if old(kind.None?) {
          ListIsNoString(w);
        }
        return Err(ExpectedString);
      }
      ghost var tag, n, from := head, size, pos;
      ghost var window := Window();
      r := StringValue();
      if old(kind.None?) {
        StringFound(w, tag, window, n, r, input, from, pos);
        AdvanceTwice(stack0, |tag|, n);
      }
    }

    /** What reading the string ahead does. */
    ghost predicate StringRead(tag: Bytes, from: nat, n: nat, was: seq<ListPos>, k: Kind, r: Result<Bytes>)
      reads this
    {
      && from + n <= |input|
      && (r.Ok? ==> Ready() && pos == from + n && stack == Advance(was, n)
                    && |r.value| < LIMIT && tag + input[from..pos] == Encode(Str(r.value)))
      && (r.Err? <==> k.StringKind? && n == 1 && input[from] < 0x80)
      && (r.Err? ==> r.error == CanonSize)
    }

    /** The value ahead, which is not a list. */
    method StringValue() returns (r: Result<Bytes>)
      requires Armed() && !kind.value.ListKind?
      modifies this
      ensures r.Ok? ==> Ready() && pos == old(pos) + old(size) && stack == Advance(old(stack), old(size))
      ensures r.Ok? ==> |r.value| < LIMIT && old(head) + input[old(pos)..pos] == Encode(Str(r.value))
      ensures r.Err? <==> old(kind.value.StringKind? && size == 1 && input[pos] < 0x80)
      ensures r.Err? ==> r.error == CanonSize
    {
      hide Value, BigEndian, HeadSize;
      if kind.value.ByteKind? {
        kind := None;
        assert Advance(stack, 0) == stack;
        return Ok([byteval]);
      }
      r := ReadFull(size);
      if r.Ok? && size == 1 && r.value[0] < 0x80 {
        return Err(CanonSize);
      }
    }

    /** List: enters a list. It fails exactly when none starts here. */
    method List() returns (r: Result<nat>)
      requires Ready() || Armed()
      modifies this
      ensures old(Ready()) ==> (r.Ok? <==> Split(old(Window())).Some? && Split(old(Window())).value.kind.ListKind?)
      ensures old(Ready()) ==> (r == Err(ExpectedList) <==>
                Split(old(Window())).Some? && !Split(old(Window())).value.kind.ListKind?)
      ensures old(Ready()) && old(Left()) == 0 ==> r == Err(if old(stack) == [] then EndOfInput else EndOfList)
      ensures old(Ready()) && r.Ok? ==>
                var f := Split(old(Window())).value;
                && Ready() && r.value == f.size && f.tag + f.size <= |old(Window())|
                && stack == Advance(old(stack), f.tag) + [ListPos(0, f.size)]
                && Window() == old(Window())[f.tag..f.tag + f.size]
      ensures old(Armed() && !kind.value.ListKind?) ==> r == Err(ExpectedList) && unchanged(this)
      ensures old(Armed() && kind.value.ListKind?) ==>
                && r == Ok(old(size)) && Ready() && stack == old(stack) + [ListPos(0, old(size))]
                && old(size) <= |old(Window())| && Window() == old(Window())[..old(size)]
                && pos == old(pos) && remaining == old(remaining)
    {
      hide Value, BigEndian, HeadSize, Split, Header, Head, Nested;
      ghost var w := Window();
      var h := NextKind();
      if h.Err? {
        return Err(h.error);
      }
      ghost var tag, window := head, Window();
      if old(kind.None?) {
        AnnouncedSplit(w, kind.value, size, tag, window);
      }
      if !h.value.0.ListKind? {
        return Err(ExpectedList);
      }
      var n := EnterList();
      return Ok(n);
    }

    method EnterList() returns (n: nat)
      requires Armed() && kind.value.ListKind?
      modifies this`stack, this`kind, this`size
      ensures n == old(size) && Ready() && stack == old(stack) + [ListPos(0, n)]
      ensures n <= |old(Window())| && Window() == old(Window())[..n]
    {
      n := size;
      stack := stack + [ListPos(0, size)];
      assert stack[..|stack|-1] == old(stack);
      kind := None;
      size := 0;
    }

    /** ListEnd: leaves a list at its end. A last, empty value whose header has been read
        counts as read. */
    method ListEnd() returns (err: Option<Error>)
      requires Ready() || Armed()
      modifies this`stack, this`kind, this`size
      ensures old(stack) == [] ==> err == Some(NotInList)
      ensures old(stack) != [] ==> (err.None? <==> old(Left()) == 0)
      ensures err.None? ==> Ready() && stack == Advance(old(stack)[..|old(stack)|-1], old(stack)[|old(stack)|-1].size)
      ensures old(stack) != [] && err.Some? ==> err.value == NotAtEndOfList
      ensures err.Some? ==> stack == old(stack)
    {
      if stack == [] {
        return Some(NotInList);
      }
      var tos := stack[|stack|-1];
      if tos.pos != tos.size {
        return Some(NotAtEndOfList);
      }
      AdvanceNested(stack[..|stack|-1], remaining + tos.pos, tos.size);
      stack := stack[..|stack|-1];
      stack := Advance(stack, tos.size);
      kind := None;
      size := 0;
      return None;
    }

    /** Raw: the bytes of the next value, header included, exactly as they stood
        in the input; the header is rebuilt, so it must have been canonical. */
    method Raw() returns (r: Result<Bytes>)
      requires Ready() || Armed()
      modifies this
      ensures old(Ready()) ==> (r.Ok? <==> Split(old(Window())).Some?)
      ensures old(Ready()) && r.Ok? ==> Ready() && old(pos) <= pos && r.value == input[old(pos)..pos]
      ensures old(Ready()) && r.Ok? ==> stack == Advance(old(stack), |r.value|)
      ensures old(Ready()) && r.Ok? ==> var f := Split(old(Window())).value; |r.value| == f.tag + f.size
      ensures old(Armed()) ==> r.Ok? && Ready() && pos == old(pos) + old(size) && stack == Advance(old(stack), old(size))
      ensures old(Armed()) ==> old(pos) <= pos <= |input| && r.value == old(head) + input[old(pos)..pos]
    {
      hide Value, BigEndian, Header, HeadSize, Split, Head;
      ghost var w, from, asked := Window(), pos, kind.Some?;
      var h := NextKind();
      if h.Err? {
        return Err(h.error);
      }
      ghost var tag := head;
      if !asked {
        PrefixOfSlice(input, from, w, tag, Window());
      }
      if h.value.0.ByteKind? {
        kind := None;
        return Ok([byteval]);
      }
      var raw := Rebuild();
      if !asked {
        AdvanceTwice(old(stack), |tag|, h.value.1);
        assert raw == input[from..from+|tag|] + input[from+|tag|..pos];
      }
      return Ok(raw);
    }

    /** Reads the content of the value ahead and puts a new header before it. */
    method Rebuild() returns (raw: Bytes)
      requires Armed() && !kind.value.ByteKind?
      modifies this
      ensures Ready() && pos == old(pos) + old(size) && stack == Advance(old(stack), old(size))
      ensures raw == old(head) + input[old(pos)..pos]
    {
      hide Value, BigEndian, Nested;
      var start := HeadSizeOf(size);
      var buf := new Byte[start + size];
      var tag, n := kind.value, size;
      var content := ReadFull(n);
      var _ := Copy(buf, start, content.value);
      ghost var body := buf[start..];
      var _ := PutHead(buf, 0, tag, n);
      assert buf[start..] == body;
      assert buf[..] == buf[..start] + buf[start..];
      raw := buf[..];
    }

    /** uint: an unsigned integer of at most the given number of bytes. It fails
        exactly when no such integer's encoding starts here. */
    method Uint(maxBytes: nat) returns (r: Result<nat>)
      requires (Ready() || Armed()) && 1 <= maxBytes <= 8
      modifies this
      ensures old(Ready()) && r.Ok? ==> |BigEndian(r.value)| <= maxBytes && UintForm(r.value) <= old(Window())
      ensures old(Ready()) && r.Ok? ==>
                Ready() && pos == old(pos) + |UintForm(r.value)| && stack == Advance(old(stack), |UintForm(r.value)|)
      ensures old(Ready()) && r.Err? ==> NoUint(old(Window()), maxBytes)
      ensures old(Armed()) && r.Ok? ==> |BigEndian(r.value)| <= maxBytes && UintForm(r.value) <= old(head + Window())
      ensures old(Armed()) && r.Ok? ==>
                Ready() && pos == old(pos) - old(|head|) + |UintForm(r.value)| && stack == Advance(old(stack), old(size))
      ensures old(Armed()) && r.Err? ==> NoUint(old(head + Window()), maxBytes)
    {
      hide Value, BigEndian, Header, UintForm, NoUint, Head, HeadSize, Split, Advance, Nested;
      ghost var w, asked := Window(), kind.Some?;
      var h := NextKind();
      if h.Err? {
        NotSplit(w, maxBytes);
        RefusedIsNoUint(w, maxBytes);
        return Err(h.error);
      }
      ghost var tag, n := head, size;
      r := UintAhead(maxBytes);
      if r.Ok? && !asked {
        AdvanceTwice(old(stack), |tag|, n);
      }
    }

    /** The value ahead as an integer. */
    method UintAhead(maxBytes: nat) returns (r: Result<nat>)
      requires Armed() && 1 <= maxBytes <= 8
      modifies this
      ensures r.Ok? ==> |BigEndian(r.value)| <= maxBytes && UintForm(r.value) <= old(head + Window())
      ensures r.Ok? ==> |UintForm(r.value)| == old(|head| + size)
      ensures r.Ok? ==> Ready() && pos == old(pos) + old(size) && stack == Advance(old(stack), old(size))
      ensures r.Err? ==> NoUint(old(head + Window()), maxBytes)
      ensures r.Err? ==>
                r.error == if old(kind.value.ListKind?) then ExpectedString
                           else if old(kind.value.StringKind? && size > maxBytes) then UintOverflow
                           else if old(kind.value.ByteKind? || (size >= 2 && input[pos] == 0)) then CanonInt
                           else CanonSize
    {
      hide Value, BigEndian, Header, UintForm, NoUint, Head, HeadSize, Split;
      ghost var w := head + Window();
      HeadAhead(kind.value, size, head, Window());
      if kind.value.ByteKind? {
        if byteval == 0 {
          RefusedIsNoUint(w, maxBytes);
          return Err(CanonInt);
        }
        SmallUint(byteval);
        kind := None;
        assert Advance(stack, 0) == stack;
        return Ok(byteval);
      } else if kind.value.StringKind? {
        r := UintContent(maxBytes, w);
      } else {
        RefusedIsNoUint(w, maxBytes);
        return Err(ExpectedString);
      }
    }

    /** The content of a string as an integer. */
    method UintContent(maxBytes: nat, ghost w: Bytes) returns (r: Result<nat>)
      requires Armed() && kind.value.StringKind? && 1 <= maxBytes <= 8
      requires w == head + Window() && Header(w) == Some(Front(StringKind, |head|, size))
      modifies this
      ensures r.Ok? ==> Ready() && pos == old(pos) + old(size) && stack == Advance(old(stack), old(size))
      ensures r.Ok? ==> |BigEndian(r.value)| == old(size) <= maxBytes && UintForm(r.value) == old(head) + input[old(pos)..pos]
      ensures r.Err? ==> NoUint(w, maxBytes)
      ensures r.Err? ==> r.error == if old(size) > maxBytes then UintOverflow
                                    else if old(size) >= 2 && input[old(pos)] == 0 then CanonInt else CanonSize
    {
      hide Value, BigEndian, Header, UintForm, NoUint, HeadSize;
      ghost var content, tag := input[pos..pos+size], head;
      assert size > 0 ==> w[|tag|] == content[0];
      if size > maxBytes {
        RefusedIsNoUint(w, maxBytes);
        return Err(UintOverflow);
      }
      var n := size;
      var v := ReadUint(n);
      if v.Err? {
        RefusedIsNoUint(w, maxBytes);
        return Err(CanonInt);
      }
      if n > 0 && v.value < 128 {
        SmallContent(content);
        RefusedIsNoUint(w, maxBytes);
        return Err(CanonSize);
      }
      UintOfContent(content);
      return Ok(v.value);
    }

    // ----- generic values -----

    /** decodeInterface: one item, whatever it is. It fails exactly when no
        encoding starts here; at the end of a list it says so. */
    method DecodeItem() returns (r: Result<Item>)
      requires Ready()
      modifies this
      ensures r.Ok? ==> Ready() && Fits(r.value) && Encode(r.value) <= old(Window())
      ensures r.Ok? ==> pos == old(pos) + |Encode(r.value)| && stack == Advance(old(stack), |Encode(r.value)|)
      ensures r.Err? ==> NoItem(old(Window()))
      ensures r == Err(EndOfList) <==> old(stack) != [] && old(Left()) == 0
      ensures r == Err(EndOfList) ==> Ready() && pos == old(pos) && stack == old(stack)
      ensures r == Err(EndOfInput) <==> old(stack) == [] && old(Left()) == 0
      ensures r != Err(MoreThanOneValue)
      decreases remaining, 0
    {
      hide Value, BigEndian, HeadSize, Split, Header, Encode, EncodeAll, Fits, FitsAll, Head;
      ghost var w := Window();
      var h := NextKind();
      if h.Err? {
        NoFront(w);
        return Err(h.error);
      }
      if h.value.0.ListKind? {
        r := DecodeList(w, old(stack));
      } else {
        r := DecodeString(w, old(stack));
      }
    }

    method DecodeString(ghost w: Bytes, ghost stack0: seq<ListPos>) returns (r: Result<Item>)
      requires Armed() && !kind.value.ListKind? && Announces(w, kind.value, size)
      requires head + Window() == w && stack == Advance(stack0, |head|)
      modifies this
      ensures r.Ok? ==> Ready() && Fits(r.value) && Encode(r.value) <= w
      ensures r.Ok? ==> pos == old(pos) - |old(head)| + |Encode(r.value)| && stack == Advance(stack0, |Encode(r.value)|)
      ensures r.Err? ==> NoItem(w) && r.error !in {EndOfList, EndOfInput, MoreThanOneValue}
    {
      hide Value, BigEndian, HeadSize;
      ghost var Window0 := Window();
      var b := Bytes();
      if b.Err? {
        assert w[1] == Window0[0];
        ShortStringNotCanonical(w);
        return Err(b.error);
      }
      AdvanceTwice(stack0, |head|, old(size));
      return Ok(Str(b.value));
    }

    /** decodeListSlice. */
    method DecodeList(ghost w: Bytes, ghost stack0: seq<ListPos>) returns (r: Result<Item>)
      requires Armed() && kind.value.ListKind? && Announces(w, ListKind, size)
      requires head + Window() == w && stack == Advance(stack0, |head|)
      modifies this
      ensures r.Ok? ==> Ready() && Fits(r.value) && Encode(r.value) <= w
      ensures r.Ok? ==> pos == old(pos) - |old(head)| + |Encode(r.value)| && stack == Advance(stack0, |Encode(r.value)|)
      ensures r.Err? ==> NoItem(w) && r.error !in {EndOfList, EndOfInput, MoreThanOneValue}
      decreases remaining, 3
    {
      hide Value, BigEndian, HeadSize, Split, Header, Encode, EncodeAll, Fits, FitsAll, Announces, Nested;
      ghost var content, tag, n := Window()[..size], head, size;
      assert tag + content <= w;
      var items := ListItems();
      if items.Err? {
        NotAList(w, content);
        return Err(items.error);
      }
      AssembleList(items.value, content);
      AdvanceTwice(stack0, |tag|, n);
      return Ok(Item.List(items.value));
    }

    /** Enters the list ahead, reads its items and leaves it. */
    method ListItems() returns (r: Result<seq<Item>>)
      requires Armed() && kind.value.ListKind?
      modifies this
      ensures old(size) <= |old(Window())|
      ensures r.Ok? ==> Ready() && pos == old(pos) + old(size) && stack == Advance(old(stack), old(size))
      ensures r.Ok? ==> FitsAll(r.value) && EncodeAll(r.value) == old(Window())[..old(size)]
      ensures r.Err? ==> NoItems(old(Window())[..old(size)]) && r.error !in {EndOfList, EndOfInput, MoreThanOneValue}
      decreases remaining, 2
    {
      hide Value, BigEndian, HeadSize, Split, Header, Encode, EncodeAll, Fits, FitsAll, Nested, Head;
      ghost var content, base := Window()[..size], stack;
      var entered := List();
      var n := entered.value;
      if n > 0 {
        r := DecodeElems(content, base);
        if r.Err? {
          return;
        }
      } else {
        EmptyList();
        r := Ok([]);
      }
      assert stack == base + [ListPos(n, n)] && stack[..|stack|-1] == base;
      var err := ListEnd();
    }

    /** decodeSliceElems: items until the end of the list. */
    method DecodeElems(ghost content: Bytes, ghost base: seq<ListPos>) returns (r: Result<seq<Item>>)
      requires Ready() && Window() == content && stack == base + [ListPos(0, |content|)]
      modifies this
      ensures r.Ok? ==> Ready() && pos == old(pos) + |content| && stack == base + [ListPos(|content|, |content|)]
      ensures r.Ok? ==> FitsAll(r.value) && EncodeAll(r.value) == content
      ensures r.Err? ==> NoItems(content) && r.error !in {EndOfList, EndOfInput, MoreThanOneValue}
      decreases remaining, 1
    {
      hide Value, BigEndian, HeadSize, Split, Header, Encode, EncodeAll, Fits, FitsAll;
      var items: seq<Item> := [];
      ghost var off := 0;
      EmptyList();
      while true
        invariant Ready() && 0 <= off <= |content| && pos == old(pos) + off && remaining <= old(remaining)
        invariant stack == base + [ListPos(off, |content|)] && Window() == content[off..]
        invariant FitsAll(items) && EncodeAll(items) == content[..off]
        decreases remaining
      {
        ghost var before := Window();
        var x := DecodeItem();
        if x == Err(EndOfList) {
          assert content[..off] == content;
          return Ok(items);
        } else if x.Err? {
          Stuck(items, content, off);
          return Err(x.error);
        }
        EncodeAllAppend(items, x.value);
        assert content[..off + |Encode(x.value)|] == content[..off] + content[off..][..|Encode(x.value)|];
        items := items + [x.value];
        off := off + |Encode(x.value)|;
        assert Window() == before[|Encode(x.value)|..];
      }
    }
  }

  /** No string's encoding starts here. */
  ghost predicate NoString(w: Bytes) {
    forall b :: Fits(Str(b)) ==> !(Encode(Str(b)) <= w)
  }

  lemma NoFrontNoString(w: Bytes)
    ensures Split(w).None? ==> NoString(w)
  {
    if Split(w).None? {
      NoFront(w);
    }
  }

  lemma ListIsNoString(w: Bytes)
    requires Header(w).Some? && Header(w).value.kind.ListKind?
    ensures NoString(w)
  {
    hide Encode, Header;
    forall b | Fits(Str(b)) ensures !(Encode(Str(b)) <= w) {
      if Encode(Str(b)) <= w {
        FrontIs(w, Str(b));
      }
    }
  }

  lemma StringFound(w: Bytes, tag: Bytes, window: Bytes, n: nat, r: Result<Bytes>, input: Bytes, from: nat, to: nat)
    requires w == tag + window && n <= |window| && from + |window| <= |input| && window == input[from..from + |window|]
    requires r.Ok? ==> to == from + n && |r.value| < LIMIT && tag + input[from..to] == Encode(Str(r.value))
    requires r.Err? ==> Header(w).Some? && Header(w).value.kind.StringKind? && Header(w).value.size == 1
    requires r.Err? ==> tag == Head(StringKind, 1) && n == 1 && input[from] < 0x80
    ensures r.Ok? ==> Encode(Str(r.value)) <= w && |Encode(Str(r.value))| == |tag| + n
    ensures r.Err? ==> NoString(w)
  {
    hide Encode, Header;
    if r.Ok? {
      assert input[from..to] == window[..n];
    } else {
      HeadOfHeader(w);
      assert HeadSize(1) == 1;
      assert w[1] == window[0] == input[from];
      ShortStringNotCanonical(w);
    }
  }

  lemma AnnouncedSplit(w: Bytes, k: Kind, size: nat, tag: Bytes, window: Bytes)
    requires w == tag + window && Split(w).Some? && Header(w).Some? && Header(w).value.kind == k && size <= |window|
    requires |tag| + size == Split(w).value.tag + Split(w).value.size
    requires !k.ByteKind? ==> Header(w).value.size == size
    ensures Split(w).value.kind == k
    ensures k.ListKind? ==> Split(w).value.tag == |tag| && Split(w).value.size == size
    ensures k.ListKind? ==> window[..size] == w[|tag|..|tag| + size]
  {
  }

  /** No sequence of items encodes to these bytes. */
  ghost predicate NoItems(content: Bytes) {
    forall xs :: FitsAll(xs) ==> EncodeAll(xs) != content
  }

  lemma EmptyList()
    ensures FitsAll([]) && EncodeAll([]) == []
  {
  }

  lemma AssembleList(items: seq<Item>, content: Bytes)
    requires FitsAll(items) && EncodeAll(items) == content && |content| < LIMIT
    ensures Fits(Item.List(items)) && Encode(Item.List(items)) == Head(ListKind, |content|) + content
  {
  }

  /** Items that were read fine, followed by bytes that start no item. */
  lemma Stuck(items: seq<Item>, content: Bytes, off: nat)
    requires FitsAll(items) && off < |content| && EncodeAll(items) == content[..off]
    requires NoItem(content[off..])
    ensures NoItems(content)
  {
    hide Encode, EncodeAll;
    forall xs | FitsAll(xs) ensures EncodeAll(xs) != content {
      if EncodeAll(xs) == content {
        NextItem(items, xs);
      }
    }
  }

  lemma NotAList(w: Bytes, content: Bytes)
    requires |content| < LIMIT && Head(ListKind, |content|) + content <= w
    requires NoItems(content)
    ensures NoItem(w)
  {
    hide Encode, EncodeAll, Head, HeadSize, Header;
    var head := Head(ListKind, |content|);
    HeaderOfHead(ListKind, |content|, w[|head|..]);
    assert w == head + w[|head|..];
    assert content == w[|head|..|head|+|content|];
    forall x | Fits(x) ensures !(Encode(x) <= w) {
      if Encode(x) <= w {
        FrontIs(w, x);
        ContentOfEncode(x);
      }
    }
  }

  lemma FrontIs(w: Bytes, x: Item)
    requires Fits(x) && Encode(x) <= w
    ensures Header(w) == Some(FrontOf(x)) && FrontOf(x).tag + FrontOf(x).size == |Encode(x)|
  {
    SplitOfEncode(x, w[|Encode(x)|..]);
    assert Encode(x) + w[|Encode(x)|..] == w;
  }

  /** A single byte below 0x80 has no business behind a string header. */
  lemma ShortStringNotCanonical(w: Bytes)
    requires |w| >= 2 && Header(w) == Some(Front(StringKind, 1, 1)) && w[1] < 0x80
    ensures NoItem(w)
  {
    forall x | Fits(x) ensures !(Encode(x) <= w) {
      if Encode(x) <= w {
        FrontIs(w, x);
        ContentOfEncode(x);
      }
    }
  }

  // ----- integers -----

  /** A header that has been read is the header of what stands there. */
  lemma HeadAhead(k: Kind, size: nat, head: Bytes, rest: Bytes)
    requires if k.ByteKind? then |head| == 1 && head[0] < 0x80 else size < LIMIT && head == Head(k, size)
    ensures k.ByteKind? ==> Header(head + rest) == Some(Front(ByteKind, 0, 1))
    ensures !k.ByteKind? ==> Header(head + rest) == Some(Front(k, |head|, size))
  {
    if !k.ByteKind? {
      HeaderOfHead(k, size, rest);
    }
  }

  lemma PrefixOfSlice(input: Bytes, from: nat, w: Bytes, tag: Bytes, rest: Bytes)
    requires from + |w| <= |input| && w == input[from..from + |w|] && tag + rest == w
    ensures from + |tag| <= |input| && tag == input[from..from + |tag|]
  {
    assert w[..|tag|] == tag;
  }

  lemma SliceOfSlice(w: Bytes, rest: Bytes, n: nat)
    requires w != [] && rest == w[1..]
    ensures n <= |rest| ==> rest[..n] == w[1..1+n]
  {
  }

  ghost predicate NoUint(w: Bytes, maxBytes: nat)
    requires maxBytes <= 8
  {
    forall n: nat :: |BigEndian(n)| <= maxBytes ==> !(UintForm(n) <= w)
  }

  lemma NoDigits()
    ensures BigEndian(0) == []
  {
  }

  /** What must stand at the front for an integer to be there. */
  lemma UintFront(w: Bytes, n: nat)
    requires |BigEndian(n)| < LIMIT && UintForm(n) <= w
    ensures var d := BigEndian(n); var f := FrontOf(Str(d));
            Header(w) == Some(f) && f.tag + |d| <= |w| && w[f.tag..f.tag+|d|] == d && (d != [] ==> d[0] != 0)
  {
    hide Encode, Header, BigEndian;
    FrontIs(w, Str(BigEndian(n)));
    ContentOfEncode(Str(BigEndian(n)));
    ValueOfBigEndian(n);
    assert n == 0 ==> BigEndian(n) == [] by { NoDigits(); }
  }

  /** Each way an integer can be refused. */
  ghost predicate Refused(w: Bytes, maxBytes: nat) {
    match Header(w)
    case None => true
    case Some(f) =>
      if f.kind.ByteKind? then w != [] && w[0] == 0
      else if f.kind.ListKind? then true
      else || f.size > maxBytes || f.tag + f.size > |w|
           || (f.size >= 1 && f.tag < |w| && w[f.tag] == 0)
           || (f.size == 1 && f.tag < |w| && w[f.tag] < 0x80)
  }

  lemma NotSplit(w: Bytes, maxBytes: nat)
    requires Split(w).None?
    ensures Refused(w, maxBytes)
  {
  }

  lemma RefusedIsNoUint(w: Bytes, maxBytes: nat)
    requires maxBytes <= 8 && Refused(w, maxBytes)
    ensures NoUint(w, maxBytes)
  {
    hide BigEndian, Header;
    forall n: nat | |BigEndian(n)| <= maxBytes ensures !(UintForm(n) <= w) {
      if UintForm(n) <= w {
        UintFront(w, n);
      }
    }
  }

  lemma SmallUint(b: Byte)
    requires 0 < b < 0x80
    ensures BigEndian(b) == [b] && UintForm(b) == [b]
  {
    assert b / 256 == 0 && BigEndian(0) == [];
  }

  lemma SmallContent(content: Bytes)
    requires content != [] && (|content| >= 2 ==> content[0] != 0) && Value(content) < 128
    ensures |content| == 1 && content[0] < 0x80
  {
    var front := content[..|content|-1];
    if |content| >= 2 {
      BigEndianOfValue(front);
    } else {
      assert front == [];
    }
  }

  lemma UintOfContent(content: Bytes)
    requires |content| <= 8 && (|content| >= 2 ==> content[0] != 0)
    requires |content| > 0 ==> Value(content) >= 128
    ensures BigEndian(Value(content)) == content && UintForm(Value(content)) == Head(StringKind, |content|) + content
  {
    if |content| == 1 {
      assert content == [content[0]] && content[..0] == [];
      assert Value(content) == content[0];
    }
    BigEndianOfValue(content);
  }

  /** No item's encoding is a prefix of these bytes. */
  ghost predicate NoItem(w: Bytes) {
    forall x :: Fits(x) ==> !(Encode(x) <= w)
  }

  lemma NoFront(w: Bytes)
    requires Split(w).None?
    ensures NoItem(w)
  {
    forall x | Fits(x) ensures !(Encode(x) <= w) {
      if Encode(x) <= w {
        FrontIs(w, x);
      }
    }
  }

  lemma NothingAhead()
    ensures Split([]).None?
  {
  }

  lemma NotSplitWithout(w: Bytes)
    requires Header(w).None?
    ensures Split(w).None?
  {
  }

  /** Header and content fit exactly when the content fits behind the header. */
  lemma SplitAfterHeader(w: Bytes, head: Bytes, k: Kind, size: nat)
    requires Header(w).Some? && Header(w).value.kind == k && |head| <= |w| && size < LIMIT
    requires if k.ByteKind? then |head| == 1 && size == 0 else head == Head(k, size) && size == Header(w).value.size
    ensures Split(w).Some? <==> |head| + size <= |w|
    ensures Split(w).Some? ==> |head| + size == Split(w).value.tag + Split(w).value.size
  {
    if !k.ByteKind? {
      HeadOfHeader(w);
    }
  }

  lemma AdvanceTwice(stack: seq<ListPos>, m: nat, n: nat)
    ensures Advance(Advance(stack, m), n) == Advance(stack, m + n)
  {
  }

  /** When a long header is acceptable, and what it says. A single size byte of
      zero is caught by the lower bound on sizes. */
  lemma LongHeader(k: Kind, n: nat, w: Bytes)
    requires !k.ByteKind? && 1 <= n <= 8 && w != [] && w[0] == LargeTag(k) + n
    ensures Header(w).Some? <==> n < |w| && (n >= 2 ==> w[1] != 0) && Value(w[1..1+n]) >= 56
    ensures Header(w).Some? ==> Header(w).value == Front(k, 1 + n, Value(w[1..1+n])) && Value(w[1..1+n]) < LIMIT
    ensures Header(w).Some? ==> w[..1+n] == Head(k, Value(w[1..1+n]))
  {
    if n < |w| && n == 1 {
      assert w[1..2] == [w[1]];
      assert [w[1]][..0] == [];
      assert Value([w[1]]) == w[1];
    }
    if Header(w).Some? {
      HeadOfHeader(w);
    }
  }

  /** DecodeBytes: succeeds exactly on encodings and returns the item encoded. */
  method DecodeBytes(b: Bytes) returns (r: Result<Item>)
    ensures r.Ok? ==> Fits(r.value) && Encode(r.value) == b
    ensures forall x :: Fits(x) && Encode(x) == b ==> r == Ok(x)
    ensures r == Err(EndOfInput) <==> b == []
    ensures r == Err(MoreThanOneValue) <==> exists x :: Fits(x) && Encode(x) <= b && |Encode(x)| < |b|
  {
    var s := new Stream(b);
    assert s.Window() == b;
    r := s.DecodeItem();
    if r.Ok? {
      forall x | Fits(x) && Encode(x) <= b ensures x == r.value {
        Unique(x, r.value, b);
      }
      if s.remaining > 0 {
        return Err(MoreThanOneValue);
      }
    }
  }
}
