/**
 * The encoder's buffer object and its three outputs: a byte slice, a writer,
 * and a reader that hands out pieces (rlp/encode.go, encbuf and encReader).
 */
module RlpBuffer {
  import opened Wrappers
  import opened Rlp
  import opened RlpTheory
  import opened RlpEncoder

  /** An io.Writer that accepts a limited number of bytes before it fails. */
  class Writer {
    var written: Bytes
    var capacity: nat

    constructor (capacity: nat)
      ensures written == [] && this.capacity == capacity
    {
      written := [];
      this.capacity := capacity;
    }

    method Write(b: Bytes) returns (n: nat, ok: bool)
      modifies this
      ensures n == if |b| <= old(capacity) then |b| else old(capacity)
      ensures ok == (n == |b|)
      ensures written == old(written) + b[..n] && capacity == old(capacity) - n
    {
      n := if |b| <= capacity then |b| else capacity;
      written := written + b[..n];
      capacity := capacity - n;
      ok := n == |b|;
    }
  }

  class EncBuf {
    var str: Bytes
    var lheads: seq<ListHead>
    var lhsize: nat
    const sizebuf: array<Byte>

    constructor ()
      ensures str == [] && lheads == [] && lhsize == 0
      ensures fresh(sizebuf) && sizebuf.Length == 9
    {
      str, lheads, lhsize := [], [], 0;
      sizebuf := new Byte[9];
    }

    /** Complete: all list headers closed and accounted for. */
    ghost predicate Complete()
      reads this
    {
      Ordered(str, 0, lheads) && lhsize == HeadsSize(lheads)
    }

    /** The encoding the buffer stands for. */
    ghost function Output(): Bytes
      requires Complete()
      reads this
    {
      Interleave(str, 0, lheads)
    }

    method EncodeStringHeader(size: nat)
      requires size < LIMIT && sizebuf.Length == 9
      modifies this`str, sizebuf
      ensures str == old(str) + Head(StringKind, size)
    {
      if size < 56 {
        str := str + [0x80 + size];
      } else {
        assert |Head(StringKind, size)| <= 9;
        var sizesize := PutInt(sizebuf, 1, size);
        ghost var digits := sizebuf[1..sizesize+1];
        sizebuf[0] := 0xB7 + sizesize;
        assert sizebuf[1..sizesize+1] == digits;
        assert sizebuf[..sizesize+1] == [sizebuf[0]] + digits;
        str := str + sizebuf[..sizesize+1];
      }
    }

    method EncodeString(b: Bytes)
      requires |b| < LIMIT && sizebuf.Length == 9
      modifies this`str, sizebuf
      ensures str == old(str) + Encode(Str(b))
    {
      if |b| == 1 && b[0] <= 0x7F {
        str := str + b;
      } else {
        EncodeStringHeader(|b|);
        str := str + b;
      }
    }

    /** writeUint: zero as the empty string, small numbers as a single byte. */
    method WriteUint(i: nat)
      requires i < LIMIT && sizebuf.Length == 9
      modifies this`str, sizebuf
      ensures |BigEndian(i)| <= 8 && str == old(str) + UintForm(i)
    {
      UintFits(i);
      if i == 0 {
        str := str + [0x80];
      } else if i < 128 {
        assert BigEndian(i / 256) == [];
        str := str + [i];
      } else {
        assert |BigEndian(i)| == 1 ==> BigEndian(i)[0] == i by { assert BigEndian(i) == BigEndian(i / 256) + [i % 256]; }
        var s := PutInt(sizebuf, 1, i);
        ghost var digits := sizebuf[1..s+1];
        sizebuf[0] := 0x80 + s;
        assert sizebuf[1..s+1] == digits;
        assert sizebuf[..s+1] == [sizebuf[0]] + digits;
        str := str + sizebuf[..s+1];
      }
    }

    /** list: opens a header; until it is closed its size holds lhsize. */
    method List() returns (lh: nat)
      modifies this`lheads
      ensures lh == |old(lheads)| && lheads == old(lheads) + [ListHead(|str|, lhsize)]
    {
      lh := |lheads|;
      lheads := lheads + [ListHead(|str|, lhsize)];
    }

    /** listEnd. */
    method ListEnd(lh: nat)
      requires lh < |lheads| && lheads[lh].offset <= |str| && lheads[lh].size <= lhsize
      modifies this`lheads, this`lhsize
      ensures var size: nat := |str| - old(lheads)[lh].offset + (old(lhsize) - old(lheads)[lh].size);
              && lheads == old(lheads)[lh := ListHead(old(lheads)[lh].offset, size)]
              && lhsize == old(lhsize) + HeadSize(size)
    {
      var size := |str| + lhsize - lheads[lh].offset - lheads[lh].size;
      lheads := lheads[lh := ListHead(lheads[lh].offset, size)];
      if size < 56 {
        lhsize := lhsize + 1;
      } else {
        var n := IntSize(size);
        lhsize := lhsize + 1 + n;
      }
    }

    /** Encodes one item behind what is already there. */
    method EncodeItem(i: Item)
      requires Fits(i) && sizebuf.Length == 9
      modifies this, sizebuf
      ensures str == old(str) + Strings(i)
      ensures lheads == old(lheads) + Heads(i, |old(str)|)
      ensures lhsize == old(lhsize) + HeadsSize(Heads(i, |old(str)|))
      decreases i, 1
    {
      hide BigEndian, Size, SizeAll, HeadSize, Encode, EncodeAll, HeadsAll, StringsAll;
      match i {
        case Str(b) =>
          EncodeString(b);
        case List(items) =>
          var lh := List();
          EncodeItems(items);
          AccountingAll(items, |old(str)|);
          HeadsSizeCons(ListHead(|old(str)|, SizeAll(items)), HeadsAll(items, |old(str)|));
          ListEnd(lh);
      }
    }

    /** The loop of the slice writer. */
    method EncodeItems(items: seq<Item>)
      requires FitsAll(items) && sizebuf.Length == 9
      modifies this, sizebuf
      ensures str == old(str) + StringsAll(items)
      ensures lheads == old(lheads) + HeadsAll(items, |old(str)|)
      ensures lhsize == old(lhsize) + HeadsSize(HeadsAll(items, |old(str)|))
      decreases items, 0
    {
      hide BigEndian, Size, SizeAll, HeadSize, Strings, Heads, Encode, EncodeAll, HeadsSize;
      if items != [] {
        ghost var next := |str| + |Strings(items[0])|;
        HeadsSizeConcat(Heads(items[0], |str|), HeadsAll(items[1..], next));
        EncodeItem(items[0]);
        EncodeItems(items[1..]);
      } else {
        NoHeads();
      }
    }

    /** toBytes. */
    method ToBytes() returns (out: array<Byte>)
      requires Complete()
      ensures fresh(out) && out[..] == Output()
    {
      hide HeadSize, BigEndian, Interleave, Ordered;
      InterleaveLength(str, 0, lheads);
      out := new Byte[|str| + lhsize];
      var strpos: nat, pos: nat := 0, 0;
      assert lheads[0..] == lheads;
      for k := 0 to |lheads|
        invariant Ordered(str, strpos, lheads[k..]) && pos <= out.Length
        invariant out[..pos] + Interleave(str, strpos, lheads[k..]) == Output()
      {
        InterleaveStep(str, strpos, lheads, k);
        pos := Fill(out, pos, str[strpos..lheads[k].offset], lheads[k].size,
                    Interleave(str, lheads[k].offset, lheads[k+1..]), Output());
        strpos := lheads[k].offset;
      }
      InterleaveEnd(str, strpos, lheads);
      FillTail(out, pos, str[strpos..], Output());
    }

    /** toWriter: what the writer accepts of the output, in order; it succeeds
        exactly when the writer has room for all of it. */
    method ToWriter(w: Writer) returns (ok: bool)
      requires Complete() && sizebuf.Length == 9
      modifies w, sizebuf
      ensures ok <==> |Output()| <= old(w.capacity)
      ensures w.written == old(w.written) + (if ok then Output() else Output()[..old(w.capacity)])
    {
      hide HeadSize, BigEndian, Interleave, Ordered;
      ghost var sent: Bytes := [];
      var strpos: nat := 0;
      assert lheads[0..] == lheads;
      for k := 0 to |lheads|
        invariant Ordered(str, strpos, lheads[k..])
        invariant sent + Interleave(str, strpos, lheads[k..]) == Output()
        invariant Sent(w, sent, old(w.written), old(w.capacity))
      {
        var head := lheads[k];
        InterleaveStep(str, strpos, lheads, k);
        ghost var tail := Interleave(str, head.offset, lheads[k+1..]);
        ghost var before, enc := str[strpos..head.offset], Head(ListKind, head.size);
        assert Output() == sent + before + (enc + tail);
        if head.offset - strpos > 0 {
          ok := Emit(w, str[strpos..head.offset], sent, enc + tail, old(w.written), old(w.capacity));
          if !ok {
            return;
          }
        }
        sent := sent + before;
        strpos := head.offset;
        var m := PutHead(sizebuf, 0, ListKind, head.size);
        assert Output() == sent + enc + tail;
        ok := Emit(w, sizebuf[..m], sent, tail, old(w.written), old(w.capacity));
        if !ok {
          return;
        }
        sent := sent + enc;
      }
      ok := true;
      InterleaveEnd(str, strpos, lheads);
      if strpos < |str| {
        assert sent + str[strpos..] + [] == Output();
        ok := Emit(w, str[strpos..], sent, [], old(w.written), old(w.capacity));
      }
    }
  }

  /** One round of toBytes: string data and the header behind it. */
  method Fill(out: array<Byte>, at: nat, before: Bytes, size: nat, ghost tail: Bytes, ghost all: Bytes) returns (pos: nat)
    requires size < LIMIT && at <= out.Length == |all|
    requires out[..at] + (before + (Head(ListKind, size) + tail)) == all
    modifies out
    ensures pos <= out.Length && out[..pos] + tail == all
  {
    hide HeadSize, BigEndian;
    assert |all| == at + |before| + |Head(ListKind, size)| + |tail|;
    var n := Copy(out, at, before);
    assert out[..at+n] == old(out[..at]) + before;
    var m := PutHead(out, at + n, ListKind, size);
    assert out[..at+n+m] == old(out[..at]) + before + Head(ListKind, size);
    pos := at + n + m;
  }

  /** The string data behind the last header. */
  method FillTail(out: array<Byte>, at: nat, rest: Bytes, ghost all: Bytes)
    requires at <= out.Length == |all| && out[..at] + rest == all
    modifies out
    ensures out[..] == all
  {
    var n := Copy(out, at, rest);
    assert out[..at] == old(out[..at]);
    assert out[..] == out[..at] + out[at..at+n];
  }

  /** Exactly `sent` has gone to a writer that began with the given state. */
  ghost predicate Sent(w: Writer, sent: Bytes, written: Bytes, capacity: nat)
    reads w
  {
    w.written == written + sent && w.capacity == capacity - |sent|
  }

  /** One Write call in the middle of an output sent + piece + tail. */
  method Emit(w: Writer, piece: Bytes, ghost sent: Bytes, ghost tail: Bytes, ghost written: Bytes, ghost capacity: nat)
    returns (ok: bool)
    requires Sent(w, sent, written, capacity)
    modifies w
    ensures ok ==> Sent(w, sent + piece, written, capacity)
    ensures !ok ==> capacity < |sent + piece + tail| && w.written == written + (sent + piece + tail)[..capacity]
  {
    var n;
    n, ok := w.Write(piece);
    assert piece[..|piece|] == piece;
    assert !ok ==> sent + piece[..n] == (sent + piece + tail)[..capacity];
  }

  /** Encode and EncodeToBytes. */
  method EncodeToBytes(i: Item) returns (out: array<Byte>)
    requires Fits(i)
    ensures out[..] == Encode(i)
  {
    var buf := new EncBuf();
    buf.EncodeItem(i);
    FlatIsEncode(i);
    assert buf.str == Strings(i) && buf.lheads == Heads(i, 0);
    out := buf.ToBytes();
  }

  /** encReader: hands the output out piece by piece. */
  class EncReader {
    var buf: EncBuf?
    var lhpos: nat
    var strpos: nat
    var piece: Option<Bytes>

    /** EncodeToReader. */
    constructor (buf: EncBuf)
      requires buf.Complete() && buf.sizebuf.Length == 9
      ensures Valid() && this.buf == buf && Remaining() == buf.Output()
    {
      this.buf := buf;
      lhpos, strpos, piece := 0, 0, None;
      new;
      assert buf.lheads[0..] == buf.lheads;
      assert [] + buf.Output() == buf.Output();
    }

    ghost predicate Valid()
      reads this, buf
    {
      && (buf != null ==> lhpos <= |buf.lheads| && Ordered(buf.str, strpos, buf.lheads[lhpos..]) && buf.sizebuf.Length == 9)
      && (piece.Some? ==> piece.value != [])
    }

    /** What is still to be read. */
    ghost function Remaining(): Bytes
      requires Valid()
      reads this, buf
    {
      if buf == null then []
      else (if piece.Some? then piece.value else []) + Interleave(buf.str, strpos, buf.lheads[lhpos..])
    }

    /** next: a piece left over from the last read, string data up to the next
        header, that header, or the string data after the last one. */
    method Next() returns (p: Option<Bytes>)
      requires Valid()
      modifies this`lhpos, this`strpos, this`piece, if buf != null then {buf.sizebuf} else {}
      ensures Valid() && piece == p
      ensures Remaining() == old(Remaining())
      ensures p.None? <==> old(Remaining()) == []
      ensures p.Some? ==> buf != null
    {
      hide HeadSize, BigEndian, Interleave, Ordered;
      if buf == null {
        p := None;
      } else if piece.Some? {
        p := piece;
      } else if lhpos < |buf.lheads| {
        InterleaveStep(buf.str, strpos, buf.lheads, lhpos);
        var head := buf.lheads[lhpos];
        var sizebefore := head.offset - strpos;
        if sizebefore > 0 {
          p := Some(buf.str[strpos..head.offset]);
          SkipTo(buf.str, strpos, buf.lheads, lhpos);
          strpos := strpos + sizebefore;
        } else {
          lhpos := lhpos + 1;
          var n := PutHead(buf.sizebuf, 0, ListKind, head.size);
          p := Some(buf.sizebuf[..n]);
        }
      } else {
        InterleaveEnd(buf.str, strpos, buf.lheads);
        if strpos < |buf.str| {
          p := Some(buf.str[strpos..]);
          EndAt(buf.str, buf.lheads);
          strpos := |buf.str|;
        } else {
          p := None;
        }
      }
      piece := p;
    }

    /** Read: fills the given slice from the front with as much as there is, and
        reports the end as soon as nothing remains. */
    method Read(b: array<Byte>) returns (n: nat, eof: bool)
      requires Valid() && (buf != null ==> b != buf.sizebuf)
      modifies this, b, if buf != null then {buf.sizebuf} else {}
      ensures Valid()
      ensures n == if |old(Remaining())| <= b.Length then |old(Remaining())| else b.Length
      ensures b[..n] == old(Remaining())[..n]
      ensures Remaining() == old(Remaining())[n..]
      ensures eof <==> Remaining() == []
      ensures forall j :: n <= j < b.Length ==> b[j] == old(b[j])
      ensures buf == old(buf) || (buf == null && eof)
    {
      hide Valid, Remaining;
      n := 0;
      ghost var all := Remaining();
      while true
        invariant Valid() && buf == old(buf) && n <= b.Length
        invariant n <= |all| && b[..n] == all[..n] && Remaining() == all[n..]
        invariant forall j :: n <= j < b.Length ==> b[j] == old(b[j])
        decreases |Remaining()|
      {
        var p := Next();
        if p.None? {
          Release();
          return n, true;
        }
        ghost var rest := Remaining();
        var m := Consume(b, n);
        assert all[..n+m] == all[..n] + rest[..m] && all[n+m..] == rest[m..];
        n := n + m;
        if piece.Some? {
          return n, false;
        }
      }
    }

    /** Lets go of the buffer at the end. */
    method Release()
      requires Valid()
      modifies this`buf
      ensures Valid() && buf == null && Remaining() == []
    {
      buf := null;
    }

    /** Copies as much of the current piece as fits into b[at..]. */
    method Consume(b: array<Byte>, at: nat) returns (m: nat)
      requires Valid() && piece.Some? && buf != null && at <= b.Length && b != buf.sizebuf
      modifies this`piece, b
      ensures Valid() && at + m <= b.Length
      ensures m <= |old(Remaining())|
      ensures b[..at+m] == old(b[..at]) + old(Remaining())[..m]
      ensures Remaining() == old(Remaining())[m..]
      ensures piece.Some? ==> at + m == b.Length && Remaining() != []
      ensures piece.None? ==> m > 0
      ensures forall j :: at + m <= j < b.Length ==> b[j] == old(b[j])
    {
      hide HeadSize, BigEndian, Interleave, Ordered;
      var p := piece.value;
      m := if |p| <= b.Length - at then |p| else b.Length - at;
      var _ := Copy(b, at, p[..m]);
      assert p[..m] == Remaining()[..m];
      piece := if m < |p| then Some(p[m..]) else None;
    }
  }

  /** Any sequence of reads hands out the whole output, cut only at the ends of
      the given slices. */
  method ReadAll(r: EncReader, slices: seq<array<Byte>>) returns (got: Bytes, eof: bool)
    requires r.Valid() && (r.buf != null ==> r.buf.sizebuf !in slices)
    modifies r, slices, if r.buf != null then {r.buf.sizebuf} else {}
    ensures r.Valid() && got + r.Remaining() == old(r.Remaining())
    ensures if slices == [] then !eof else eof <==> got == old(r.Remaining())
  {
    hide EncReader.Valid, EncReader.Remaining;
    got, eof := [], false;
    for i := 0 to |slices|
      invariant r.Valid() && (r.buf == old(r.buf) || r.buf == null)
      invariant got + r.Remaining() == old(r.Remaining())
      invariant if i == 0 then !eof else eof <==> r.Remaining() == []
    {
      var n, e := r.Read(slices[i]);
      got := got + slices[i][..n];
      eof := e;
    }
  }
}
