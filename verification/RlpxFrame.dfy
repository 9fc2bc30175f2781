/**
 * RLPx frames as p2p/rlpx.go writes them, on values: a key stream and a running
 * hash per direction, kept by the writer and, in the same state, by the reader.
 */
module RlpxFrame {
  import opened Wrappers
  import opened Rlp

  const MAX_UINT24: nat := 0xFF_FFFF
  const UINT32: nat := 0x1_0000_0000

  /** The agreed secrets: a hash of 32 bytes, a block cipher of 16 bytes, a key stream. */
  datatype Keys = Keys(hash: Bytes -> Bytes, block: Bytes -> Bytes, stream: nat -> Byte)

  ghost predicate IsCrypto(keys: Keys) {
    (forall b :: |keys.hash(b)| == 32) && (forall b :: |keys.block(b)| == 16)
  }

  /** One direction of a connection: the position in the key stream, and what the
      running hash has been fed. */
  datatype Direction = Direction(pos: nat, mac: Bytes)

  // ----- the key stream -----

  function Pow2(k: nat): (p: nat)
    ensures p > 0
  {
    if k == 0 then 1 else 2 * Pow2(k - 1)
  }

  /** Exclusive or of the k lowest bits. */
  function XorBits(a: nat, b: nat, k: nat): (r: nat)
    ensures r < Pow2(k)
  {
    if k == 0 then 0 else (if a % 2 == b % 2 then 0 else 1) + 2 * XorBits(a / 2, b / 2, k - 1)
  }

  lemma Halves(bit: nat, rest: nat)
    requires bit < 2
    ensures (bit + 2 * rest) / 2 == rest && (bit + 2 * rest) % 2 == bit
  {
  }

  lemma {:induction false} XorBitsTwice(a: nat, b: nat, k: nat)
    requires a < Pow2(k)
    ensures XorBits(XorBits(a, b, k), b, k) == a
  {
    if k > 0 {
      XorBitsTwice(a / 2, b / 2, k - 1);
      var bit, rest := if a % 2 == b % 2 then 0 else 1, XorBits(a / 2, b / 2, k - 1);
      Halves(bit, rest);
      assert XorBits(a, b, k) == bit + 2 * rest;
    }
  }

  function XorByte(a: Byte, b: Byte): Byte {
    assert Pow2(8) == 256;
    XorBits(a, b, 8)
  }

  /** The k-th bit. */
  predicate Bit(a: nat, k: nat) {
    a / Pow2(k) % 2 == 1
  }

  lemma XorBitsStep(a: nat, b: nat, n: nat)
    requires n > 0
    ensures XorBits(a, b, n) / 2 == XorBits(a / 2, b / 2, n - 1)
    ensures XorBits(a, b, n) % 2 == if a % 2 == b % 2 then 0 else 1
  {
    Halves(if a % 2 == b % 2 then 0 else 1, XorBits(a / 2, b / 2, n - 1));
  }

  lemma LowestBit(a: nat)
    ensures Bit(a, 0) <==> a % 2 == 1
  {
  }

  /** Bit by bit, one of the two and not both. */
  lemma {:induction false} XorBitsAt(a: nat, b: nat, n: nat, k: nat)
    requires k < n
    ensures Bit(XorBits(a, b, n), k) <==> Bit(a, k) != Bit(b, k)
  {
    hide XorBits, Bit, Pow2;
    XorBitsStep(a, b, n);
    if k == 0 {
      LowestBit(a);
      LowestBit(b);
      LowestBit(XorBits(a, b, n));
    } else {
      XorBitsAt(a / 2, b / 2, n - 1, k - 1);
      HalfBit(a, k);
      HalfBit(b, k);
      HalfBit(XorBits(a, b, n), k);
    }
  }

  lemma HalfBit(a: nat, k: nat)
    requires k > 0
    ensures Bit(a, k) <==> Bit(a / 2, k - 1)
  {
    var p := Pow2(k - 1);
    var q := a / 2 / p;
    assert a / 2 == q * p + a / 2 % p;
    assert a == 2 * (q * p + a / 2 % p) + a % 2;
    assert a == q * (2 * p) + (2 * (a / 2 % p) + a % 2);
    Quotient(a, 2 * p, q, 2 * (a / 2 % p) + a % 2);
  }

  lemma Quotient(a: nat, d: nat, q: nat, r: nat)
    requires d > 0 && a == q * d + r && r < d
    ensures a / d == q
  {
    var e := a / d - q;
    assert (a / d) * d + a % d == a;
    assert e * d == r - a % d;
    if e >= 1 {
      AtLeastOnce(e, d);
    }
  }

  lemma AtLeastOnce(n: nat, d: nat)
    requires n >= 1
    ensures n * d >= d
  {
    assert n * d == d + (n - 1) * d;
  }

  lemma XorByteTwice(a: Byte, b: Byte)
    ensures XorByte(XorByte(a, b), b) == a
  {
    hide XorBits;
    assert Pow2(8) == 256;
    XorBitsTwice(a, b, 8);
  }

  lemma {:induction false} XorBitsCancel(a: nat, b: nat, c: nat, k: nat)
    requires b < Pow2(k) && c < Pow2(k) && XorBits(a, b, k) == XorBits(a, c, k)
    ensures b == c
  {
    if k > 0 {
      var bit, rest := if a % 2 == b % 2 then 0 else 1, XorBits(a / 2, b / 2, k - 1);
      Halves(bit, rest);
      var bit', rest' := if a % 2 == c % 2 then 0 else 1, XorBits(a / 2, c / 2, k - 1);
      Halves(bit', rest');
      XorBitsCancel(a / 2, b / 2, c / 2, k - 1);
    }
  }

  lemma XorByteCancel(a: Byte, b: Byte, c: Byte)
    requires XorByte(a, b) == XorByte(a, c)
    ensures b == c
  {
    hide XorBits;
    assert Pow2(8) == 256;
    XorBitsCancel(a, b, c, 8);
  }

  function Xor(stream: nat -> Byte, pos: nat, data: Bytes): (r: Bytes)
    ensures |r| == |data|
  {
    seq(|data|, i requires 0 <= i < |data| => XorByte(data[i], stream(pos + i)))
  }

  lemma XorByteAt(a: Byte, b: Byte, k: nat)
    requires k < 8
    ensures Bit(XorByte(a, b), k) <==> Bit(a, k) != Bit(b, k)
  {
    hide XorBits, Bit;
    XorBitsAt(a, b, 8, k);
  }

  /** Encrypting takes the exclusive or with the key stream, bit by bit. */
  lemma XorAt(stream: nat -> Byte, pos: nat, data: Bytes, i: nat, k: nat)
    requires i < |data| && k < 8
    ensures Bit(Xor(stream, pos, data)[i], k) <==> Bit(data[i], k) != Bit(stream(pos + i), k)
  {
    hide XorByte, Bit;
    XorByteAt(data[i], stream(pos + i), k);
  }

  /** Decrypting at the same position undoes encrypting. */
  lemma XorTwice(stream: nat -> Byte, pos: nat, data: Bytes)
    ensures Xor(stream, pos, Xor(stream, pos, data)) == data
  {
    hide XorByte;
    var once := Xor(stream, pos, data);
    var twice := Xor(stream, pos, once);
    forall i | 0 <= i < |data| ensures twice[i] == data[i] {
      XorByteTwice(data[i], stream(pos + i));
    }
  }

  /** Data may be encrypted piece by piece. */
  lemma XorPieces(stream: nat -> Byte, pos: nat, a: Bytes, b: Bytes)
    ensures Xor(stream, pos, a + b) == Xor(stream, pos, a) + Xor(stream, pos + |a|, b)
  {
    var whole, left, right := Xor(stream, pos, a + b), Xor(stream, pos, a), Xor(stream, pos + |a|, b);
    forall i | 0 <= i < |a| + |b| ensures whole[i] == (left + right)[i] {
      if i >= |a| {
        assert right[i - |a|] == XorByte(b[i - |a|], stream(pos + |a| + (i - |a|)));
        assert (a + b)[i] == b[i - |a|];
        assert pos + |a| + (i - |a|) == pos + i;
      }
    }
  }

  // ----- the running hash -----

  function XorBytes(a: Bytes, b: Bytes): (r: Bytes)
    requires |a| <= |b|
    ensures |r| == |a|
  {
    seq(|a|, i requires 0 <= i < |a| => XorByte(a[i], b[i]))
  }

  /** The hash after it has been reseeded. */
  function Reseed(keys: Keys, mac: Bytes, seed: Bytes): Bytes
    requires |keys.hash(mac)| >= 16 && |keys.block(keys.hash(mac)[..16])| <= |seed|
  {
    mac + XorBytes(keys.block(keys.hash(mac)[..16]), seed)
  }

  /** The hash is fed one block more: the seed, hidden by the encrypted hash so far. */
  lemma ReseedFeeds(keys: Keys, mac: Bytes, seed: Bytes)
    requires IsCrypto(keys) && |seed| >= 16
    ensures var fed := Reseed(keys, mac, seed);
            && mac <= fed && |fed| == |mac| + 16
            && forall i, k :: 0 <= i < 16 && 0 <= k < 8 ==>
                 (Bit(fed[|mac| + i], k) <==> Bit(keys.block(keys.hash(mac)[..16])[i], k) != Bit(seed[i], k))
  {
    hide XorByte, Bit;
    var hidden, fed := keys.block(keys.hash(mac)[..16]), Reseed(keys, mac, seed);
    forall i, k | 0 <= i < 16 && 0 <= k < 8
      ensures Bit(fed[|mac| + i], k) <==> Bit(hidden[i], k) != Bit(seed[i], k)
    {
      assert fed[|mac| + i] == XorByte(hidden[i], seed[i]);
      XorByteAt(hidden[i], seed[i], k);
    }
  }

  /** Different seeds are fed differently. */
  lemma ReseedTellsApart(keys: Keys, mac: Bytes, a: Bytes, b: Bytes)
    requires IsCrypto(keys) && |a| >= 16 && |b| >= 16 && Reseed(keys, mac, a) == Reseed(keys, mac, b)
    ensures a[..16] == b[..16]
  {
    hide XorByte;
    var hidden := keys.block(keys.hash(mac)[..16]);
    var fed := Reseed(keys, mac, a);
    forall i | 0 <= i < 16 ensures a[i] == b[i] {
      assert fed[|mac| + i] == XorByte(hidden[i], a[i]) == XorByte(hidden[i], b[i]);
      XorByteCancel(hidden[i], a[i], b[i]);
    }
  }

  /** The 16 bytes of it that are sent. */
  function Tag(keys: Keys, mac: Bytes): (t: Bytes)
    requires |keys.hash(mac)| >= 16
    ensures |t| == 16
  {
    keys.hash(mac)[..16]
  }

  // ----- frames -----

  function Int24(v: nat): (b: Bytes)
    ensures |b| == 3
  {
    [v / 0x1_0000 % 256, v / 0x100 % 256, v % 256]
  }

  function FromInt24(b: Bytes): nat
    requires |b| >= 3
  {
    Join24(b[0], b[1], b[2])
  }

  function Join24(high: int, middle: int, low: int): int {
    low + middle * 0x100 + high * 0x1_0000
  }

  lemma Int24RoundTrip(v: nat, rest: Bytes)
    requires v <= MAX_UINT24
    ensures FromInt24(Int24(v) + rest) == v
  {
  }

  /** The most significant byte comes first. */
  lemma Int24IsBigEndian(v: nat)
    requires v <= MAX_UINT24
    ensures Value(Int24(v)) == v
  {
    var b := Int24(v);
    assert b[..2] == [b[0], b[1]] && b[..1] == [b[0]] && b[..2][..1] == [b[0]];
    var high: int := b[0];
    assert Value([b[0]]) == high;
    assert Value([b[0], b[1]]) == high * 256 + b[1];
  }

  function Zeros(n: nat): (z: Bytes)
    ensures |z| == n && forall i :: 0 <= i < n ==> z[i] == 0
  {
    seq(n, i => 0)
  }

  /** What is missing up to the next multiple of sixteen. */
  function Padding(n: nat): (p: nat)
    ensures p < 16 && (n + p) % 16 == 0
  {
    if n % 16 > 0 then 16 - n % 16 else 0
  }

  /** The header of a frame: its size and constant data. */
  function HeaderBytes(fsize: nat): (h: Bytes)
    ensures |h| == 16
  {
    Int24(fsize) + [0xC2, 0x80, 0x80] + Zeros(10)
  }

  /** The constant data is the list of protocol type and context number, both zero. */
  lemma HeaderIs(fsize: nat)
    ensures var zeros := List([Str([]), Str([])]);
            Fits(zeros) && HeaderBytes(fsize) == Int24(fsize) + Encode(zeros) + Zeros(10)
  {
    var items := [Str([]), Str([])];
    assert items[1..] == [Str([])] && items[1..][1..] == [];
    assert Encode(Str([])) == [0x80];
    assert EncodeAll([Str([])]) == [0x80];
    assert EncodeAll(items) == [0x80, 0x80];
  }

  /** The hash after the header, and after the whole frame. */
  function HeadMac(keys: Keys, d: Direction, fsize: nat): Bytes
    requires IsCrypto(keys)
  {
    Reseed(keys, d.mac, Xor(keys.stream, d.pos, HeaderBytes(fsize)))
  }

  function BodyMac(keys: Keys, d: Direction, fsize: nat, body: Bytes): Bytes
    requires IsCrypto(keys)
  {
    HeadMac(keys, d, fsize) + Xor(keys.stream, d.pos + 16, body)
  }

  function FrameMac(keys: Keys, d: Direction, fsize: nat, body: Bytes): Bytes
    requires IsCrypto(keys)
  {
    var mac := BodyMac(keys, d, fsize, body);
    Reseed(keys, mac, keys.hash(mac))
  }

  /** A frame: encrypted header, header tag, encrypted body, frame tag. */
  function Frame(keys: Keys, d: Direction, fsize: nat, body: Bytes): (f: Bytes)
    requires IsCrypto(keys)
    ensures |f| == 32 + |body| + 16
  {
    Xor(keys.stream, d.pos, HeaderBytes(fsize)) + Tag(keys, HeadMac(keys, d, fsize))
    + Xor(keys.stream, d.pos + 16, body) + Tag(keys, FrameMac(keys, d, fsize, body))
  }

  function After(keys: Keys, d: Direction, fsize: nat, body: Bytes): Direction
    requires IsCrypto(keys)
  {
    Direction(d.pos + 16 + |body|, FrameMac(keys, d, fsize, body))
  }

  // ----- reading -----

  datatype Opened = Opened(fsize: nat, direction: Direction, rest: Bytes)
  datatype Got = Got(content: Bytes, direction: Direction, rest: Bytes)

  /** A header is accepted when it is complete and its tag is right. */
  function AcceptHead(keys: Keys, d: Direction, input: Bytes): (r: Option<Opened>)
    requires IsCrypto(keys)
    ensures r.Some? ==> r.value.fsize <= MAX_UINT24
  {
    if |input| < 32 then None
    else
      var mac := Reseed(keys, d.mac, input[..16]);
      if Tag(keys, mac) != input[16..32] then None
      else Some(Opened(FromInt24(Xor(keys.stream, d.pos, input[..16])), Direction(d.pos + 16, mac), input[32..]))
  }

  /** A frame body is accepted when it is complete and the frame's tag is right. */
  function AcceptBody(keys: Keys, d: Direction, fsize: nat, input: Bytes): (r: Option<Got>)
    requires IsCrypto(keys)
    ensures r.Some? ==> |r.value.content| == fsize
  {
    var rsize := fsize + Padding(fsize);
    if |input| < rsize + 16 then None
    else
      var mac := d.mac + input[..rsize];
      var mac' := Reseed(keys, mac, keys.hash(mac));
      if Tag(keys, mac') != input[rsize..rsize + 16] then None
      else Some(Got(Xor(keys.stream, d.pos, input[..rsize])[..fsize], Direction(d.pos + rsize, mac'), input[rsize + 16..]))
  }

  /** What a reader makes of its input: nothing unless a frame is complete and both
      tags are right. */
  function Accept(keys: Keys, d: Direction, input: Bytes): (r: Option<Got>)
    requires IsCrypto(keys)
    ensures r.Some? ==> |r.value.content| <= MAX_UINT24
  {
    match AcceptHead(keys, d, input)
    case None => None
    case Some(o) => AcceptBody(keys, o.direction, o.fsize, o.rest)
  }

  lemma HeadIsAccepted(keys: Keys, d: Direction, fsize: nat, rest: Bytes)
    requires IsCrypto(keys) && fsize <= MAX_UINT24
    ensures var mac := HeadMac(keys, d, fsize);
            AcceptHead(keys, d, Xor(keys.stream, d.pos, HeaderBytes(fsize)) + Tag(keys, mac) + rest)
            == Some(Opened(fsize, Direction(d.pos + 16, mac), rest))
  {
    hide Xor, Reseed, Tag, Int24, FromInt24;
    var ehead, tag := Xor(keys.stream, d.pos, HeaderBytes(fsize)), Tag(keys, HeadMac(keys, d, fsize));
    var input := ehead + tag + rest;
    assert input[..16] == ehead && input[16..32] == tag && input[32..] == rest;
    XorTwice(keys.stream, d.pos, HeaderBytes(fsize));
    Int24RoundTrip(fsize, [0xC2, 0x80, 0x80] + Zeros(10));
    assert HeaderBytes(fsize) == Int24(fsize) + ([0xC2, 0x80, 0x80] + Zeros(10));
  }

  lemma BodyIsAccepted(keys: Keys, d: Direction, content: Bytes, rest: Bytes)
    requires IsCrypto(keys)
    ensures var body := content + Zeros(Padding(|content|));
            var mac := d.mac + Xor(keys.stream, d.pos, body);
            var mac' := Reseed(keys, mac, keys.hash(mac));
            AcceptBody(keys, d, |content|, Xor(keys.stream, d.pos, body) + Tag(keys, mac') + rest)
            == Some(Got(content, Direction(d.pos + |body|, mac'), rest))
  {
    hide Xor, Reseed, Tag;
    var body := content + Zeros(Padding(|content|));
    var ebody := Xor(keys.stream, d.pos, body);
    var mac := d.mac + ebody;
    var tag := Tag(keys, Reseed(keys, mac, keys.hash(mac)));
    var input := ebody + tag + rest;
    assert input[..|ebody|] == ebody && input[|ebody|..|ebody| + 16] == tag && input[|ebody| + 16..] == rest;
    XorTwice(keys.stream, d.pos, body);
    assert body[..|content|] == content;
  }

  /** A reader in the writer's state accepts the frame, gets its content, and is again
      in the writer's state. */
  lemma FrameIsAccepted(keys: Keys, d: Direction, content: Bytes, rest: Bytes)
    requires IsCrypto(keys) && |content| <= MAX_UINT24
    ensures var body := content + Zeros(Padding(|content|));
            Accept(keys, d, Frame(keys, d, |content|, body) + rest)
            == Some(Got(content, After(keys, d, |content|, body), rest))
  {
    hide Xor, Reseed, Tag, AcceptHead, AcceptBody, HeaderBytes;
    var fsize, body := |content|, content + Zeros(Padding(|content|));
    var ehead, htag := Xor(keys.stream, d.pos, HeaderBytes(fsize)), Tag(keys, HeadMac(keys, d, fsize));
    var ebody, ftag := Xor(keys.stream, d.pos + 16, body), Tag(keys, FrameMac(keys, d, fsize, body));
    assert Frame(keys, d, fsize, body) + rest == ehead + htag + (ebody + ftag + rest);
    HeadIsAccepted(keys, d, fsize, ebody + ftag + rest);
    BodyIsAccepted(keys, Direction(d.pos + 16, HeadMac(keys, d, fsize)), content, rest);
  }

  // ----- altered and repeated frames -----

  /** The truncated hash tells two inputs apart. */
  ghost predicate TellsApart(keys: Keys, a: Bytes, b: Bytes)
    requires IsCrypto(keys)
  {
    keys.hash(a)[..16] == keys.hash(b)[..16] ==> a == b
  }

  /** What a reader has fed its hash when it checks the first and the second tag. */
  ghost function ReadMac(keys: Keys, d: Direction, input: Bytes): Bytes
    requires IsCrypto(keys) && |input| >= 16
  {
    Reseed(keys, d.mac, input[..16])
  }

  ghost function ReadFrameMac(keys: Keys, d: Direction, input: Bytes, n: nat): Bytes
    requires IsCrypto(keys) && |input| >= 32 + n
  {
    var mac := ReadMac(keys, d, input) + input[32..32 + n];
    Reseed(keys, mac, keys.hash(mac))
  }

  /** A header that is accepted with the writer's tag is the writer's. */
  lemma HeadIsGenuine(keys: Keys, d: Direction, fsize: nat, input: Bytes)
    requires IsCrypto(keys) && fsize <= MAX_UINT24 && AcceptHead(keys, d, input).Some?
    requires input[16..32] == keys.hash(HeadMac(keys, d, fsize))[..16]
    requires TellsApart(keys, ReadMac(keys, d, input), HeadMac(keys, d, fsize))
    ensures input[..16] == Xor(keys.stream, d.pos, HeaderBytes(fsize))
    ensures AcceptHead(keys, d, input) == Some(Opened(fsize, Direction(d.pos + 16, HeadMac(keys, d, fsize)), input[32..]))
  {
    hide Xor, Reseed, Int24, FromInt24, HeaderBytes;
    var ehead := Xor(keys.stream, d.pos, HeaderBytes(fsize));
    ReseedTellsApart(keys, d.mac, input[..16], ehead);
    assert input[..16][..16] == input[..16] && ehead[..16] == ehead;
    HeadIsAccepted(keys, d, fsize, input[32..]);
    assert ehead + Tag(keys, HeadMac(keys, d, fsize)) + input[32..] == input;
  }

  /** A reader in the writer's state that accepts input with the frame's two tags where the frame
      has them has been given exactly the writer's frame. */
  lemma FrameIsGenuine(keys: Keys, d: Direction, fsize: nat, body: Bytes, input: Bytes)
    requires IsCrypto(keys) && fsize <= MAX_UINT24 && |body| == fsize + Padding(fsize)
    requires |input| >= 48 + |body| && Accept(keys, d, input).Some?
    requires input[16..32] == keys.hash(HeadMac(keys, d, fsize))[..16]
    requires input[32 + |body|..48 + |body|] == keys.hash(FrameMac(keys, d, fsize, body))[..16]
    requires TellsApart(keys, ReadMac(keys, d, input), HeadMac(keys, d, fsize))
    requires TellsApart(keys, ReadFrameMac(keys, d, input, |body|), FrameMac(keys, d, fsize, body))
    ensures input[..48 + |body|] == Frame(keys, d, fsize, body)
  {
    hide Xor, Reseed, AcceptHead, HeaderBytes;
    HeadIsGenuine(keys, d, fsize, input);
    var ehead, ebody := Xor(keys.stream, d.pos, HeaderBytes(fsize)), Xor(keys.stream, d.pos + 16, body);
    var head, n := HeadMac(keys, d, fsize), |body|;
    var rest := input[32..];
    assert rest[..n] == input[32..32 + n] && rest[n..n + 16] == input[32 + n..48 + n];
    var mac, mac' := head + input[32..32 + n], head + ebody;
    ReseedFeeds(keys, mac, keys.hash(mac));
    ReseedFeeds(keys, mac', keys.hash(mac'));
    assert Reseed(keys, mac, keys.hash(mac))[..|mac|] == mac;
    assert Reseed(keys, mac', keys.hash(mac'))[..|mac'|] == mac';
    assert mac[|head|..] == input[32..32 + n] && mac'[|head|..] == ebody;
    assert input[..48 + n] == input[..16] + input[16..32] + input[32..32 + n] + input[32 + n..48 + n];
  }

  /** A frame is accepted only in the state it was written in: a reader that has gone on, and so
      has fed its hash more, refuses it. */
  lemma ReplayIsRefused(keys: Keys, d: Direction, fsize: nat, body: Bytes, later: Direction, rest: Bytes)
    requires IsCrypto(keys) && |later.mac| > |d.mac|
    requires TellsApart(keys, ReadMac(keys, later, Frame(keys, d, fsize, body)), HeadMac(keys, d, fsize))
    ensures Accept(keys, later, Frame(keys, d, fsize, body) + rest) == None
  {
    hide Xor, Reseed, AcceptBody, HeaderBytes;
    var frame := Frame(keys, d, fsize, body);
    var ehead := Xor(keys.stream, d.pos, HeaderBytes(fsize));
    assert frame[..16] == ehead == (frame + rest)[..16];
    assert (frame + rest)[16..32] == frame[16..32] == Tag(keys, HeadMac(keys, d, fsize));
    ReseedFeeds(keys, later.mac, ehead);
    ReseedFeeds(keys, d.mac, ehead);
  }

  /** Every frame feeds the hash and moves on in the key stream, over header and body. */
  lemma GoesOn(keys: Keys, d: Direction, fsize: nat, body: Bytes)
    requires IsCrypto(keys)
    ensures var after := After(keys, d, fsize, body);
            d.mac <= after.mac && |after.mac| == |d.mac| + 32 + |body| && after.pos == d.pos + 16 + |body|
  {
    hide Xor, Reseed, HeaderBytes;
    var mac := BodyMac(keys, d, fsize, body);
    ReseedFeeds(keys, d.mac, Xor(keys.stream, d.pos, HeaderBytes(fsize)));
    ReseedFeeds(keys, mac, keys.hash(mac));
  }

  /** What is encrypted is one stretch of the key stream. */
  lemma FrameIsEncrypted(keys: Keys, d: Direction, fsize: nat, body: Bytes)
    requires IsCrypto(keys)
    ensures var frame := Frame(keys, d, fsize, body);
            frame[..16] + frame[32..32 + |body|] == Xor(keys.stream, d.pos, HeaderBytes(fsize) + body)
  {
    hide Xor, Reseed, HeaderBytes;
    XorPieces(keys.stream, d.pos, HeaderBytes(fsize), body);
    var frame := Frame(keys, d, fsize, body);
    assert frame[..16] == Xor(keys.stream, d.pos, HeaderBytes(fsize));
    assert frame[32..32 + |body|] == Xor(keys.stream, d.pos + 16, body);
  }
}
