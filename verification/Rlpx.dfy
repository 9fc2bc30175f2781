/**
 * Writing and reading RLPx frames, p2p/rlpx.go, with compression off, and two ends
 * of a connection that stay in step.
 */
module Rlpx {
  import opened Wrappers
  import opened Rlp
  import opened RlpTheory
  import opened RlpxFrame
  import RlpBuffer
  import RlpEncoder
  import RlpStream

  datatype Msg = Msg(code: nat, payload: Bytes)
  datatype Outcome = Received(msg: Msg) | Failed

  const COPY_CHUNK: nat := 32 * 1024

  /** Codes are 64-bit numbers. */
  ghost predicate IsCode(code: nat) {
    code < LIMIT && |BigEndian(code)| <= 8
  }

  /** The frame size as the writer computes it, in 32 bits throughout. */
  ghost function FrameSize(msg: Msg): nat
    requires IsCode(msg.code)
  {
    (|UintForm(msg.code)| + |msg.payload| % UINT32) % UINT32
  }

  ghost function Content(msg: Msg): Bytes
    requires IsCode(msg.code)
  {
    UintForm(msg.code) + msg.payload
  }

  ghost function Body(msg: Msg): Bytes
    requires IsCode(msg.code)
  {
    Content(msg) + Zeros(Padding(FrameSize(msg)))
  }

  /** The message can be carried by one frame. */
  ghost predicate IsCarried(msg: Msg) {
    IsCode(msg.code) && |UintForm(msg.code)| + |msg.payload| <= MAX_UINT24
  }

  /** The true size is beyond 32 bits, and what is left of it in 32 bits is small. */
  ghost predicate Wraps(msg: Msg) {
    IsCode(msg.code) && |Content(msg)| >= UINT32 && |Content(msg)| % UINT32 <= MAX_UINT24
  }

  lemma CarriedSize(msg: Msg)
    requires IsCarried(msg)
    ensures FrameSize(msg) == |Content(msg)|
  {
  }

  method PutInt24(v: nat, b: array<Byte>)
    requires b.Length >= 3
    modifies b
    ensures b[..3] == Int24(v) && b[3..] == old(b[3..])
  {
    b[0] := v / 0x1_0000 % 256;
    b[1] := v / 0x100 % 256;
    b[2] := v % 256;
  }

  /** XORKeyStream in place. */
  method XorKeyStream(stream: nat -> Byte, pos: nat, b: array<Byte>, n: nat)
    requires n <= b.Length
    modifies b
    ensures b[..n] == Xor(stream, pos, old(b[..n])) && b[n..] == old(b[n..])
  {
    hide XorByte;
    ghost var plain := b[..n];
    for i := 0 to n
      invariant forall j :: 0 <= j < i ==> b[j] == Xor(stream, pos, plain)[j]
      invariant forall j :: i <= j < b.Length ==> b[j] == old(b[j])
    {
      b[i] := XorByte(b[i], stream(pos + i));
    }
    assert b[..n] == Xor(stream, pos, plain);
  }

  /** updateMAC: reseeds the hash and returns what it hashes to then. */
  method UpdateMac(keys: Keys, mac: Bytes, seed: Bytes) returns (mac': Bytes, tag: Bytes)
    requires IsCrypto(keys) && |seed| >= 16
    ensures mac' == Reseed(keys, mac, seed) && tag == Tag(keys, mac')
  {
    hide XorByte;
    var sum := keys.hash(mac);
    var aes := keys.block(sum[..16]);
    var aesbuf := new Byte[16](i requires 0 <= i < 16 => aes[i]);
    for i := 0 to 16
      invariant forall j :: 0 <= j < i ==> aesbuf[j] == XorByte(aes[j], seed[j])
      invariant forall j :: i <= j < 16 ==> aesbuf[j] == aes[j]
    {
      aesbuf[i] := XorByte(aesbuf[i], seed[i]);
    }
    assert aesbuf[..] == XorBytes(aes, seed);
    mac' := mac + aesbuf[..];
    tag := keys.hash(mac')[..16];
  }

  /** The tag after n bytes and what follows it. */
  lemma Slices(s: Bytes, n: nat)
    requires n + 16 <= |s|
    ensures s[n..][..16] == s[n..n + 16] && s[n..][16..] == s[n + 16..]
  {
  }

  class FrameRW {
    const keys: Keys
    var egress: Direction
    var ingress: Direction
    var output: Bytes
    var input: Bytes

    constructor (keys: Keys, egress: Direction, ingress: Direction)
      ensures this.keys == keys && this.egress == egress && this.ingress == ingress
      ensures output == [] && input == []
    {
      this.keys, this.egress, this.ingress, output, input := keys, egress, ingress, [], [];
    }

    /** Encrypts data onto the connection, feeding the hash with what is sent. */
    method Tee(data: Bytes, ghost sent: Bytes, ghost was: Direction, ghost out: Bytes)
      requires egress == Direction(was.pos + |sent|, was.mac + Xor(keys.stream, was.pos, sent))
      requires output == out + Xor(keys.stream, was.pos, sent)
      modifies this`egress, this`output
      ensures egress == Direction(was.pos + |sent + data|, was.mac + Xor(keys.stream, was.pos, sent + data))
      ensures output == out + Xor(keys.stream, was.pos, sent + data)
    {
      hide Xor;
      XorPieces(keys.stream, was.pos, sent, data);
      var secret := Xor(keys.stream, egress.pos, data);
      assert was.mac + Xor(keys.stream, was.pos, sent) + secret == was.mac + (Xor(keys.stream, was.pos, sent) + secret);
      assert out + Xor(keys.stream, was.pos, sent) + secret == out + (Xor(keys.stream, was.pos, sent) + secret);
      egress := Direction(egress.pos + |data|, egress.mac + secret);
      output := output + secret;
    }

    /** io.Copy of the payload, chunk by chunk. */
    method CopyPayload(payload: Bytes, ghost sent: Bytes, ghost was: Direction, ghost out: Bytes)
      requires egress == Direction(was.pos + |sent|, was.mac + Xor(keys.stream, was.pos, sent))
      requires output == out + Xor(keys.stream, was.pos, sent)
      modifies this`egress, this`output
      ensures egress == Direction(was.pos + |sent + payload|, was.mac + Xor(keys.stream, was.pos, sent + payload))
      ensures output == out + Xor(keys.stream, was.pos, sent + payload)
    {
      hide Xor;
      var i: nat := 0;
      assert sent + payload[..0] == sent;
      while i < |payload|
        invariant i <= |payload|
        invariant egress == Direction(was.pos + |sent + payload[..i]|, was.mac
                + Xor(keys.stream, was.pos, sent + payload[..i]))
        invariant output == out + Xor(keys.stream, was.pos, sent + payload[..i])
      {
        var n := if |payload| - i < COPY_CHUNK then |payload| - i else COPY_CHUNK;
        assert sent + payload[..i] + payload[i..i + n] == sent + payload[..i + n];
        Tee(payload[i..i + n], sent + payload[..i], was, out);
        i := i + n;
      }
      assert payload[..i] == payload;
    }

    /** The encrypted header with its tag. */
    method WriteHeader(fsize: nat)
      requires IsCrypto(keys)
      modifies this`egress, this`output
      ensures egress == Direction(old(egress).pos + 16, HeadMac(keys, old(egress), fsize))
      ensures output == old(output) + Xor(keys.stream, old(egress).pos, HeaderBytes(fsize))
              + Tag(keys, HeadMac(keys, old(egress), fsize))
    {
      hide Xor, Reseed, Tag, Int24;
      var headbuf := new Byte[32](i => 0);
      assert headbuf[3..][3..] == headbuf[6..] == Zeros(26);
      PutInt24(fsize, headbuf);
      assert headbuf[3..][3..] == headbuf[6..];
      var n := RlpEncoder.Copy(headbuf, 3, [0xC2, 0x80, 0x80]);
      HeaderFilled(headbuf[..], fsize);
      XorKeyStream(keys.stream, egress.pos, headbuf, 16);
      var seed := headbuf[..16];
      var mac, tag := UpdateMac(keys, egress.mac, seed);
      n := RlpEncoder.Copy(headbuf, 16, tag);
      assert headbuf[..] == seed + tag;
      egress := Direction(egress.pos + 16, mac);
      output := output + headbuf[..];
    }

    /** WriteMsg. The message size is the payload's length in 32 bits. */
    method WriteMsg(msg: Msg) returns (ok: bool)
      requires IsCrypto(keys) && IsCode(msg.code)
      modifies this`egress, this`output
      ensures ok <==> FrameSize(msg) <= MAX_UINT24
      ensures !ok ==> egress == old(egress) && output == old(output)
      ensures ok ==> output == old(output) + Frame(keys, old(egress), FrameSize(msg), Body(msg))
      ensures ok ==> egress == After(keys, old(egress), FrameSize(msg), Body(msg))
    {
      hide Xor, Reseed, Tag, UintForm, BigEndian, HeaderBytes;
      var w := new RlpBuffer.EncBuf();
      w.WriteUint(msg.code);
      var ptype := w.str;
      assert ptype == UintForm(msg.code);
      var fsize := (|ptype| + |msg.payload| % UINT32) % UINT32;
      if fsize > MAX_UINT24 {
        return false;
      }
      ghost var d, start := egress, output;
      WriteHeader(fsize);
      ghost var was, out := egress, output;
      XorNothing(keys.stream, was, out);
      Tee(ptype, [], was, out);
      assert [] + ptype == ptype;
      CopyPayload(msg.payload, ptype, was, out);
      ghost var sent := ptype + msg.payload;
      if fsize % 16 > 0 {
        Tee(Zeros(16 - fsize % 16), sent, was, out);
      } else {
        assert sent + Zeros(0) == sent;
      }
      assert egress == Direction(d.pos + 16 + |Body(msg)|, BodyMac(keys, d, fsize, Body(msg)));
      var mac, tag := UpdateMac(keys, egress.mac, keys.hash(egress.mac));
      egress := Direction(egress.pos, mac);
      output := output + tag;
      Assemble(start, Xor(keys.stream, d.pos, HeaderBytes(fsize)), Tag(keys, HeadMac(keys, d, fsize)),
               Xor(keys.stream, d.pos + 16, Body(msg)), tag);
      return true;
    }

    /** Reads and checks a header. */
    method ReadHeader() returns (fsize: Option<nat>)
      requires IsCrypto(keys)
      modifies this`ingress, this`input
      ensures var o := AcceptHead(keys, old(ingress), old(input));
              if o.Some? then fsize == Some(o.value.fsize) && ingress == o.value.direction && input == o.value.rest
              else fsize == None
    {
      hide Xor, Reseed, Tag, FromInt24;
      if |input| < 32 {
        input := [];
        return None;
      }
      var first := input;
      var headbuf := new Byte[32](i requires 0 <= i < 32 => first[i]);
      assert headbuf[..16] == first[..16] && headbuf[16..] == first[16..32];
      input := input[32..];
      var mac, shouldMac := UpdateMac(keys, ingress.mac, headbuf[..16]);
      ingress := Direction(ingress.pos, mac);
      if shouldMac != headbuf[16..] {
        return None;
      }
      XorKeyStream(keys.stream, ingress.pos, headbuf, 16);
      ingress := Direction(ingress.pos + 16, mac);
      return Some(FromInt24(headbuf[..16]));
    }

    /** Reads, checks and decrypts a frame body. */
    method ReadBody(fsize: nat) returns (content: Option<Bytes>)
      requires IsCrypto(keys)
      modifies this`ingress, this`input
      ensures var g := AcceptBody(keys, old(ingress), fsize, old(input));
              if g.Some? then content == Some(g.value.content) && ingress == g.value.direction && input == g.value.rest
              else content == None
    {
      hide Xor, Reseed, Tag;
      var rsize := if fsize % 16 > 0 then fsize + (16 - fsize % 16) else fsize;
      if |input| < rsize {
        input := [];
        return None;
      }
      var first := input;
      var framebuf := new Byte[rsize](i requires 0 <= i < rsize => first[i]);
      assert framebuf[..] == framebuf[..rsize] == first[..rsize];
      input := input[rsize..];
      var mac := ingress.mac + framebuf[..];
      var fmacseed := keys.hash(mac);
      if |input| < 16 {
        input := [];
        return None;
      }
      var tag := input[..16];
      Slices(first, rsize);
      input := input[16..];
      var mac', shouldMac := UpdateMac(keys, mac, fmacseed);
      ingress := Direction(ingress.pos, mac');
      if shouldMac != tag {
        return None;
      }
      XorKeyStream(keys.stream, ingress.pos, framebuf, rsize);
      ingress := Direction(ingress.pos + rsize, mac');
      assert framebuf[..rsize][..fsize] == framebuf[..fsize];
      return Some(framebuf[..fsize]);
    }

    /** ReadMsg: fails unless a whole frame is accepted and its content starts with a code. */
    method ReadMsg() returns (r: Outcome)
      requires IsCrypto(keys)
      modifies this`ingress, this`input
      ensures Accept(keys, old(ingress), old(input)).None? ==> r == Failed
      ensures r.Received? ==>
                var g := Accept(keys, old(ingress), old(input)).value;
                IsCode(r.msg.code) && g.content == Content(r.msg) && ingress == g.direction && input == g.rest
      ensures r == Failed && Accept(keys, old(ingress), old(input)).Some? ==>
                RlpStream.NoUint(Accept(keys, old(ingress), old(input)).value.content, 8)
    {
      hide AcceptHead, AcceptBody, UintForm, BigEndian, RlpStream.NoUint;
      var fsize := ReadHeader();
      if fsize == None {
        return Failed;
      }
      var content := ReadBody(fsize.value);
      if content == None {
        return Failed;
      }
      var stream := new RlpStream.Stream(content.value);
      assert stream.Window() == content.value;
      var code := stream.Uint(8);
      if code.Err? {
        return Failed;
      }
      UintFits(code.value);
      assert content.value == UintForm(code.value) + content.value[stream.pos..];
      return Received(Msg(code.value, content.value[stream.pos..]));
    }
  }

  /** The size the writer computes is the true one modulo 2^32. */
  lemma SizeInUint32(msg: Msg)
    requires IsCode(msg.code)
    ensures FrameSize(msg) == |Content(msg)| % UINT32
  {
    hide UintForm;
    ModuloSum(|UintForm(msg.code)|, |msg.payload|);
  }

  lemma ModuloSum(a: nat, b: nat)
    ensures (a + b % UINT32) % UINT32 == (a + b) % UINT32
  {
    var q, r := b / UINT32, b % UINT32;
    assert a + b == (a + r) + q * UINT32;
  }

  /** The writer takes exactly the messages of at most 24 bits and those whose true size is
      beyond 32 bits and small modulo 2^32. */
  lemma WriterTakes(msg: Msg)
    requires IsCode(msg.code)
    ensures FrameSize(msg) <= MAX_UINT24 <==> IsCarried(msg) || Wraps(msg)
  {
    hide UintForm, FrameSize;
    SizeInUint32(msg);
  }

  /** A message the writer took comes back exactly when it is carried by one frame. */
  lemma ComesBack(keys: Keys, d: Direction, msg: Msg, rest: Bytes)
    requires IsCrypto(keys) && IsCode(msg.code) && FrameSize(msg) <= MAX_UINT24
    ensures var g := Accept(keys, d, Frame(keys, d, FrameSize(msg), Body(msg)) + rest);
            IsCarried(msg) <==> g.Some? && g.value.content == Content(msg)
  {
    hide Accept, Frame, UintForm;
    if IsCarried(msg) {
      CarriedSize(msg);
      FrameIsAccepted(keys, d, Content(msg), rest);
    }
  }

  /** One code byte and a payload of 2^32 - 1 bytes: the size wraps around to zero. */
  lemma WrappingMessage(payload: Bytes)
    requires |payload| == UINT32 - 1
    ensures Wraps(Msg(1, payload)) && FrameSize(Msg(1, payload)) == 0
  {
    assert BigEndian(1) == BigEndian(0) + [1];
    assert UintForm(1) == [1];
  }

  /** The content of a frame determines the message. */
  lemma ContentIsUnique(a: Msg, b: Msg)
    requires IsCode(a.code) && IsCode(b.code) && Content(a) == Content(b)
    ensures a == b
  {
    hide BigEndian, Value, Encode;
    var content := Content(a);
    assert UintForm(a.code) <= content && UintForm(b.code) <= content;
    Unique(Str(BigEndian(a.code)), Str(BigEndian(b.code)), content);
    ValueOfBigEndian(a.code);
    ValueOfBigEndian(b.code);
    assert a.payload == content[|UintForm(a.code)|..];
  }

  // ----- messages under way -----

  ghost predicate AllCarried(queue: seq<Msg>) {
    forall m :: m in queue ==> IsCarried(m)
  }

  /** The bytes of the frames that carry the messages, from a given state on. */
  ghost function Wire(keys: Keys, d: Direction, queue: seq<Msg>): Bytes
    requires IsCrypto(keys) && AllCarried(queue)
    decreases |queue|
  {
    if queue == [] then []
    else
      assert queue[0] in queue;
      Frame(keys, d, FrameSize(queue[0]), Body(queue[0])) + Wire(keys, Next(keys, d, queue[0]), queue[1..])
  }

  ghost function Next(keys: Keys, d: Direction, msg: Msg): Direction
    requires IsCrypto(keys) && IsCarried(msg)
  {
    After(keys, d, FrameSize(msg), Body(msg))
  }

  /** The state after those frames. */
  ghost function Reached(keys: Keys, d: Direction, queue: seq<Msg>): Direction
    requires IsCrypto(keys) && AllCarried(queue)
    decreases |queue|
  {
    if queue == [] then d else Reached(keys, Next(keys, d, queue[0]), queue[1..])
  }

  lemma {:induction false} WireMore(keys: Keys, d: Direction, queue: seq<Msg>, msg: Msg)
    requires IsCrypto(keys) && AllCarried(queue) && IsCarried(msg)
    ensures AllCarried(queue + [msg])
    ensures Wire(keys, d, queue + [msg])
            == Wire(keys, d, queue) + Frame(keys, Reached(keys, d, queue), FrameSize(msg), Body(msg))
    ensures Reached(keys, d, queue + [msg]) == Next(keys, Reached(keys, d, queue), msg)
    decreases |queue|
  {
    hide Frame, After, IsCarried, Body, FrameSize;
    var more := queue + [msg];
    if queue == [] {
      assert more == [msg] && more[1..] == [];
      assert Wire(keys, Next(keys, d, msg), more[1..]) == [];
    } else {
      assert more[1..] == queue[1..] + [msg];
      WireMore(keys, Next(keys, d, queue[0]), queue[1..], msg);
    }
  }

  // ----- what the wire gives away, and what it withstands -----

  /** What is encrypted: headers and bodies. */
  ghost function Plain(queue: seq<Msg>): Bytes
    requires AllCarried(queue)
    decreases |queue|
  {
    if queue == [] then []
    else
      assert queue[0] in queue;
      HeaderBytes(FrameSize(queue[0])) + Body(queue[0]) + Plain(queue[1..])
  }

  /** The wire without the tags. */
  ghost function Untagged(wire: Bytes, queue: seq<Msg>): Bytes
    requires AllCarried(queue)
    decreases |queue|
  {
    if queue == [] then []
    else
      assert queue[0] in queue;
      var n := |Body(queue[0])|;
      if |wire| < 48 + n then [] else wire[..16] + wire[32..32 + n] + Untagged(wire[48 + n..], queue[1..])
  }

  /** All frames together use up one stretch of the key stream, so no part of it twice. */
  lemma {:induction false} OneKeyStream(keys: Keys, d: Direction, queue: seq<Msg>)
    requires IsCrypto(keys) && AllCarried(queue)
    ensures Untagged(Wire(keys, d, queue), queue) == Xor(keys.stream, d.pos, Plain(queue))
    decreases |queue|
  {
    hide Frame, After, Body, FrameSize, HeaderBytes;
    if queue != [] {
      assert queue[0] in queue;
      var size, body := FrameSize(queue[0]), Body(queue[0]);
      var frame, next := Frame(keys, d, size, body), Next(keys, d, queue[0]);
      OneKeyStream(keys, next, queue[1..]);
      FrameIsEncrypted(keys, d, size, body);
      GoesOn(keys, d, size, body);
      XorPieces(keys.stream, d.pos, HeaderBytes(size) + body, Plain(queue[1..]));
      var wire := frame + Wire(keys, next, queue[1..]);
      assert wire[..16] == frame[..16] && wire[32..32 + |body|] == frame[32..32 + |body|];
      assert wire[48 + |body|..] == Wire(keys, next, queue[1..]);
    }
  }

  lemma {:induction false} FedMore(keys: Keys, d: Direction, queue: seq<Msg>)
    requires IsCrypto(keys) && AllCarried(queue)
    ensures |Reached(keys, d, queue).mac| >= |d.mac| + 32 * |queue|
    decreases |queue|
  {
    hide Frame, After, Body, FrameSize;
    if queue != [] {
      FedMore(keys, Next(keys, d, queue[0]), queue[1..]);
      GoesOn(keys, d, FrameSize(queue[0]), Body(queue[0]));
    }
  }

  /** A reader that has received a message, and any more since, refuses its frame. */
  lemma ReplayedMessage(keys: Keys, d: Direction, queue: seq<Msg>, rest: Bytes)
    requires IsCrypto(keys) && AllCarried(queue) && queue != [] && IsCarried(queue[0])
    requires var msg, later := queue[0], Reached(keys, d, queue);
             TellsApart(keys, ReadMac(keys, later, Frame(keys, d, FrameSize(msg), Body(msg))),
                        HeadMac(keys, d, FrameSize(msg)))
    ensures Accept(keys, Reached(keys, d, queue), Frame(keys, d, FrameSize(queue[0]), Body(queue[0])) + rest) == None
  {
    hide Frame, Accept, HeadMac, Body, FrameSize, Reached, ReadMac;
    FedMore(keys, d, queue);
    ReplayIsRefused(keys, d, FrameSize(queue[0]), Body(queue[0]), Reached(keys, d, queue), rest);
  }

  /** If a reader in the writer's state accepts input that carries the tags of a message where its
      frame has them, the input starts with that frame and the content is the message's. */
  lemma MessageIsGenuine(keys: Keys, d: Direction, msg: Msg, input: Bytes)
    requires IsCrypto(keys) && IsCarried(msg) && |input| >= 48 + |Body(msg)| && Accept(keys, d, input).Some?
    requires input[16..32] == keys.hash(HeadMac(keys, d, FrameSize(msg)))[..16]
    requires input[32 + |Body(msg)|..48 + |Body(msg)|] == keys.hash(FrameMac(keys, d, FrameSize(msg), Body(msg)))[..16]
    requires TellsApart(keys, ReadMac(keys, d, input), HeadMac(keys, d, FrameSize(msg)))
    requires TellsApart(keys, ReadFrameMac(keys, d, input, |Body(msg)|), FrameMac(keys, d, FrameSize(msg), Body(msg)))
    ensures Frame(keys, d, FrameSize(msg), Body(msg)) <= input
    ensures Accept(keys, d, input).value.content == Content(msg)
  {
    hide Frame, Accept, HeadMac, FrameMac, ReadMac, ReadFrameMac, TellsApart, UintForm;
    CarriedSize(msg);
    FrameIsGenuine(keys, d, FrameSize(msg), Body(msg), input);
    var n := 48 + |Body(msg)|;
    assert input == input[..n] + input[n..];
    FrameIsAccepted(keys, d, Content(msg), input[n..]);
  }

  /** A writer is ahead of a reader by exactly the messages under way. */
  ghost predicate InStep(keys: Keys, writer: Direction, reader: Direction, wire: Bytes, queue: seq<Msg>)
    requires IsCrypto(keys)
  {
    AllCarried(queue) && wire == Wire(keys, reader, queue) && writer == Reached(keys, reader, queue)
  }

  lemma StepSent(keys: Keys, writer: Direction, reader: Direction, wire: Bytes, queue: seq<Msg>, msg: Msg)
    requires IsCrypto(keys) && InStep(keys, writer, reader, wire, queue) && IsCarried(msg)
    ensures InStep(keys, Next(keys, writer, msg), reader, wire
            + Frame(keys, writer, FrameSize(msg), Body(msg)), queue + [msg])
  {
    hide Frame, After, Body, FrameSize, Wire, Reached;
    WireMore(keys, reader, queue, msg);
  }

  /** The reader gets the oldest message under way, and is one message less behind. */
  lemma StepReceived(keys: Keys, writer: Direction, reader: Direction, wire: Bytes, queue: seq<Msg>)
    requires IsCrypto(keys) && InStep(keys, writer, reader, wire, queue) && queue != []
    ensures IsCarried(queue[0]) && Accept(keys, reader, wire).Some?
    ensures var g := Accept(keys, reader, wire).value;
            && g.content == Content(queue[0]) && g.direction == Next(keys, reader, queue[0])
            && InStep(keys, writer, g.direction, g.rest, queue[1..])
            && !RlpStream.NoUint(g.content, 8)
  {
    hide Frame, After, Accept, UintForm, BigEndian;
    var msg := queue[0];
    CarriedSize(msg);
    FrameIsAccepted(keys, reader, Content(msg), Wire(keys, Next(keys, reader, msg), queue[1..]));
    assert UintForm(msg.code) <= Content(msg);
  }

  datatype Event = Send(fromLeft: bool, msg: Msg) | Receive(atLeft: bool)

  /** Two ends with matching secrets; what one writes the other reads, later. */
  class Connection {
    const left: FrameRW
    const right: FrameRW
    ghost var toRight: seq<Msg> // sent by the left end and not yet received
    ghost var toLeft: seq<Msg>

    ghost predicate Valid()
      reads this, left, right
    {
      && left != right && left.keys == right.keys && IsCrypto(left.keys)
      && left.output == [] && right.output == []
      && InStep(left.keys, left.egress, right.ingress, right.input, toRight)
      && InStep(left.keys, right.egress, left.ingress, left.input, toLeft)
    }

    constructor (keys: Keys, there: Direction, back: Direction)
      requires IsCrypto(keys)
      ensures Valid() && fresh(left) && fresh(right) && toRight == [] && toLeft == [] && left.keys == keys
    {
      left := new FrameRW(keys, there, back);
      right := new FrameRW(keys, back, there);
      toRight, toLeft := [], [];
    }

    method SendRight(msg: Msg) returns (ok: bool)
      requires Valid() && IsCode(msg.code) && !Wraps(msg)
      modifies this`toRight, left`egress, left`output, right`input
      ensures Valid() && ok == IsCarried(msg)
      ensures toRight == if ok then old(toRight) + [msg] else old(toRight)
    {
      hide InStep, Frame, After, Body, FrameSize, IsCarried, IsCrypto, UintForm;
      WriterTakes(msg);
      StepSentIf(left.keys, left.egress, right.ingress, right.input, toRight, msg);
      ok := left.WriteMsg(msg);
      if ok {
        right.input := right.input + left.output;
        left.output := [];
        toRight := toRight + [msg];
      }
    }

    method SendLeft(msg: Msg) returns (ok: bool)
      requires Valid() && IsCode(msg.code) && !Wraps(msg)
      modifies this`toLeft, right`egress, right`output, left`input
      ensures Valid() && ok == IsCarried(msg)
      ensures toLeft == if ok then old(toLeft) + [msg] else old(toLeft)
    {
      hide InStep, Frame, After, Body, FrameSize, IsCarried, IsCrypto, UintForm;
      WriterTakes(msg);
      StepSentIf(left.keys, right.egress, left.ingress, left.input, toLeft, msg);
      ok := right.WriteMsg(msg);
      if ok {
        left.input := left.input + right.output;
        right.output := [];
        toLeft := toLeft + [msg];
      }
    }

    /** Reading returns the oldest message under way: the same code and the same payload. */
    method ReceiveRight() returns (r: Outcome)
      requires Valid() && toRight != []
      modifies this`toRight, right`ingress, right`input
      ensures Valid() && r == Received(old(toRight)[0]) && toRight == old(toRight)[1..]
    {
      hide InStep, Accept, Content, IsCode, RlpStream.NoUint;
      StepReceived(left.keys, left.egress, right.ingress, right.input, toRight);
      CodeOf(toRight[0]);
      r := right.ReadMsg();
      ContentIsUnique(r.msg, toRight[0]);
      toRight := toRight[1..];
    }

    method ReceiveLeft() returns (r: Outcome)
      requires Valid() && toLeft != []
      modifies this`toLeft, left`ingress, left`input
      ensures Valid() && r == Received(old(toLeft)[0]) && toLeft == old(toLeft)[1..]
    {
      hide InStep, Accept, Content, IsCode, RlpStream.NoUint;
      StepReceived(left.keys, right.egress, left.ingress, left.input, toLeft);
      CodeOf(toLeft[0]);
      r := left.ReadMsg();
      ContentIsUnique(r.msg, toLeft[0]);
      toLeft := toLeft[1..];
    }

    /** Any sends and receives in both directions: each end receives what the other sent, in
        order, and the states agree up to the messages under way. */
    method Run(events: seq<Event>) returns (atRight: seq<Msg>, atLeft: seq<Msg>)
      requires Valid() && toRight == [] && toLeft == []
      requires forall i :: 0 <= i < |events| && events[i].Send? ==> IsCode(events[i].msg.code) && !Wraps(events[i].msg)
      modifies this, left, right
      ensures Valid()
      ensures SentBy(events, true) == atRight + toRight && SentBy(events, false) == atLeft + toLeft
      ensures |toRight| == UnderWay(events, true) && |toLeft| == UnderWay(events, false)
      ensures toRight == [] ==> left.egress == right.ingress
      ensures toLeft == [] ==> right.egress == left.ingress
    {
      hide InStep, Wraps, IsCarried, IsCode, SentBy, UnderWay;
      atRight, atLeft := [], [];
      NoEvents();
      assert events[..0] == [];
      for i := 0 to |events|
        invariant Valid()
        invariant SentBy(events[..i], true) == atRight + toRight && SentBy(events[..i], false) == atLeft + toLeft
        invariant |toRight| == UnderWay(events[..i], true) && |toLeft| == UnderWay(events[..i], false)
      {
        assert events[..i + 1] == events[..i] + [events[i]];
        EventStep(events[..i], events[i], true);
        EventStep(events[..i], events[i], false);
        var right', left' := Handle(events[i]);
        atRight, atLeft := atRight + right', atLeft + left';
      }
      assert events[..|events|] == events;
      NothingUnderWay(left.keys, left.egress, right.ingress, right.input, toRight);
      NothingUnderWay(left.keys, right.egress, left.ingress, left.input, toLeft);
    }

    /** One send or receipt, and what is received. */
    method Handle(e: Event) returns (atRight: seq<Msg>, atLeft: seq<Msg>)
      requires Valid() && (e.Send? ==> IsCode(e.msg.code) && !Wraps(e.msg))
      modifies this, left, right
      ensures Valid()
      ensures e.Send? ==>
                && atRight == [] && atLeft == []
                && toRight == old(toRight) + (if e.fromLeft && IsCarried(e.msg) then [e.msg] else [])
                && toLeft == old(toLeft) + (if !e.fromLeft && IsCarried(e.msg) then [e.msg] else [])
      ensures e.Receive? ==>
                && atRight + toRight == old(toRight) && atLeft + toLeft == old(toLeft)
                && |atRight| == (if !e.atLeft && old(toRight) != [] then 1 else 0)
                && |atLeft| == (if e.atLeft && old(toLeft) != [] then 1 else 0)
    {
      hide InStep, Wraps, IsCarried, IsCode;
      atRight, atLeft := [], [];
      match e {
        case Send(fromLeft, msg) =>
          if fromLeft {
            var ok := SendRight(msg);
          } else {
            var ok := SendLeft(msg);
          }
        case Receive(there) =>
          EmptyWire(left.keys, right.egress, left.ingress, left.input, toLeft);
          EmptyWire(left.keys, left.egress, right.ingress, right.input, toRight);
          if there && left.input != [] {
            var r := ReceiveLeft();
            atLeft := [r.msg];
          } else if !there && right.input != [] {
            var r := ReceiveRight();
            atRight := [r.msg];
          }
      }
    }
  }

  /** The messages one end sent, without those its writer refused. */
  ghost function SentBy(events: seq<Event>, fromLeft: bool): seq<Msg> {
    if events == [] then []
    else
      var last := events[|events| - 1];
      SentBy(events[..|events| - 1], fromLeft)
      + if last.Send? && last.fromLeft == fromLeft && IsCarried(last.msg) then [last.msg] else []
  }

  /** How many messages are under way: each receipt takes one, if there is one. */
  ghost function UnderWay(events: seq<Event>, fromLeft: bool): nat {
    if events == [] then 0
    else
      var last, before := events[|events| - 1], UnderWay(events[..|events| - 1], fromLeft);
      match last
      case Send(left, msg) => if left == fromLeft && IsCarried(msg) then before + 1 else before
      case Receive(atLeft) => if atLeft != fromLeft && before > 0 then before - 1 else before
  }

  lemma NoEvents()
    ensures forall fromLeft :: SentBy([], fromLeft) == [] && UnderWay([], fromLeft) == 0
  {
  }

  /** What one more event adds to what has been sent and to what is under way. */
  lemma EventStep(events: seq<Event>, e: Event, fromLeft: bool)
    ensures SentBy(events + [e], fromLeft) == SentBy(events, fromLeft)
            + if e.Send? && e.fromLeft == fromLeft && IsCarried(e.msg) then [e.msg] else []
    ensures var before, after := UnderWay(events, fromLeft), UnderWay(events + [e], fromLeft);
            && (e.Send? ==> after == before + if e.fromLeft == fromLeft && IsCarried(e.msg) then 1 else 0)
            && (e.Receive? ==> after == before - if e.atLeft != fromLeft && before > 0 then 1 else 0)
  {
    assert (events + [e])[..|events|] == events;
  }

  lemma StepSentIf(keys: Keys, writer: Direction, reader: Direction, wire: Bytes, queue: seq<Msg>, msg: Msg)
    requires IsCrypto(keys) && InStep(keys, writer, reader, wire, queue)
    ensures IsCarried(msg) ==>
              InStep(keys, After(keys, writer, FrameSize(msg), Body(msg)), reader,
                     wire + ([] + Frame(keys, writer, FrameSize(msg), Body(msg))), queue + [msg])
  {
    hide Frame, After, Body, FrameSize, InStep;
    if IsCarried(msg) {
      StepSent(keys, writer, reader, wire, queue, msg);
      assert [] + Frame(keys, writer, FrameSize(msg), Body(msg)) == Frame(keys, writer, FrameSize(msg), Body(msg));
    }
  }

  lemma CodeOf(msg: Msg)
    requires IsCarried(msg)
    ensures IsCode(msg.code)
  {
  }

  lemma EmptyWire(keys: Keys, writer: Direction, reader: Direction, wire: Bytes, queue: seq<Msg>)
    requires IsCrypto(keys) && InStep(keys, writer, reader, wire, queue)
    ensures wire == [] <==> queue == []
  {
  }

  lemma NothingUnderWay(keys: Keys, writer: Direction, reader: Direction, wire: Bytes, queue: seq<Msg>)
    requires IsCrypto(keys) && InStep(keys, writer, reader, wire, queue)
    ensures queue == [] ==> writer == reader
  {
  }

  lemma HeaderFilled(b: Bytes, fsize: nat)
    requires |b| == 32 && b[..3] == Int24(fsize) && b[3..6] == [0xC2, 0x80, 0x80] && b[6..] == Zeros(26)
    ensures b[..16] == HeaderBytes(fsize)
  {
    assert b[..16] == b[..3] + b[3..6] + b[6..][..10];
    assert Zeros(26)[..10] == Zeros(10);
  }

  lemma XorNothing(stream: nat -> Byte, d: Direction, out: Bytes)
    ensures d == Direction(d.pos, d.mac + Xor(stream, d.pos, [])) && out == out + Xor(stream, d.pos, [])
  {
  }

  lemma Assemble(start: Bytes, a: Bytes, b: Bytes, c: Bytes, d: Bytes)
    ensures start + a + b + c + d == start + (a + b + c + d)
  {
  }
}
