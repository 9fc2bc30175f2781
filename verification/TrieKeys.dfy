/**
 * The three encodings of trie keys: key bytes, hex nibbles with an optional
 * terminator, and the compact form of Appendix C of the Ethereum Yellow Paper
 * (trie/encoding.go).
 */
module TrieKeys {
  import opened ByteOrder
  import opened TriePreorder

  type Byte = b: int | 0 <= b < 256
  type Key = seq<Byte>

  /** The nibbles of a key, high one first. */
  function Nibbles(key: Key): Path {
    if key == [] then [] else [key[0] / 16, key[0] % 16] + Nibbles(key[1..])
  }

  predicate IsHex(p: Path) {
    forall i :: 0 <= i < |p| ==> p[i] < 16
  }

  /** hi<<4 | lo; only used on nibbles below 16. */
  function Join(hi: int, lo: int): Byte {
    if 0 <= hi < 16 && 0 <= lo < 16 then hi * 16 + lo else 0
  }

  /** Pairs of nibbles as bytes. */
  function Pack(p: Path): Key {
    if |p| < 2 then [] else [Join(p[0], p[1])] + Pack(p[2..])
  }

  lemma {:induction false} PackOfNibbles(key: Key)
    ensures IsHex(Nibbles(key)) && |Nibbles(key)| == 2 * |key| && Pack(Nibbles(key)) == key
  {
    if key != [] {
      PackOfNibbles(key[1..]);
      assert Nibbles(key)[2..] == Nibbles(key[1..]);
    }
  }

  lemma {:induction false} NibblesOfPack(p: Path)
    requires IsHex(p) && |p| % 2 == 0
    ensures Nibbles(Pack(p)) == p
  {
    if p != [] {
      NibblesOfPack(p[2..]);
      assert p == [p[0], p[1]] + p[2..];
    }
  }

  lemma {:induction false} NibblesConcat(a: Key, b: Key)
    ensures Nibbles(a + b) == Nibbles(a) + Nibbles(b)
  {
    if a == [] {
      assert a + b == b;
    } else {
      assert (a + b)[1..] == a[1..] + b;
      NibblesConcat(a[1..], b);
    }
  }

  lemma {:induction false} PackConcat(a: Path, b: Path)
    requires |a| % 2 == 0
    ensures Pack(a + b) == Pack(a) + Pack(b)
  {
    if a == [] {
      assert a + b == b;
    } else {
      assert (a + b)[2..] == a[2..] + b;
      PackConcat(a[2..], b);
    }
  }

  // ----- keybytesToHex and hexToKeybytes -----

  /** keybytesToHex. */
  method KeybytesToHex(str: Key) returns (nibbles: array<Nibble>)
    ensures fresh(nibbles) && nibbles[..] == Nibbles(str) + [TERMINATOR]
  {
    var l := |str| * 2 + 1;
    nibbles := new Nibble[l](_ => 0);
    assert str[..0] == [];
    for i := 0 to |str|
      invariant nibbles[..2*i] == Nibbles(str[..i])
    {
      nibbles[i*2] := str[i] / 16;
      nibbles[i*2+1] := str[i] % 16;
      NibblesConcat(str[..i], [str[i]]);
      assert str[..i] + [str[i]] == str[..i+1];
      assert Nibbles([str[i]]) == [str[i] / 16, str[i] % 16];
      assert nibbles[..2*(i+1)] == nibbles[..2*i] + [nibbles[2*i], nibbles[2*i+1]];
    }
    assert str[..|str|] == str;
    nibbles[l-1] := TERMINATOR;
    assert nibbles[..] == nibbles[..l-1] + [TERMINATOR];
  }

  /** decodeNibbles: fills bytes from the given offset on. */
  method DecodeNibbles(nibbles: Path, bytes: array<Byte>, at: nat)
    requires |nibbles| % 2 == 0 && bytes.Length == at + |nibbles| / 2
    modifies bytes
    ensures bytes[..] == old(bytes[..at]) + Pack(nibbles)
  {
    var bi, ni := 0, 0;
    while ni < |nibbles|
      invariant ni == 2 * bi <= |nibbles|
      invariant bytes[..at+bi] == old(bytes[..at]) + Pack(nibbles[..ni])
    {
      bytes[at+bi] := Join(nibbles[ni], nibbles[ni+1]);
      PackConcat(nibbles[..ni], nibbles[ni..ni+2]);
      assert nibbles[..ni] + nibbles[ni..ni+2] == nibbles[..ni+2];
      assert Pack(nibbles[ni..ni+2]) == [Join(nibbles[ni], nibbles[ni+1])] by {
        assert nibbles[ni..ni+2][2..] == [];
      }
      assert bytes[..at+bi+1] == bytes[..at+bi] + [bytes[at+bi]];
      bi, ni := bi + 1, ni + 2;
    }
    assert nibbles[..ni] == nibbles;
  }

  function WithoutTerm(hex: Path): Path {
    if HasTerm(hex) then hex[..|hex|-1] else hex
  }

  /** hexToKeybytes, for keys of even length. */
  method HexToKeybytes(hex: Path) returns (key: array<Byte>)
    requires IsHex(WithoutTerm(hex)) && |WithoutTerm(hex)| % 2 == 0
    ensures fresh(key) && key[..] == Pack(WithoutTerm(hex))
    ensures Nibbles(key[..]) == WithoutTerm(hex)
  {
    var h := WithoutTerm(hex);
    key := new Byte[(|h| + 1) / 2];
    DecodeNibbles(h, key, 0);
    NibblesOfPack(h);
  }

  /** Key bytes survive the way to hex and back. */
  lemma KeyRoundTrip(key: Key)
    ensures var hex := Nibbles(key) + [TERMINATOR];
            IsHex(WithoutTerm(hex)) && |WithoutTerm(hex)| % 2 == 0 && Pack(WithoutTerm(hex)) == key
  {
    PackOfNibbles(key);
    assert WithoutTerm(Nibbles(key) + [TERMINATOR]) == Nibbles(key);
  }

  // ----- the compact form -----

  /** Hex keys as nodes hold them: nibbles, perhaps with a terminator at the end. */
  predicate IsNodeKey(hex: Path) {
    IsHex(WithoutTerm(hex))
  }

  /** The flag byte carries the terminator, the oddness and an odd first nibble. */
  function FlagByte(hex: Path): Byte
    requires IsNodeKey(hex)
  {
    var h := WithoutTerm(hex);
    Join((if HasTerm(hex) then 2 else 0) + |h| % 2, if |h| % 2 == 1 then h[0] else 0)
  }

  function Compact(hex: Path): Key
    requires IsNodeKey(hex)
  {
    var h := WithoutTerm(hex);
    [FlagByte(hex)] + Pack(if |h| % 2 == 1 then h[1..] else h)
  }

  /** hexToCompact. */
  method HexToCompact(hex: Path) returns (buf: array<Byte>)
    requires IsNodeKey(hex)
    ensures fresh(buf) && buf[..] == Compact(hex)
  {
    var h := hex;
    var flag: int := 0;
    if HasTerm(hex) {
      flag := 32;
      h := hex[..|hex|-1];
    }
    buf := new Byte[|h| / 2 + 1];
    buf[0] := flag;
    if |h| % 2 == 1 {
      buf[0] := buf[0] + 16 + h[0];
      h := h[1..];
    }
    assert buf[..1] == [FlagByte(hex)];
    DecodeNibbles(h, buf, 1);
  }

  function Expand(compact: Key): Path
    requires compact != []
  {
    var base := Nibbles(compact);
    var full := if base[0] >= 2 then base + [TERMINATOR] else base;
    full[2 - base[0] % 2..]
  }

  /** compactToHex. */
  method CompactToHex(compact: Key) returns (hex: Path)
    requires compact != []
    ensures hex == Expand(compact)
  {
    var nibbles := KeybytesToHex(compact);
    PackOfNibbles(compact);
    var base := nibbles[..nibbles.Length-1];
    if base[0] >= 2 {
      base := base + [TERMINATOR];
    }
    var chop := 2 - base[0] % 2;
    hex := base[chop..];
  }

  /** What the first byte of a compact key means. */
  lemma ExpandParts(c: Key)
    requires c != []
    ensures var hi, lo, rest := c[0] / 16, c[0] % 16, Nibbles(c[1..]);
            Expand(c) == (if hi % 2 == 1 then [lo] + rest else rest) + (if hi >= 2 then [TERMINATOR] else [])
  {
    var base := Nibbles(c);
    assert base == [c[0] / 16, c[0] % 16] + Nibbles(c[1..]);
    assert base[1..] == [c[0] % 16] + Nibbles(c[1..]) && base[2..] == Nibbles(c[1..]);
  }

  lemma FlagParts(hex: Path)
    requires IsNodeKey(hex)
    ensures var h := WithoutTerm(hex); var hi, lo := FlagByte(hex) / 16, FlagByte(hex) % 16;
            && hi == (if HasTerm(hex) then 2 else 0) + |h| % 2
            && lo == (if |h| % 2 == 1 then h[0] else 0)
  {
  }

  /** Node keys survive the compact form. */
  lemma CompactRoundTrip(hex: Path)
    requires IsNodeKey(hex)
    ensures Compact(hex) != [] && Expand(Compact(hex)) == hex
  {
    hide Nibbles, Pack, Expand, FlagByte;
    var h := WithoutTerm(hex);
    var rest := if |h| % 2 == 1 then h[1..] else h;
    FlagParts(hex);
    NibblesOfPack(rest);
    ExpandParts(Compact(hex));
    assert Compact(hex)[1..] == Pack(rest);
    assert h == if |h| % 2 == 1 then [h[0]] + rest else rest;
    assert hex == if HasTerm(hex) then h + [TERMINATOR] else h;
  }

  /** Which byte strings are the compact form of something. */
  predicate IsCompact(c: Key) {
    c != [] && c[0] < 64 && ((c[0] / 16) % 2 == 0 ==> c[0] % 16 == 0)
  }

  lemma ExpandShape(c: Key)
    requires c != []
    ensures var hi, lo, rest := c[0] / 16, c[0] % 16, Nibbles(c[1..]);
            && IsNodeKey(Expand(c)) && (HasTerm(Expand(c)) <==> hi >= 2)
            && WithoutTerm(Expand(c)) == (if hi % 2 == 1 then [lo] + rest else rest)
            && |rest| % 2 == 0 && Pack(rest) == c[1..]
  {
    hide Nibbles, Pack, Expand;
    PackOfNibbles(c[1..]);
    ExpandParts(c);
    var hi, lo, rest := c[0] / 16, c[0] % 16, Nibbles(c[1..]);
    var nibs := if hi % 2 == 1 then [lo] + rest else rest;
    assert IsHex(nibs);
    assert hi >= 2 ==> (nibs + [TERMINATOR])[..|nibs|] == nibs;
    assert nibs + [] == nibs;
  }

  /** Byte strings survive the other way round exactly when they are compact. */
  lemma ExpandRoundTrip(c: Key)
    requires c != []
    ensures IsNodeKey(Expand(c))
    ensures Compact(Expand(c)) == c <==> IsCompact(c)
  {
    hide Nibbles, Pack, Expand, FlagByte, IsNodeKey, HasTerm, WithoutTerm;
    ExpandShape(c);
    var hex, h := Expand(c), WithoutTerm(Expand(c));
    FlagParts(hex);
    assert |h| % 2 == 1 ==> h[1..] == Nibbles(c[1..]);
    assert Compact(hex) == [FlagByte(hex)] + c[1..];
    assert c == [c[0]] + c[1..];
    assert Compact(hex) == c <==> FlagByte(hex) == c[0];
  }

  // ----- order -----

  /** How hex paths of keys compare with the start of a seek. */
  lemma {:induction false} HexOrder(key: Key, start: Key)
    ensures Lt(Nibbles(key) + [TERMINATOR], Nibbles(start)) <==> Lt(key, start) && !(key <= start)
  {
    var a, b := Nibbles(key) + [TERMINATOR], Nibbles(start);
    PackOfNibbles(start);
    if key == [] {
      assert a == [TERMINATOR];
    } else if start != [] {
      if key[0] == start[0] {
        HexOrder(key[1..], start[1..]);
        var two := [key[0] / 16, key[0] % 16];
        assert a == two + (Nibbles(key[1..]) + [TERMINATOR]) && b == two + Nibbles(start[1..]);
        LtPrefix(two, Nibbles(key[1..]) + [TERMINATOR], Nibbles(start[1..]));
        assert key == [key[0]] + key[1..] && start == [start[0]] + start[1..];
      } else {
        assert a[0] == key[0] / 16 && a[1] == key[0] % 16;
        assert b[0] == start[0] / 16 && b[1] == start[0] % 16;
        assert a[1..][0] == a[1] && b[1..][0] == b[1];
      }
    }
  }
}
