/** The key encodings of trie/encoding.go: KEYBYTES, HEX and COMPACT (hex prefix). */
module HexEncoding {
  import opened Bytes

  type HexDigit = x: nat | x <= 16

  type Hex = seq<HexDigit>

  const TERMINATOR: HexDigit := 16

  predicate HasTerm(s: Hex) {
    |s| > 0 && s[|s| - 1] == TERMINATOR
  }

  predicate AllNibbles(s: Hex) {
    forall i | 0 <= i < |s| :: s[i] < TERMINATOR
  }

  /** A nibble string with or without the trailing terminator. */
  predicate IsHex(s: Hex) {
    forall i | 0 <= i < |s| - 1 :: s[i] < TERMINATOR
  }

  function DropTerm(s: Hex): (r: Hex)
    requires IsHex(s)
    ensures AllNibbles(r)
  {
    if HasTerm(s) then s[..|s| - 1] else s
  }

  /** `hi<<4 | lo`, which is this sum when both are nibbles. */
  function Join(hi: HexDigit, lo: HexDigit): Byte
    requires hi < 16 && lo < 16
  {
    16 * (hi as int) + lo as int
  }

  function High(b: Byte): HexDigit {
    b / 16
  }

  function Low(b: Byte): HexDigit {
    b % 16
  }

  lemma JoinSplit(b: Byte, hi: HexDigit, lo: HexDigit)
    requires hi < 16 && lo < 16
    ensures b == Join(hi, lo) <==> High(b) == hi && Low(b) == lo
  {}

  /** Two nibbles per byte. */
  function Pack(h: Hex): (r: Bytes)
    requires AllNibbles(h)
    ensures |r| == |h| / 2
  {
    if |h| < 2 then [] else [Join(h[0], h[1])] + Pack(h[2..])
  }

  function Unpack(b: Bytes): (r: Hex)
    ensures AllNibbles(r) && |r| == 2 * |b|
  {
    if b == [] then [] else [High(b[0]), Low(b[0])] + Unpack(b[1..])
  }

  function KeybytesToHex(key: Bytes): Hex {
    Unpack(key) + [TERMINATOR]
  }

  function HexToKeybytes(h: Hex): Result<Bytes>
    requires IsHex(h)
  {
    var body := DropTerm(h);
    if |body| % 2 != 0 then Err else Ok(Pack(body))
  }

  /** The terminator flag is bit 5 and the oddness flag bit 4 of the first byte. */
  function FlagByte(term: bool, odd: bool, first: HexDigit): Byte
    requires first < 16
  {
    Join((if term then 2 else 0) + (if odd then 1 else 0), first)
  }

  function HexToCompact(h: Hex): Bytes
    requires IsHex(h)
  {
    CompactBytes(DropTerm(h), HasTerm(h))
  }

  function CompactBytes(body: Hex, term: bool): (r: Bytes)
    requires AllNibbles(body)
    ensures |r| == |body| / 2 + 1
  {
    if |body| % 2 == 1 then
      [FlagByte(term, true, body[0])] + Pack(body[1..])
    else
      [FlagByte(term, false, 0)] + Pack(body)
  }

  function CompactToHex(c: Bytes): Hex {
    if c == [] then
      []
    else if High(c[0]) >= 2 then
      CompactNibbles(c) + [TERMINATOR]
    else
      CompactNibbles(c)
  }

  function CompactNibbles(c: Bytes): (r: Hex)
    requires c != []
    ensures AllNibbles(r)
  {
    if High(c[0]) % 2 == 1 then [Low(c[0])] + Unpack(c[1..]) else Unpack(c[1..])
  }

  function PrefixLen(a: Hex, b: Hex): (m: nat)
    ensures m <= |a| && m <= |b| && a[..m] == b[..m]
    ensures m < |a| && m < |b| ==> a[m] != b[m]
  {
    if |a| == 0 || |b| == 0 || a[0] != b[0] then
      0
    else
      var m := 1 + PrefixLen(a[1..], b[1..]);
      assert a[..m] == [a[0]] + a[1..][..m - 1];
      assert b[..m] == [b[0]] + b[1..][..m - 1];
      m
  }

  // ---------- Round trips ----------

  lemma {:induction false} UnpackPack(h: Hex)
    requires AllNibbles(h) && |h| % 2 == 0
    ensures Unpack(Pack(h)) == h
  {
    if h != [] {
      UnpackPack(h[2..]);
      JoinSplit(Join(h[0], h[1]), h[0], h[1]);
      assert h == [h[0], h[1]] + h[2..];
    }
  }

  lemma {:induction false} PackUnpack(b: Bytes)
    ensures Pack(Unpack(b)) == b
  {
    if b != [] {
      PackUnpack(b[1..]);
      JoinSplit(b[0], High(b[0]), Low(b[0]));
      assert Unpack(b)[2..] == Unpack(b[1..]);
    }
  }

  lemma FlagByteParts(term: bool, odd: bool, first: HexDigit)
    requires first < 16
    ensures var f := FlagByte(term, odd, first);
            && (High(f) >= 2 <==> term) && (High(f) % 2 == 1 <==> odd) && High(f) < 4 && Low(f) == first
  {}

  lemma CompactBytesNibbles(body: Hex, term: bool)
    requires AllNibbles(body)
    ensures var c := CompactBytes(body, term); CompactNibbles(c) == body && (High(c[0]) >= 2 <==> term)
  {
    var c := CompactBytes(body, term);
    if |body| % 2 == 1 {
      FlagByteParts(term, true, body[0]);
      UnpackPack(body[1..]);
      assert c[1..] == Pack(body[1..]);
    } else {
      FlagByteParts(term, false, 0);
      UnpackPack(body);
      assert c[1..] == Pack(body);
    }
  }

  /** Appendix C of the Ethereum Yellow Paper: the hex-prefix encoding loses nothing. */
  lemma CompactRoundTrip(h: Hex)
    requires IsHex(h)
    ensures CompactToHex(HexToCompact(h)) == h
  {
    CompactBytesNibbles(DropTerm(h), HasTerm(h));
  }

  /** The byte strings that the encoder produces. */
  predicate IsCompact(c: Bytes) {
    |c| > 0 && High(c[0]) < 4 && (High(c[0]) % 2 == 0 ==> Low(c[0]) == 0)
  }

  /** The first byte of a re-encoded compact string. */
  function Reflag(f: Byte): Byte {
    FlagByte(High(f) >= 2, High(f) % 2 == 1, if High(f) % 2 == 1 then Low(f) else 0)
  }

  lemma Reencoded(c: Bytes)
    requires c != []
    ensures CompactBytes(CompactNibbles(c), High(c[0]) >= 2) == [Reflag(c[0])] + c[1..]
  {
    PackUnpack(c[1..]);
    if High(c[0]) % 2 == 1 {
      assert CompactNibbles(c)[1..] == Unpack(c[1..]);
    }
  }

  lemma DropTermOf(body: Hex)
    requires AllNibbles(body)
    ensures IsHex(body) && DropTerm(body) == body && !HasTerm(body)
    ensures IsHex(body + [TERMINATOR]) && DropTerm(body + [TERMINATOR]) == body && HasTerm(body + [TERMINATOR])
  {}

  /** The converse round trip holds for exactly the well-formed compact strings. */
  lemma CompactImage(c: Bytes)
    ensures IsHex(CompactToHex(c)) && (HexToCompact(CompactToHex(c)) == c <==> IsCompact(c))
  {
    if c != [] {
      DropTermOf(CompactNibbles(c));
      Reencoded(c);
      ReflagFixpoint(c[0]);
      assert c == [c[0]] + c[1..];
    }
  }

  lemma ReflagFixpoint(f: Byte)
    ensures Reflag(f) == f <==> High(f) < 4 && (High(f) % 2 == 0 ==> Low(f) == 0)
  {
    var term, odd := High(f) >= 2, High(f) % 2 == 1;
    JoinSplit(f, (if term then 2 else 0) + (if odd then 1 else 0), if odd then Low(f) else 0);
  }

  lemma KeybytesRoundTrip(key: Bytes)
    ensures IsHex(KeybytesToHex(key)) && HexToKeybytes(KeybytesToHex(key)) == Ok(key)
  {
    assert DropTerm(KeybytesToHex(key)) == Unpack(key);
    PackUnpack(key);
  }

  lemma KeybytesInjective(a: Bytes, b: Bytes)
    requires KeybytesToHex(a) == KeybytesToHex(b)
    ensures a == b
  {
    KeybytesRoundTrip(a);
    KeybytesRoundTrip(b);
  }

  // ---------- The loops ----------

  /** `decodeNibbles(nibbles, bytes[1:])`; the other call site packs into a fresh buffer from its start. */
  method DecodeNibblesInto(nibbles: Hex, bytes: array<Byte>, from: nat, ghost pairs: nat)
    requires AllNibbles(nibbles) && |nibbles| == 2 * pairs
    requires from + pairs == bytes.Length
    modifies bytes
    ensures bytes[from..] == Pack(nibbles)
    ensures forall k | 0 <= k < from :: bytes[k] == old(bytes[k])
  {
    ghost var packed := Pack(nibbles);
    var bi, ni := 0, 0;
    while ni < |nibbles|
      invariant ni == 2 * bi <= |nibbles|
      invariant forall k | 0 <= k < bi :: bytes[from + k] == packed[k]
      invariant forall k | 0 <= k < from :: bytes[k] == old(bytes[k])
    {
      PackAt(nibbles, bi);
      bytes[from + bi] := Join(nibbles[ni], nibbles[ni + 1]);
      bi, ni := bi + 1, ni + 2;
    }
  }

  method EncodeCompact(hex: Hex) returns (buf: array<Byte>)
    requires IsHex(hex)
    ensures fresh(buf) && buf[..] == HexToCompact(hex)
  {
    var terminator := false;
    var rest := hex;
    if HasTerm(rest) {
      terminator := true;
      rest := rest[..|rest| - 1];
    }
    buf := new Byte[|rest| / 2 + 1];
    buf[0] := FlagByte(terminator, false, 0);
    if |rest| % 2 == 1 {
      buf[0] := FlagByte(terminator, true, rest[0]);
      rest := rest[1..];
    }
    ghost var first := buf[0];
    DecodeNibblesInto(rest, buf, 1, |rest| / 2);
    assert buf[..] == [first] + buf[1..];
  }

  method EncodeHex(key: Bytes) returns (nibbles: array<HexDigit>)
    ensures fresh(nibbles) && nibbles[..] == KeybytesToHex(key)
  {
    ghost var expected := Unpack(key);
    var l := |key| * 2 + 1;
    nibbles := new HexDigit[l];
    for i := 0 to |key|
      invariant forall k | 0 <= k < 2 * i :: nibbles[k] == expected[k]
    {
      UnpackAt(key, i);
      nibbles[i * 2] := High(key[i]);
      nibbles[i * 2 + 1] := Low(key[i]);
    }
    nibbles[l - 1] := TERMINATOR;
  }

  lemma {:induction false} UnpackAt(b: Bytes, i: nat)
    requires i < |b|
    ensures Unpack(b)[2 * i] == High(b[i]) && Unpack(b)[2 * i + 1] == Low(b[i])
  {
    if i > 0 {
      UnpackAt(b[1..], i - 1);
    }
  }

  /** `compactToHex`: expand every byte, drop the terminator if its flag is clear, chop the flag nibbles. */
  method DecodeCompact(compact: Bytes) returns (hex: Hex)
    ensures hex == CompactToHex(compact)
  {
    if |compact| == 0 {
      return [];
    }
    var expanded := EncodeHex(compact);
    var base: Hex := expanded[..];
    ghost var whole := [High(compact[0]), Low(compact[0])] + Unpack(compact[1..]);
    assert base == whole + [TERMINATOR];
    if base[0] < 2 {
      base := base[..|base| - 1];
      assert base == whole;
    }
    if base[0] % 2 == 1 {
      hex := base[1..];
    } else {
      hex := base[2..];
    }
  }

  method EncodeCompactInPlace(hex: array<Byte>) returns (binLen: nat)
    requires hex.Length > 0
    requires forall i | 0 <= i < hex.Length :: hex[i] <= 16
    requires IsHex(hex[..])
    modifies hex
    ensures binLen <= hex.Length && hex[..binLen] == HexToCompact(old(hex[..]))
  {
    ghost var body := DropTerm(hex[..]);
    var hexLen, term := hex.Length, false;
    if hex[hexLen - 1] == TERMINATOR {
      term := true;
      hexLen := hexLen - 1;
    }
    assert hex[..hexLen] == body;
    binLen := hexLen / 2 + 1;
    var firstByte, ni := FlagByte(term, false, 0), 0;
    if hexLen % 2 == 1 {
      firstByte := FlagByte(term, true, hex[0]);
      ni := ni + 1;
    }
    CompactParts(body, term, ni);
    PackInPlace(hex, hexLen, ni, body, hexLen / 2);
    hex[0] := firstByte;
    assert hex[1..binLen] == Pack(body[ni..]);
    assert hex[..binLen] == [firstByte] + hex[1..binLen];
  }

  lemma CompactParts(body: Hex, term: bool, ni: nat)
    requires AllNibbles(body) && ni == |body| % 2
    ensures CompactBytes(body, term) == [FlagByte(term, ni == 1, if ni == 1 then body[0] else 0)] + Pack(body[ni..])
  {
    assert body[0..] == body;
  }

  /** The loop of `hexToCompactInPlace`: it reads `hex[ni]` and `hex[ni+1]` from the buffer it overwrites. */
  method PackInPlace(hex: array<Byte>, hexLen: nat, start: nat, ghost body: Hex, ghost pairs: nat)
    requires start <= 1 && hexLen == start + 2 * pairs && hexLen <= hex.Length && 0 < hex.Length
    requires hex[..hexLen] == body && AllNibbles(body)
    modifies hex
    ensures hex[1..pairs + 1] == Pack(body[start..])
  {
    var ni, bi := start, 1;
    while ni < hexLen
      invariant 1 <= bi <= ni + 1 && ni == start + 2 * (bi - 1) <= hexLen
      invariant Packing(hex[..], body, start, bi - 1)
    {
      ghost var before := hex[..];
      PackStep(before, body, start, bi - 1);
      hex[bi] := Join(hex[ni], hex[ni + 1]);
      assert hex[..] == before[bi := Join(body[ni], body[ni + 1])];
      bi, ni := bi + 1, ni + 2;
    }
    PackEnds(hex[..], body, start, pairs);
  }

  /** `j` pairs of digits are packed, and the rest are still there. */
  ghost predicate Packing(buf: Bytes, body: Hex, start: nat, j: nat)
    requires start <= |body| && AllNibbles(body)
  {
    && start + 2 * j <= |body| <= |buf| && j < |buf| && j <= |Pack(body[start..])|
    && (forall k | start + 2 * j <= k < |body| :: buf[k] == body[k])
    && buf[1..j + 1] == Pack(body[start..])[..j]
  }

  lemma PackStep(buf: Bytes, body: Hex, start: nat, j: nat)
    requires start <= |body| && AllNibbles(body) && Packing(buf, body, start, j) && start + 2 * j + 1 < |body|
    ensures var ni := start + 2 * j;
      buf[ni] == body[ni] && buf[ni + 1] == body[ni + 1] && Packing(buf[j + 1 := Join(body[ni], body[ni + 1])], body, start, j + 1)
  {
    PackAt(body[start..], j);
  }

  lemma PackEnds(buf: Bytes, body: Hex, start: nat, j: nat)
    requires start <= |body| && AllNibbles(body) && Packing(buf, body, start, j) && start + 2 * j == |body|
    ensures buf[1..j + 1] == Pack(body[start..])
  {}

  lemma {:induction false} PackAt(h: Hex, j: nat)
    requires AllNibbles(h) && 2 * j + 1 < |h|
    ensures Pack(h)[j] == Join(h[2 * j], h[2 * j + 1])
  {
    if j > 0 {
      PackAt(h[2..], j - 1);
      assert Pack(h) == [Join(h[0], h[1])] + Pack(h[2..]);
    }
  }

  method CommonPrefix(a: Hex, b: Hex) returns (i: nat)
    ensures i == PrefixLen(a, b)
  {
    i := 0;
    var length := if |b| < |a| then |b| else |a|;
    while i < length && a[i] == b[i]
      invariant i <= length && a[..i] == b[..i]
    {
      i := i + 1;
    }
    PrefixLenUnique(a, b, i);
  }

  lemma PrefixLenUnique(a: Hex, b: Hex, m: nat)
    requires m <= |a| && m <= |b| && a[..m] == b[..m]
    requires m < |a| && m < |b| ==> a[m] != b[m]
    ensures m == PrefixLen(a, b)
  {
  }
}
