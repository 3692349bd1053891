/**
 Recursive Length Prefix encoding, Appendix B of the Ethereum Yellow Paper: the part of
 go-ethereum's rlp package that trie/node_enc.go writes with and trie/node.go reads with.
 */
module Rlp {
  import opened Bytes

  function BigEndian(n: nat): Bytes {
    if n == 0 then [] else BigEndian(n / 256) + [n % 256]
  }

  function FromBigEndian(b: Bytes): nat {
    if b == [] then 0 else 256 * FromBigEndian(b[..|b| - 1]) + b[|b| - 1] as int
  }

  function Pow256(k: nat): nat {
    if k == 0 then 1 else 256 * Pow256(k - 1)
  }

  lemma {:induction false} BigEndianFits(n: nat, k: nat)
    requires n < Pow256(k)
    ensures |BigEndian(n)| <= k
  {
    if n > 0 {
      BigEndianFits(n / 256, k - 1);
    }
  }

  lemma {:induction false} BigEndianRoundTrip(n: nat)
    ensures FromBigEndian(BigEndian(n)) == n
    ensures n > 0 ==> BigEndian(n) != [] && BigEndian(n)[0] != 0
  {
    if n > 0 {
      BigEndianRoundTrip(n / 256);
      var b := BigEndian(n);
      assert b[..|b| - 1] == BigEndian(n / 256);
    }
  }

  /** The encoder stores the length as a uint64. */
  function SizeBytes(n: nat): (r: Bytes)
    ensures |r| <= 8
  {
    assert Pow256(8) == SIZE_LIMIT by {
      assert Pow256(2) == 0x1_0000;
      assert Pow256(4) == 0x1_0000_0000;
      assert Pow256(6) == 0x1_0000_0000_0000;
    }
    BigEndianFits(n % SIZE_LIMIT, 8);
    BigEndian(n % SIZE_LIMIT)
  }

  const STRING_TAG: int := 0x80
  const LIST_TAG: int := 0xc0

  function Header(tag: int, n: nat): Bytes
    requires tag == STRING_TAG || tag == LIST_TAG
  {
    if n < 56 then
      [tag + n]
    else
      [tag + 55 + |SizeBytes(n)|] + SizeBytes(n)
  }

  function EncodeString(s: Bytes): Bytes {
    if |s| == 1 && s[0] < 0x80 then s else Header(STRING_TAG, |s|) + s
  }

  /** `payload` is the concatenation of the encoded elements. */
  function EncodeList(payload: Bytes): Bytes {
    Header(LIST_TAG, |payload|) + payload
  }

  const EMPTY_STRING: Bytes := [0x80]

  datatype Kind = ByteKind | StringKind | ListKind

  datatype Item = Item(kind: Kind, content: Bytes, rest: Bytes)

  function Take(kind: Kind, b: Bytes, size: nat): (r: Result<Item>)
    ensures r.Ok? ==> |r.value.content| == size && |r.value.content| + |r.value.rest| == |b|
  {
    if |b| < size then Err else Ok(Item(kind, b[..size], b[size..]))
  }

  function TakeSized(kind: Kind, b: Bytes, width: nat): (r: Result<Item>)
    requires width > 0
    ensures r.Ok? ==> |r.value.content| + |r.value.rest| < |b|
  {
    if |b| < width then
      Err
    else
      var size := FromBigEndian(b[..width]);
      if size < 56 || b[0] == 0 then Err else Take(kind, b[width..], size)
  }

  /** Splits off the first item; a non-canonical header is an error. */
  function Split(b: Bytes): (r: Result<Item>)
    ensures r.Ok? ==> |r.value.content| + |r.value.rest| <= |b| && |r.value.rest| < |b|
    ensures r.Ok? && r.value.kind == ListKind ==> |r.value.content| < |b|
  {
    if b == [] then
      Err
    else if b[0] < 0x80 then
      Ok(Item(ByteKind, b[..1], b[1..]))
    else if b[0] == 0x81 && |b| > 1 && b[1] < 0x80 then
      Err
    else if b[0] < 0xb8 then
      Take(StringKind, b[1..], b[0] as int - 0x80)
    else if b[0] < 0xc0 then
      TakeSized(StringKind, b[1..], b[0] as int - 0xb7)
    else if b[0] < 0xf8 then
      Take(ListKind, b[1..], b[0] as int - 0xc0)
    else
      TakeSized(ListKind, b[1..], b[0] as int - 0xf7)
  }

  function SplitString(b: Bytes): (r: Result<Item>)
    ensures r.Ok? ==> |r.value.content| <= |b| && |r.value.rest| < |b|
  {
    var r := Split(b);
    if r.Ok? && r.value.kind != ListKind then r else Err
  }

  function SplitList(b: Bytes): (r: Result<Item>)
    ensures r.Ok? ==> |r.value.content| < |b|
  {
    var r := Split(b);
    if r.Ok? && r.value.kind == ListKind then r else Err
  }

  /** Number of items in `b`, 0 if `b` is malformed. */
  function CountValues(b: Bytes): nat {
    var r := Count(b);
    if r.Ok? then r.value else 0
  }

  function Count(b: Bytes): Result<nat>
    decreases |b|
  {
    if b == [] then
      Ok(0)
    else
      var item := Split(b);
      if item.Err? then
        Err
      else
        var n := Count(item.value.rest);
        if n.Err? then Err else Ok(1 + n.value)
  }

  // ---------- Reading back what was written ----------

  function KindOf(s: Bytes): Kind {
    if |s| == 1 && s[0] < 0x80 then ByteKind else StringKind
  }

  lemma TakeExact(kind: Kind, s: Bytes, rest: Bytes)
    ensures Take(kind, s + rest, |s|) == Ok(Item(kind, s, rest))
  {
    assert (s + rest)[..|s|] == s && (s + rest)[|s|..] == rest;
  }

  lemma SizeBytesRoundTrip(n: nat)
    requires 0 < n < SIZE_LIMIT
    ensures FromBigEndian(SizeBytes(n)) == n && SizeBytes(n) != [] && SizeBytes(n)[0] != 0
  {
    BigEndianRoundTrip(n);
  }

  lemma TakeSizedExact(kind: Kind, s: Bytes, rest: Bytes)
    requires 56 <= |s| < SIZE_LIMIT
    ensures SizeBytes(|s|) != []
    ensures TakeSized(kind, SizeBytes(|s|) + (s + rest), |SizeBytes(|s|)|) == Ok(Item(kind, s, rest))
  {
    var size := SizeBytes(|s|);
    SizeBytesRoundTrip(|s|);
    var b := size + (s + rest);
    assert b[..|size|] == size && b[|size|..] == s + rest;
    TakeExact(kind, s, rest);
  }

  lemma SplitHeader(tag: int, s: Bytes, rest: Bytes)
    requires tag == STRING_TAG || tag == LIST_TAG
    requires |s| < SIZE_LIMIT
    requires tag == STRING_TAG ==> KindOf(s) == StringKind
    ensures Split(Header(tag, |s|) + s + rest)
         == Ok(Item(if tag == STRING_TAG then StringKind else ListKind, s, rest))
  {
    var kind := if tag == STRING_TAG then StringKind else ListKind;
    var b := Header(tag, |s|) + s + rest;
    if |s| < 56 {
      assert b[1..] == s + rest;
      TakeExact(kind, s, rest);
    } else {
      TakeSizedExact(kind, s, rest);
      assert b[1..] == SizeBytes(|s|) + (s + rest);
    }
  }

  lemma SplitEncodedString(s: Bytes, rest: Bytes)
    requires |s| < SIZE_LIMIT
    ensures Split(EncodeString(s) + rest) == Ok(Item(KindOf(s), s, rest))
  {
    if KindOf(s) == ByteKind {
      var b := s + rest;
      assert b[..1] == s && b[1..] == rest;
    } else {
      SplitHeader(STRING_TAG, s, rest);
    }
  }

  lemma SplitEncodedList(payload: Bytes, rest: Bytes)
    requires |payload| < SIZE_LIMIT
    ensures Split(EncodeList(payload) + rest) == Ok(Item(ListKind, payload, rest))
  {
    SplitHeader(LIST_TAG, payload, rest);
  }
}
