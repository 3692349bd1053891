/**
 Trie nodes in memory (trie/node.go), in collapsed storage form (the raw nodes of trie/database.go),
 and as RLP (trie/node_enc.go), with the decoder of trie/node.go.
 */
module Nodes {
  import opened Bytes
  import opened HexEncoding
  import opened Rlp

  datatype Flags = Flags(hash: Option<Hash32>, dirty: bool)

  datatype Node =
    | NilNode
    | ValueNode(value: Bytes)
    | HashNode(hash: Hash32)
    | ShortNode(key: Hex, val: Node, flags: Flags)
    | FullNode(children: seq<Node>, flags: Flags)

  /** Compact keys, no flags.  `RawBlob` is already encoded. */
  datatype Collapsed =
    | NoNode
    | Value(value: Bytes)
    | HashRef(hash: Hash32)
    | RawShort(key: Bytes, val: Collapsed)
    | RawFull(children: seq<Collapsed>)
    | RawBlob(blob: Bytes)

  function Encode(c: Collapsed): Bytes {
    match c
    case NoNode => EMPTY_STRING
    case Value(v) => EncodeString(v)
    case HashRef(h) => EncodeString(h)
    case RawShort(k, v) => EncodeList(EncodeString(k) + Encode(v))
    case RawFull(cs) => EncodeList(EncodeAll(cs))
    case RawBlob(b) => b
  }

  function EncodeAll(cs: seq<Collapsed>): Bytes {
    if cs == [] then [] else Encode(cs[0]) + EncodeAll(cs[1..])
  }

  /** `expandNode`. */
  function Expand(hash: Option<Hash32>, c: Collapsed): Node
    decreases c
  {
    match c
    case NoNode => NilNode
    case Value(v) => ValueNode(v)
    case HashRef(h) => HashNode(h)
    case RawShort(k, v) => ShortNode(CompactToHex(k), Expand(None, v), Flags(hash, false))
    case RawFull(cs) => FullNode(ExpandAll(cs), Flags(hash, false))
    case RawBlob(_) => NilNode
  }

  function ExpandAll(cs: seq<Collapsed>): (ns: seq<Node>)
    ensures |ns| == |cs| && forall i | 0 <= i < |cs| :: ns[i] == Expand(None, cs[i])
    decreases cs
  {
    if cs == [] then [] else [Expand(None, cs[0])] + ExpandAll(cs[1..])
  }

  // ---------- Decoding ----------

  datatype Ref = Ref(node: Node, rest: Bytes)

  datatype Refs = Refs(nodes: seq<Node>, rest: Bytes)

  function DecodeNode(hash: Option<Hash32>, buf: Bytes): Result<Node>
    decreases |buf|, 0, 0
  {
    var list := SplitList(buf);
    if list.Err? then
      Err
    else
      var elems := list.value.content;
      match CountValues(elems)
      case 2 => DecodeShort(hash, elems)
      case 17 => DecodeFull(hash, elems)
      case _ => Err
  }

  function DecodeShort(hash: Option<Hash32>, elems: Bytes): Result<Node>
    decreases |elems|, 2, 0
  {
    var k := SplitString(elems);
    if k.Err? then
      Err
    else
      var key := CompactToHex(k.value.content);
      if HasTerm(key) then
        var v := SplitString(k.value.rest);
        if v.Err? then Err else Ok(ShortNode(key, ValueNode(v.value.content), Flags(hash, false)))
      else
        var r := DecodeRef(k.value.rest);
        if r.Err? then Err else Ok(ShortNode(key, r.value.node, Flags(hash, false)))
  }

  function DecodeFull(hash: Option<Hash32>, elems: Bytes): Result<Node>
    decreases |elems|, 3, 0
  {
    var rs := DecodeRefs(elems, 16);
    if rs.Err? then
      Err
    else
      var v := SplitString(rs.value.rest);
      if v.Err? then
        Err
      else
        var last := if v.value.content == [] then NilNode else ValueNode(v.value.content);
        Ok(FullNode(rs.value.nodes + [last], Flags(hash, false)))
  }

  function DecodeRefs(elems: Bytes, n: nat): Result<Refs>
    decreases |elems|, 2, n
  {
    if n == 0 then
      Ok(Refs([], elems))
    else
      var r := DecodeRef(elems);
      if r.Err? then
        Err
      else
        var rs := DecodeRefs(r.value.rest, n - 1);
        if rs.Err? then Err else Ok(Refs([r.value.node] + rs.value.nodes, rs.value.rest))
  }

  function DecodeRef(buf: Bytes): (r: Result<Ref>)
    ensures r.Ok? ==> |r.value.rest| < |buf|
    decreases |buf|, 1, 0
  {
    var item := Split(buf);
    if item.Err? then
      Err
    else
      var Item(kind, content, rest) := item.value;
      if kind == ListKind then
        if |buf| - |rest| > 32 then
          Err
        else
          var n := DecodeNode(None, buf);
          if n.Err? then Err else Ok(Ref(n.value, rest))
      else if kind == StringKind && content == [] then
        Ok(Ref(NilNode, rest))
      else if kind == StringKind && |content| == 32 then
        Ok(Ref(HashNode(content), rest))
      else
        Err
  }

  // ---------- Decoding inverts encoding ----------

  /** What a child slot may hold: nothing, a hash, or a node short enough to embed. */
  predicate IsRef(c: Collapsed) {
    match c
    case NoNode => true
    case HashRef(_) => true
    case RawShort(_, _) => IsStorable(c) && |Encode(c)| <= 32
    case RawFull(_) => IsStorable(c) && |Encode(c)| <= 32
    case _ => false
  }

  predicate IsValueSlot(c: Collapsed) {
    c.NoNode? || (c.Value? && c.value != [])
  }

  /** The collapsed nodes that the trie writes. */
  predicate IsStorable(c: Collapsed)
    decreases c, 0
  {
    match c
    case RawShort(k, v) => if HasTerm(CompactToHex(k)) then v.Value? else IsRef(v)
    case RawFull(cs) => |cs| == 17 && (forall i | 0 <= i < 16 :: IsRef(cs[i])) && IsValueSlot(cs[16])
    case _ => false
  }

  function Payload(c: Collapsed): Bytes
    requires !c.RawBlob?
  {
    match c
    case NoNode => []
    case Value(v) => v
    case HashRef(h) => h
    case RawShort(k, v) => EncodeString(k) + Encode(v)
    case RawFull(cs) => EncodeAll(cs)
  }

  lemma SplitEncoded(c: Collapsed, rest: Bytes)
    requires !c.RawBlob? && |Encode(c)| < SIZE_LIMIT
    ensures Split(Encode(c) + rest)
         == Ok(Item(if c.RawShort? || c.RawFull? then ListKind else KindOf(Payload(c)), Payload(c), rest))
  {
    match c
    case NoNode => SplitEncodedString([], rest);
    case Value(v) => SplitEncodedString(v, rest);
    case HashRef(h) => SplitEncodedString(h, rest);
    case RawShort(k, v) => SplitEncodedList(Payload(c), rest);
    case RawFull(cs) => SplitEncodedList(Payload(c), rest);
  }

  ghost predicate NoBlobs(cs: seq<Collapsed>) {
    forall i | 0 <= i < |cs| :: !cs[i].RawBlob?
  }

  lemma {:induction false} CountEncoded(cs: seq<Collapsed>)
    requires NoBlobs(cs) && |EncodeAll(cs)| < SIZE_LIMIT
    ensures Count(EncodeAll(cs)) == Ok(|cs|)
  {
    if cs != [] {
      SplitEncoded(cs[0], EncodeAll(cs[1..]));
      CountEncoded(cs[1..]);
      assert Encode(cs[0]) != [];
    }
  }

  lemma CountShort(k: Bytes, v: Collapsed)
    requires !v.RawBlob? && |EncodeString(k) + Encode(v)| < SIZE_LIMIT
    ensures CountValues(EncodeString(k) + Encode(v)) == 2
  {
    var cs := [Value(k), v];
    assert EncodeAll(cs) == EncodeString(k) + Encode(v) by {
      assert cs[1..] == [v] && EncodeAll([v]) == Encode(v);
    }
    CountEncoded(cs);
  }

  lemma CountFull(cs: seq<Collapsed>)
    requires IsStorable(RawFull(cs)) && |EncodeAll(cs)| < SIZE_LIMIT
    ensures CountValues(EncodeAll(cs)) == 17
  {
    forall i | 0 <= i < 17 ensures !cs[i].RawBlob? {
      assert i < 16 ==> IsRef(cs[i]);
    }
    CountEncoded(cs);
  }

  /** `decodeNode` inverts `nodeToBytes`, and agrees with `expandNode`, on every collapsed trie node. */
  lemma {:induction false} DecodeEncode(hash: Option<Hash32>, c: Collapsed, rest: Bytes)
    requires IsStorable(c) && |Encode(c)| < SIZE_LIMIT
    ensures DecodeNode(hash, Encode(c) + rest) == Ok(Expand(hash, c))
    decreases c, 1
  {
    match c
    case RawShort(k, v) =>
      CountShort(k, v);
      DecodeEncodedShort(hash, k, v);
      DecodeList(hash, c, rest);
    case RawFull(cs) =>
      CountFull(cs);
      DecodeEncodedFull(hash, cs);
      DecodeList(hash, c, rest);
  }

  lemma DecodeList(hash: Option<Hash32>, c: Collapsed, rest: Bytes)
    requires |Encode(c)| < SIZE_LIMIT && (c.RawShort? || c.RawFull?)
    ensures DecodeNode(hash, Encode(c) + rest)
         == match CountValues(Payload(c))
            case 2 => DecodeShort(hash, Payload(c))
            case 17 => DecodeFull(hash, Payload(c))
            case _ => Err
  {
    SplitEncoded(c, rest);
  }

  lemma DecodeEncodedShort(hash: Option<Hash32>, k: Bytes, v: Collapsed)
    requires IsStorable(RawShort(k, v)) && |EncodeString(k) + Encode(v)| < SIZE_LIMIT
    ensures DecodeShort(hash, EncodeString(k) + Encode(v)) == Ok(Expand(hash, RawShort(k, v)))
    decreases v, 3
  {
    SplitEncodedString(k, Encode(v));
    assert Encode(v) + [] == Encode(v);
    if HasTerm(CompactToHex(k)) {
      SplitEncoded(v, []);
    } else {
      DecodeEncodedRef(v, []);
    }
  }

  lemma DecodeEncodedRef(c: Collapsed, rest: Bytes)
    requires IsRef(c)
    ensures DecodeRef(Encode(c) + rest) == Ok(Ref(Expand(None, c), rest))
    decreases c, 2
  {
    assert |Encode(c)| < SIZE_LIMIT by {
      if c.HashRef? {
        assert |EncodeString(c.hash)| == 33;
      }
    }
    SplitEncoded(c, rest);
    if c.RawShort? || c.RawFull? {
      DecodeEncode(None, c, rest);
    }
  }

  lemma {:induction false} DecodeEncodedRefs(cs: seq<Collapsed>, rest: Bytes)
    requires forall i | 0 <= i < |cs| :: IsRef(cs[i])
    ensures DecodeRefs(EncodeAll(cs) + rest, |cs|) == Ok(Refs(ExpandAll(cs), rest))
    decreases cs, 3
  {
    if cs == [] {
      assert [] + rest == rest;
    } else {
      assert EncodeAll(cs) + rest == Encode(cs[0]) + (EncodeAll(cs[1..]) + rest);
      DecodeEncodedRef(cs[0], EncodeAll(cs[1..]) + rest);
      DecodeEncodedRefs(cs[1..], rest);
    }
  }

  lemma DecodeEncodedFull(hash: Option<Hash32>, cs: seq<Collapsed>)
    requires IsStorable(RawFull(cs)) && |EncodeAll(cs)| < SIZE_LIMIT
    ensures DecodeFull(hash, EncodeAll(cs)) == Ok(Expand(hash, RawFull(cs)))
    decreases cs, 4
  {
    EncodeAllSplit(cs);
    DecodeEncodedRefs(cs[..16], Encode(cs[16]));
    SplitEncoded(cs[16], []);
    assert Encode(cs[16]) + [] == Encode(cs[16]);
    assert ExpandAll(cs[..16]) + [Expand(None, cs[16])] == ExpandAll(cs);
  }

  lemma EncodeAllSplit(cs: seq<Collapsed>)
    requires |cs| > 0
    ensures EncodeAll(cs) == EncodeAll(cs[..|cs| - 1]) + Encode(cs[|cs| - 1])
  {
    if |cs| > 1 {
      EncodeAllSplit(cs[1..]);
      assert cs[1..][..|cs| - 2] == cs[..|cs| - 1][1..];
    }
  }
}
