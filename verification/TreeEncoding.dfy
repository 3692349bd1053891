/** The hash of an abstract trie: Appendix D of the Ethereum Yellow Paper, as trie/hasher.go computes it. */
module TreeEncoding {
  import opened Bytes
  import opened HexEncoding
  import opened Rlp
  import opened Nodes
  import opened Tree

  /** A node of the trie proper, as opposed to an absent one or a value. */
  predicate IsInner(t: Tree) {
    t.Ext? || t.Branch?
  }

  /** The node with its children replaced by references. */
  function Collapse(t: Tree): Collapsed
    requires Minimal(t)
    decreases t, 0
  {
    match t
    case Empty => NoNode
    case Leaf(v) => Value(v)
    case Ext(k, c) => RawShort(HexToCompact(k), RefTo(c))
    case Branch(cs) => RawFull(RefsTo(cs))
  }

  /** Nodes shorter than 32 bytes are stored inside their parent. */
  function RefTo(t: Tree): Collapsed
    requires Minimal(t)
    decreases t, 1
  {
    var c := Collapse(t);
    if IsInner(t) && |Encode(c)| >= 32 then HashRef(Keccak(Encode(c))) else c
  }

  function RefsTo(ts: seq<Tree>): (cs: seq<Collapsed>)
    requires forall i | 0 <= i < |ts| :: Minimal(ts[i])
    ensures |cs| == |ts| && forall i | 0 <= i < |ts| :: cs[i] == RefTo(ts[i])
    decreases ts, 2
  {
    if ts == [] then [] else [RefTo(ts[0])] + RefsTo(ts[1..])
  }

  function Enc(t: Tree): Bytes
    requires Minimal(t)
  {
    Encode(Collapse(t))
  }

  const EMPTY_ROOT: Hash32 := Keccak(EMPTY_STRING)

  function RootHash(t: Tree): Hash32
    requires Minimal(t)
  {
    Keccak(Enc(t))
  }

  lemma {:induction false} CollapseStorable(t: Tree)
    requires Minimal(t) && IsInner(t)
    ensures IsStorable(Collapse(t))
    decreases t
  {
    match t
    case Ext(k, c) =>
      CompactRoundTrip(k);
      if HasTerm(k) {
        assert RefTo(c) == Value(c.value);
      } else {
        CollapseStorable(c);
        assert IsRef(RefTo(c));
      }
    case Branch(cs) =>
      forall i | 0 <= i < 16 ensures IsRef(RefTo(cs[i])) {
        assert Slot(i, cs[i]);
        if !cs[i].Empty? {
          CollapseStorable(cs[i]);
        }
        ChildIsRef(cs[i], i);
      }
      assert Slot(16, cs[16]);
      BranchStorable(cs);
  }

  lemma ChildIsRef(c: Tree, i: nat)
    requires i < 16 && Slot(i, c) && Minimal(c) && (c.Empty? || IsStorable(Collapse(c)))
    ensures IsRef(RefTo(c))
  {}

  lemma ValueSlot(c: Tree)
    requires Slot(16, c) && Minimal(c)
    ensures IsValueSlot(RefTo(c))
  {}

  lemma BranchStorable(cs: seq<Tree>)
    requires |cs| == 17 && (forall i | 0 <= i < 17 :: Minimal(cs[i])) && Slot(16, cs[16])
    requires forall i | 0 <= i < 16 :: IsRef(RefTo(cs[i]))
    ensures IsStorable(RawFull(RefsTo(cs)))
  {
    ValueSlot(cs[16]);
    FullStorable(RefsTo(cs));
  }

  lemma FullStorable(rs: seq<Collapsed>)
    requires |rs| == 17 && (forall i | 0 <= i < 16 :: IsRef(rs[i])) && IsValueSlot(rs[16])
    ensures IsStorable(RawFull(rs))
  {}

  /** Loading the stored form of a node gives back its expansion. */
  lemma DecodeEnc(hash: Option<Hash32>, t: Tree)
    requires Minimal(t) && IsInner(t) && |Enc(t)| < SIZE_LIMIT
    ensures DecodeNode(hash, Enc(t)) == Ok(Expand(hash, Collapse(t)))
  {
    CollapseStorable(t);
    DecodeEncode(hash, Collapse(t), []);
    assert Enc(t) + [] == Enc(t);
  }
}
