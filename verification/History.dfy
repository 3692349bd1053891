/** Whole runs of updates: the trie is a map, and its root hash depends only on that map. */
module History {
  import opened Bytes
  import opened HexEncoding
  import opened Tree
  import opened TreeEncoding
  import opened Trie

  datatype Update = Update(key: Bytes, value: Bytes)

  function ApplyMap(m: map<Bytes, Bytes>, u: Update): map<Bytes, Bytes> {
    if u.value != [] then m[u.key := u.value] else m - {u.key}
  }

  function RunMap(us: seq<Update>): map<Bytes, Bytes> {
    if us == [] then map[] else ApplyMap(RunMap(us[..|us| - 1]), us[|us| - 1])
  }

  function Find(m: map<Bytes, Bytes>, key: Bytes): Option<Bytes> {
    if key in m then Some(m[key]) else None
  }

  /** `t` holds exactly `m`: keys of an odd number of nibbles, which no byte string has, are absent. */
  ghost predicate Models(t: Tree, m: map<Bytes, Bytes>) {
    && Minimal(t) && !t.Leaf?
    && (forall key :: Lookup(t, KeybytesToHex(key)) == Find(m, key))
    && (forall h | IsKey(h) && |h| % 2 == 0 :: Lookup(t, h) == None)
  }

  function RunTree(us: seq<Update>): (t: Tree)
    ensures Minimal(t) && !t.Leaf?
  {
    if us == [] then
      Empty
    else
      var u := us[|us| - 1];
      ApplyMinimal(RunTree(us[..|us| - 1]), u);
      Apply(RunTree(us[..|us| - 1]), u.key, u.value)
  }

  lemma KeyIsKey(key: Bytes)
    ensures IsKey(KeybytesToHex(key)) && |KeybytesToHex(key)| % 2 == 1
  {}

  lemma ApplyMinimal(t: Tree, u: Update)
    requires Minimal(t) && !t.Leaf?
    ensures Minimal(Apply(t, u.key, u.value)) && !Apply(t, u.key, u.value).Leaf?
  {
    KeyIsKey(u.key);
    if u.value != [] {
      PutMinimal(t, KeybytesToHex(u.key), u.value);
    } else {
      RemoveMinimal(t, KeybytesToHex(u.key));
    }
  }

  lemma ApplyLookup(t: Tree, u: Update, h: Hex)
    requires Minimal(t) && !t.Leaf? && IsKey(h)
    ensures Lookup(Apply(t, u.key, u.value), h)
         == if h != KeybytesToHex(u.key) then Lookup(t, h) else if u.value != [] then Some(u.value) else None
  {
    KeyIsKey(u.key);
    if u.value != [] {
      LookupPut(t, KeybytesToHex(u.key), u.value, h);
    } else {
      LookupRemove(t, KeybytesToHex(u.key), h);
    }
  }

  lemma ApplyFind(t: Tree, m: map<Bytes, Bytes>, u: Update, key: Bytes)
    requires Models(t, m)
    ensures Lookup(Apply(t, u.key, u.value), KeybytesToHex(key)) == Find(ApplyMap(m, u), key)
  {
    KeyIsKey(key);
    ApplyLookup(t, u, KeybytesToHex(key));
    if KeybytesToHex(key) == KeybytesToHex(u.key) {
      KeybytesInjective(key, u.key);
    }
  }

  lemma ApplyModels(t: Tree, m: map<Bytes, Bytes>, u: Update)
    requires Models(t, m)
    ensures Models(Apply(t, u.key, u.value), ApplyMap(m, u))
  {
    ApplyMinimal(t, u);
    KeyIsKey(u.key);
    forall key ensures Lookup(Apply(t, u.key, u.value), KeybytesToHex(key)) == Find(ApplyMap(m, u), key) {
      ApplyFind(t, m, u, key);
    }
    forall h | IsKey(h) && |h| % 2 == 0 ensures Lookup(Apply(t, u.key, u.value), h) == None {
      ApplyLookup(t, u, h);
    }
  }

  /** The trie refines a map, over every sequence of updates. */
  lemma {:induction false} RunModels(us: seq<Update>)
    ensures Models(RunTree(us), RunMap(us))
  {
    if us != [] {
      RunModels(us[..|us| - 1]);
      ApplyModels(RunTree(us[..|us| - 1]), RunMap(us[..|us| - 1]), us[|us| - 1]);
    }
  }

  lemma KeyOfHex(h: Hex) returns (key: Bytes)
    requires IsKey(h) && |h| % 2 == 1
    ensures KeybytesToHex(key) == h
  {
    var body := h[..|h| - 1];
    UnpackPack(body);
    key := Pack(body);
  }

  lemma ModelsUnique(a: Tree, b: Tree, m: map<Bytes, Bytes>)
    requires Models(a, m) && Models(b, m)
    ensures a == b
  {
    forall h | IsKey(h) ensures Lookup(a, h) == Lookup(b, h) {
      if |h| % 2 == 1 {
        var key := KeyOfHex(h);
      }
    }
    MinimalUnique(a, b);
  }

  /** Two histories that end in the same map end in the same trie, hence the same root hash. */
  lemma HistoryIndependence(us: seq<Update>, ws: seq<Update>)
    requires RunMap(us) == RunMap(ws)
    ensures RunTree(us) == RunTree(ws) && RootHash(RunTree(us)) == RootHash(RunTree(ws))
  {
    RunModels(us);
    RunModels(ws);
    ModelsUnique(RunTree(us), RunTree(ws), RunMap(us));
  }
}
