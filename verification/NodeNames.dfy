/** The names of virtual nodes in local/consistent_hash.go: a node ID, an underscore and a decimal index. */
module NodeNames {
  const DIGITS: string := "0123456789"

  /** `%d` of a natural number. */
  function Decimal(n: nat): (s: string)
    ensures s != [] && forall c | c in s :: c in DIGITS
  {
    if n < 10 then [DIGITS[n]] else Decimal(n / 10) + [DIGITS[n % 10]]
  }

  /** The number that a string of digits stands for. */
  function Value(s: string): int {
    if s == [] then 0 else 10 * Value(s[..|s| - 1]) + (s[|s| - 1] as int - '0' as int)
  }

  /** `%d`: the digits of the number, without leading zeros. */
  lemma {:induction false} DecimalIs(n: nat)
    ensures var s := Decimal(n); Value(s) == n && (forall c | c in s :: '0' <= c <= '9') && (s[0] == '0' ==> n == 0 && |s| == 1)
  {
    var s := Decimal(n);
    assert forall d | 0 <= d < 10 :: DIGITS[d] as int == '0' as int + d;
    if n >= 10 {
      DecimalIs(n / 10);
      assert s[..|s| - 1] == Decimal(n / 10);
    } else {
      assert s[..|s| - 1] == [] && Value([]) == 0;
    }
  }

  lemma {:induction false} DecimalInjective(m: nat, n: nat)
    requires Decimal(m) == Decimal(n)
    ensures m == n
  {
    var s := Decimal(m);
    assert s[|s| - 1] == DIGITS[m % 10] == DIGITS[n % 10];
    assert m % 10 == n % 10;
    if m >= 10 && n >= 10 {
      assert s[..|s| - 1] == Decimal(m / 10) && s[..|s| - 1] == Decimal(n / 10);
      DecimalInjective(m / 10, n / 10);
    }
  }

  /** `getRawNodeKey`. */
  function RawKey(nodeID: string, i: nat): string {
    nodeID + "_" + Decimal(i)
  }

  /** `getNodeID`: everything before the last underscore. */
  function NodeID(raw: string): string
    requires '_' in raw
  {
    if raw[|raw| - 1] == '_' then raw[..|raw| - 1] else NodeID(raw[..|raw| - 1])
  }

  /** The first part of a string split at underscores. */
  function FirstPart(raw: string): string {
    if raw == [] || raw[0] == '_' then [] else [raw[0]] + FirstPart(raw[1..])
  }

  lemma {:induction false} NodeIDBefore(id: string, tail: string)
    requires '_' !in tail
    ensures '_' in id + "_" + tail && NodeID(id + "_" + tail) == id
  {
    var raw := id + "_" + tail;
    assert raw[|id|] == '_';
    if tail == [] {
      assert raw[..|raw| - 1] == id;
    } else {
      assert raw[..|raw| - 1] == id + "_" + tail[..|tail| - 1];
      NodeIDBefore(id, tail[..|tail| - 1]);
    }
  }

  /** The node ID can be read off the name of its virtual node. */
  lemma NodeIDOfRawKey(id: string, i: nat)
    ensures '_' in RawKey(id, i) && NodeID(RawKey(id, i)) == id
  {
    assert '_' !in Decimal(i);
    NodeIDBefore(id, Decimal(i));
  }

  lemma {:induction false} FirstPartBefore(id: string, tail: string)
    requires '_' !in id
    ensures FirstPart(id + "_" + tail) == id
  {
    if id != [] {
      assert (id + "_" + tail)[1..] == id[1..] + "_" + tail;
      FirstPartBefore(id[1..], tail);
    }
  }

  lemma RawKeyInjective(a: string, i: nat, b: string, j: nat)
    requires RawKey(a, i) == RawKey(b, j)
    ensures a == b && i == j
  {
    NodeIDOfRawKey(a, i);
    NodeIDOfRawKey(b, j);
    assert RawKey(a, i)[|a| + 1..] == Decimal(i) && RawKey(b, j)[|b| + 1..] == Decimal(j);
    DecimalInjective(i, j);
  }
}
