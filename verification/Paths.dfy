/** The order in which paths are sorted as byte strings, for trie/nodeset.go and trie/iterator.go. */
module Paths {
  import opened HexEncoding

  /** The order of paths as strings. */
  predicate PathLess(a: Hex, b: Hex) {
    b != [] && (a == [] || a[0] < b[0] || (a[0] == b[0] && PathLess(a[1..], b[1..])))
  }

  lemma {:induction false} PathLessTrans(a: Hex, b: Hex, c: Hex)
    requires PathLess(a, b) && PathLess(b, c)
    ensures PathLess(a, c)
  {
    if a != [] && a[0] == b[0] == c[0] {
      PathLessTrans(a[1..], b[1..], c[1..]);
    }
  }

  lemma {:induction false} PathLessTotal(a: Hex, b: Hex)
    ensures a == b || PathLess(a, b) || PathLess(b, a)
    ensures !(PathLess(a, b) && PathLess(b, a))
  {
    if a != [] && b != [] && a[0] == b[0] {
      PathLessTotal(a[1..], b[1..]);
      assert a == [a[0]] + a[1..] && b == [b[0]] + b[1..];
    }
  }

  lemma {:induction false} PrefixIsLess(a: Hex, b: Hex)
    requires a < b
    ensures PathLess(a, b)
  {
    if a != [] {
      PrefixIsLess(a[1..], b[1..]);
    }
  }

  /** A path that sorts before another one and is no prefix of it takes everything below along. */
  lemma {:induction false} LessBelow(a: Hex, b: Hex, x: Hex)
    requires PathLess(a, b) && !(a <= b)
    ensures PathLess(a + x, b) && !(a + x <= b)
  {
    if a[0] == b[0] {
      LessBelow(a[1..], b[1..], x);
      assert (a + x)[1..] == a[1..] + x;
    }
  }

  /** Siblings sort by their first digits, with everything below them. */
  lemma {:induction false} SiblingsLess(p: Hex, i: HexDigit, x: Hex, j: HexDigit, y: Hex)
    requires i < j
    ensures PathLess(p + [i] + x, p + [j] + y)
  {
    if p != [] {
      SiblingsLess(p[1..], i, x, j, y);
      assert (p + [i] + x)[1..] == p[1..] + [i] + x && (p + [j] + y)[1..] == p[1..] + [j] + y;
    }
  }
}
