/** The order SQLite's default BINARY collation puts on TEXT values.

    BINARY compares the UTF-8 encodings byte by byte and, when one is a prefix
    of the other, puts the shorter first. UTF-8 preserves code-point order, so
    on Dafny strings (sequences of Unicode scalar values) the same order is the
    lexicographic order on characters. `ORDER BY date DESC` in the report
    listing sorts by the reverse of this order; with the fixed
    `YYYY-MM-DD HH:MM:SS` format it is also chronological order. */
module TextOrder {

  /** `a` sorts at or before `b` under the BINARY collation. */
  predicate LexLe(a: string, b: string)
  {
    if a == [] then true
    else if b == [] then false
    else if a[0] != b[0] then a[0] < b[0]
    else LexLe(a[1..], b[1..])
  }

  lemma {:induction false} LexLeReflexive(a: string)
    ensures LexLe(a, a)
  {
    if a != [] {
      LexLeReflexive(a[1..]);
    }
  }

  /** Any two texts are comparable: the collation is a total order. */
  lemma {:induction false} LexLeTotal(a: string, b: string)
    ensures LexLe(a, b) || LexLe(b, a)
  {
    if a != [] && b != [] && a[0] == b[0] {
      LexLeTotal(a[1..], b[1..]);
    }
  }

  lemma {:induction false} LexLeAntisymmetric(a: string, b: string)
    requires LexLe(a, b) && LexLe(b, a)
    ensures a == b
  {
    if a != [] && b != [] {
      LexLeAntisymmetric(a[1..], b[1..]);
      assert a == [a[0]] + a[1..];
      assert b == [b[0]] + b[1..];
    }
  }

  lemma {:induction false} LexLeTransitive(a: string, b: string, c: string)
    requires LexLe(a, b) && LexLe(b, c)
    ensures LexLe(a, c)
  {
    if a != [] && b != [] && c != [] && a[0] == b[0] && b[0] == c[0] {
      LexLeTransitive(a[1..], b[1..], c[1..]);
    }
  }

  /** A text sorts after every one of its proper prefixes, never before. */
  lemma {:induction false} PrefixSortsFirst(a: string, b: string)
    ensures LexLe(a, a + b)
  {
    if a != [] {
      assert (a + b)[0] == a[0];
      assert (a + b)[1..] == a[1..] + b;
      PrefixSortsFirst(a[1..], b);
    }
  }
}
