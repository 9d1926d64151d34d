/** Python's ordering of the sort keys the two allocators build.

    Every sort in the allocators is a `sorted(..., key=...)` or `list.sort(key=...)`
    whose key is a string, an integer, or a tuple of strings and integers. Python
    compares strings code point by code point (a proper prefix is smaller) and
    tuples element by element; a key here is the tuple as a sequence of atoms. */
module Keys {

  datatype Atom = Num(n: int) | Text(s: string)

  type Key = seq<Atom>

  /** Python's `<` on `str`: lexicographic on code points, a proper prefix first. */
  predicate StrLt(a: string, b: string)
  {
    if a == [] then b != []
    else if b == [] then false
    else if a[0] != b[0] then a[0] < b[0]
    else StrLt(a[1..], b[1..])
  }

  /** Integers compare as numbers, strings as above. The allocators never compare
      an integer with a string at the same tuple position (Python would raise);
      the order chosen between the two kinds only makes the relation total. */
  predicate AtomLt(a: Atom, b: Atom)
  {
    match (a, b)
    case (Num(x), Num(y)) => x < y
    case (Text(x), Text(y)) => StrLt(x, y)
    case (Num(_), Text(_)) => true
    case (Text(_), Num(_)) => false
  }

  /** Python's `<` on tuples. */
  predicate KeyLt(a: Key, b: Key)
  {
    if a == [] then b != []
    else if b == [] then false
    else if a[0] != b[0] then AtomLt(a[0], b[0])
    else KeyLt(a[1..], b[1..])
  }

  predicate KeyLe(a: Key, b: Key)
  {
    a == b || KeyLt(a, b)
  }

  lemma {:induction false} StrLtIrreflexive(a: string)
    ensures !StrLt(a, a)
  {
    if a != [] {
      StrLtIrreflexive(a[1..]);
    }
  }

  lemma {:induction false} StrLtTrichotomy(a: string, b: string)
    ensures a == b || StrLt(a, b) || StrLt(b, a)
    ensures !(StrLt(a, b) && StrLt(b, a))
  {
    if a != [] && b != [] && a[0] == b[0] {
      StrLtTrichotomy(a[1..], b[1..]);
      if a[1..] == b[1..] {
        assert a == [a[0]] + a[1..] && b == [b[0]] + b[1..];
      }
    }
  }

  lemma {:induction false} StrLtTransitive(a: string, b: string, c: string)
    requires StrLt(a, b) && StrLt(b, c)
    ensures StrLt(a, c)
  {
    if a != [] && a[0] == b[0] && b[0] == c[0] {
      StrLtTransitive(a[1..], b[1..], c[1..]);
    }
  }

  lemma AtomLtTotal(a: Atom, b: Atom)
    ensures a == b || AtomLt(a, b) || AtomLt(b, a)
    ensures !(AtomLt(a, b) && AtomLt(b, a))
  {
    if a.Text? && b.Text? {
      StrLtTrichotomy(a.s, b.s);
    }
  }

  lemma AtomLtTransitive(a: Atom, b: Atom, c: Atom)
    requires AtomLt(a, b) && AtomLt(b, c)
    ensures AtomLt(a, c)
  {
    if a.Text? && b.Text? && c.Text? {
      StrLtTransitive(a.s, b.s, c.s);
    }
  }

  lemma {:induction false} KeyLtIrreflexive(a: Key)
    ensures !KeyLt(a, a)
  {
    if a != [] {
      KeyLtIrreflexive(a[1..]);
    }
  }

  lemma {:induction false} KeyLtTrichotomy(a: Key, b: Key)
    ensures a == b || KeyLt(a, b) || KeyLt(b, a)
    ensures !(KeyLt(a, b) && KeyLt(b, a))
  {
    if a != [] && b != [] {
      if a[0] == b[0] {
        KeyLtTrichotomy(a[1..], b[1..]);
        if a[1..] == b[1..] {
          assert a == [a[0]] + a[1..] && b == [b[0]] + b[1..];
        }
      } else {
        AtomLtTotal(a[0], b[0]);
      }
    }
  }

  lemma {:induction false} KeyLtTransitive(a: Key, b: Key, c: Key)
    requires KeyLt(a, b) && KeyLt(b, c)
    ensures KeyLt(a, c)
  {
    if a != [] && b != [] && c != [] {
      if a[0] == b[0] && b[0] == c[0] {
        KeyLtTransitive(a[1..], b[1..], c[1..]);
      } else if a[0] != b[0] && b[0] != c[0] {
        AtomLtTransitive(a[0], b[0], c[0]);
        AtomLtTotal(a[0], c[0]);
      }
    }
  }

  /** `<=` on keys is a total preorder (in fact a total order). */
  lemma KeyLeTotal(a: Key, b: Key)
    ensures KeyLe(a, b) || KeyLe(b, a)
    ensures KeyLe(a, b) && KeyLe(b, a) ==> a == b
  {
    KeyLtTrichotomy(a, b);
  }

  lemma KeyLeTransitive(a: Key, b: Key, c: Key)
    requires KeyLe(a, b) && KeyLe(b, c)
    ensures KeyLe(a, c)
  {
    if a != b && b != c {
      KeyLtTransitive(a, b, c);
    }
  }

  /** A strict step followed by a weak one is strict. */
  lemma KeyLtLe(a: Key, b: Key, c: Key)
    requires KeyLt(a, b) && KeyLe(b, c)
    ensures KeyLt(a, c)
  {
    if b != c {
      KeyLtTransitive(a, b, c);
    }
  }
}
