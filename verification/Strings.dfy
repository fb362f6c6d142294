/** String facts shared by the components: byte-wise order, and pieces joined by a separator. */
module Strings {

  /** The order of Go's `<=` on strings. */
  predicate StringLe(a: string, b: string) {
    a == [] || (b != [] && (a[0] < b[0] || (a[0] == b[0] && StringLe(a[1..], b[1..]))))
  }

  lemma {:induction false} StringLeTotal(a: string, b: string)
    ensures StringLe(a, b) || StringLe(b, a)
  {
    if a != [] && b != [] && a[0] == b[0] {
      StringLeTotal(a[1..], b[1..]);
    }
  }

  lemma {:induction false} StringLeAntisymmetric(a: string, b: string)
    requires StringLe(a, b) && StringLe(b, a)
    ensures a == b
  {
    if a != [] {
      StringLeAntisymmetric(a[1..], b[1..]);
      assert a == [a[0]] + a[1..];
    }
  }

  lemma {:induction false} StringLeTransitive(a: string, b: string, c: string)
    requires StringLe(a, b) && StringLe(b, c)
    ensures StringLe(a, c)
  {
    if a != [] && a[0] == b[0] && b[0] == c[0] {
      StringLeTransitive(a[1..], b[1..], c[1..]);
    }
  }

  /** The order is that of Go's string comparison: a prefix comes first, and otherwise the first character
      that differs decides. */
  lemma {:induction false} StringLeIsLexicographic(a: string, b: string)
    ensures StringLe(a, b) <==> a <= b || exists k: nat :: FirstDifference(a, b, k) && a[k] < b[k]
  {
    if a != [] && b != [] {
      if a[0] == b[0] {
        StringLeIsLexicographic(a[1..], b[1..]);
        assert a == [a[0]] + a[1..] && b == [b[0]] + b[1..];
        if k: nat :| FirstDifference(a[1..], b[1..], k) && a[1..][k] < b[1..][k] {
          assert FirstDifference(a, b, k + 1);
        }
        if k: nat :| FirstDifference(a, b, k) && a[k] < b[k] {
          assert FirstDifference(a[1..], b[1..], k - 1);
        }
      } else {
        assert FirstDifference(a, b, 0);
      }
    }
  }

  /** The two strings agree before position `k` and differ there. */
  ghost predicate FirstDifference(a: string, b: string, k: nat) {
    k < |a| && k < |b| && a[k] != b[k] && forall i :: 0 <= i < k ==> a[i] == b[i]
  }

  function Join(a: string, sep: char, b: string): string {
    a + [sep] + b
  }

  /** The pieces of one joined string overlap: a middle part that one reading puts in the left piece
      and the other in the right piece. */
  ghost predicate Overlap(a: string, b: string, c: string, d: string, sep: char) {
    exists x: string :: a == Join(c, sep, x) && d == Join(x, sep, b)
  }

  /** Two joined pairs are the same string exactly when the pairs are equal or overlap. */
  lemma JoinCollides(a: string, b: string, c: string, d: string, sep: char)
    ensures Join(a, sep, b) == Join(c, sep, d) <==>
            (a == c && b == d) || Overlap(a, b, c, d, sep) || Overlap(c, d, a, b, sep)
  {
    if Join(a, sep, b) == Join(c, sep, d) {
      if |a| >= |c| {
        JoinCollidesOneWay(a, b, c, d, sep);
      } else {
        JoinCollidesOneWay(c, d, a, b, sep);
      }
    }
    if Overlap(a, b, c, d, sep) {
      JoinOverlapEqual(a, b, c, d, sep);
    }
    if Overlap(c, d, a, b, sep) {
      JoinOverlapEqual(c, d, a, b, sep);
    }
  }

  lemma JoinOverlapEqual(a: string, b: string, c: string, d: string, sep: char)
    requires Overlap(a, b, c, d, sep)
    ensures Join(a, sep, b) == Join(c, sep, d)
  {
    var x :| a == Join(c, sep, x) && d == Join(x, sep, b);
    assert Join(a, sep, b) == c + [sep] + x + [sep] + b == Join(c, sep, d);
  }

  lemma JoinCollidesOneWay(a: string, b: string, c: string, d: string, sep: char)
    requires |a| >= |c|
    requires Join(a, sep, b) == Join(c, sep, d)
    ensures (a == c && b == d) || Overlap(a, b, c, d, sep)
  {
    var s := Join(a, sep, b);
    assert a == s[..|a|] && c == s[..|c|] && b == s[|a| + 1..] && d == s[|c| + 1..];
    if |a| > |c| {
      assert s[|c|] == sep && s[|a|] == sep;
      var x := s[|c| + 1..|a|];
      assert a == Join(c, sep, x);
      assert d == Join(x, sep, b);
    }
  }

  /** With no separator in the left pieces, joining loses nothing. */
  lemma JoinInjective(a: string, b: string, c: string, d: string, sep: char)
    requires sep !in a && sep !in c
    requires Join(a, sep, b) == Join(c, sep, d)
    ensures a == c && b == d
  {
    JoinCollides(a, b, c, d, sep);
    OverlapHasSeparator(a, b, c, d, sep);
    OverlapHasSeparator(c, d, a, b, sep);
  }

  lemma OverlapHasSeparator(a: string, b: string, c: string, d: string, sep: char)
    ensures Overlap(a, b, c, d, sep) ==> sep in a
  {
    if Overlap(a, b, c, d, sep) {
      var x :| a == Join(c, sep, x) && d == Join(x, sep, b);
      assert Join(c, sep, x)[|c|] == sep;
    }
  }
}
