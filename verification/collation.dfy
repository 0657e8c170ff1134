/**
 * The order SQLite uses to compare two TEXT values under its default BINARY
 * collation: byte-wise comparison of the encodings, a proper prefix sorting
 * first. For UTF-8 the byte order agrees with code-point order, so the model
 * compares characters directly.
 */
module Collation {

  /**
   * `a <= b` in BINARY collation. A prefix of a string, the string itself
   * included, sorts no later than it, and a proper extension sorts after it.
   */
  predicate LexLe(a: string, b: string)
    ensures a <= b ==> LexLe(a, b)
    ensures b < a ==> !LexLe(a, b)
    decreases |a|
  {
    |a| == 0 || (|b| > 0 && (a[0] < b[0] || (a[0] == b[0] && LexLe(a[1..], b[1..]))))
  }

  /** At the first position where the two strings differ, `a` has the smaller character. */
  ghost predicate SmallerAtFirstDifference(a: string, b: string)
  {
    exists k :: 0 <= k < |a| && k < |b| && a[..k] == b[..k] && a[k] < b[k]
  }

  /**
   * The recursive comparison is the byte-wise comparison SQLite performs:
   * `a` sorts no later than `b` iff it is a prefix of `b` or is smaller at the
   * first position where they differ.
   */
  lemma {:induction false} LexLeIsBinaryOrder(a: string, b: string)
    ensures LexLe(a, b) <==> a <= b || SmallerAtFirstDifference(a, b)
    decreases |a|
  {
    if |a| > 0 && |b| > 0 {
      if a[0] < b[0] {
        assert a[..0] == b[..0];
      } else if a[0] == b[0] {
        var a', b' := a[1..], b[1..];
        LexLeIsBinaryOrder(a', b');
        assert a == [a[0]] + a' && b == [b[0]] + b';
        if SmallerAtFirstDifference(a, b) {
          var k :| 0 <= k < |a| && k < |b| && a[..k] == b[..k] && a[k] < b[k];
          assert k > 0;
          assert a'[..k - 1] == a[..k][1..] && b'[..k - 1] == b[..k][1..];
          assert a'[k - 1] < b'[k - 1];
        }
        if SmallerAtFirstDifference(a', b') {
          var k :| 0 <= k < |a'| && k < |b'| && a'[..k] == b'[..k] && a'[k] < b'[k];
          assert a[..k + 1] == [a[0]] + a'[..k] && b[..k + 1] == [b[0]] + b'[..k];
          assert a[k + 1] < b[k + 1];
        }
      }
    } else if |a| > 0 {
      assert !SmallerAtFirstDifference(a, b);
    }
  }

  lemma {:induction false} LexLeReflexive(a: string)
    ensures LexLe(a, a)
    decreases |a|
  {
    if |a| > 0 {
      LexLeReflexive(a[1..]);
    }
  }

  lemma {:induction false} LexLeAntisymmetric(a: string, b: string)
    requires LexLe(a, b) && LexLe(b, a)
    ensures a == b
    decreases |a|
  {
    if |a| > 0 {
      LexLeAntisymmetric(a[1..], b[1..]);
      assert a == [a[0]] + a[1..];
      assert b == [b[0]] + b[1..];
    }
  }

  lemma {:induction false} LexLeTransitive(a: string, b: string, c: string)
    requires LexLe(a, b) && LexLe(b, c)
    ensures LexLe(a, c)
    decreases |a|
  {
    if |a| > 0 && a[0] == b[0] && b[0] == c[0] {
      LexLeTransitive(a[1..], b[1..], c[1..]);
    }
  }

  lemma {:induction false} LexLeTotal(a: string, b: string)
    ensures LexLe(a, b) || LexLe(b, a)
    decreases |a|
  {
    if |a| > 0 && |b| > 0 && a[0] == b[0] {
      LexLeTotal(a[1..], b[1..]);
    }
  }
}
