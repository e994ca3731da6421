/** Python's order on strings and on (number, number, string) keys. */
module Ordering {

  /** Strict lexicographic order by code point. */
  predicate StringLess(a: string, b: string) {
    b != [] && (a == [] || a[0] < b[0] || (a[0] == b[0] && StringLess(a[1..], b[1..])))
  }

  /** The strings part at position i, where a has the smaller character. */
  ghost predicate PartsAt(a: string, b: string, i: int) {
    0 <= i < |a| && i < |b| && a[..i] == b[..i] && a[i] < b[i]
  }

  lemma PartsLater(c: char, x: string, y: string, i: int)
    ensures i >= 0 ==> (PartsAt([c] + x, [c] + y, i + 1) <==> PartsAt(x, y, i))
    ensures !PartsAt([c] + x, [c] + y, 0)
  {
    if 0 <= i < |x| && i < |y| {
      var a, b := [c] + x, [c] + y;
      assert a[..i + 1] == [c] + x[..i] && b[..i + 1] == [c] + y[..i];
      assert a[..i + 1][1..] == x[..i] && b[..i + 1][1..] == y[..i];
    }
  }

  /** The first place where two strings differ decides, and a proper beginning comes first. */
  lemma {:induction false} StringLessExactly(a: string, b: string)
    ensures StringLess(a, b) <==> a < b || exists i :: PartsAt(a, b, i)
  {
    if a == [] || b == [] {
    } else if a[0] == b[0] {
      var x, y := a[1..], b[1..];
      StringLessExactly(x, y);
      assert a == [a[0]] + x && b == [a[0]] + y;
      hide PartsAt;
      PartsLater(a[0], x, y, 0);
      if i :| PartsAt(x, y, i) {
        PartsAtIndex(x, y, i);
        PartsLater(a[0], x, y, i);
      }
      if i :| PartsAt(a, b, i) {
        PartsAtIndex(a, b, i);
        PartsLater(a[0], x, y, i - 1);
      }
    } else {
      forall i | PartsAt(a, b, i) ensures i == 0 {
        PartsAtIndex(a, b, i);
      }
      assert a[0] < b[0] ==> PartsAt(a, b, 0);
    }
  }

  lemma PartsAtIndex(a: string, b: string, i: int)
    ensures PartsAt(a, b, i) ==> i >= 0 && a != [] && b != []
    ensures PartsAt(a, b, i) && i > 0 ==> a[0] == b[0]
  {
    if PartsAt(a, b, i) && i > 0 {
      assert a[0] == a[..i][0] && b[0] == b[..i][0];
    }
  }

  /** Strings that share a beginning are ordered by the next character; a beginning precedes what continues it. */
  lemma {:induction false} StringLessWritten(p: string, c: char, d: char, s: string, t: string)
    ensures c < d ==> StringLess(p + [c] + s, p + [d] + t)
    ensures StringLess(p, p + [c] + s)
  {
    var a, b := p + [c] + s, p + [d] + t;
    StringLessExactly(a, b);
    StringLessExactly(p, a);
    assert a[..|p|] == p == b[..|p|] && a[|p|] == c && b[|p|] == d;
    assert c < d ==> PartsAt(a, b, |p|);
    assert p < a;
  }

  lemma {:induction false} StringLessTotal(a: string, b: string)
    ensures a == b || StringLess(a, b) || StringLess(b, a)
  {
    if a != [] && b != [] && a[0] == b[0] {
      StringLessTotal(a[1..], b[1..]);
      if a[1..] == b[1..] {
        assert a == [a[0]] + a[1..] && b == [b[0]] + b[1..];
      }
    }
  }

  lemma {:induction false} StringLessTransitive(a: string, b: string, c: string)
    requires StringLess(a, b) && StringLess(b, c)
    ensures StringLess(a, c)
  {
    if a != [] && a[0] == b[0] && b[0] == c[0] {
      StringLessTransitive(a[1..], b[1..], c[1..]);
    }
  }

  lemma {:induction false} StringLessIrreflexive(a: string)
    ensures !StringLess(a, a)
  {
    if a != [] {
      StringLessIrreflexive(a[1..]);
    }
  }

  lemma {:induction false} StringLessAsymmetric(a: string, b: string)
    requires StringLess(a, b)
    ensures !StringLess(b, a)
  {
    if StringLess(b, a) {
      StringLessTransitive(a, b, a);
      StringLessIrreflexive(a);
    }
  }

  /** Not being less is transitive too, because the order is total. */
  lemma {:induction false} StringNotLessTransitive(a: string, b: string, c: string)
    requires !StringLess(b, a) && !StringLess(c, b)
    ensures !StringLess(c, a)
  {
    StringLessTotal(b, a);
    if StringLess(c, a) && StringLess(a, b) {
      StringLessTransitive(c, a, b);
    }
  }

  datatype Key = Key(first: int, second: int, name: string)

  predicate KeyLess(a: Key, b: Key) {
    a.first < b.first
    || (a.first == b.first && (a.second < b.second || (a.second == b.second && StringLess(a.name, b.name))))
  }

  lemma KeyLessTransitive(a: Key, b: Key, c: Key)
    requires KeyLess(a, b) && KeyLess(b, c)
    ensures KeyLess(a, c)
  {
    if a.first == c.first && a.second == c.second {
      StringLessTransitive(a.name, b.name, c.name);
    }
  }

  lemma KeyLessAsymmetric(a: Key, b: Key)
    requires KeyLess(a, b)
    ensures !KeyLess(b, a)
  {
    if a.first == b.first && a.second == b.second {
      StringLessAsymmetric(a.name, b.name);
    }
  }

  /** Not being less is transitive too, because the order is total. */
  lemma KeyNotLessTransitive(a: Key, b: Key, c: Key)
    requires !KeyLess(b, a) && !KeyLess(c, b)
    ensures !KeyLess(c, a)
  {
    if KeyLess(c, a) {
      StringLessTotal(a.name, b.name);
      StringLessTotal(b.name, c.name);
      if a == b {
      } else if KeyLess(a, b) {
        KeyLessTransitive(c, a, b);
      }
    }
  }
}
