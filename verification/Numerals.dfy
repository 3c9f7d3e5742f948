// Positional numerals: the digits of a number, the number of some digits, and the
// form with a comma between groups of three.
module Numerals {

  type Base = b: nat | b >= 2 witness 2

  type Digits = seq<nat>

  predicate AreDigits(d: Digits, b: Base) {
    forall i :: 0 <= i < |d| ==> d[i] < b
  }

  /** The digits of n, highest first, without leading zeros; none for zero. */
  function DigitsOf(n: nat, b: Base): (d: Digits)
    ensures AreDigits(d, b)
    ensures d != [] ==> d[0] > 0
    ensures d == [] <==> n == 0
  {
    if n == 0 then [] else Quotient(n, b); DigitsOf(n / b, b) + [n % b]
  }

  lemma Quotient(n: nat, b: Base)
    requires n > 0
    ensures n / b < n
  {
    assert n == b * (n / b) + n % b;
    if n / b > 0 {
      assert b * (n / b) >= 2 * (n / b) by { MulMonotone(n / b, 2, b); }
    }
  }

  lemma MulMonotone(x: nat, a: nat, b: nat)
    requires a <= b
    ensures a * x <= b * x
  {
  }

  function ValueOf(d: Digits, b: Base): nat {
    if d == [] then 0 else ValueOf(d[..|d| - 1], b) * b + d[|d| - 1]
  }

  lemma {:induction false} ValueOfDigits(n: nat, b: Base)
    ensures ValueOf(DigitsOf(n, b), b) == n
  {
    if n > 0 {
      Quotient(n, b);
      ValueOfDigits(n / b, b);
      ValueOfMore(DigitsOf(n / b, b), n % b, b);
      DivideAgain(n, b);
    }
  }

  lemma ValueOfMore(d: Digits, x: nat, b: Base)
    ensures ValueOf(d + [x], b) == ValueOf(d, b) * b + x
  {
    assert (d + [x])[..|d|] == d;
  }

  lemma DivideAgain(n: nat, b: Base)
    ensures n / b * b + n % b == n
  {
  }

  lemma DivideBack(v: nat, x: nat, b: Base)
    requires x < b
    ensures (v * b + x) / b == v && (v * b + x) % b == x
  {
    var n := v * b + x;
    var q, r := n / b, n % b;
    assert n == q * b + r;
    if q > v {
      MulMonotone(b, v + 1, q);
    } else if q < v {
      MulMonotone(b, q + 1, v);
    }
  }

  /** Digits without leading zeros are the digits of their value: numerals are unique. */
  lemma {:induction false} DigitsOfValue(d: Digits, b: Base)
    requires AreDigits(d, b) && (d != [] ==> d[0] > 0)
    ensures DigitsOf(ValueOf(d, b), b) == d
    decreases |d|
  {
    if d != [] {
      var front, last := d[..|d| - 1], d[|d| - 1];
      DigitsOfValue(front, b);
      DivideBack(ValueOf(front, b), last, b);
      assert d == front + [last];
      if front == [] {
        assert ValueOf(d, b) == last > 0;
      } else {
        assert ValueOf(front, b) > 0;
        assert ValueOf(front, b) * b >= 1 * b by { MulMonotone(b, 1, ValueOf(front, b)); }
      }
    }
  }

  lemma {:induction false} ValueOfJoin(x: Digits, y: Digits, b: Base)
    ensures ValueOf(x + y, b) == ValueOf(x, b) * Power(b, |y|) + ValueOf(y, b)
    decreases |y|
  {
    if y == [] {
      assert x + y == x;
    } else {
      var n := |y| - 1;
      assert (x + y)[..|x + y| - 1] == x + y[..n];
      ValueOfJoin(x, y[..n], b);
      assert Power(b, |y|) == Power(b, n) * b;
      Distribute(ValueOf(x, b), Power(b, n), ValueOf(y[..n], b), b);
    }
  }

  lemma Distribute(v: nat, p: nat, w: nat, b: nat)
    ensures (v * p + w) * b == v * (p * b) + w * b
  {
  }

  function Power(b: Base, n: nat): (p: nat)
    ensures p > 0
  {
    if n == 0 then 1 else Power(b, n - 1) * b
  }

  // ----- characters

  const ZERO_CHAR: nat := '0' as int
  const COMMA: nat := ',' as int

  function DigitChar(d: nat): (c: nat)
    requires d < 16
    ensures c != COMMA && c > 0
  {
    if d < 10 then ('0' as int) + d else ('A' as int) + d - 10
  }

  /** A numeral as text. */
  function Chars(d: Digits): (t: seq<nat>)
    requires AreDigits(d, 16)
    ensures |t| == |d| && forall i :: 0 <= i < |d| ==> t[i] == DigitChar(d[i])
  {
    seq(|d|, i requires 0 <= i < |d| => DigitChar(d[i]))
  }

  lemma WiderBase(d: Digits)
    requires AreDigits(d, 10)
    ensures AreDigits(d, 16)
  {
  }

  /** The decimal numeral of n, "0" for zero. */
  function Decimal(n: nat): (t: seq<nat>)
    ensures |t| > 0
  {
    WiderBase(DigitsOf(n, 10));
    if n == 0 then [ZERO_CHAR] else Chars(DigitsOf(n, 10))
  }

  function Hexadecimal(n: nat): (t: seq<nat>)
    ensures |t| > 0
  {
    if n == 0 then [ZERO_CHAR] else Chars(DigitsOf(n, 16))
  }

  // ----- commas

  /** A comma between every group of g, counted from the right. */
  function Grouped(t: seq<nat>, g: nat): seq<nat>
    requires g > 0
    decreases |t|
  {
    if |t| <= g then t else Grouped(t[..|t| - g], g) + [COMMA] + t[|t| - g..]
  }

  /** The usual groups of three. */
  function WithCommas(t: seq<nat>): seq<nat> {
    Grouped(t, 3)
  }

  lemma GroupedSplit(t: seq<nat>, g: nat)
    requires g > 0 && |t| > g
    ensures Grouped(t, g) == Grouped(t[..|t| - g], g) + [COMMA] + t[|t| - g..]
  {
  }

  lemma FewGrouped(t: seq<nat>, g: nat)
    requires g > 0 && |t| <= g
    ensures Grouped(t, g) == t
  {
  }

  /** A further character goes in front, behind a comma when the text so far is whole groups. */
  lemma {:induction false} GroupedGrow(c: nat, t: seq<nat>, g: nat)
    requires g > 0
    ensures Grouped([c] + t, g) == [c] + (if |t| > 0 && |t| % g == 0 then [COMMA] else []) + Grouped(t, g)
    decreases |t|
  {
    hide Grouped;
    var u := [c] + t;
    if |t| > g {
      var front, last := t[..|t| - g], t[|t| - g..];
      GroupedGrow(c, front, g);
      GroupedSplit(t, g);
      GroupedSplit(u, g);
      GroupLess(|t|, g);
      assert u[..|u| - g] == [c] + front && u[|u| - g..] == last;
      JoinFront(c, |front| % g == 0, Grouped(front, g), last, Grouped(u, g), Grouped(t, g));
    } else if |t| == g {
      GroupedSplit(u, g);
      FewGrouped(t, g);
      FewGrouped([c], g);
      assert u[..1] == [c] && u[1..] == t;
    } else {
      FewGrouped(t, g);
      FewGrouped(u, g);
    }
  }

  lemma GroupLess(n: nat, g: nat)
    requires 0 < g <= n
    ensures (n - g) % g == n % g
  {
    var q, r := n / g, n % g;
    assert n == g * q + r;
    assert n - g == (q - 1) * g + r;
    if q > 0 && g > 1 {
      DivideBack(q - 1, r, g);
    }
  }

  lemma JoinFront(c: nat, group: bool, front: seq<nat>, last: seq<nat>, grown: seq<nat>, whole: seq<nat>)
    requires whole == front + [COMMA] + last
    requires grown == ([c] + (if group then [COMMA] else []) + front) + [COMMA] + last
    ensures grown == [c] + (if group then [COMMA] else []) + whole
  {
  }

  lemma {:induction false} GroupedBytes(t: seq<nat>, g: nat)
    requires g > 0 && forall i :: 0 <= i < |t| ==> t[i] < 256
    ensures forall i :: 0 <= i < |Grouped(t, g)| ==> Grouped(t, g)[i] < 256
    decreases |t|
  {
    if |t| > g {
      GroupedBytes(t[..|t| - g], g);
    }
  }

  function WithoutCommas(t: seq<nat>): seq<nat> {
    if t == [] then [] else (if t[0] == COMMA then [] else [t[0]]) + WithoutCommas(t[1..])
  }

  lemma {:induction false} WithoutCommasJoin(x: seq<nat>, y: seq<nat>)
    ensures WithoutCommas(x + y) == WithoutCommas(x) + WithoutCommas(y)
    decreases |x|
  {
    if x == [] {
      assert x + y == y;
    } else {
      assert (x + y)[1..] == x[1..] + y;
      WithoutCommasJoin(x[1..], y);
    }
  }

  lemma {:induction false} NothingToDelete(t: seq<nat>)
    requires COMMA !in t
    ensures WithoutCommas(t) == t
    decreases |t|
  {
    if t != [] {
      NothingToDelete(t[1..]);
    }
  }

  lemma OneComma()
    ensures WithoutCommas([COMMA]) == []
  {
  }

  /** Deleting the commas gives the text back. */
  lemma {:induction false} CommasDeleted(t: seq<nat>, g: nat)
    requires COMMA !in t && g > 0
    ensures WithoutCommas(Grouped(t, g)) == t
    decreases |t|
  {
    hide WithoutCommas;
    if |t| <= g {
      NothingToDelete(t);
    } else {
      var x, y := t[..|t| - g], t[|t| - g..];
      CommasDeleted(x, g);
      NothingToDelete(y);
      WithoutCommasJoin(Grouped(x, g) + [COMMA], y);
      WithoutCommasJoin(Grouped(x, g), [COMMA]);
      OneComma();
      assert t == x + y;
    }
  }

  /** A comma stands exactly behind every group of places from the right, and never first. */
  lemma {:induction false} CommaPlaces(t: seq<nat>, g: nat, j: nat)
    requires COMMA !in t && g > 0 && j < |Grouped(t, g)|
    ensures Grouped(t, g)[|Grouped(t, g)| - 1 - j] == COMMA <==> j % (g + 1) == g
    ensures t != [] ==> Grouped(t, g)[0] != COMMA
    decreases |t|
  {
    if j <= g {
      SmallRemainder(j, g + 1);
    }
    if |t| > g {
      var x := t[..|t| - g];
      if j > g {
        GroupLess(j, g + 1);
        CommaPlaces(x, g, j - (g + 1));
      } else {
        CommaPlaces(x, g, 0);
      }
    }
  }

  lemma SmallRemainder(j: nat, m: nat)
    requires j < m
    ensures j % m == j
  {
  }
}
