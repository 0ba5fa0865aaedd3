/** The perfect-number test of testclient/main.cpp, which looks for divisors up to the
    square root only. */
module Perfect {
  predicate Divides(d: int, n: int) {
    d > 0 && n % d == 0
  }

  ghost function ProperDivisors(n: int): set<int> {
    set d | 1 <= d < n && Divides(d, n)
  }

  ghost function Some(s: set<int>): (x: int)
    requires s != {}
    ensures x in s
  {
    assert exists x :: x in s by {
      assert (forall x :: x !in s) ==> s == {};
    }
    var x :| x in s;
    x
  }

  ghost function Sum(s: set<int>): int
    decreases |s|
  {
    if s == {} then 0 else Some(s) + Sum(s - {Some(s)})
  }

  ghost predicate IsPerfect(n: int) {
    n > 0 && Sum(ProperDivisors(n)) == n
  }

  /** The sum does not depend on the order of the summands. */
  lemma {:induction false} SumWithout(s: set<int>, x: int)
    requires x in s
    ensures Sum(s) == x + Sum(s - {x})
    decreases |s|
  {
    hide Some;
    var y := Some(s);
    if y != x {
      SumWithout(s - {y}, x);
      SumWithout(s - {x}, y);
      assert s - {y} - {x} == s - {x} - {y};
    }
  }

  lemma Times(a: int, b: int, d: int)
    requires d > 0
    ensures a <= b ==> d * a <= d * b
  {
  }

  lemma Product(d: int, e: int)
    requires d > 0 && e > 0
    ensures (d * e) % d == 0 && (d * e) / d == e
  {
    var n := d * e;
    var q, r := n / d, n % d;
    assert n == d * q + r;
    Times(q + 1, e, d);
    Times(e + 1, q, d);
    assert d * (q + 1) == d * q + d && d * (e + 1) == d * e + d;
  }

  /** Divisors come in pairs. */
  lemma Cofactor(n: int, d: int)
    requires n > 0 && Divides(d, n)
    ensures n / d > 0 && d * (n / d) == n && Divides(n / d, n) && n / (n / d) == d
  {
    var e := n / d;
    assert n == d * e;
    Times(e, 0, d);
    assert n == e * d;
    Product(e, d);
  }

  /** A proper divisor, or its cofactor, is below any number whose square exceeds `n`. */
  lemma SmallerOfPair(n: int, d: int, i: int)
    requires 0 < n < i * i && i > 0 && Divides(d, n)
    ensures d < i || n / d < i
  {
    Cofactor(n, d);
    Squares(d, n / d, i);
  }

  lemma Squares(d: int, e: int, i: int)
    requires d > 0 && e > 0 && i > 0
    ensures d >= i && e >= i ==> d * e >= i * i
  {
    Times(i, e, d);
    Times(i, d, i);
  }

  lemma Above(i: int, n: int)
    requires 2 <= i && i * i <= n
    ensures i < n
  {
    Times(2, i, i);
  }

  /** The divisors found when all candidates below `i` have been tried. */
  ghost predicate Found(n: int, i: int, s: set<int>) {
    forall d :: d in s <==> d == 1 || (2 <= d < n && Divides(d, n) && (d < i || n / d < i))
  }

  /** A divisor from 2 on has a cofactor below the number. */
  lemma CofactorBelow(n: int, d: int)
    requires n > 0 && Divides(d, n)
    ensures d >= 2 ==> n / d < n
    ensures d < n ==> n / d >= 2
  {
    Cofactor(n, d);
    Times(2, d, n / d);
    Times(n / d, 1, d);
  }

  lemma FoundMore(n: int, i: int, s: set<int>)
    requires 2 <= i && i * i <= n && Found(n, i, s)
    ensures Found(n, i + 1, if n % i == 0 then s + {i, n / i} else s)
  {
    Above(i, n);
    var t := if n % i == 0 then s + {i, n / i} else s;
    if n % i == 0 {
      Cofactor(n, i);
      CofactorBelow(n, i);
    }
    forall d: int
      ensures d in t <==> d == 1 || (2 <= d < n && Divides(d, n) && (d < i + 1 || n / d < i + 1))
    {
      if 2 <= d < n && Divides(d, n) {
        Cofactor(n, d);
      }
    }
  }

  lemma AllFound(n: int, i: int, s: set<int>)
    requires 2 <= n < i * i && i > 0 && Found(n, i, s)
    ensures s == ProperDivisors(n)
  {
    forall d: int
      ensures d in s <==> d in ProperDivisors(n)
    {
      if 1 <= d < n && Divides(d, n) {
        SmallerOfPair(n, d, i);
      }
    }
  }

  /** 1 for a perfect number, and also for 1, whose set of divisors is taken to be {1}. */
  method P(num: int) returns (r: int)
    ensures r == 1 <==> num == 1 || IsPerfect(num)
    ensures r == 0 || r == 1
  {
    var s := {1};
    var i := 2;
    while i * i <= num
      invariant i >= 2 && (num >= 2 ==> Found(num, i, s)) && (num < 2 ==> s == {1})
      decreases num - i
    {
      Above(i, num);
      FoundMore(num, i, s);
      if num % i == 0 {
        s := s + {i, num / i};
      }
      i := i + 1;
    }
    if num >= 2 {
      AllFound(num, i, s);
    }
    var sum, todo := 0, s;
    while todo != {}
      invariant sum + Sum(todo) == Sum(s)
      decreases |todo|
    {
      var x :| x in todo;
      SumWithout(todo, x);
      sum, todo := sum + x, todo - {x};
    }
    SmallNumbers(num);
    r := if sum == num then 1 else 0;
  }

  lemma SmallNumbers(n: int)
    ensures Sum({1}) == 1
    ensures n <= 1 ==> !IsPerfect(n)
  {
    SumWithout({1}, 1);
    assert {1} - {1} == {};
    if n <= 1 {
      assert ProperDivisors(n) == {};
    }
  }
}
