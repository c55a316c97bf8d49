/** Congruence modulo an arbitrary n. */
module Congruence {
  import opened Words

  predicate Apart(n: int, a: int, b: int, k: int) {
    a - b == n * k
  }

  ghost predicate Cong(n: int, a: int, b: int) {
    exists k :: Apart(n, a, b, k)
  }

  lemma CongBy(n: int, a: int, b: int, k: int)
    requires a - b == n * k
    ensures Cong(n, a, b)
  {
    assert Apart(n, a, b, k);
  }

  lemma CongRefl(n: int, a: int)
    ensures Cong(n, a, a)
  {
    CongBy(n, a, a, 0);
  }

  lemma CongSym(n: int, a: int, b: int)
    requires Cong(n, a, b)
    ensures Cong(n, b, a)
  {
    var k :| Apart(n, a, b, k);
    assert n * (-k) == -(n * k);
    CongBy(n, b, a, -k);
  }

  lemma CongTrans(n: int, a: int, b: int, c: int)
    requires Cong(n, a, b) && Cong(n, b, c)
    ensures Cong(n, a, c)
  {
    var i :| Apart(n, a, b, i);
    var j :| Apart(n, b, c, j);
    assert n * (i + j) == n * i + n * j;
    CongBy(n, a, c, i + j);
  }

  lemma CongAdd(n: int, a: int, x: int, b: int, y: int)
    requires Cong(n, a, x) && Cong(n, b, y)
    ensures Cong(n, a + b, x + y)
  {
    var i :| Apart(n, a, x, i);
    var j :| Apart(n, b, y, j);
    assert n * (i + j) == n * i + n * j;
    CongBy(n, a + b, x + y, i + j);
  }

  lemma CongMul(n: int, a: int, x: int, b: int, y: int)
    requires Cong(n, a, x) && Cong(n, b, y)
    ensures Cong(n, a * b, x * y)
  {
    var i :| Apart(n, a, x, i);
    var j :| Apart(n, b, y, j);
    assert a * b - x * y == n * (i * b + x * j) by {
      assert (x + n * i) * b == x * b + n * (i * b);
      assert x * (y + n * j) == x * y + n * (x * j);
      assert n * (i * b + x * j) == n * (i * b) + n * (x * j);
    }
    CongBy(n, a * b, x * y, i * b + x * j);
  }

  lemma CongScale(n: int, c: int, a: int, x: int)
    requires Cong(n, a, x)
    ensures Cong(n, c * a, c * x)
  {
    CongRefl(n, c);
    CongMul(n, c, c, a, x);
  }

  lemma CongMod(n: int, a: int)
    requires n > 0
    ensures Cong(n, a % n, a)
  {
    CongBy(n, a % n, a, -(a / n));
  }

  lemma CongSubtract(n: int, a: int, x: int, b: int, y: int)
    requires Cong(n, a, x) && Cong(n, b, y)
    ensures Cong(n, a - b, x - y)
  {
    CongScale(n, -1, b, y);
    CongAdd(n, a, x, -1 * b, -1 * y);
  }

  lemma CongDifference(n: int, a: int, b: int)
    ensures Cong(n, a, b) <==> Cong(n, a - b, 0)
  {
    if Cong(n, a, b) {
      var k :| Apart(n, a, b, k);
      CongBy(n, a - b, 0, k);
    }
    if Cong(n, a - b, 0) {
      var k :| Apart(n, a - b, 0, k);
      CongBy(n, a, b, k);
    }
  }

  lemma CongZero(n: int, a: int)
    requires n > 0
    ensures a % n == 0 <==> Cong(n, a, 0)
  {
    if a % n == 0 { CongBy(n, a, 0, a / n); }
    if Cong(n, a, 0) {
      var k :| Apart(n, a, 0, k);
      QuoRem(a, n, k, 0);
    }
  }
}
