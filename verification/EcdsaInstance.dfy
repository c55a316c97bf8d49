/** The seven points of y^2 = x^3 + 10x + 8 modulo 11: the laws of `WeierstrassGroup.Chords` can be met,
    and a key that the code accepts makes a signature that it rejects. */
module EcdsaInstance {
  import opened Words
  import opened Groups
  import opened Primes
  import opened NumberTheory
  import opened Congruence
  import opened Weierstrass
  import opened WeierstrassGroup
  import opened Ecdsa

  const CURVE: Curve := Curve(11, 10, 8)

  /** The multiples of (2, 5). */
  function Seven(i: int): Point {
    match i case 1 => At(2, 5) case 2 => At(7, 6) case 3 => At(6, 3) case 4 => At(6, 8) case 5 => At(7, 5) case 6 => At(2, 6)
            case _ => Infinity
  }

  /** Addition of the multipliers modulo 7. */
  function SevenPoints(): Group<int> {
    Group((x: int) => 0 <= x < 7, 0, (x: int, y: int) => if x + y < 7 then x + y else x + y - 7, (x: int) => if x == 0 then 0 else 7 - x)
  }

  lemma Reflected11(x1: int, y1: int, x2: int, w: Point, l: int, i: int, j: int)
    requires Within(w, 11) && l * l - x1 - x2 == 11 * i + w.x && l * (x1 - w.x) - y1 == 11 * j + w.y
    ensures Reflected(CURVE, x1, y1, x2, l, w)
  {
    QuoRem(l * l - x1 - x2, 11, i, w.x);
    QuoRem(l * (x1 - w.x) - y1, 11, j, w.y);
  }

  /** A chord of slope l, checked by its three quotients. */
  lemma Chord11(u: Point, v: Point, w: Point, l: int, k: int, i: int, j: int)
    requires u.At? && v.At? && u.x != v.x && Within(w, 11) && l * (v.x - u.x) - (v.y - u.y) == 11 * k
    requires l * l - u.x - v.x == 11 * i + w.x && l * (u.x - w.x) - u.y == 11 * j + w.y
    ensures Sums(CURVE, u, v, w) && Sums(CURVE, v, u, w)
  {
    CongBy(11, l * (v.x - u.x), v.y - u.y, k);
    Reflected11(u.x, u.y, v.x, w, l, i, j);
    assert ChordBy(CURVE, u, v, w, l);
    ChordCommutes(CURVE, u, v, w, l);
  }

  lemma Tangent11(u: Point, w: Point, l: int, k: int, i: int, j: int)
    requires u.At? && (2 * u.y) % 11 != 0 && Within(w, 11) && l * (2 * u.y) - (3 * (u.x * u.x) + 10) == 11 * k
    requires l * l - u.x - u.x == 11 * i + w.x && l * (u.x - w.x) - u.y == 11 * j + w.y
    ensures Sums(CURVE, u, u, w)
  {
    CongBy(11, l * (2 * u.y), 3 * (u.x * u.x) + 10, k);
    Reflected11(u.x, u.y, u.x, w, l, i, j);
    SumsByTangent(CURVE, u, w, l);
  }

  lemma SevenDoubles()
    ensures Sums(CURVE, Seven(1), Seven(1), Seven(2))
    ensures Sums(CURVE, Seven(2), Seven(2), Seven(4))
    ensures Sums(CURVE, Seven(3), Seven(3), Seven(6))
    ensures Sums(CURVE, Seven(4), Seven(4), Seven(1))
    ensures Sums(CURVE, Seven(5), Seven(5), Seven(3))
    ensures Sums(CURVE, Seven(6), Seven(6), Seven(5))
  {
    Tangent11(At(2, 5), At(7, 6), 0, -2, -1, -1);
    Tangent11(At(7, 6), At(6, 8), 3, -11, -1, -1);
    Tangent11(At(6, 3), At(2, 6), 5, -8, 1, 1);
    Tangent11(At(6, 8), At(2, 5), 6, -2, 2, 1);
    Tangent11(At(7, 5), At(6, 3), 8, -7, 4, 0);
    Tangent11(At(2, 6), At(7, 5), 0, -2, -1, -1);
  }

  lemma ChordsOfOne()
    ensures Sums(CURVE, Seven(1), Seven(2), Seven(3)) && Sums(CURVE, Seven(2), Seven(1), Seven(3))
    ensures Sums(CURVE, Seven(1), Seven(3), Seven(4)) && Sums(CURVE, Seven(3), Seven(1), Seven(4))
    ensures Sums(CURVE, Seven(1), Seven(4), Seven(5)) && Sums(CURVE, Seven(4), Seven(1), Seven(5))
    ensures Sums(CURVE, Seven(1), Seven(5), Seven(6)) && Sums(CURVE, Seven(5), Seven(1), Seven(6))
  {
    Chord11(At(2, 5), At(7, 6), At(6, 3), 9, 4, 6, -4);
    Chord11(At(2, 5), At(6, 3), At(6, 8), 5, 2, 1, -3);
    Chord11(At(2, 5), At(6, 8), At(7, 5), 9, 3, 6, -5);
    Chord11(At(2, 5), At(7, 5), At(2, 6), 0, 0, -1, -1);
  }

  lemma ChordsOfTwo()
    ensures Sums(CURVE, Seven(2), Seven(3), Seven(5)) && Sums(CURVE, Seven(3), Seven(2), Seven(5))
    ensures Sums(CURVE, Seven(2), Seven(4), Seven(6)) && Sums(CURVE, Seven(4), Seven(2), Seven(6))
    ensures Sums(CURVE, Seven(2), Seven(6), Seven(1)) && Sums(CURVE, Seven(6), Seven(2), Seven(1))
  {
    Chord11(At(7, 6), At(6, 3), At(7, 5), 3, 0, -1, -1);
    Chord11(At(7, 6), At(6, 8), At(2, 6), 9, -1, 6, 3);
    Chord11(At(7, 6), At(2, 6), At(2, 5), 0, 0, -1, -1);
  }

  lemma OtherChords()
    ensures Sums(CURVE, Seven(3), Seven(5), Seven(1)) && Sums(CURVE, Seven(5), Seven(3), Seven(1))
    ensures Sums(CURVE, Seven(3), Seven(6), Seven(2)) && Sums(CURVE, Seven(6), Seven(3), Seven(2))
    ensures Sums(CURVE, Seven(4), Seven(5), Seven(2)) && Sums(CURVE, Seven(5), Seven(4), Seven(2))
    ensures Sums(CURVE, Seven(4), Seven(6), Seven(3)) && Sums(CURVE, Seven(6), Seven(4), Seven(3))
    ensures Sums(CURVE, Seven(5), Seven(6), Seven(4)) && Sums(CURVE, Seven(6), Seven(5), Seven(4))
  {
    Chord11(At(6, 3), At(7, 5), At(2, 5), 2, 0, -1, 0);
    Chord11(At(6, 3), At(2, 6), At(7, 6), 2, -1, -1, -1);
    Chord11(At(6, 8), At(7, 5), At(7, 6), 8, 1, 4, -2);
    Chord11(At(6, 8), At(2, 6), At(6, 3), 6, -2, 2, -1);
    Chord11(At(7, 5), At(2, 6), At(6, 8), 2, -1, -1, -1);
  }

  /** The multiples i and 7 - i are opposite. */
  lemma SevenOpposites(i: int)
    requires 1 <= i <= 6
    ensures Sums(CURVE, Seven(i), Seven(7 - i), Infinity) && Opposite(CURVE, Seven(i), Seven(7 - i))
  {
    CongBy(11, Seven(i).y + Seven(7 - i).y, 0, 1);
    CongBy(11, Seven(7 - i).y, -Seven(i).y, 1);
  }

  lemma SevenOnCurve(i: int)
    requires 0 <= i < 7
    ensures OnCurve(CURVE, Seven(i))
  {
    if i != 0 {
      var u := Seven(i);
      CongBy(11, u.y * u.y, Cubic(CURVE, u.x), match i case 1 => -1 case 2 => -35 case 3 => -25 case 4 => -20 case 5 => -36 case _ => 0);
    }
  }

  lemma SevenSums(i: int, j: int)
    requires 0 <= i < 7 && 0 <= j < 7
    ensures Sums(CURVE, Seven(i), Seven(j), Seven(if i + j < 7 then i + j else i + j - 7))
  {
    if i == 0 || j == 0 {
      assert Seven(0) == Infinity;
    } else if i + j == 7 {
      SevenOpposites(i);
    } else if i == j {
      SevenDoubles();
    } else if i == 1 || j == 1 {
      ChordsOfOne();
    } else if i == 2 || j == 2 {
      ChordsOfTwo();
    } else {
      OtherChords();
    }
  }

  lemma SevenPair(i: int, j: int)
    ensures PairLaw(CURVE, SevenPoints(), Seven, i, j)
  {
    if 0 <= i < 7 && 0 <= j < 7 {
      SevenOnCurve(i);
      SevenSums(i, j);
      if i > 0 { SevenOpposites(i); }
    }
  }

  lemma SevenAbelian()
    ensures Abelian(SevenPoints())
  {
    var g := SevenPoints();
    forall x, y, z {:trigger Laws(g, x, y, z)} ensures Laws(g, x, y, z) {}
  }

  lemma SevenPrimes()
    ensures Prime(7) && Prime(11)
  {
    assert forall d :: 1 < d < 7 ==> 7 % d != 0;
    assert forall d :: 1 < d < 11 ==> 11 % d != 0;
  }

  lemma SevenPointsMeetLaws()
    ensures Chords(CURVE, SevenPoints(), Seven)
  {
    SevenAbelian();
    SevenPrimes();
    forall i, j {:trigger PairLaw(CURVE, SevenPoints(), Seven, i, j)} ensures PairLaw(CURVE, SevenPoints(), Seven, i, j) {
      SevenPair(i, j);
    }
  }

  lemma {:induction false} SevenMultiple(n: nat)
    requires n < 7
    ensures Mul(SevenPoints(), n, 1) == n
  {
    if n > 0 { SevenMultiple(n - 1); }
  }

  const GENERATOR: OrderedPoint := OrderedPoint(At(2, 5), 7)

  /** (2, 5) generates the group and is the public key for the secret 1. */
  lemma GeneratorFor()
    ensures For(CURVE, GENERATOR, SevenPoints(), Seven, 1) && Mul(SevenPoints(), 7, 1) == 0
    ensures Mul(SevenPoints(), 1, 1) == 1 && Mul(SevenPoints(), 2, 1) == 2
  {
    SevenPointsMeetLaws();
    SevenMultiple(1);
    SevenMultiple(2);
    SevenMultiple(6);
    StandsRefl(CURVE, Seven(1));
  }

  method GeneratorKey() returns (key: Result<PublicKey>)
    ensures key == Ok(PublicKey(GENERATOR, GENERATOR))
  {
    GeneratorFor();
    SevenPrimes();
    NeverStuck(SevenPoints(), 1, 7, 0);
    key := NewPublicKey(CURVE, GENERATOR, GENERATOR, SevenPoints(), Seven, 1);
  }

  /** The generator (2, 5) of order 7 is its own public key for the secret 1, and `Public_key` accepts
      it. The signature of 1 with nonce 2 has r = 7, the first coordinate of [2]G, and is rejected. */
  method UnreducedSignature() returns (key: Result<PublicKey>, sig: Result<(int, int)>, v: Result<bool>)
    ensures key == Ok(PublicKey(OrderedPoint(At(2, 5), 7), OrderedPoint(At(2, 5), 7)))
    ensures sig == Ok((7, 4)) && v == Ok(false)
  {
    key := GeneratorKey();
    GeneratorFor();
    SevenPrimes();
    assert NothingZero(7, 1, 1, 2, SevenPoints(), Seven, 1) by { QuoRem(1 + 1 * 7, 7, 1, 1); }
    sig, v := SignThenVerify(CURVE, key.value.generator, key.value.point, 1, 1, 2, SevenPoints(), Seven, 1);
    OnlyFour(sig.value.1);
  }

  /** 2 s = 1 + 7 modulo 7. */
  lemma OnlyFour(s: int)
    requires 0 < s < 7 && Cong(7, s * 2, 1 + 1 * 7)
    ensures s == 4
  {
    CongResidue(7, s * 2, 8);
  }
}
