/** Paillier ciphertexts: (1 + mN) r^N modulo N^2, and their products and powers. */
module Paillier {
  import opened Numerals
  import opened ModArith
  import opened SignedPower

  lemma SquarePositive(n: int)
    requires n > 1
    ensures n * n > n > 0
  {
    MulMonotone(n, 2, n);
  }

  /** Encryption of `m` with randomness `r`, in the steps of the code. */
  function Encrypt(n: int, m: int, r: int): Option<nat>
    requires n > 1
  {
    SquarePositive(n);
    if m < 0 || r <= 0 || m >= n || ModInverse(r, n).None? then None
    else
      var square := n * n;
      var mn := (m * n) % square;
      var factor := (mn + 1) % square;
      var rn := Pow(r, n) % square;
      Some((factor * rn) % square)
  }

  /** What can be encrypted: plaintexts below N, with randomness that has an inverse. */
  lemma EncryptIff(n: int, m: int, r: int)
    requires n > 1
    ensures Encrypt(n, m, r).Some? <==> 0 <= m < n && r > 0 && exists x :: Inverse(r, x, n)
  {
    hide Pow;
    if x :| Inverse(r, x, n) {
      InverseFound(r, x, n);
    }
  }

  /** The ciphertext before it is reduced. */
  function Cipher(n: int, m: int, r: int): int
    requires n > 1
  {
    (1 + m * n) * Pow(r, n)
  }

  lemma EncryptIsCipher(n: int, m: int, r: int)
    requires n > 1 && 0 <= m < n && r > 0 && ModInverse(r, n).Some?
    ensures n * n > 0 && Encrypt(n, m, r) == Some(Cipher(n, m, r) % (n * n))
  {
    SquarePositive(n);
    var square := n * n;
    CongMod(m * n, square);
    CongAdd((m * n) % square, m * n, 1, 1, square);
    CongMod((m * n) % square + 1, square);
    CongMod(Pow(r, n), square);
    CongMul(((m * n) % square + 1) % square, 1 + m * n, Pow(r, n) % square, Pow(r, n), square);
  }

  // ----- one plus a multiple of N -----

  lemma Linear(n: int, x: int, y: int)
    requires n > 1
    ensures n * n > 0 && Cong((1 + x * n) * (1 + y * n), 1 + (x + y) * n, n * n)
  {
    SquarePositive(n);
    assert (x * n) * (y * n) == (x * y) * (n * n) by { Shuffle(x, n, y, n); }
    assert (1 + x * n) * (1 + y * n) == 1 + x * n + y * n + (x * n) * (y * n);
    CongIntro((1 + x * n) * (1 + y * n), 1 + (x + y) * n, x * y, n * n);
  }

  lemma {:induction false} PowLinear(n: int, x: int, e: nat)
    requires n > 1
    ensures n * n > 0 && Cong(Pow(1 + x * n, e), 1 + (x * e) * n, n * n)
  {
    hide Cong;
    SquarePositive(n);
    if e > 0 {
      PowLinear(n, x, e - 1);
      var a, b := 1 + x * n, 1 + (x * (e - 1)) * n;
      CongScale(Pow(a, e - 1), b, a, n * n);
      Linear(n, x, x * (e - 1));
      assert x + x * (e - 1) == x * e;
      CongTrans(a * Pow(a, e - 1), a * b, 1 + (x * e) * n, n * n);
    } else {
      CongSame(Pow(1 + x * n, 0), 1 + (x * 0) * n, n * n);
    }
  }

  lemma SignedLinear(n: int, x: int, e: int)
    requires n > 1
    ensures n * n > 0 && Cong(SignedPow(1 + x * n, 1 - x * n, e), 1 + (x * e) * n, n * n)
  {
    if e >= 0 {
      PowLinear(n, x, e);
    } else {
      PowLinear(n, -x, -e);
      assert (-x) * n == -(x * n);
      assert (-x) * (-e) == x * e;
    }
  }

  lemma LinearInverse(n: int, x: int)
    requires n > 1
    ensures n * n > 0 && Inverse(1 + x * n, 1 - x * n, n * n)
  {
    Linear(n, x, -x);
    assert (-x) * n == -(x * n);
  }

  /** What is one modulo N has an N-th power that is one modulo N^2. */
  lemma Lift(n: int, a: int)
    requires n > 1 && Cong(a, 1, n)
    ensures n * n > 0 && Cong(Pow(a, n), 1, n * n)
  {
    var k := CongElim(a, 1, n);
    PowLinear(n, k, n);
    assert (k * n) * n == k * (n * n) by { MulAssoc(k, n, n); }
    CongIntro(1 + (k * n) * n, 1, k, n * n);
  }

  lemma UnitPower(n: int, r: int, x: int)
    requires n > 1 && Inverse(r, x, n)
    ensures n * n > 0 && Inverse(Pow(r, n), Pow(x, n), n * n)
  {
    Lift(n, r * x);
    PowProduct(r, x, n);
  }

  // ----- ciphertexts -----

  function CipherInverse(n: int, m: int, x: int): int
    requires n > 1
  {
    (1 - m * n) * Pow(x, n)
  }

  lemma CipherIsUnit(n: int, m: int, r: int, x: int)
    requires n > 1 && Inverse(r, x, n)
    ensures n * n > 0 && Inverse(Cipher(n, m, r), CipherInverse(n, m, x), n * n)
  {
    LinearInverse(n, m);
    UnitPower(n, r, x);
    var a, a', b, b' := 1 + m * n, 1 - m * n, Pow(r, n), Pow(x, n);
    CongMul(a * a', 1, b * b', 1, n * n);
    Shuffle(a, b, a', b');
  }

  /** A power of a ciphertext: the plaintext is multiplied, the randomness raised. */
  lemma CipherPower(n: int, m: int, r: int, x: int, e: int)
    requires n > 1
    ensures n * n > 0
    ensures Cong(SignedPow(Cipher(n, m, r), CipherInverse(n, m, x), e),
                 (1 + (m * e) * n) * SignedPow(Pow(r, n), Pow(x, n), e), n * n)
  {
    SquarePositive(n);
    SignedProduct(1 + m * n, 1 - m * n, Pow(r, n), Pow(x, n), e);
    SignedLinear(n, m, e);
    CongScale(SignedPow(1 + m * n, 1 - m * n, e), 1 + (m * e) * n, SignedPow(Pow(r, n), Pow(x, n), e), n * n);
  }

  /** Multiplying ciphertexts adds plaintexts. */
  lemma CipherProduct(n: int, m: int, r: int, m': int, r': int)
    requires n > 1
    ensures n * n > 0 && Cong(Cipher(n, m, r) * Cipher(n, m', r'), Cipher(n, m + m', r * r'), n * n)
  {
    SquarePositive(n);
    Linear(n, m, m');
    PowProduct(r, r', n);
    Shuffle(1 + m * n, Pow(r, n), 1 + m' * n, Pow(r', n));
    CongScale((1 + m * n) * (1 + m' * n), 1 + (m + m') * n, Pow(r, n) * Pow(r', n), n * n);
  }

  /** Only the plaintext modulo N matters. */
  lemma CipherCong(n: int, m: int, m': int, r: int)
    requires n > 1 && Cong(m, m', n)
    ensures n * n > 0 && Cong(Cipher(n, m, r), Cipher(n, m', r), n * n)
  {
    SquarePositive(n);
    LinearCong(n, m, m');
    CongScale(1 + m * n, 1 + m' * n, Pow(r, n), n * n);
  }

  lemma LinearCong(n: int, m: int, m': int)
    requires n > 1 && Cong(m, m', n)
    ensures n * n > 0 && Cong(1 + m * n, 1 + m' * n, n * n)
  {
    SquarePositive(n);
    var k := CongElim(m, m', n);
    assert (m' + k * n) * n == m' * n + k * (n * n) by { MulAssoc(k, n, n); }
    CongIntro(1 + m * n, 1 + m' * n, k, n * n);
  }
}
