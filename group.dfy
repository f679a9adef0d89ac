/**
 * The secp256k1 group as the protocol uses it. The group of the curve is cyclic of prime order N
 * and generated by G, so every point is k·G for exactly one k in [0, N): a point is represented by
 * that discrete logarithm, and point addition and scalar multiplication become arithmetic mod N.
 * This is the group law exactly; what a point looks like as coordinates is foreign code (Library).
 */
module Group {

  /** The order n of secp256k1's base point (`ec.curve.n`). */
  const N: nat := 0xFFFF_FFFF_FFFF_FFFF_FFFF_FFFF_FFFF_FFFE_BAAE_DCE6_AF48_A03B_BFD2_5E8C_D036_4141

  /** A private key or blinding scalar, already reduced mod N as elliptic's `keyFromPrivate` reduces it. */
  type Scalar = k: int | 0 <= k < N

  /** A curve point, given by its discrete logarithm with respect to G. */
  datatype Point = Point(log: Scalar)

  /** The base point. */
  const G: Point := Point(1)

  /** The point at infinity, the neutral element. */
  const Infinity: Point := Point(0)

  /**
   * `P.mul(k)`: a multiple of N, or the point at infinity, gives the point at infinity; 1·P is P;
   * k·G is the point whose logarithm is k mod N.
   */
  function Mul(k: nat, p: Point): (r: Point)
    ensures k % N == 0 || p == Infinity ==> r == Infinity
    ensures k == 1 ==> r == p
    ensures p == G ==> r == Point(k % N)
  {
    assert k % N == 0 ==> (k * p.log) % N == 0 by {
      if k % N == 0 {
        MultipleOfN(k / N, p.log);
      }
    }
    Point((k * p.log) % N)
  }

  /** A multiple of N times anything is a multiple of N. */
  lemma MultipleOfN(q: nat, x: nat)
    ensures ((N * q) * x) % N == 0
  {
    assert (N * q) * x == N * (q * x);
  }

  /** `P.add(Q)`: the point at infinity is neutral, and P plus its negation is the point at infinity. */
  function Add(p: Point, q: Point): (r: Point)
    ensures q == Infinity ==> r == p
    ensures p == Infinity ==> r == q
    ensures q.log == (N - p.log) % N ==> r == Infinity
  {
    Point((p.log + q.log) % N)
  }

  /** `ec.keyFromPrivate(k).getPublic()`: k·G; only the zero scalar gives the point at infinity. */
  function PublicKeyOf(k: Scalar): (pk: Point)
    ensures pk == Infinity <==> k == 0
  {
    Mul(k, G)
  }

  /** Reducing a factor first does not change a product mod N. */
  lemma ModMulAbsorb(a: nat, x: nat)
    ensures (a * (x % N)) % N == (a * x) % N
  {
    var q, r := x / N, x % N;
    assert x == N * q + r;
    assert a * x == N * (a * q) + a * r;
    ModAddMultiple(a * r, a * q);
  }

  lemma ModAddMultiple(m: nat, k: nat)
    ensures (m + N * k) % N == m % N
  {
  }

  /**
   * Scalar multiplications commute: a·(b·P) == b·(a·P). With P = G this is the Diffie-Hellman
   * identity e·(sk·G) == sk·(e·G) both parties of a payment rely on.
   */
  lemma MulCommutes(a: nat, b: nat, p: Point)
    ensures Mul(a, Mul(b, p)) == Mul(b, Mul(a, p))
  {
    ModMulAbsorb(a, b * p.log);
    ModMulAbsorb(b, a * p.log);
    assert a * (b * p.log) == b * (a * p.log);
  }

  /** Scalar multiplication by G is additive: ((a + b) mod N)·G == a·G + b·G. */
  lemma PublicKeyOfSum(a: Scalar, b: Scalar)
    ensures PublicKeyOf((a + b) % N) == Add(PublicKeyOf(a), PublicKeyOf(b))
  {
    PublicKeyIsLog(a);
    PublicKeyIsLog(b);
    PublicKeyIsLog((a + b) % N);
  }

  /** A scalar is the discrete logarithm of its own public key. */
  lemma PublicKeyIsLog(k: Scalar)
    ensures PublicKeyOf(k) == Point(k)
  {
    assert k * G.log == k;
  }
}
