/**
 * The part of secp256k1 the engine relies on (section 2.4.1 of SEC 2),
 * abstracted to what can be stated without field arithmetic.
 *
 * A point of the cyclic group generated by G is represented by its discrete
 * logarithm in Z_n: `Jacobian(k)` stands for k·G. Fixed-base multiplication
 * then is `k mod n`, adding G is `+1 mod n`, and "the public point is the
 * secret scalar times G" becomes an equation the verifier can check. The
 * affine coordinates of a point are computed by the curve library, which is
 * not part of this model; they enter as the `affine` field of a `Curve`.
 */
module Secp256k1 {
  import opened Bytes

  /** The order n of the group generated by G. */
  const N: nat := 0xFFFFFFFFFFFFFFFFFFFFFFFFFFFFFFFEBAAEDCE6AF48A03BBFD25E8CD0364141

  /** The field prime p. */
  const P: nat := 0xFFFFFFFFFFFFFFFFFFFFFFFFFFFFFFFFFFFFFFFFFFFFFFFFFFFFFFFEFFFFFC2F

  /** 2^32: `Scalar::from_int` takes a `u32`. */
  const Two32: nat := 0x1_0000_0000

  /** A scalar is always reduced modulo n. */
  type Scalar = s: int | 0 <= s < N

  /** A normalised field element. */
  type FieldElem = e: int | 0 <= e < P

  /** Scalar addition, `impl Add for Scalar`: the sum reduced modulo n. */
  function ScalarAdd(a: Scalar, b: Scalar): (r: Scalar)
    ensures (r - a - b) % N == 0
    ensures a + b < N ==> r == a + b
  {
    (a + b) % N
  }

  /** A Rust `as u32` cast of a non-negative integer: keep the low 32 bits. */
  function AsU32(v: nat): (r: nat)
    ensures r < Two32
    ensures v < Two32 ==> r == v
  {
    v % Two32
  }

  /** `Scalar::from_int`, whose argument is a `u32`. */
  function ScalarFromInt(v: nat): Scalar
    requires v < Two32
  {
    v
  }

  /**
   * `Scalar::set_b32`: decode 32 big-endian bytes, reduce modulo n, and
   * report whether the value was at least n.
   */
  function SetB32(bytes: seq<byte>): (r: (Scalar, bool))
    requires |bytes| == 32
    ensures r.1 <==> BeValue(bytes) >= N
    ensures !r.1 ==> r.0 == BeValue(bytes)
    ensures (r.0 - BeValue(bytes)) % N == 0
  {
    var v := BeValue(bytes);
    Pow256Of32();
    if v >= N then (v - N, true) else (v, false)
  }

  /** `Scalar::b32`: the 32-byte big-endian encoding of a scalar. */
  function ScalarB32(s: Scalar): (r: seq<byte>)
    ensures |r| == 32
    ensures BeValue(r) == s
  {
    Pow256Of32();
    BeBytes(s, 32)
  }

  /** `Field::b32`: the 32-byte big-endian encoding of a normalised field element. */
  function FieldB32(e: FieldElem): (r: seq<byte>)
    ensures |r| == 32
    ensures BeValue(r) == e
  {
    Pow256Of32();
    BeBytes(e, 32)
  }

  /** Decoding the encoding of a scalar gives the scalar back, without overflow. */
  lemma SetB32OfB32(s: Scalar)
    ensures SetB32(ScalarB32(s)) == (s, false)
  {
  }

  /** A point k·G of the group, held by its discrete logarithm k. */
  datatype Jacobian = Jacobian(dlog: Scalar)

  /** The generator, `Jacobian::from_ge(&AFFINE_G)`. */
  const G: Jacobian := Jacobian(1)

  /**
   * `ECMultGenContext::ecmult_gen(&mut r, &k)`: fixed-base multiplication.
   * It overwrites its output argument, so its result depends on `k` alone.
   */
  function EcmultGen(k: Scalar): (r: Jacobian)
    ensures r.dlog == k
  {
    Jacobian(k)
  }

  /** `Jacobian::add_ge(&AFFINE_G)`: the point plus G. */
  function AddG(p: Jacobian): (r: Jacobian)
    ensures r == EcmultGen(ScalarAdd(p.dlog, 1))
  {
    Jacobian(ScalarAdd(p.dlog, 1))
  }

  /** `p` with G added to it `m` times. */
  function AddGTimes(p: Jacobian, m: nat): Jacobian
  {
    if m == 0 then p else AddG(AddGTimes(p, m - 1))
  }

  /** Adding G to k·G m times gives (k + m)·G. */
  lemma {:induction false} AddGTimesIsMul(k: Scalar, m: nat)
    ensures AddGTimes(EcmultGen(k), m) == EcmultGen((k + m) % N)
  {
    if m > 0 {
      AddGTimesIsMul(k, m - 1);
      ModAddOne(k + m - 1);
    }
  }

  /** Adding G to itself m - 1 times gives m·G. */
  lemma AddGRepeatedIsMul(m: nat)
    requires 1 <= m
    ensures AddGTimes(G, m - 1) == EcmultGen(m % N)
  {
    AddGTimesIsMul(1, m - 1);
  }

  lemma ModAddOne(x: nat)
    ensures (x % N + 1) % N == (x + 1) % N
  {
  }

  /** An affine point with normalised coordinates. */
  datatype Affine = Affine(x: FieldElem, y: FieldElem)

  /** `Field::is_odd` on a normalised coordinate. */
  predicate IsOdd(e: FieldElem)
  {
    e % 2 == 1
  }

  /** Multiplication in the field of integers modulo p. */
  function FieldMul(a: FieldElem, b: FieldElem): FieldElem
  {
    (a * b) % P
  }

  /** y^2 = x^3 + 7 over the field. */
  predicate OnCurve(a: Affine)
  {
    FieldMul(a.y, a.y) == (FieldMul(FieldMul(a.x, a.x), a.x) + 7) % P
  }

  /**
   * The curve library's side of the model: the normalised affine coordinates
   * of k·G (`Affine::from_gej` followed by `normalize`).
   */
  datatype Curve = Curve(affine: Scalar -> Affine)

  /** Every point other than the point at infinity has coordinates on the curve. */
  ghost predicate Sound(c: Curve)
  {
    forall k: Scalar :: k != 0 ==> OnCurve(c.affine(k))
  }
}
