/**
 * src/strategy/linear.rs: keys with increasing secret scalars. Element i
 * has secret scalar `(i as u32) + seed` and public point that scalar
 * times G, computed by one fixed-base multiplication per element.
 */
module Linear {
  import opened Wrappers
  import opened Bytes
  import opened Secp256k1
  import opened Utils
  import opened Strategy

  /** The strategy's state; the multiplication tables are not modelled. */
  datatype LinearStrategy = LinearStrategy(maxIters: nat, seed: Scalar, init: Jacobian)

  /**
   * `LinearStrategy::new`: panic with "overflow" unless the 32 seed bytes
   * denote a number below n; otherwise keep that number as the seed and
   * seed·G as `init`.
   */
  method New(maxIters: nat, seedBytes: Bytes32) returns (r: Result<LinearStrategy, Panic>)
    ensures r.Failure? <==> BeValue(seedBytes) >= N
    ensures r.Failure? ==> r.error == SeedOverflow
    ensures r.Success? ==> r.value.maxIters == maxIters && r.value.seed == BeValue(seedBytes)
    ensures r.Success? ==> r.value.init == EcmultGen(r.value.seed)
  {
    var seed: Scalar := 0;
    var decoded := SetB32(seedBytes);
    seed := decoded.0;
    if decoded.1 {
      return Failure(SeedOverflow);
    }
    var init := G;
    init := EcmultGen(seed);
    return Success(LinearStrategy(maxIters, seed, init));
  }

  /**
   * Element i as a scalar and a point: the point is the scalar times G,
   * and the scalar is congruent to `(i as u32) + seed` modulo n. The clone
   * of `init` that `ecmult_gen` receives is overwritten, so `init` plays
   * no part.
   */
  function Element(s: LinearStrategy, i: nat): (r: (Scalar, Jacobian))
    ensures r.1 == EcmultGen(r.0)
    ensures (r.0 - AsU32(i) - s.seed) % N == 0
  {
    var sk := ScalarAdd(ScalarFromInt(AsU32(i)), s.seed);
    (sk, EcmultGen(sk))
  }

  /**
   * `drive_unindexed`: the items in ascending index order 0..max_iters,
   * each the converted element of that index.
   */
  function Items(s: LinearStrategy, curve: Curve): (r: seq<Item>)
    ensures |r| == s.maxIters
    ensures forall i | 0 <= i < s.maxIters :: r[i] == IntoKeyPair(curve, Element(s, i).0, Element(s, i).1)
  {
    seq(s.maxIters, i requires 0 <= i < s.maxIters => IntoKeyPair(curve, Element(s, i).0, Element(s, i).1))
  }

  /** `opt_len`: the exact number of items the strategy yields. */
  function OptLen(s: LinearStrategy): (r: Option<nat>)
    ensures forall curve: Curve :: r == Some(|Items(s, curve)|)
  {
    Some(s.maxIters)
  }

  /** Below 2^32, element i is (seed + i) mod n and its point is that scalar times G. */
  lemma ElementIsSeedPlusIndex(s: LinearStrategy, i: nat)
    requires i < Two32
    ensures Element(s, i).0 == (s.seed + i) % N
    ensures Element(s, i).1 == EcmultGen((s.seed + i) % N)
  {
  }

  /**
   * Below 2^32, element i's point is `init` with G added i times: the
   * incremental computation and the direct multiplication agree.
   */
  lemma ElementIsIncremental(s: LinearStrategy, i: nat)
    requires s.init == EcmultGen(s.seed)
    requires i < Two32
    ensures Element(s, i).1 == AddGTimes(s.init, i)
  {
    AddGTimesIsMul(s.seed, i);
  }

  /** The `as u32` cast makes the sequence repeat with period 2^32. */
  lemma ElementWraps(s: LinearStrategy, i: nat)
    ensures Element(s, i + Two32) == Element(s, i)
  {
  }

  /** Below 2^32 no secret scalar repeats. */
  lemma ElementsDistinct(s: LinearStrategy, i: nat, j: nat)
    requires i < j < Two32
    ensures Element(s, i).0 != Element(s, j).0
  {
    ElementIsSeedPlusIndex(s, i);
    ElementIsSeedPlusIndex(s, j);
  }

  /**
   * On a sound curve an item converts exactly when its scalar is not zero,
   * and then carries that secret key and the library's public key for it.
   */
  lemma ItemConverts(s: LinearStrategy, curve: Curve, i: nat)
    requires Sound(curve)
    requires i < s.maxIters
    ensures Items(s, curve)[i].Success? <==> Element(s, i).0 != 0
    ensures Element(s, i).0 == 0 ==> Items(s, curve)[i] == Failure(SecretKeyUnparsable)
    ensures Element(s, i).0 != 0 ==>
      var sk := SecretKey(Element(s, i).0);
      Items(s, curve)[i] == Success(KeyPair(sk, KeypairPublic(curve, sk)))
  {
    IntoKeyPairOfMul(curve, Element(s, i).0);
  }
}
