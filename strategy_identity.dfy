/**
 * src/strategy/identity.rs: a single key, the seed itself, for checking one
 * known secret rather than searching.
 */
module Identity {
  import opened Wrappers
  import opened Bytes
  import opened Secp256k1
  import opened Utils
  import opened Strategy

  /** The strategy's state; the multiplication tables are not modelled. */
  datatype IdentityStrategy = IdentityStrategy(seed: Scalar, init: Jacobian)

  /**
   * `IdentityStrategy::new`: panic with "overflow" unless the 32 seed bytes
   * denote a number below n; otherwise store that number unchanged as the
   * seed and seed·G as `init`.
   */
  method New(seedBytes: Bytes32) returns (r: Result<IdentityStrategy, Panic>)
    ensures r.Failure? <==> BeValue(seedBytes) >= N
    ensures r.Failure? ==> r.error == SeedOverflow
    ensures r.Success? ==> r.value.seed == BeValue(seedBytes) && r.value.init == EcmultGen(r.value.seed)
  {
    var seed: Scalar := 0;
    var decoded := SetB32(seedBytes);
    seed := decoded.0;
    if decoded.1 {
      return Failure(SeedOverflow);
    }
    var init := G;
    init := EcmultGen(seed);
    return Success(IdentityStrategy(seed, init));
  }

  /**
   * `drive_unindexed`: exactly one item, the seed as secret scalar and
   * seed·G as point.
   */
  function Items(s: IdentityStrategy, curve: Curve): (r: seq<Item>)
    ensures |r| == 1
    ensures r[0] == IntoKeyPair(curve, s.seed, EcmultGen(s.seed))
  {
    var pk := EcmultGen(s.seed);
    [IntoKeyPair(curve, s.seed, pk)]
  }

  /** `opt_len`: exactly the one item the strategy yields. */
  function OptLen(s: IdentityStrategy): (r: Option<nat>)
    ensures forall curve: Curve :: r == Some(|Items(s, curve)|)
  {
    Some(1)
  }

  /**
   * On a sound curve and a seed other than zero, the one item is the seed's
   * secret key with the library key pair's public key.
   */
  lemma SingleItemIsSeedKeyPair(s: IdentityStrategy, curve: Curve)
    requires Sound(curve)
    requires s.seed != 0
    ensures Items(s, curve) == [Success(KeyPair(SecretKey(s.seed), KeypairPublic(curve, SecretKey(s.seed))))]
  {
    IntoKeyPairOfMul(curve, s.seed);
  }
}
