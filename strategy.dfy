/**
 * What every strategy of src/strategy/ shares: the items it yields and the
 * panics that producing an item or building a strategy can raise.
 */
module Strategy {
  import opened Wrappers
  import opened Secp256k1
  import opened Utils

  datatype KeyPair = KeyPair(sk: SecretKey, pk: PublicKey)

  /**
   * The panics: the seed check of every constructor (`"overflow"`) and the
   * two `expect`s applied to each produced key.
   */
  datatype Panic = SeedOverflow | SecretKeyUnparsable | PublicKeyUnparsable

  /** One item of a strategy's parallel iterator, or the panic producing it raised. */
  type Item = Result<KeyPair, Panic>

  /**
   * The pair every seeded strategy yields for a scalar and its point:
   * `(scalar_to_secret_key(&sk).expect(..), jacobian_to_public_key(&pk).expect(..))`,
   * the secret key converted first.
   */
  function IntoKeyPair(curve: Curve, sk: Scalar, pk: Jacobian): (r: Item)
    ensures r.Success? <==> sk != 0 && PublicKeyOf(curve, pk).Success?
    ensures sk == 0 ==> r == Failure(SecretKeyUnparsable)
    ensures r.Failure? && sk != 0 ==> r == Failure(PublicKeyUnparsable)
    ensures r.Success? ==> r.value.sk.scalar == sk && Success(r.value.pk) == PublicKeyOf(curve, pk)
  {
    match ScalarToSecretKey(sk)
    case Failure(_) => Failure(SecretKeyUnparsable)
    case Success(secret) =>
      match PublicKeyOf(curve, pk)
      case Failure(_) => Failure(PublicKeyUnparsable)
      case Success(public) => Success(KeyPair(secret, public))
  }

  /**
   * On a sound curve, a scalar and its own point convert unless the scalar
   * is zero, and the public key is the library key pair's.
   */
  lemma IntoKeyPairOfMul(curve: Curve, k: Scalar)
    requires Sound(curve)
    ensures IntoKeyPair(curve, k, EcmultGen(k)).Success? <==> k != 0
    ensures k != 0 ==>
      IntoKeyPair(curve, k, EcmultGen(k)) == Success(KeyPair(SecretKey(k), KeypairPublic(curve, SecretKey(k))))
  {
    if k != 0 {
      JacobianKeyIsKeypairKey(curve, k);
    }
  }
}
