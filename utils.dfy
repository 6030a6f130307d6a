/**
 * src/utils.rs: turning curve values into the identity library's key types.
 * Secret keys travel as 32-byte big-endian scalars (section 2.3.7 of SEC 1
 * version 2); public keys as 33-byte compressed points (section 2.3.3).
 */
module Utils {
  import opened Wrappers
  import opened Bytes
  import opened Secp256k1

  const TagPubkeyEven: byte := 0x02
  const TagPubkeyOdd: byte := 0x03

  datatype DecodingError = InvalidSecretKey | InvalidPublicKey

  /** A secret key is a scalar other than zero. */
  type NonZeroScalar = s: Scalar | s != 0 witness 1

  datatype SecretKey = SecretKey(scalar: NonZeroScalar)

  /** A public key, held by its compressed encoding. */
  datatype PublicKey = PublicKey(compressed: seq<byte>)

  /**
   * `SecretKey::try_from_bytes`: a 32-byte big-endian scalar that neither
   * overflows n nor is zero.
   */
  function SecretKeyTryFromBytes(bytes: seq<byte>): (r: Result<SecretKey, DecodingError>)
    ensures r.Success? <==> |bytes| == 32 && 0 < BeValue(bytes) < N
    ensures r.Success? ==> r.value.scalar == BeValue(bytes)
  {
    if |bytes| != 32 then Failure(InvalidSecretKey)
    else
      var (s, overflow) := SetB32(bytes);
      if overflow || s == 0 then Failure(InvalidSecretKey) else Success(SecretKey(s))
  }

  /** `SecretKey::to_bytes`. */
  function SecretKeyToBytes(sk: SecretKey): (r: seq<byte>)
    ensures SecretKeyTryFromBytes(r) == Success(sk)
  {
    ScalarB32(sk.scalar)
  }

  /** A secret key encodes to the only byte string that decodes to it. */
  lemma SecretKeyBytesUnique(bytes: seq<byte>, sk: SecretKey)
    requires SecretKeyTryFromBytes(bytes) == Success(sk)
    ensures bytes == SecretKeyToBytes(sk)
  {
    BeValueInjective(bytes, SecretKeyToBytes(sk));
  }

  /**
   * `scalar_to_secret_key`: the scalar's 32-byte encoding handed to
   * `SecretKey::try_from_bytes`. It succeeds exactly for the scalars other
   * than zero, and then gives the scalar back.
   */
  function ScalarToSecretKey(s: Scalar): (r: Result<SecretKey, DecodingError>)
    ensures r.Success? <==> s != 0
    ensures r.Success? ==> r.value.scalar == s
    ensures r.Failure? ==> r.error == InvalidSecretKey
  {
    SecretKeyTryFromBytes(ScalarB32(s))
  }

  /**
   * The abscissa and the parity of the ordinate carried by a compressed
   * encoding, when its length, its tag and its abscissa are well formed.
   */
  function ParseCompressed(bytes: seq<byte>): Option<(FieldElem, bool)>
  {
    if |bytes| != 33 || (bytes[0] != TagPubkeyEven && bytes[0] != TagPubkeyOdd) then None
    else
      var x := BeValue(bytes[1..]);
      if x >= P then None else Some((x, bytes[0] == TagPubkeyOdd))
  }

  /** Some point of the curve has abscissa x: x^3 + 7 is a square modulo p. */
  predicate HasCurvePoint(x: FieldElem)
  {
    exists y | 0 <= y < P :: OnCurve(Affine(x, y))
  }

  /**
   * `PublicKey::try_from_bytes` on a compressed encoding: well formed, and
   * its abscissa lies on the curve.
   */
  function PublicKeyTryFromBytes(bytes: seq<byte>): (r: Result<PublicKey, DecodingError>)
    ensures r.Success? <==> ParseCompressed(bytes).Some? && HasCurvePoint(ParseCompressed(bytes).value.0)
    ensures r.Success? ==> r.value.compressed == bytes
    ensures r.Failure? ==> r.error == InvalidPublicKey
  {
    match ParseCompressed(bytes)
    case None => Failure(InvalidPublicKey)
    case Some((x, _)) => if HasCurvePoint(x) then Success(PublicKey(bytes)) else Failure(InvalidPublicKey)
  }

  /**
   * The compressed encoding of an affine point: the tag gives the parity of
   * y, the next 32 bytes x. Parsing it gives back x and the parity.
   */
  function CompressedBytes(a: Affine): (r: seq<byte>)
    ensures |r| == 33
    ensures r[0] == TagPubkeyOdd <==> IsOdd(a.y)
    ensures ParseCompressed(r) == Some((a.x, IsOdd(a.y)))
  {
    var r := [if IsOdd(a.y) then TagPubkeyOdd else TagPubkeyEven] + FieldB32(a.x);
    assert r[1..] == FieldB32(a.x);
    r
  }

  /** A well-formed encoding is the encoding of every point it describes. */
  lemma CompressedBytesOfParse(bytes: seq<byte>, a: Affine)
    requires ParseCompressed(bytes) == Some((a.x, IsOdd(a.y)))
    ensures CompressedBytes(a) == bytes
  {
    var c := CompressedBytes(a);
    assert c[1..] == FieldB32(a.x);
    BeValueInjective(c[1..], bytes[1..]);
    assert c == [c[0]] + c[1..];
    assert bytes == [bytes[0]] + bytes[1..];
  }

  /** The encoding of a point on the curve is accepted, unchanged. */
  lemma CompressedOnCurveAccepted(a: Affine)
    requires OnCurve(a)
    ensures PublicKeyTryFromBytes(CompressedBytes(a)) == Success(PublicKey(CompressedBytes(a)))
  {
    assert OnCurve(Affine(a.x, a.y));
  }

  /**
   * The public key of the point j, as `jacobian_to_public_key` computes it.
   * A point whose coordinates lie on the curve always converts, and the key
   * carries its abscissa and the parity of its ordinate.
   */
  function PublicKeyOf(curve: Curve, j: Jacobian): (r: Result<PublicKey, DecodingError>)
    ensures OnCurve(curve.affine(j.dlog)) ==> r.Success?
    ensures r.Success? ==>
      ParseCompressed(r.value.compressed) == Some((curve.affine(j.dlog).x, IsOdd(curve.affine(j.dlog).y)))
    ensures r.Failure? ==> r.error == InvalidPublicKey
  {
    var a := curve.affine(j.dlog);
    assert OnCurve(a) ==> OnCurve(Affine(a.x, a.y));
    PublicKeyTryFromBytes(CompressedBytes(a))
  }

  /**
   * `jacobian_to_public_key`: fill a 33-byte buffer with the tag and the
   * abscissa and hand it to `PublicKey::try_from_bytes`.
   */
  method JacobianToPublicKey(curve: Curve, j: Jacobian) returns (r: Result<PublicKey, DecodingError>)
    ensures r == PublicKeyOf(curve, j)
  {
    var a := curve.affine(j.dlog);
    var bytes := new byte[33];
    bytes[0] := if IsOdd(a.y) then TagPubkeyOdd else TagPubkeyEven;
    var xb := FieldB32(a.x);
    forall i | 1 <= i < 33 {
      bytes[i] := xb[i - 1];
    }
    assert bytes[..] == CompressedBytes(a);
    r := PublicKeyTryFromBytes(bytes[..]);
  }

  /**
   * `Keypair::from(secret).public()`: the library derives the public key
   * from the secret scalar by the same fixed-base multiplication.
   */
  function KeypairPublic(curve: Curve, sk: SecretKey): (r: PublicKey)
    ensures ParseCompressed(r.compressed) == Some((curve.affine(sk.scalar).x, IsOdd(curve.affine(sk.scalar).y)))
  {
    PublicKey(CompressedBytes(curve.affine(sk.scalar)))
  }

  /**
   * Multiplying G by a scalar and encoding the point gives the library
   * key pair's public key for the same secret.
   */
  lemma JacobianKeyIsKeypairKey(curve: Curve, s: Scalar)
    requires Sound(curve)
    requires s != 0
    ensures ScalarToSecretKey(s).Success?
    ensures PublicKeyOf(curve, EcmultGen(s)) == Success(KeypairPublic(curve, ScalarToSecretKey(s).value))
  {
    CompressedOnCurveAccepted(curve.affine(s));
  }
}
