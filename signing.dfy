/**
 * The signature primitive of the reports: RSASSA-PSS (section 8.1 of RFC 8017) with SHA-256,
 * MGF1 over SHA-256 and the largest salt the key allows. The RSA arithmetic belongs to the
 * cryptography library and is not modelled: a key is the library operation it stands for.
 */
module Signing {
  import opened Common

  datatype HashAlgorithm = SHA256
  datatype Mgf = MGF1(hash: HashAlgorithm)
  datatype SaltLength = MaxLength | Length(n: nat)
  datatype Padding = PSS(mgf: Mgf, saltLength: SaltLength)

  /** The padding both `sign_data` and `verify_signature` pass to the library. */
  const ReportPadding: Padding := PSS(MGF1(SHA256), MaxLength)
  /** The message digest both of them pass. */
  const ReportDigest: HashAlgorithm := SHA256

  /** What the library's `verify` does: return, raise `InvalidSignature`, or raise something else. */
  datatype VerifyOutcome = Accepted | InvalidSignature | OtherError(reason: string)

  /** A loaded private key: its `sign(data, padding, algorithm)` operation. */
  datatype PrivateKey = PrivateKey(sign: (seq<byte>, Padding, HashAlgorithm) -> seq<byte>)

  /** A loaded public key: its `verify(signature, data, padding, algorithm)` operation. */
  datatype PublicKey = PublicKey(verify: (seq<byte>, seq<byte>, Padding, HashAlgorithm) -> VerifyOutcome)

  /** The two keys form a pair: whatever one signs, the other accepts under the same parameters. */
  ghost predicate IsKeyPair(priv: PrivateKey, pub: PublicKey)
  {
    forall data, pad, alg :: pub.verify(priv.sign(data, pad, alg), data, pad, alg) == Accepted
  }

  /**
   * A signature by the pair's private key is rejected as `InvalidSignature` for any other data
   * (the tamper-detection property the scheme is chosen for).
   */
  ghost predicate IsBinding(priv: PrivateKey, pub: PublicKey)
  {
    forall data, other, pad, alg :: data != other ==>
      pub.verify(priv.sign(data, pad, alg), other, pad, alg) == InvalidSignature
  }

  /** `sign_data(private_key, data)`. */
  function SignData(key: PrivateKey, data: seq<byte>): seq<byte>
  {
    key.sign(data, ReportPadding, ReportDigest)
  }

  /**
   * `verify_signature(public_key, signature, data)`: `InvalidSignature` becomes `False`;
   * any other exception is not caught and reaches the caller.
   */
  function VerifySignature(key: PublicKey, signature: seq<byte>, data: seq<byte>): (r: Raising<bool, string>)
    ensures r == Returned(true) <==> key.verify(signature, data, ReportPadding, ReportDigest) == Accepted
    ensures r == Returned(false) <==> key.verify(signature, data, ReportPadding, ReportDigest) == InvalidSignature
    ensures r.Raised? <==> key.verify(signature, data, ReportPadding, ReportDigest).OtherError?
  {
    match key.verify(signature, data, ReportPadding, ReportDigest)
    case Accepted => Returned(true)
    case InvalidSignature => Returned(false)
    case OtherError(reason) => Raised(reason)
  }

  /** Signing and verifying use the same parameters, so a signature always verifies against its data. */
  lemma SignThenVerify(priv: PrivateKey, pub: PublicKey, data: seq<byte>)
    requires IsKeyPair(priv, pub)
    ensures VerifySignature(pub, SignData(priv, data), data) == Returned(true)
  {
  }

  /** Verifying a signature against any other data returns `False`, never raises. */
  lemma TamperedDataFails(priv: PrivateKey, pub: PublicKey, data: seq<byte>, other: seq<byte>)
    requires IsBinding(priv, pub)
    requires data != other
    ensures VerifySignature(pub, SignData(priv, data), other) == Returned(false)
  {
  }
}
