/**
 * The libraries report validation calls into, as injected capabilities:
 * bincode (serialize / deserialize of the report), the `sev` crate's
 * conversion of the raw signature to an OpenSSL `EcdsaSig`, OpenSSL (public-key
 * extraction from the VCEK certificate, SHA-384, ECDSA verification) and the
 * VCEK certificate itself.
 * Each is a total function supplied by the caller, so every property proved
 * about validation holds for every behaviour of these libraries unless a
 * lemma states an assumption about them explicitly.
 */
module Collaborators {
  import opened Wrappers
  import opened SevTypes

  /** `openssl::error::ErrorStack`: the queue of OpenSSL error codes. */
  datatype ErrorStack = ErrorStack(codes: seq<nat>)

  /**
   * The error of the `sev` crate's `TryFrom<&Signature> for EcdsaSig`. That
   * crate decides which it is; through `#[from]` an OpenSSL `ErrorStack`
   * becomes `ValidateError::OpenSsl` and a `std::io::Error` becomes
   * `ValidateError::Io`, so both are allowed.
   */
  datatype ConversionError =
    | ConversionOpenSsl(stack: ErrorStack)
    | ConversionIo(ioKind: nat)

  /** `bincode::ErrorKind`. */
  datatype BincodeError = BincodeError(kind: nat)

  /** An X.509 certificate, kept as its DER encoding. */
  datatype X509 = X509(der: seq<byte>)

  /** `certs::Vcek`: the VCEK certificate whose key signs attestation reports. */
  datatype Vcek = Vcek(cert: X509)

  /** `openssl::pkey::PKey<Public>`. */
  datatype PKey = PKey(encoded: seq<byte>)

  /** `openssl::ec::EcKey<Public>`. */
  datatype EcKey = EcKey(point: seq<byte>)

  /** `openssl::ecdsa::EcdsaSig`: the (r, s) pair as big integers. */
  datatype EcdsaSig = EcdsaSig(r: nat, s: nat)

  /** A SHA-384 digest. */
  type Digest = seq<byte>

  /** bincode applied to `AttestationReport`. */
  datatype Codec = Codec(
    serialize: AttestationReport -> Result<seq<byte>, BincodeError>,
    deserialize: seq<byte> -> Result<AttestationReport, BincodeError>)

  /** The signature conversion of the `sev` crate and the OpenSSL operations report validation uses. */
  datatype Crypto = Crypto(
    toEcdsaSig: Signature -> Result<EcdsaSig, ConversionError>,  // sev's `TryFrom<&Signature> for EcdsaSig`
    publicKey: X509 -> Result<PKey, ErrorStack>,             // `X509::public_key`
    ecKey: PKey -> Result<EcKey, ErrorStack>,                // `PKey::ec_key`
    sha384: seq<byte> -> Digest,                             // SHA-384 over a whole message
    verify: (EcdsaSig, Digest, EcKey) -> Result<bool, ErrorStack>)  // `EcdsaSig::verify`

  /**
   * The slice at report.rs:62 panics unless bincode's output for the report is
   * at least `BaseLen` bytes long; callers of validation must not let that happen.
   */
  predicate SerializesLongEnough(report: AttestationReport, codec: Codec) {
    codec.serialize(report).Ok? ==> |codec.serialize(report).value| >= BaseLen
  }

  /** The EC public key of the VCEK: `vcek.0.public_key()?.ec_key()?`. */
  function VcekKey(vcek: Vcek, crypto: Crypto): (k: Result<EcKey, ErrorStack>)
    ensures k.Ok? <==> crypto.publicKey(vcek.cert).Ok? && crypto.ecKey(crypto.publicKey(vcek.cert).value).Ok?
    ensures crypto.publicKey(vcek.cert).Err? ==> k == Err(crypto.publicKey(vcek.cert).error)
    ensures crypto.publicKey(vcek.cert).Ok? ==> k == crypto.ecKey(crypto.publicKey(vcek.cert).value)
  {
    match crypto.publicKey(vcek.cert)
    case Err(e) => Err(e)
    case Ok(pkey) => crypto.ecKey(pkey)
  }

  /** Assumption used only by the tamper lemma: SHA-384 does not collide on `a` and `b`. */
  ghost predicate NoCollision(crypto: Crypto, a: seq<byte>, b: seq<byte>) {
    crypto.sha384(a) == crypto.sha384(b) ==> a == b
  }

  /**
   * Assumption used only by the tamper lemma: under `key`, verifying `sig`
   * against the second digest `d2` completes without a backend error, and `sig`
   * is not accepted for both digests unless they are equal.
   */
  ghost predicate AtMostOneDigestVerifies(crypto: Crypto, sig: EcdsaSig, key: EcKey, d1: Digest, d2: Digest) {
    && crypto.verify(sig, d2, key).Ok?
    && (crypto.verify(sig, d1, key) == Ok(true) && crypto.verify(sig, d2, key) == Ok(true) ==> d1 == d2)
  }

  /**
   * Assumption used only by the wrong-key lemma: verifying `sig` for `digest`
   * under the second key `k2` completes without a backend error, and `sig` is
   * not accepted under both keys unless they are equal.
   */
  ghost predicate AtMostOneKeyVerifies(crypto: Crypto, sig: EcdsaSig, digest: Digest, k1: EcKey, k2: EcKey) {
    && crypto.verify(sig, digest, k2).Ok?
    && (crypto.verify(sig, digest, k1) == Ok(true) && crypto.verify(sig, digest, k2) == Ok(true) ==> k1 == k2)
  }

  /**
   * `openssl::sha::Sha384`: a hasher that absorbs message chunks with `Update`
   * and yields the SHA-384 digest of everything absorbed with `Finish`.
   */
  class Sha384 {
    const digestOf: seq<byte> -> Digest
    var absorbed: seq<byte>

    constructor (digestOf: seq<byte> -> Digest)
      ensures this.digestOf == digestOf && absorbed == []
    {
      this.digestOf := digestOf;
      absorbed := [];
    }

    method Update(data: seq<byte>)
      modifies this
      ensures absorbed == old(absorbed) + data
    {
      absorbed := absorbed + data;
    }

    method Finish() returns (digest: Digest)
      ensures digest == digestOf(absorbed)
    {
      digest := digestOf(absorbed);
    }
  }
}
