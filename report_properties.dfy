/**
 * Properties of attestation-report validation that relate several calls, or
 * that hold under stated assumptions about SHA-384 and ECDSA.
 */
module ReportProperties {
  import opened Wrappers
  import opened SevTypes
  import opened Collaborators
  import opened Report

  /**
   * A report is accepted exactly when its TCB records agree, the signature
   * converts, the VCEK key extracts, the report serializes, and ECDSA accepts
   * the SHA-384 digest of the first `ReportLen - SigLen` serialized bytes.
   */
  lemma AcceptedIff(report: AttestationReport, vcek: Vcek, codec: Codec, crypto: Crypto)
    requires SliceInBounds(report, vcek, codec, crypto)
    ensures ValidationOutcome(report, vcek, codec, crypto) == Ok(()) <==>
      && IsTcbDataValid(report)
      && crypto.toEcdsaSig(report.signature).Ok?
      && VcekKey(vcek, crypto).Ok?
      && codec.serialize(report).Ok?
      && crypto.verify(crypto.toEcdsaSig(report.signature).value,
                       crypto.sha384(codec.serialize(report).value[..ReportLen - SigLen]),
                       VcekKey(vcek, crypto).value) == Ok(true)
  {
  }

  /**
   * Each error tells the caller which gate failed: `MeasurementSignature` only
   * after every backend step succeeded, `Bincode` only from serialization after
   * the conversions succeeded, `OpenSsl` only from conversion, key
   * extraction or the verify call itself, and `Io` only from conversion.
   */
  lemma OutcomeDiagnosis(report: AttestationReport, vcek: Vcek, codec: Codec, crypto: Crypto)
    requires SliceInBounds(report, vcek, codec, crypto)
    ensures ValidationOutcome(report, vcek, codec, crypto) == Err(MeasurementSignature) ==>
      && IsTcbDataValid(report)
      && crypto.toEcdsaSig(report.signature).Ok?
      && VcekKey(vcek, crypto).Ok?
      && GetReportBase(report, codec).Ok?
      && crypto.verify(crypto.toEcdsaSig(report.signature).value,
                       crypto.sha384(GetReportBase(report, codec).value),
                       VcekKey(vcek, crypto).value) == Ok(false)
    ensures ValidationOutcome(report, vcek, codec, crypto).Err? &&
            ValidationOutcome(report, vcek, codec, crypto).error.Bincode? ==>
      && IsTcbDataValid(report)
      && crypto.toEcdsaSig(report.signature).Ok?
      && VcekKey(vcek, crypto).Ok?
      && codec.serialize(report) == Err(ValidationOutcome(report, vcek, codec, crypto).error.kind)
    ensures ValidationOutcome(report, vcek, codec, crypto).Err? &&
            ValidationOutcome(report, vcek, codec, crypto).error.OpenSsl? ==>
      var e := ValidationOutcome(report, vcek, codec, crypto).error.stack;
      && IsTcbDataValid(report)
      && (|| crypto.toEcdsaSig(report.signature) == Err(ConversionOpenSsl(e))
          || (crypto.toEcdsaSig(report.signature).Ok? && VcekKey(vcek, crypto) == Err(e))
          || (&& crypto.toEcdsaSig(report.signature).Ok?
              && VcekKey(vcek, crypto).Ok?
              && GetReportBase(report, codec).Ok?
              && crypto.verify(crypto.toEcdsaSig(report.signature).value,
                               crypto.sha384(GetReportBase(report, codec).value),
                               VcekKey(vcek, crypto).value) == Err(e)))
    ensures ValidationOutcome(report, vcek, codec, crypto).Err? &&
            ValidationOutcome(report, vcek, codec, crypto).error.Io? ==>
      && IsTcbDataValid(report)
      && crypto.toEcdsaSig(report.signature) ==
           Err(ConversionIo(ValidationOutcome(report, vcek, codec, crypto).error.ioKind))
  {
  }

  /**
   * The bytes after the signed prefix do not influence the outcome: two
   * reports with the same TCB verdict, the same signature and the same signed
   * prefix are validated alike.
   */
  lemma OnlySignedPrefixMatters(r1: AttestationReport, r2: AttestationReport, vcek: Vcek, codec: Codec, crypto: Crypto)
    requires SerializesLongEnough(r1, codec) && SerializesLongEnough(r2, codec)
    requires IsTcbDataValid(r1) == IsTcbDataValid(r2)
    requires r1.signature == r2.signature
    requires codec.serialize(r1).Ok? && codec.serialize(r2).Ok?
    requires codec.serialize(r1).value[..BaseLen] == codec.serialize(r2).value[..BaseLen]
    ensures ValidationOutcome(r1, vcek, codec, crypto) == ValidationOutcome(r2, vcek, codec, crypto)
  {
  }

  /**
   * Tamper detection: if a report is accepted, then another report with
   * consistent TCB and the same signature whose serialization differs from the
   * first one's at some byte before the signature is rejected with
   * `MeasurementSignature`, provided SHA-384 does not collide on the two
   * signed prefixes and the signature does not verify both of their digests.
   */
  lemma TamperedPrefixRejected(genuine: AttestationReport, tampered: AttestationReport, vcek: Vcek,
                               codec: Codec, crypto: Crypto, i: nat)
    requires SerializesLongEnough(genuine, codec) && SerializesLongEnough(tampered, codec)
    requires ValidationOutcome(genuine, vcek, codec, crypto) == Ok(())
    requires IsTcbDataValid(tampered) && tampered.signature == genuine.signature
    requires codec.serialize(tampered).Ok?
    requires i < BaseLen && codec.serialize(tampered).value[i] != codec.serialize(genuine).value[i]
    requires NoCollision(crypto, GetReportBase(genuine, codec).value, GetReportBase(tampered, codec).value)
    requires AtMostOneDigestVerifies(crypto, crypto.toEcdsaSig(genuine.signature).value, VcekKey(vcek, crypto).value,
                                     crypto.sha384(GetReportBase(genuine, codec).value),
                                     crypto.sha384(GetReportBase(tampered, codec).value))
    ensures ValidationOutcome(tampered, vcek, codec, crypto) == Err(MeasurementSignature)
  {
  }

  /**
   * Wrong-key rejection: an accepted report is rejected with
   * `MeasurementSignature` under a VCEK whose EC key differs, provided the
   * signature does not verify the report's digest under both keys.
   */
  lemma WrongKeyRejected(report: AttestationReport, vcek: Vcek, other: Vcek, codec: Codec, crypto: Crypto)
    requires SerializesLongEnough(report, codec)
    requires ValidationOutcome(report, vcek, codec, crypto) == Ok(())
    requires VcekKey(other, crypto).Ok? && VcekKey(other, crypto) != VcekKey(vcek, crypto)
    requires AtMostOneKeyVerifies(crypto, crypto.toEcdsaSig(report.signature).value,
                                  crypto.sha384(GetReportBase(report, codec).value),
                                  VcekKey(vcek, crypto).value, VcekKey(other, crypto).value)
    ensures ValidationOutcome(report, other, codec, crypto) == Err(MeasurementSignature)
  {
  }

  /**
   * When the re-serialized report reproduces the wire bytes before the
   * signature, acceptance means the VCEK key verified the signature over the
   * digest of exactly those wire bytes.
   */
  lemma WireBinding(wire: seq<byte>, report: AttestationReport, vcek: Vcek, codec: Codec, crypto: Crypto)
    requires Parse(wire, codec) == Ok(report)
    requires SerializesLongEnough(report, codec)
    requires |wire| >= BaseLen
    requires codec.serialize(report).Ok? && codec.serialize(report).value[..BaseLen] == wire[..BaseLen]
    requires ValidationOutcome(report, vcek, codec, crypto) == Ok(())
    ensures crypto.verify(crypto.toEcdsaSig(report.signature).value,
                          crypto.sha384(wire[..BaseLen]),
                          VcekKey(vcek, crypto).value) == Ok(true)
  {
  }

  /**
   * Without that reproduction the binding is lost: the model admits a codec
   * under which a parsed report is accepted although the message whose
   * signature was checked is not the prefix of the bytes received.
   */
  lemma ReserializationGap() returns (wire: seq<byte>, report: AttestationReport, vcek: Vcek, codec: Codec, crypto: Crypto)
    ensures Parse(wire, codec) == Ok(report)
    ensures SerializesLongEnough(report, codec)
    ensures ValidationOutcome(report, vcek, codec, crypto) == Ok(())
    ensures |wire| == ReportLen && GetReportBase(report, codec).Ok?
    ensures GetReportBase(report, codec).value != wire[..BaseLen]
  {
    var tcb := TcbVersion(3, 0, [0, 0, 0, 0], 8, 115);
    report := AttestationReport([], tcb, tcb, Signature([], [], []));
    var reencoded: seq<byte> := seq(ReportLen, _ => 0);
    wire := seq(ReportLen, _ => 1);
    var r := report;
    codec := Codec(_ => Ok(reencoded), _ => Ok(r));
    var signedDigest: Digest := seq(48, _ => 0);
    crypto := Crypto(
      _ => Ok(EcdsaSig(1, 1)),
      _ => Ok(PKey([])),
      _ => Ok(EcKey([])),
      m => if m == reencoded[..BaseLen] then signedDigest else seq(48, _ => 1),
      (sig, d, key) => Ok(d == signedDigest));
    vcek := Vcek(X509([]));
    assert wire[0] != reencoded[0];
  }

  /**
   * The hasher in `validate` is fed exactly the base message, and the only
   * digest handed to verify is the SHA-384 of everything fed to the hasher
   * before it: no other bytes reach the digest.
   */
  lemma DigestCoversExactlyBase(report: AttestationReport, codec: Codec, crypto: Crypto)
    requires SerializesLongEnough(report, codec)
    requires GetReportBase(report, codec).Ok?
    ensures Absorbed(CryptoCalls(report, codec, crypto)) == GetReportBase(report, codec).value
    ensures forall j :: 0 <= j < |CryptoCalls(report, codec, crypto)| &&
                        CryptoCalls(report, codec, crypto)[j].VerifyDigest? ==>
      CryptoCalls(report, codec, crypto)[j].digest == crypto.sha384(Absorbed(CryptoCalls(report, codec, crypto)[..j]))
  {
    var base := GetReportBase(report, codec).value;
    var before := [ConvertSignature, ExtractPublicKey, ExtractEcKey, NewHasher, Serialize];
    var update := [HasherUpdate(base)];
    var after := [HasherFinish, VerifyDigest(crypto.sha384(base))];
    var calls := CryptoCalls(report, codec, crypto);
    assert calls == before + update + after;
    AbsorbedNoUpdate(before);
    AbsorbedNoUpdate([HasherFinish]);
    AbsorbedAppend(before, update);
    AbsorbedAppend(before + update, after);
    AbsorbedAppend(before + update, [HasherFinish]);
    assert Absorbed(update) == base by {
      assert update[..0] == [];
    }
    forall j | 0 <= j < |calls| && calls[j].VerifyDigest?
      ensures calls[j].digest == crypto.sha384(Absorbed(calls[..j]))
    {
      assert calls[..j] == before + update + [HasherFinish];
      assert Absorbed(before + update + [HasherFinish]) == base;
      assert calls[j] == VerifyDigest(crypto.sha384(base));
    }
  }
}
