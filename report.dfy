/**
 * Validation of an SEV-SNP attestation report (vtpm-snp/src/report.rs):
 * decoding a report from bytes, the TCB consistency gate and the check of the
 * report's ECDSA signature against the VCEK public key.
 */
module Report {
  import opened Wrappers
  import opened SevTypes
  import opened Collaborators

  /** `ValidateError`. `Io` can arise only from an I/O error of the signature conversion. */
  datatype ValidateError =
    | OpenSsl(stack: ErrorStack)
    | Tcb
    | MeasurementSignature
    | Io(ioKind: nat)
    | Bincode(kind: BincodeError)

  /** A call into a collaborator, in the order `Validate` makes them. */
  datatype Call =
    | ConvertSignature
    | ExtractPublicKey
    | ExtractEcKey
    | NewHasher
    | Serialize
    | HasherUpdate(data: seq<byte>)
    | HasherFinish
    | VerifyDigest(digest: Digest)

  /** Everything a call trace feeds to the hasher, in order. */
  ghost function Absorbed(calls: seq<Call>): seq<byte>
    decreases |calls|
  {
    if calls == [] then []
    else
      var last := calls[|calls| - 1];
      Absorbed(calls[..|calls| - 1]) + if last.HasherUpdate? then last.data else []
  }

  /** The hasher input of a trace is the hasher input of its parts. */
  lemma {:induction false} AbsorbedAppend(a: seq<Call>, b: seq<Call>)
    ensures Absorbed(a + b) == Absorbed(a) + Absorbed(b)
    decreases |b|
  {
    if b == [] {
      assert a + b == a;
    } else {
      var front := b[..|b| - 1];
      assert (a + b)[..|a + b| - 1] == a + front;
      AbsorbedAppend(a, front);
    }
  }

  /** A trace with no hasher update feeds the hasher nothing. */
  lemma {:induction false} AbsorbedNoUpdate(calls: seq<Call>)
    requires forall j :: 0 <= j < |calls| ==> !calls[j].HasherUpdate?
    ensures Absorbed(calls) == []
    decreases |calls|
  {
    if calls != [] {
      AbsorbedNoUpdate(calls[..|calls| - 1]);
    }
  }

  /** `parse`: decode a report with bincode, passing the decoder's error through. */
  function Parse(bytes: seq<byte>, codec: Codec): (res: Result<AttestationReport, BincodeError>)
    ensures res == codec.deserialize(bytes)
  {
    match codec.deserialize(bytes)
    case Err(e) => Err(e)
    case Ok(decoded) => Ok(decoded)
  }

  /** `is_tcb_data_valid`: the reported TCB is the committed TCB, field by field. */
  function IsTcbDataValid(report: AttestationReport): (valid: bool)
    ensures valid <==>
      && report.reportedTcb.bootloader == report.committedTcb.bootloader
      && report.reportedTcb.tee == report.committedTcb.tee
      && report.reportedTcb.reserved == report.committedTcb.reserved
      && report.reportedTcb.snp == report.committedTcb.snp
      && report.reportedTcb.microcode == report.committedTcb.microcode
  {
    report.reportedTcb == report.committedTcb
  }

  /**
   * `get_report_base`: the signed message, i.e. the serialized report without
   * its trailing signature field.
   */
  function GetReportBase(report: AttestationReport, codec: Codec): (base: Result<seq<byte>, BincodeError>)
    requires SerializesLongEnough(report, codec)
    ensures base.Ok? <==> codec.serialize(report).Ok?
    ensures base.Err? ==> base.error == codec.serialize(report).error
    ensures base.Ok? ==> |base.value| == ReportLen - SigLen
    ensures base.Ok? ==> base.value <= codec.serialize(report).value
  {
    match codec.serialize(report)
    case Err(e) => Err(e)
    case Ok(bytes) => Ok(bytes[0..ReportLen - SigLen])
  }

  /**
   * The `#[from]` conversion that `?` applies to a failed signature
   * conversion: an OpenSSL error stack becomes `OpenSsl`, an I/O error `Io`.
   */
  function FromConversionError(e: ConversionError): (err: ValidateError)
    ensures err.OpenSsl? <==> e.ConversionOpenSsl?
    ensures err.Io? <==> e.ConversionIo?
    ensures err.OpenSsl? ==> err.stack == e.stack
    ensures err.Io? ==> err.ioKind == e.ioKind
  {
    match e
    case ConversionOpenSsl(stack) => OpenSsl(stack)
    case ConversionIo(kind) => Io(kind)
  }

  /**
   * The slice at report.rs:62 is in bounds whenever it is reached, i.e. once
   * the TCB gate, signature conversion and key extraction have all passed.
   */
  predicate SliceInBounds(report: AttestationReport, vcek: Vcek, codec: Codec, crypto: Crypto) {
    IsTcbDataValid(report) && crypto.toEcdsaSig(report.signature).Ok? && VcekKey(vcek, crypto).Ok? ==>
      SerializesLongEnough(report, codec)
  }

  /**
   * What `validate` returns: the first gate that fails, in the order TCB,
   * signature conversion, key extraction, serialization, verification.
   */
  function ValidationOutcome(report: AttestationReport, vcek: Vcek, codec: Codec, crypto: Crypto)
    : (res: Result<(), ValidateError>)
    requires SliceInBounds(report, vcek, codec, crypto)
    ensures res == Err(Tcb) <==> !IsTcbDataValid(report)
    // `Io` comes from the signature conversion and nowhere else
    ensures res.Err? && res.error.Io? ==>
              IsTcbDataValid(report) && crypto.toEcdsaSig(report.signature) == Err(ConversionIo(res.error.ioKind))
  {
    if !IsTcbDataValid(report) then Err(Tcb)
    else match crypto.toEcdsaSig(report.signature)
      case Err(e) => Err(FromConversionError(e))
      case Ok(sig) =>
        match VcekKey(vcek, crypto)
        case Err(e) => Err(OpenSsl(e))
        case Ok(key) =>
          match GetReportBase(report, codec)
          case Err(e) => Err(Bincode(e))
          case Ok(base) =>
            match crypto.verify(sig, crypto.sha384(base), key)
            case Err(e) => Err(OpenSsl(e))
            case Ok(valid) => if valid then Ok(()) else Err(MeasurementSignature)
  }

  /**
   * The collaborator calls of a run that gets past key extraction: the hasher
   * is created, the report serialized, its base hashed in one update, and the
   * digest verified.
   */
  ghost function CryptoCalls(report: AttestationReport, codec: Codec, crypto: Crypto): seq<Call>
    requires SerializesLongEnough(report, codec)
  {
    [ConvertSignature, ExtractPublicKey, ExtractEcKey, NewHasher, Serialize] +
    match GetReportBase(report, codec)
    case Err(_) => []
    case Ok(base) => [HasherUpdate(base), HasherFinish, VerifyDigest(crypto.sha384(base))]
  }

  /**
   * `Validateable::validate` for `AttestationReport`. `calls` records, in
   * order, every call made into the libraries.
   */
  method Validate(report: AttestationReport, vcek: Vcek, codec: Codec, crypto: Crypto)
    returns (res: Result<(), ValidateError>, ghost calls: seq<Call>)
    requires SliceInBounds(report, vcek, codec, crypto)
    ensures res == ValidationOutcome(report, vcek, codec, crypto)
    // the TCB gate runs before any collaborator is called
    ensures !IsTcbDataValid(report) ==> calls == []
    // a failed signature conversion or key extraction stops before serialization
    ensures IsTcbDataValid(report) && crypto.toEcdsaSig(report.signature).Err? ==>
              calls == [ConvertSignature]
    ensures (&& IsTcbDataValid(report)
             && crypto.toEcdsaSig(report.signature).Ok?
             && crypto.publicKey(vcek.cert).Err?) ==>
              calls == [ConvertSignature, ExtractPublicKey]
    ensures (&& IsTcbDataValid(report)
             && crypto.toEcdsaSig(report.signature).Ok?
             && crypto.publicKey(vcek.cert).Ok?
             && VcekKey(vcek, crypto).Err?) ==>
              calls == [ConvertSignature, ExtractPublicKey, ExtractEcKey]
    // otherwise the base message is built, hashed in a single update, and verified
    ensures (&& IsTcbDataValid(report)
             && crypto.toEcdsaSig(report.signature).Ok?
             && VcekKey(vcek, crypto).Ok?) ==>
              calls == CryptoCalls(report, codec, crypto)
  {
    calls := [];
    if !IsTcbDataValid(report) {
      return Err(Tcb), calls;
    }

    calls := calls + [ConvertSignature];
    var sigResult := crypto.toEcdsaSig(report.signature);
    if sigResult.Err? {
      return Err(FromConversionError(sigResult.error)), calls;
    }
    var reportSig := sigResult.value;

    calls := calls + [ExtractPublicKey];
    var pkeyResult := crypto.publicKey(vcek.cert);
    if pkeyResult.Err? {
      return Err(OpenSsl(pkeyResult.error)), calls;
    }
    calls := calls + [ExtractEcKey];
    var keyResult := crypto.ecKey(pkeyResult.value);
    if keyResult.Err? {
      return Err(OpenSsl(keyResult.error)), calls;
    }
    var vcekPubkey := keyResult.value;
    assert VcekKey(vcek, crypto) == Ok(vcekPubkey);

    var hasher := new Sha384(crypto.sha384);
    calls := calls + [NewHasher, Serialize];
    var baseResult := GetReportBase(report, codec);
    if baseResult.Err? {
      return Err(Bincode(baseResult.error)), calls;
    }
    var baseMessage := baseResult.value;
    hasher.Update(baseMessage);
    assert hasher.absorbed == baseMessage;
    calls := calls + [HasherUpdate(baseMessage)];
    var baseMessageDigest := hasher.Finish();
    calls := calls + [HasherFinish, VerifyDigest(baseMessageDigest)];

    var verified := crypto.verify(reportSig, baseMessageDigest, vcekPubkey);
    if verified.Err? {
      return Err(OpenSsl(verified.error)), calls;
    }
    if !verified.value {
      return Err(MeasurementSignature), calls;
    }
    return Ok(()), calls;
  }
}
