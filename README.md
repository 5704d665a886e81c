# SEV-SNP attestation report validation

A Dafny model of the report-validation core of the vTPM SNP tooling
(`vtpm-snp/src/report.rs`). An SEV-SNP attestation report is decoded from
bytes with bincode (`parse`). `validate` then applies two gates in order:

1. the TCB gate: the reported TCB version must equal the committed TCB version;
2. the signature gate: the report's ECDSA P-384 signature must verify, under
   the VCEK public key, over the SHA-384 digest of the re-serialized report
   minus its trailing signature field (`get_report_base`).

The libraries the core calls are injected as values of two datatypes of total
functions:

- `Codec` is bincode's serialize and deserialize.
- `Crypto` holds the `sev` crate's conversion of the raw signature to an
  OpenSSL `EcdsaSig` (its `TryFrom` impl), and OpenSSL's `public_key`,
  `ec_key`, SHA-384 and `EcdsaSig::verify`. The `sev` crate fixes the
  conversion's error type, so the model allows both kinds `#[from]` accepts
  there: an OpenSSL error stack, which becomes `OpenSsl`, and an I/O error,
  which becomes `Io`.

Every property below therefore holds for every behaviour of those libraries,
with one exception. Once the slice in `get_report_base` is reached, bincode's
output must be long enough for it (`SliceInBounds`). On a TCB mismatch, or
when conversion or key extraction fails, nothing is asked of the serializer.
The few lemmas that need cryptographic assumptions take them as named
predicates about the values at hand (`NoCollision`,
`AtMostOneDigestVerifies`, `AtMostOneKeyVerifies`).

Files:

- `wrappers.dfy`: `Result`.
- `sev_types.dfy`: the report, TCB and signature records, and the size constants.
- `collaborators.dfy`: the library capabilities, the VCEK key extraction and the `Sha384` hasher class.
- `report.dfy`: the modelled functions of `report.rs` and the `Validate` method.
- `report_properties.dfy`: lemmas relating several validations.

`Validate` is written as the source is: a sequence of early returns, and a
mutable hasher that is created, updated once with the base message and then
finished. It returns a ghost trace of the calls it makes into the libraries.
This trace is how the model states gate order, for example that no library
is called when the TCB gate fails. The trace is instrumentation: `Validate`
appends each entry next to the call it records, so the ordering facts follow
from where those entries stand in `Validate` rather than from the libraries' own
contracts. The hasher's input is the one exception, recorded by the `Sha384`
object itself.

The sizes are constants: `ReportLen` = 0x4A0, `SigLen` = 0x200 and
`BaseLen = ReportLen - SigLen`. They come from the SEV-SNP firmware ABI
layout of `AttestationReport` and `Signature`.

## Model

| member | source | states |
|---|---|---|
| `Report.Parse` | vtpm-snp/src/report.rs:49-52 | the result is exactly the deserializer's: a decode error is passed through and no report is produced |
| `Report.IsTcbDataValid` | vtpm-snp/src/report.rs:54-56 | true exactly when every field of the reported TCB (bootloader, TEE, reserved bytes, SNP, microcode) equals the committed TCB's |
| `Report.GetReportBase` | vtpm-snp/src/report.rs:58-64 | fails exactly when serialization fails, with the same bincode error; otherwise the result has length `ReportLen - SigLen` and is a prefix of the serialized report |
| `Report.ValidationOutcome` | vtpm-snp/src/report.rs:29-46 | `Err(Tcb)` is returned exactly when the TCB records differ, whatever the libraries do; `Io` is returned only when the TCB records agree and the signature conversion failed with that I/O error |
| `Report.FromConversionError` | vtpm-snp/src/report.rs:34 | the `?` on the signature conversion maps an OpenSSL error stack to `OpenSsl` and an I/O error to `Io`, keeping the error's payload |
| `Report.Validate` | vtpm-snp/src/report.rs:28-46 | returns the gate-ordered outcome; on a TCB mismatch it calls no library at all; a conversion or key-extraction failure stops before serialization; otherwise it serializes, feeds exactly the base message to the hasher in one update, finishes, and verifies that digest |
| `Collaborators.VcekKey` | vtpm-snp/src/report.rs:35 | the result is `ec_key` applied to the key `public_key` extracted, with an error from either step passed through unchanged |
| `Collaborators.Sha384.constructor` | vtpm-snp/src/report.rs:37 | a new hasher has absorbed nothing |
| `Collaborators.Sha384.Update` | vtpm-snp/src/report.rs:39 | appends the data to what the hasher has absorbed |
| `Collaborators.Sha384.Finish` | vtpm-snp/src/report.rs:40 | yields the SHA-384 digest of everything absorbed |
| `ReportProperties.AcceptedIff` | vtpm-snp/src/report.rs:29-45 | `Ok(())` exactly when the TCB records agree, signature conversion and key extraction succeed, serialization succeeds, and verify returns true on the digest of the first `ReportLen - SigLen` serialized bytes under the VCEK key |
| `ReportProperties.OutcomeDiagnosis` | vtpm-snp/src/report.rs:30-44 | `MeasurementSignature` only after every backend step succeeded and verify returned false; `Bincode` only from serialization after the conversions succeeded; `OpenSsl` only from conversion, key extraction or the verify call; `Io` only from conversion |
| `ReportProperties.DigestCoversExactlyBase` | vtpm-snp/src/report.rs:37-42 | in a run that reaches the hasher, everything fed to it is exactly the base message, and the one digest handed to verify is the SHA-384 of what was fed before it |
| `ReportProperties.OnlySignedPrefixMatters` | vtpm-snp/src/report.rs:37-42 | two reports with the same TCB verdict, signature and signed prefix get the same outcome: bytes after the prefix are not authenticated |
| `ReportProperties.TamperedPrefixRejected` | vtpm-snp/src/report.rs:37-44 | if SHA-384 does not collide on the two signed prefixes and the signature does not verify both of their digests, a change to any serialized byte before the signature turns acceptance into `MeasurementSignature` |
| `ReportProperties.WrongKeyRejected` | vtpm-snp/src/report.rs:35-44 | if the signature does not verify the report's digest under both keys, an accepted report is rejected with `MeasurementSignature` under a VCEK with a different EC key |
| `ReportProperties.WireBinding` | vtpm-snp/src/report.rs:58-63 | if re-serialization reproduces the received bytes before the signature, acceptance means the VCEK key verified the digest of exactly those received bytes |
| `ReportProperties.ReserializationGap` | vtpm-snp/src/report.rs:58-63 | the model admits a codec under which a parsed report is accepted although the signed message differs from the prefix of the bytes received, so `WireBinding`'s reproduction hypothesis cannot be dropped |

## Left out

- The encoding of the report by bincode over the `sev` crate's `AttestationReport` is not modelled; `Codec` is any pair of functions. No round trip between serialize and deserialize is assumed; `WireBinding` and `ReserializationGap` show what depends on it.
- ECDSA P-384 verification and the SHA-384 compression function are foreign OpenSSL calls. The conversion of the raw r/s bytes to an `EcdsaSig` is foreign code in the `sev` crate. All of them appear only as the functions in `Crypto`.
- `certs::Vcek` and certificate handling are not part of this model. The VCEK is an opaque certificate whose key extraction may fail.
- The sizes `std::mem::size_of` gives are constants, not layouts computed from the structures.
- The out-of-bounds panic of the slice in `get_report_base` is not an outcome. It is a precondition: `SerializesLongEnough` on `GetReportBase`, and `SliceInBounds` on `ValidationOutcome` and `Validate`, which demands it only when the slice is reached.
- The cryptographic assumptions of `TamperedPrefixRejected` and `WrongKeyRejected` are idealised. Real SHA-384 and ECDSA P-384 meet them only with overwhelming probability, not always: for any accepted signature, public-key recovery gives a second key and the point −R gives a second digest that verify. `Digest` is any byte sequence, and the length truncation OpenSSL applies to longer digests is not modelled.
- Which error type the `sev` crate's signature conversion really has is not modelled. `ConversionError` allows both an OpenSSL error stack and an I/O error.
- The `thiserror` display strings, the `Validateable` trait and the `Box<dyn Error>` wrapping in `parse` are not modelled. The `From` impls that `#[from]` derives are modelled only by their effect: the constructor wrapping in `ValidationOutcome` and `Validate`, and `FromConversionError`.
- Every other field of the report (measurement, policy, identifiers, ...) is one opaque byte sequence.
