/**
 * The parts of the `sev` crate's SEV-SNP guest types that report validation
 * looks at. The field layout of the real report lives in that crate; here only
 * the two TCB records and the trailing signature are structured, and every
 * other field of the report is kept as opaque data.
 */
module SevTypes {

  /** An unsigned 8-bit value (`u8`). */
  newtype byte = b: int | 0 <= b < 0x100

  /** `std::mem::size_of::<AttestationReport>()`: the fixed report size, 0x4A0 bytes. */
  const ReportLen: nat := 0x4A0

  /** `std::mem::size_of::<Signature>()`: the trailing signature field, 0x200 bytes. */
  const SigLen: nat := 0x200

  /** Length of the signed part of a report: every byte before the signature. */
  const BaseLen: nat := ReportLen - SigLen

  /** A TCB version record: the security version numbers of each firmware component. */
  datatype TcbVersion = TcbVersion(
    bootloader: byte,
    tee: byte,
    reserved: seq<byte>,
    snp: byte,
    microcode: byte)

  /** The ECDSA signature field: the raw r and s components and reserved padding. */
  datatype Signature = Signature(r: seq<byte>, s: seq<byte>, reserved: seq<byte>)

  /** A decoded attestation report. */
  datatype AttestationReport = AttestationReport(
    body: seq<byte>,            // every field not looked at here (measurement, policy, ids, ...)
    reportedTcb: TcbVersion,
    committedTcb: TcbVersion,
    signature: Signature)
}
