/**
 * The TPMS_ATTEST record of the current `tool` package and its constants (TCG TPM 2.0 Library
 * Specification, Part 2: Structures, rev 1.59, sections 6.2, 6.3, 6.9, 10.4-10.12).
 */
module ToolTypes {
  import opened Bytes

  /** TPM_GENERATED_VALUE, TPM 2.0 Library Part 2, section 6.2: the marker of a TPM-generated structure. */
  const TpmGeneratedValue: U32 := 0xff54_4347
  /** TPM_ST_ATTEST_QUOTE, TPM 2.0 Library Part 2, section 6.9. */
  const TpmStAttestQuote: U16 := 0x8018

  /** TPM_ALG_ID values, TPM 2.0 Library Part 2, section 6.3. */
  const TpmAlgSha1: U16 := 0x0004
  const TpmAlgSha256: U16 := 0x000B
  const TpmAlgSha384: U16 := 0x000C
  const TpmAlgSha512: U16 := 0x000D
  const TpmAlgSm3256: U16 := 0x0012

  /** The five algorithm ids the package names; five distinct values. */
  function KnownAlgIds(): (ids: set<U16>)
    ensures |ids| == 5
    ensures forall a :: a in ids <==>
      (a == TpmAlgSha1 || a == TpmAlgSha256 || a == TpmAlgSha384 || a == TpmAlgSha512 || a == TpmAlgSm3256)
  {
    {TpmAlgSha1, TpmAlgSha256, TpmAlgSha384, TpmAlgSha512, TpmAlgSm3256}
  }

  /** TPM2B_NAME, TPM 2.0 Library Part 2, section 10.5.3. */
  datatype Tpm2bName = Tpm2bName(size: U16, name: seq<Byte>)
  /** TPM2B_DATA, TPM 2.0 Library Part 2, section 10.4.3. */
  datatype Tpm2bData = Tpm2bData(size: U16, data: seq<Byte>)
  /** TPMS_CLOCK_INFO, TPM 2.0 Library Part 2, section 10.11.1; `safe` is a TPMI_YES_NO byte. */
  datatype ClockInfo = ClockInfo(clock: U64, resetCount: U32, restartCount: U32, safe: U8)
  /** TPMS_PCR_SELECTION, TPM 2.0 Library Part 2, section 10.6.2. */
  datatype PcrSelection = PcrSelection(hashAlgorithm: U16, sizeOfSelect: U8, pcrSelect: seq<Byte>)
  /** TPML_PCR_SELECTION, TPM 2.0 Library Part 2, section 10.9.7; a count of zero is allowed. */
  datatype PcrSelectionList = PcrSelectionList(count: U32, pcrSelections: seq<PcrSelection>)
  /** TPM2B_DIGEST, TPM 2.0 Library Part 2, section 10.4.2. */
  datatype Tpm2bDigest = Tpm2bDigest(size: U16, buffer: seq<Byte>)
  /** TPMS_QUOTE_INFO, TPM 2.0 Library Part 2, section 10.12.4. */
  datatype QuoteInfo = QuoteInfo(pcrSelect: PcrSelectionList, pcrDigest: Tpm2bDigest)
  /** TPMU_ATTEST restricted to its one variant here, the quote. */
  datatype AttestUnion = AttestUnion(quote: QuoteInfo)
  /** TPMS_ATTEST, TPM 2.0 Library Part 2, section 10.12.12, fields in wire order. */
  datatype TpmsAttest = TpmsAttest(
    magic: U32,
    attestationType: U16,
    qualifiedSigner: Tpm2bName,
    extraData: Tpm2bData,
    clockInfo: ClockInfo,
    firmwareVersion: U64,
    attested: AttestUnion)

  /** Go's zero value `TPMSAttest{}`. */
  const ZeroAttest: TpmsAttest :=
    TpmsAttest(0, 0, Tpm2bName(0, []), Tpm2bData(0, []), ClockInfo(0, 0, 0, 0), 0,
               AttestUnion(QuoteInfo(PcrSelectionList(0, []), Tpm2bDigest(0, []))))

  /** Every size field agrees with the length of what it sizes. */
  predicate SelectionWellFormed(s: PcrSelection)
  {
    |s.pcrSelect| == s.sizeOfSelect
  }

  predicate QuoteWellFormed(q: QuoteInfo)
  {
    && |q.pcrSelect.pcrSelections| == q.pcrSelect.count
    && (forall s | s in q.pcrSelect.pcrSelections :: SelectionWellFormed(s))
    && |q.pcrDigest.buffer| == q.pcrDigest.size
  }

  predicate WellFormed(t: TpmsAttest)
  {
    && |t.qualifiedSigner.name| == t.qualifiedSigner.size
    && |t.extraData.data| == t.extraData.size
    && QuoteWellFormed(t.attested.quote)
  }

  /** The single selection the pipeline uses, when there is exactly one. */
  function SoleSelection(t: TpmsAttest): (s: PcrSelection)
    requires WellFormed(t) && t.attested.quote.pcrSelect.count == 1
    ensures s in t.attested.quote.pcrSelect.pcrSelections && SelectionWellFormed(s)
  {
    t.attested.quote.pcrSelect.pcrSelections[0]
  }
}
