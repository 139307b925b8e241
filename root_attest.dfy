/**
 * The older root package's Attest (attest.go): only RSA PKCS#1 v1.5 signatures over SHA-256,
 * only SHA-256 and SHA-1 PCR banks, the PCR file split in the order of the decoded bitmap, and
 * `Attested{}` on every failure. Go runtime panics are `Panic`; the functions state the
 * pipeline and the methods run it as the program does.
 */
module RootAttest {
  import opened Wrappers
  import opened Bytes
  import opened Crypto
  import opened PcrBitmap
  import opened RootStructures
  import opened RootPcr

  /** Signature_RSA_PKCS1v15_With_SHA256, the one SignatureAlgorithm value handled. */
  const SignatureRsaPkcs1v15WithSha256: int := 0

  datatype RootAttested = RootAttested(
    firmwareVersion: U64,
    clock: U64,
    resetCount: U32,
    restartCount: U32,
    safe: seq<Byte>,
    qualifiedSignerName: seq<Byte>,
    pcrSelection: seq<int>,
    pcrValues: PcrValues,
    pcrHashAlgorithm: CustomTpmAlg)

  /** Go's `Attested{}`. */
  const EmptyAttested := RootAttested(0, 0, 0, 0, [], [], [], map[], CustomTpmAlg(0, []))

  datatype RootAttestError =
    | UnsupportedSigningMethod     // "unsupported signing method"
    | KeyParseFailed               // the error of x509.ParsePKIXPublicKey
    | SignatureRejected            // the error of rsa.VerifyPKCS1v15
    | ParseFailed(parse: RootParseError)
    | NonceMismatch                // "nonce mismatch"
    | SelectionCountNotOne         // "only a PCR selection count of 1 is supported"
    | UnsupportedPcrHashAlgorithm  // "unsupported PCR hash algorithm"
    | PcrFailed(pcr: RootPcrError)
    | EmptySelection               // "empty selection"

  /**
   * VerifyRSASignature: parse the key, then assert it is an RSA key, then check the PKCS#1 v1.5
   * signature over SHA-256 of the plaintext. The type assertion panics on any other key.
   */
  function VerifyRsaSignature(p: Primitives, pemPub: seq<Byte>, plaintext: seq<Byte>, sigRaw: seq<Byte>): (r: Outcome<Option<RootAttestError>>)
    ensures r.Panic? <==> p.parsePublicKey(pemPub).Some? && p.parsePublicKey(pemPub).value.kind != RsaKey
    ensures r == Done(None) <==>
      && p.parsePublicKey(pemPub).Some?
      && p.parsePublicKey(pemPub).value.kind == RsaKey
      && p.rsaVerifyPkcs1v15(p.parsePublicKey(pemPub).value, p.hash(Sha256, plaintext), sigRaw)
  {
    match p.parsePublicKey(pemPub)
    case None => Done(Some(KeyParseFailed))
    case Some(pubKey) =>
      if pubKey.kind != RsaKey then Panic
      else if p.rsaVerifyPkcs1v15(pubKey, p.hash(Sha256, plaintext), sigRaw) then Done(None)
      else Done(Some(SignatureRejected))
  }

  /** The hash behind each id the pipeline accepts. */
  function SupportedHash(id: seq<Byte>): Option<HashAlg>
  {
    if id == TpmAlgSha256Bytes then Some(Sha256)
    else if id == TpmAlgSha1Bytes then Some(Sha1)
    else None
  }

  /** The if-chain on the selection's algorithm id: SHA-256 with sha256.Size, SHA-1 with sha1.Size. */
  function PcrHashAlgorithm(id: seq<Byte>): (r: Option<CustomTpmAlg>)
    ensures r.Some? <==> SupportedHash(id).Some?
    ensures r.Some? ==> r.value.algorithm == id && r.value.hashSize == DigestSize(SupportedHash(id).value)
  {
    if id == TpmAlgSha256Bytes then Some(CustomTpmAlg(32, TpmAlgSha256Bytes))
    else if id == TpmAlgSha1Bytes then Some(CustomTpmAlg(20, TpmAlgSha1Bytes))
    else None
  }

  /** For an accepted id, the sum VerifyQuoteDigest computes is the hash itself. */
  lemma AcceptedSumIsHash(hash: HashFn, id: seq<Byte>, data: seq<Byte>)
    requires PcrHashAlgorithm(id).Some?
    ensures ComputedSum(hash, PcrHashAlgorithm(id).value, data) == hash(SupportedHash(id).value, data)
  {
    ComputedSumIsHash(hash, data);
  }

  /** The output record of a successful run. */
  function Output(t: TpmsAttest, list: seq<int>, values: PcrValues, alg: CustomTpmAlg): RootAttested
  {
    RootAttested(t.firmwareVersion, t.clockInfo.clock, t.clockInfo.resetCount, t.clockInfo.restartCount,
                 t.clockInfo.safe, t.qualifiedSigner.name, list, values, alg)
  }

  /** attest.go:76-101: split the PCR file by the list, check its digest, refuse an empty selection. */
  function PcrStage(hash: HashFn, t: TpmsAttest, alg: CustomTpmAlg, list: seq<int>, pcrFile: seq<Byte>): (r: (RootAttested, Option<RootAttestError>))
    requires alg.hashSize > 0
    ensures r.1.Some? ==> r.0 == EmptyAttested
  {
    match SplitBySelection(pcrFile, list, alg.hashSize)
    case Err(e) => (EmptyAttested, Some(PcrFailed(e)))
    case Ok(values) =>
      var (_, digestErr) := QuoteDigestCheck(hash, alg, values, list, t.attested.quote.pcrDigest.buffer);
      if digestErr.Some? then (EmptyAttested, Some(PcrFailed(digestErr.value)))
      else if |list| == 0 || |values| == 0 then (EmptyAttested, Some(EmptySelection))
      else (Output(t, list, values, alg), None)
  }

  /**
   * attest.go:49-76 on a parsed message: the nonce, a count of 1, the first selection (indexing it
   * panics when the list is empty), its hash, and its bitmap decoded by GetPCRList (which panics
   * on a bitmap shorter than sizeOfSelect).
   */
  function QuoteStage(hash: HashFn, t: TpmsAttest, pcrFile: seq<Byte>, nonceFile: seq<Byte>): (r: Outcome<(RootAttested, Option<RootAttestError>)>)
    ensures r.Done? && r.value.1.Some? ==> r.value.0 == EmptyAttested
    ensures ListWellFormed(t.attested.quote.pcrSelect) ==> r.Done?
  {
    var selections := t.attested.quote.pcrSelect;
    if t.extraData.data != nonceFile then Done((EmptyAttested, Some(NonceMismatch)))
    else if selections.count != 1 then Done((EmptyAttested, Some(SelectionCountNotOne)))
    else if |selections.pcrSelections| == 0 then Panic
    else
      var pcrSelection := selections.pcrSelections[0];
      match PcrHashAlgorithm(pcrSelection.hashAlgorithmId)
      case None => Done((EmptyAttested, Some(UnsupportedPcrHashAlgorithm)))
      case Some(alg) =>
        if |pcrSelection.pcrSelect| < pcrSelection.sizeOfSelect then Panic
        else Done(PcrStage(hash, t, alg, Selected(pcrSelection.pcrSelect[..pcrSelection.sizeOfSelect]), pcrFile))
  }

  /** The whole pipeline: the signing method, the signature, the parse, then the quote. */
  function AttestSpec(p: Primitives, pemPublicKey: seq<Byte>, messageFile: seq<Byte>, pcrFile: seq<Byte>,
                      signatureFile: seq<Byte>, nonceFile: seq<Byte>, sigAlg: int): (r: Outcome<(RootAttested, Option<RootAttestError>)>)
    ensures sigAlg != SignatureRsaPkcs1v15WithSha256 ==> r == Done((EmptyAttested, Some(UnsupportedSigningMethod)))
    ensures r.Done? && r.value.1.Some? ==> r.value.0 == EmptyAttested
  {
    if sigAlg != SignatureRsaPkcs1v15WithSha256 then Done((EmptyAttested, Some(UnsupportedSigningMethod)))
    else
      match VerifyRsaSignature(p, pemPublicKey, messageFile, signatureFile)
      case Panic => Panic
      case Done(Some(e)) => Done((EmptyAttested, Some(e)))
      case Done(None) =>
        match DecodeRawQuote(messageFile)
        case Panic => Panic
        case Done(Err(e)) => Done((EmptyAttested, Some(ParseFailed(e))))
        case Done(Ok(t)) => QuoteStage(p.hash, t, pcrFile, nonceFile)
  }

  // ---------------------------------------------------------------- the pipeline as the program runs it

  method CheckPcrFile(hash: HashFn, t: TpmsAttest, alg: CustomTpmAlg, list: seq<int>, pcrFile: seq<Byte>) returns (output: RootAttested, err: Option<RootAttestError>)
    requires alg.hashSize > 0
    ensures (output, err) == PcrStage(hash, t, alg, list, pcrFile)
  {
    var q, pcrErr := ParseValuePcrFileWithList(pcrFile, list, alg);
    if pcrErr.Some? {
      return EmptyAttested, Some(PcrFailed(pcrErr.value));
    }
    var digestErr := VerifyQuoteDigest(q, t.attested.quote.pcrDigest.buffer, hash);
    if digestErr.Some? {
      return EmptyAttested, Some(PcrFailed(digestErr.value));
    }
    if |q.selection| == 0 || |q.values| == 0 {
      return EmptyAttested, Some(EmptySelection);
    }
    output := RootAttested(t.firmwareVersion, t.clockInfo.clock, t.clockInfo.resetCount, t.clockInfo.restartCount,
                           t.clockInfo.safe, t.qualifiedSigner.name, q.selection, q.values, alg);
    err := None;
  }

  method CheckQuote(hash: HashFn, t: TpmsAttest, pcrFile: seq<Byte>, nonceFile: seq<Byte>) returns (output: RootAttested, err: Option<RootAttestError>)
    requires QuoteStage(hash, t, pcrFile, nonceFile).Done?
    ensures (output, err) == QuoteStage(hash, t, pcrFile, nonceFile).value
  {
    if t.extraData.data != nonceFile {
      return EmptyAttested, Some(NonceMismatch);
    }
    if t.attested.quote.pcrSelect.count != 1 {
      return EmptyAttested, Some(SelectionCountNotOne);
    }
    var pcrSelection := t.attested.quote.pcrSelect.pcrSelections[0];
    var pcrHashAlgorithm := PcrHashAlgorithm(pcrSelection.hashAlgorithmId);
    if pcrHashAlgorithm.None? {
      return EmptyAttested, Some(UnsupportedPcrHashAlgorithm);
    }
    var list := GetPcrList(pcrSelection);
    output, err := CheckPcrFile(hash, t, pcrHashAlgorithm.value, list, pcrFile);
  }

  /** Attest. It requires what the program needs not to panic. */
  method Attest(p: Primitives, pemPublicKey: seq<Byte>, messageFile: seq<Byte>, pcrFile: seq<Byte>,
                signatureFile: seq<Byte>, nonceFile: seq<Byte>, sigAlg: int) returns (output: RootAttested, err: Option<RootAttestError>)
    requires AttestSpec(p, pemPublicKey, messageFile, pcrFile, signatureFile, nonceFile, sigAlg).Done?
    ensures (output, err) == AttestSpec(p, pemPublicKey, messageFile, pcrFile, signatureFile, nonceFile, sigAlg).value
  {
    if sigAlg != SignatureRsaPkcs1v15WithSha256 {
      return EmptyAttested, Some(UnsupportedSigningMethod);
    }
    var sigErr := VerifyRsaSignature(p, pemPublicKey, messageFile, signatureFile).value;
    if sigErr.Some? {
      return EmptyAttested, Some(sigErr.value);
    }
    var result, parseErr := MarshalRawQuoteMessage(messageFile);
    if parseErr.Some? {
      return EmptyAttested, Some(ParseFailed(parseErr.value));
    }
    output, err := CheckQuote(p.hash, result, pcrFile, nonceFile);
  }

  // ---------------------------------------------------------------- properties of the pipeline

  /**
   * When a decoded quote is accepted, stated without the splitter: the nonce is the extra data,
   * there is one selection, its hash is SHA-256 or SHA-1, it selects at least one PCR, the file
   * holds exactly one digest per selected PCR, and the hash of the whole file is the pcrDigest.
   */
  predicate QuoteAcceptable(hash: HashFn, t: TpmsAttest, pcrFile: seq<Byte>, nonceFile: seq<Byte>)
    requires ListWellFormed(t.attested.quote.pcrSelect)
  {
    var selections := t.attested.quote.pcrSelect;
    && t.extraData.data == nonceFile
    && selections.count == 1
    && var pcrSelection := selections.pcrSelections[0];
       var bitmap := pcrSelection.pcrSelect[..pcrSelection.sizeOfSelect];
       var h := SupportedHash(pcrSelection.hashAlgorithmId);
       && h.Some?
       && SelectedSet(bitmap) != {}
       && |pcrFile| == |SelectedSet(bitmap)| * DigestSize(h.value)
       && hash(h.value, pcrFile) == t.attested.quote.pcrDigest.buffer
  }

  /** The digest stage on the decoded bitmap: it passes exactly when the whole file hashes to the digest. */
  lemma PcrStageAccepts(hash: HashFn, t: TpmsAttest, id: seq<Byte>, bitmap: seq<Byte>, pcrFile: seq<Byte>)
    requires PcrHashAlgorithm(id).Some?
    ensures var alg, h, list := PcrHashAlgorithm(id).value, SupportedHash(id).value, Selected(bitmap);
      && (PcrStage(hash, t, alg, list, pcrFile).1.None? <==>
            && SelectedSet(bitmap) != {}
            && |pcrFile| == |SelectedSet(bitmap)| * DigestSize(h)
            && hash(h, pcrFile) == t.attested.quote.pcrDigest.buffer)
      && (PcrStage(hash, t, alg, list, pcrFile).1.None? ==>
            && PcrStage(hash, t, alg, list, pcrFile).0 == Output(t, list, SplitBySelection(pcrFile, list, alg.hashSize).value, alg)
            && (forall k :: k in PcrStage(hash, t, alg, list, pcrFile).0.pcrValues <==> IsSelected(bitmap, k)))
  {
    var alg, h, list := PcrHashAlgorithm(id).value, SupportedHash(id).value, Selected(bitmap);
    SelectedIncreasing(bitmap);
    SelectedMembership(bitmap);
    SelectedLength(bitmap);
    IncreasingDistinct(list);
    var split := SplitBySelection(pcrFile, list, alg.hashSize);
    if split.Ok? {
      SplitBySelectionContents(pcrFile, list, alg.hashSize);
      RootConcatSplit(pcrFile, list, alg.hashSize);
      AcceptedSumIsHash(hash, id, pcrFile);
      assert |list| == 0 <==> SelectedSet(bitmap) == {};
    }
  }

  /** The checks after the parse accept exactly the quotes QuoteAcceptable describes. */
  lemma QuoteStageAccepts(hash: HashFn, t: TpmsAttest, pcrFile: seq<Byte>, nonceFile: seq<Byte>)
    requires ListWellFormed(t.attested.quote.pcrSelect)
    ensures QuoteStage(hash, t, pcrFile, nonceFile).value.1.None? <==> QuoteAcceptable(hash, t, pcrFile, nonceFile)
  {
    var selections := t.attested.quote.pcrSelect;
    if t.extraData.data == nonceFile && selections.count == 1 {
      var pcrSelection := selections.pcrSelections[0];
      assert pcrSelection in selections.pcrSelections;
      if PcrHashAlgorithm(pcrSelection.hashAlgorithmId).Some? {
        PcrStageAccepts(hash, t, pcrSelection.hashAlgorithmId, pcrSelection.pcrSelect[..pcrSelection.sizeOfSelect], pcrFile);
      }
    }
  }

  /**
   * Attest accepts exactly when the signing method is RSA PKCS#1 v1.5, the key is an RSA key
   * that verifies the signature over SHA-256 of the message, the message decodes, and the
   * decoded quote is acceptable. On success the values are keyed by the selected PCRs, and the
   * record copies the quote's firmware version, clock fields and signer name.
   */
  lemma AttestAccepts(p: Primitives, pem: seq<Byte>, msg: seq<Byte>, pcrFile: seq<Byte>, sig: seq<Byte>, nonce: seq<Byte>, sigAlg: int)
    ensures (AttestSpec(p, pem, msg, pcrFile, sig, nonce, sigAlg).Done? && AttestSpec(p, pem, msg, pcrFile, sig, nonce, sigAlg).value.1.None?) <==>
      && sigAlg == SignatureRsaPkcs1v15WithSha256
      && VerifyRsaSignature(p, pem, msg, sig) == Done(None)
      && DecodeRawQuote(msg).Done? && DecodeRawQuote(msg).value.Ok?
      && QuoteAcceptable(p.hash, DecodeRawQuote(msg).value.value, pcrFile, nonce)
    ensures AttestSpec(p, pem, msg, pcrFile, sig, nonce, sigAlg).Done? && AttestSpec(p, pem, msg, pcrFile, sig, nonce, sigAlg).value.1.None? ==>
      var t := DecodeRawQuote(msg).value.value;
      var pcrSelection := t.attested.quote.pcrSelect.pcrSelections[0];
      var output := AttestSpec(p, pem, msg, pcrFile, sig, nonce, sigAlg).value.0;
      && output.firmwareVersion == t.firmwareVersion
      && output.clock == t.clockInfo.clock && output.resetCount == t.clockInfo.resetCount
      && output.restartCount == t.clockInfo.restartCount && output.safe == t.clockInfo.safe
      && output.qualifiedSignerName == t.qualifiedSigner.name
      && output.pcrSelection == Selected(pcrSelection.pcrSelect[..pcrSelection.sizeOfSelect])
      && output.pcrHashAlgorithm == PcrHashAlgorithm(pcrSelection.hashAlgorithmId).value
      && forall k :: k in output.pcrValues <==> IsSelected(pcrSelection.pcrSelect[..pcrSelection.sizeOfSelect], k)
  {
    if sigAlg == SignatureRsaPkcs1v15WithSha256 && VerifyRsaSignature(p, pem, msg, sig) == Done(None)
       && DecodeRawQuote(msg).Done? && DecodeRawQuote(msg).value.Ok? {
      var t := DecodeRawQuote(msg).value.value;
      QuoteStageAccepts(p.hash, t, pcrFile, nonce);
      var selections := t.attested.quote.pcrSelect;
      if QuoteAcceptable(p.hash, t, pcrFile, nonce) {
        var pcrSelection := selections.pcrSelections[0];
        assert pcrSelection in selections.pcrSelections;
        PcrStageAccepts(p.hash, t, pcrSelection.hashAlgorithmId, pcrSelection.pcrSelect[..pcrSelection.sizeOfSelect], pcrFile);
      }
    }
  }

  /**
   * Attest panics exactly when the signing method is RSA and either the parsed key is not an RSA
   * key (the type assertion) or the signature verifies and decoding the message runs off its end
   * (for a message slice whose capacity is its length).
   */
  lemma AttestPanics(p: Primitives, pem: seq<Byte>, msg: seq<Byte>, pcrFile: seq<Byte>, sig: seq<Byte>, nonce: seq<Byte>, sigAlg: int)
    ensures AttestSpec(p, pem, msg, pcrFile, sig, nonce, sigAlg).Panic? <==>
      && sigAlg == SignatureRsaPkcs1v15WithSha256
      && (|| (p.parsePublicKey(pem).Some? && p.parsePublicKey(pem).value.kind != RsaKey)
          || (VerifyRsaSignature(p, pem, msg, sig) == Done(None) && DecodeRawQuote(msg).Panic?))
  {
  }
}
