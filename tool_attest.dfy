/**
 * tool.Attest: check the signature over the quote message, parse the message, check the nonce,
 * require a single PCR selection, pick the hash of that selection, split the PCR file and check
 * its digest. The function AttestSpec states the pipeline; the method Attest runs it as the
 * program does and is proved to agree with it.
 */
module ToolAttest {
  import opened Wrappers
  import opened Bytes
  import opened Crypto
  import opened ToolTypes
  import opened ToolWire
  import opened ToolParse
  import opened ToolPcr

  datatype SignatureError =
    | KeyParseFailed            // x509.ParsePKIXPublicKey failed
    | InvalidSignature          // "invalid signature"
    | UnsupportedKeyAlgorithm   // "unsupported public key algorithm"

  datatype AttestError =
    | SignatureFailed(sig: SignatureError)
    | ParseFailed(parse: ParseError)
    | NonceMismatch(got: seq<Byte>, wanted: seq<Byte>)
    | UnsupportedSelectionCount  // "only a PCR selection count of 1 is supported"
    | UnsupportedPcrHash         // "unsupported PCR hash algorithm"
    | PcrFailed(pcr: PcrError)

  /** The result record: the parsed quote and the PCR values keyed as the file was split. */
  datatype Attested = Attested(tpmData: TpmsAttest, pcrValues: PcrValues)

  /** Go's `Attested{}`. */
  const EmptyAttested := Attested(ZeroAttest, map[])

  /**
   * verifySignature: parse the PEM public key, hash the plaintext with SHA-256, then check an
   * RSA PKCS#1 v1.5 or an ECDSA ASN.1 signature; any other key kind is refused.
   */
  function VerifySignature(p: Primitives, pemPub: seq<Byte>, plaintext: seq<Byte>, sigRaw: seq<Byte>): (r: Option<SignatureError>)
    ensures p.parsePublicKey(pemPub).None? ==> r == Some(KeyParseFailed)
    ensures p.parsePublicKey(pemPub).Some? && p.parsePublicKey(pemPub).value.kind == OtherKey
      ==> r == Some(UnsupportedKeyAlgorithm)
    ensures r.None? <==>
      (var key, digest := p.parsePublicKey(pemPub), p.hash(Sha256, plaintext);
       && key.Some?
       && ((key.value.kind == RsaKey && p.rsaVerifyPkcs1v15(key.value, digest, sigRaw))
           || (key.value.kind == EcdsaKey && p.ecdsaVerifyAsn1(key.value, digest, sigRaw))))
  {
    match p.parsePublicKey(pemPub)
    case None => Some(KeyParseFailed)
    case Some(key) =>
      var hashedPlain := p.hash(Sha256, plaintext);
      match key.kind
      case RsaKey => if p.rsaVerifyPkcs1v15(key, hashedPlain, sigRaw) then None else Some(InvalidSignature)
      case EcdsaKey => if p.ecdsaVerifyAsn1(key, hashedPlain, sigRaw) then None else Some(InvalidSignature)
      case OtherKey => Some(UnsupportedKeyAlgorithm)
  }

  /** The TPM_ALG_ID of each hash the pipeline can instantiate. */
  function AlgId(h: HashAlg): U16
  {
    match h
    case Sha1 => TpmAlgSha1
    case Sha256 => TpmAlgSha256
    case Sha384 => TpmAlgSha384
    case Sha512 => TpmAlgSha512
  }

  /** The switch on the selection's hash algorithm: SHA-1/256/384/512, anything else refused. */
  function ResolvePcrHash(id: U16): (h: Option<HashAlg>)
    ensures h.Some? <==> id in {TpmAlgSha1, TpmAlgSha256, TpmAlgSha384, TpmAlgSha512}
    ensures h.Some? ==> AlgId(h.value) == id
  {
    if id == TpmAlgSha1 then Some(Sha1)
    else if id == TpmAlgSha256 then Some(Sha256)
    else if id == TpmAlgSha384 then Some(Sha384)
    else if id == TpmAlgSha512 then Some(Sha512)
    else None
  }

  /** Every hash resolves from its own id, and SM3_256, though a known id, does not resolve. */
  lemma ResolveAlgId(h: HashAlg)
    ensures ResolvePcrHash(AlgId(h)) == Some(h)
    ensures ResolvePcrHash(TpmAlgSm3256) == None
  {
  }

  /** The last stage: split the PCR file with the selected hash and check its digest. */
  function PcrStage(p: Primitives, t: TpmsAttest, alg: HashAlg, pcrFile: seq<Byte>): (r: (Attested, Option<AttestError>))
    ensures r.0.tpmData == t
    ensures r.1.Some? ==> r.0.pcrValues == map[]
    ensures r.1.None? ==> |pcrFile| % DigestSize(alg) == 0
  {
    match SplitByPosition(pcrFile, DigestSize(alg))
    case Err(e) => (Attested(t, map[]), Some(PcrFailed(e)))
    case Ok(q) =>
      match DigestCheck(p.hash, alg, q, t.attested.quote.pcrDigest.buffer)
      case Some(e) => (Attested(t, map[]), Some(PcrFailed(e)))
      case None => (Attested(t, q), None)
  }

  /** The checks on a parsed quote: nonce, a single selection, a supported hash, the PCR file. */
  function QuoteStage(p: Primitives, t: TpmsAttest, pcrFile: seq<Byte>, nonceFile: seq<Byte>): (r: (Attested, Option<AttestError>))
    requires WellFormed(t)
    ensures r.0 == EmptyAttested || r.0.tpmData == t
    ensures r.1.None? ==> r.0.tpmData == t && t.extraData.data == nonceFile && t.attested.quote.pcrSelect.count == 1
  {
    var quote := t.attested.quote;
    if ConstantTimeCompare(t.extraData.data, nonceFile) == 0 then
      (EmptyAttested, Some(NonceMismatch(t.extraData.data, nonceFile)))
    else if quote.pcrSelect.count != 1 then
      (EmptyAttested, Some(UnsupportedSelectionCount))
    else
      match ResolvePcrHash(quote.pcrSelect.pcrSelections[0].hashAlgorithm)
      case None => (EmptyAttested, Some(UnsupportedPcrHash))
      case Some(alg) => PcrStage(p, t, alg, pcrFile)
  }

  /** The pipeline, stage by stage; each failure says which result goes with it. */
  function AttestSpec(p: Primitives, pemPublicKey: seq<Byte>, messageFile: seq<Byte>, pcrFile: seq<Byte>,
                      signatureFile: seq<Byte>, nonceFile: seq<Byte>): (r: (Attested, Option<AttestError>))
    ensures r.1.None? ==> VerifySignature(p, pemPublicKey, messageFile, signatureFile).None? && ParseQuote(messageFile).Ok?
    ensures r.1.None? ==> r.0.tpmData == ParseQuote(messageFile).value && r.0.tpmData.extraData.data == nonceFile
  {
    match VerifySignature(p, pemPublicKey, messageFile, signatureFile)
    case Some(e) => (EmptyAttested, Some(SignatureFailed(e)))
    case None =>
      match ParseQuote(messageFile)
      case Err(e) => (EmptyAttested, Some(ParseFailed(e)))
      case Ok(t) => QuoteStage(p, t, pcrFile, nonceFile)
  }

  /** The hash.Hash of the selected algorithm handed to the splitter and then the digest check. */
  method CheckPcrFile(p: Primitives, t: TpmsAttest, alg: HashAlg, pcrFile: seq<Byte>) returns (result: Attested, err: Option<AttestError>)
    ensures (result, err) == PcrStage(p, t, alg, pcrFile)
  {
    result := Attested(t, map[]);
    var pcrHashAlgorithm := new Hasher(alg, p.hash);
    var q, pcrErr := ParseValuePcrFileWithList(pcrFile, pcrHashAlgorithm);
    if pcrErr.Some? {
      return result, Some(PcrFailed(pcrErr.value));
    }
    var digestErr := VerifyQuoteDigest(q, t.attested.quote.pcrDigest.buffer, pcrHashAlgorithm);
    if digestErr.Some? {
      return result, Some(PcrFailed(digestErr.value));
    }
    result, err := result.(pcrValues := q), None;
  }

  /** The steps of Attest after a successful parse. */
  method CheckQuote(p: Primitives, t: TpmsAttest, pcrFile: seq<Byte>, nonceFile: seq<Byte>) returns (result: Attested, err: Option<AttestError>)
    requires WellFormed(t)
    ensures (result, err) == QuoteStage(p, t, pcrFile, nonceFile)
  {
    var quote := t.attested.quote;
    if ConstantTimeCompare(t.extraData.data, nonceFile) == 0 {
      return EmptyAttested, Some(NonceMismatch(t.extraData.data, nonceFile));
    }
    if quote.pcrSelect.count != 1 {
      return EmptyAttested, Some(UnsupportedSelectionCount);
    }
    var pcrSelection := quote.pcrSelect.pcrSelections[0];
    var alg := ResolvePcrHash(pcrSelection.hashAlgorithm);
    if alg.None? {
      return EmptyAttested, Some(UnsupportedPcrHash);
    }
    result, err := CheckPcrFile(p, t, alg.value, pcrFile);
  }

  /**
   * Attest as the program runs it: the named result is filled as the stages succeed; a parse
   * error leaves the zero TPMSAttest that the parser returned in it.
   */
  method Attest(p: Primitives, pemPublicKey: seq<Byte>, messageFile: seq<Byte>, pcrFile: seq<Byte>,
                signatureFile: seq<Byte>, nonceFile: seq<Byte>) returns (result: Attested, err: Option<AttestError>)
    ensures (result, err) == AttestSpec(p, pemPublicKey, messageFile, pcrFile, signatureFile, nonceFile)
  {
    result := EmptyAttested;
    var sigErr := VerifySignature(p, pemPublicKey, messageFile, signatureFile);
    if sigErr.Some? {
      return result, Some(SignatureFailed(sigErr.value));
    }
    var parsed, parseErr := ParseRawQuoteMessage(messageFile);
    result := result.(tpmData := parsed);
    if parseErr.Some? {
      return result, Some(ParseFailed(parseErr.value));
    }
    result, err := CheckQuote(p, parsed, pcrFile, nonceFile);
  }

  // ---------------------------------------------------------------- properties of the pipeline

  /**
   * The failures before the PCR file is looked at return `Attested{}`: a bad signature before
   * anything is parsed, then a parse error unchanged, a nonce that differs in length or content,
   * a selection count other than 1, a hash other than SHA-1/256/384/512.
   */
  lemma EarlyFailuresReturnEmpty(p: Primitives, pem: seq<Byte>, msg: seq<Byte>, pcr: seq<Byte>, sig: seq<Byte>, nonce: seq<Byte>)
    ensures VerifySignature(p, pem, msg, sig).Some? ==>
      AttestSpec(p, pem, msg, pcr, sig, nonce) == (EmptyAttested, Some(SignatureFailed(VerifySignature(p, pem, msg, sig).value)))
    ensures VerifySignature(p, pem, msg, sig).None? && ParseQuote(msg).Err? ==>
      AttestSpec(p, pem, msg, pcr, sig, nonce) == (EmptyAttested, Some(ParseFailed(ParseQuote(msg).error)))
    ensures VerifySignature(p, pem, msg, sig).None? && ParseQuote(msg).Ok? ==>
      (var t := ParseQuote(msg).value;
       && (t.extraData.data != nonce ==>
             AttestSpec(p, pem, msg, pcr, sig, nonce) == (EmptyAttested, Some(NonceMismatch(t.extraData.data, nonce))))
       && (t.extraData.data == nonce && t.attested.quote.pcrSelect.count != 1 ==>
             AttestSpec(p, pem, msg, pcr, sig, nonce) == (EmptyAttested, Some(UnsupportedSelectionCount)))
       && (t.extraData.data == nonce && t.attested.quote.pcrSelect.count == 1 &&
           t.attested.quote.pcrSelect.pcrSelections[0].hashAlgorithm == TpmAlgSm3256 ==>
             AttestSpec(p, pem, msg, pcr, sig, nonce) == (EmptyAttested, Some(UnsupportedPcrHash))))
  {
  }

  /**
   * A PCR file that is not a whole number of digests, or whose digest does not match, fails
   * with the parsed quote still in the result (and no PCR values), unlike the earlier failures.
   */
  lemma LateFailuresKeepQuote(p: Primitives, pem: seq<Byte>, msg: seq<Byte>, pcr: seq<Byte>, sig: seq<Byte>, nonce: seq<Byte>)
    requires VerifySignature(p, pem, msg, sig).None? && ParseQuote(msg).Ok?
    requires ParseQuote(msg).value.extraData.data == nonce
    requires ParseQuote(msg).value.attested.quote.pcrSelect.count == 1
    requires ResolvePcrHash(ParseQuote(msg).value.attested.quote.pcrSelect.pcrSelections[0].hashAlgorithm).Some?
    ensures
      var t := ParseQuote(msg).value;
      var alg := ResolvePcrHash(t.attested.quote.pcrSelect.pcrSelections[0].hashAlgorithm).value;
      var r := AttestSpec(p, pem, msg, pcr, sig, nonce);
      && (|pcr| % DigestSize(alg) != 0 ==> r == (Attested(t, map[]), Some(PcrFailed(FileSizeMismatch))))
      && (|pcr| % DigestSize(alg) == 0 && p.hash(alg, pcr) != t.attested.quote.pcrDigest.buffer ==>
            r == (Attested(t, map[]), Some(PcrFailed(DigestMismatch(t.attested.quote.pcrDigest.buffer, p.hash(alg, pcr))))))
  {
    var t := ParseQuote(msg).value;
    var alg := ResolvePcrHash(t.attested.quote.pcrSelect.pcrSelections[0].hashAlgorithm).value;
    if |pcr| % DigestSize(alg) == 0 {
      DigestOfSplitFile(p.hash, alg, pcr, t.attested.quote.pcrDigest.buffer);
    }
  }

  /**
   * Attest accepts exactly when the signature verifies, the message parses, the nonce is the
   * extra data, there is one selection with a supported hash, and the hash of the whole PCR file
   * is the quote's pcrDigest. The selection's bitmap plays no part. On success the result holds
   * the parsed quote and the file's digests keyed 1 .. n.
   */
  lemma AttestAccepts(p: Primitives, pem: seq<Byte>, msg: seq<Byte>, pcr: seq<Byte>, sig: seq<Byte>, nonce: seq<Byte>)
    ensures AttestSpec(p, pem, msg, pcr, sig, nonce).1.None? <==>
      && VerifySignature(p, pem, msg, sig).None?
      && ParseQuote(msg).Ok?
      && (var t := ParseQuote(msg).value;
          var quote := t.attested.quote;
          && t.extraData.data == nonce
          && quote.pcrSelect.count == 1
          && ResolvePcrHash(quote.pcrSelect.pcrSelections[0].hashAlgorithm).Some?
          && (var alg := ResolvePcrHash(quote.pcrSelect.pcrSelections[0].hashAlgorithm).value;
              && |pcr| % DigestSize(alg) == 0
              && p.hash(alg, pcr) == quote.pcrDigest.buffer))
    ensures AttestSpec(p, pem, msg, pcr, sig, nonce).1.None? ==>
      (var r := AttestSpec(p, pem, msg, pcr, sig, nonce).0;
       var alg := ResolvePcrHash(r.tpmData.attested.quote.pcrSelect.pcrSelections[0].hashAlgorithm).value;
       && r.tpmData == ParseQuote(msg).value
       && r.pcrValues == SplitByPosition(pcr, DigestSize(alg)).value
       && forall k :: k in r.pcrValues <==> 1 <= k <= |pcr| / DigestSize(alg))
  {
    if VerifySignature(p, pem, msg, sig).None? && ParseQuote(msg).Ok? {
      var t := ParseQuote(msg).value;
      var quote := t.attested.quote;
      if t.extraData.data == nonce && quote.pcrSelect.count == 1 {
        var h := ResolvePcrHash(quote.pcrSelect.pcrSelections[0].hashAlgorithm);
        if h.Some? && |pcr| % DigestSize(h.value) == 0 {
          DigestOfSplitFile(p.hash, h.value, pcr, quote.pcrDigest.buffer);
          SplitKeys(pcr, DigestSize(h.value));
        }
      }
    }
  }
}
