/**
 * The older root package's TPMS_ATTEST decoder (structures.go). Every Marshal_* function reads
 * its fields by slicing the buffer at a running `progress` counter and checks no length, so a
 * short buffer makes Go panic with a slice bound out of range. Buffers are modelled as slices
 * whose capacity is their length; Go checks `b[lo:hi]` against the capacity, so a buffer with
 * spare capacity reads its bytes past the length instead. The Decode* functions state what
 * each decoder returns, or Panic where the program would panic; each Marshal* method runs the
 * decoder as the program does and requires that it does not panic.
 */
module RootStructures {
  import opened Wrappers
  import opened Bytes

  /** TPM_MAGIC and TPM_ST_ATTEST_QUOTE, kept as byte slices in this package. */
  const TpmMagic: seq<Byte> := [0xff, 0x54, 0x43, 0x47]
  const TpmStAttestQuoteBytes: seq<Byte> := [0x80, 0x18]

  datatype Tpm2bName = Tpm2bName(size: U16, name: seq<Byte>)
  datatype Tpm2bData = Tpm2bData(size: U16, data: seq<Byte>)
  datatype Tpm2bDigest = Tpm2bDigest(size: U16, buffer: seq<Byte>)
  /** `safe` is a one-byte slice here. */
  datatype ClockInfo = ClockInfo(clock: U64, resetCount: U32, restartCount: U32, safe: seq<Byte>)
  /** `hashAlgorithmID` is the two raw bytes of the algorithm id. */
  datatype PcrSelection = PcrSelection(hashAlgorithmId: seq<Byte>, sizeOfSelect: U8, pcrSelect: seq<Byte>)
  datatype PcrSelectionList = PcrSelectionList(count: U32, pcrSelections: seq<PcrSelection>)
  datatype QuoteInfo = QuoteInfo(pcrSelect: PcrSelectionList, pcrDigest: Tpm2bDigest)
  datatype AttestUnion = AttestUnion(quote: QuoteInfo)
  datatype TpmsAttest = TpmsAttest(
    magic: seq<Byte>,
    attestationType: seq<Byte>,
    qualifiedSigner: Tpm2bName,
    extraData: Tpm2bData,
    clockInfo: ClockInfo,
    firmwareVersion: U64,
    attested: AttestUnion)

  /** `TPMS_ATTEST{}`. */
  const ZeroAttest: TpmsAttest :=
    TpmsAttest([], [], Tpm2bName(0, []), Tpm2bData(0, []), ClockInfo(0, 0, 0, []), 0,
               AttestUnion(QuoteInfo(PcrSelectionList(0, []), Tpm2bDigest(0, []))))

  datatype RootParseError =
    | NotATpmSignature   // "not a tpm signature"
    | SelectorNotQuote   // "selector is not TPM_ST_ATTEST_QUOTE"

  // ---------------------------------------------------------------- the decoders as functions

  /**
   * Every TPM2B decoder: the uint16 size from b[:2], then the payload b[2:2+size]; it panics
   * unless both slices are in range, and otherwise consumes exactly 2 + size bytes.
   */
  function DecodeSized(b: seq<Byte>): (r: Outcome<(U16, seq<Byte>, nat)>)
    ensures r.Done? <==> 2 <= |b| && 2 + BE16(b[..2]) <= |b|
    ensures r.Done? ==> (var (size, payload, progress) := r.value;
      size == BE16(b[..2]) && |payload| == size && progress == 2 + size && payload == b[2..progress])
  {
    if |b| < 2 then Panic
    else
      var size := BE16(b[..2]);
      if |b| < 2 + size as int then Panic else Done((size, b[2..2 + size as int], 2 + size as int))
  }

  /** Marshal_TPMS_CLOCK_INFO: 8 + 4 + 4 + 1 bytes, big-endian, `safe` as a one-byte slice. */
  function DecodeClockInfo(b: seq<Byte>): (r: Outcome<(ClockInfo, nat)>)
    ensures r.Done? <==> 17 <= |b|
    ensures r.Done? ==> r.value.1 == 17 && |r.value.0.safe| == 1
  {
    if |b| < 17 then Panic
    else Done((ClockInfo(BE64(b[..8]), BE32(b[8..12]), BE32(b[12..16]), b[16..17]), 17))
  }

  /**
   * Marshal_TPMS_PCR_SELECTION: two id bytes, the sizeOfSelect byte, then that many bitmap
   * octets; 3 + sizeOfSelect bytes in all.
   */
  function DecodeSelection(b: seq<Byte>): (r: Outcome<(PcrSelection, nat)>)
    ensures r.Done? <==> 3 <= |b| && 3 + b[2] <= |b|
    ensures r.Done? ==> (var (s, progress) := r.value;
      |s.hashAlgorithmId| == 2 && |s.pcrSelect| == s.sizeOfSelect && progress == 3 + s.sizeOfSelect)
  {
    if |b| < 3 then Panic
    else
      var sizeOfSelect := b[2];
      if |b| < 3 + sizeOfSelect as int then Panic
      else Done((PcrSelection(b[..2], sizeOfSelect, b[3..3 + sizeOfSelect as int]), 3 + sizeOfSelect as int))
  }

  /** What a selection consumes: 3 + sizeOfSelect bytes. */
  function SelectionWidth(s: PcrSelection): nat
  {
    3 + s.sizeOfSelect
  }

  function SumWidths(ss: seq<PcrSelection>): nat
  {
    if ss == [] then 0 else SumWidths(ss[..|ss| - 1]) + SelectionWidth(ss[|ss| - 1])
  }

  /** The loop of Marshal_TPML_PCR_SELECTION: n selections, one after another. */
  function DecodeSelections(b: seq<Byte>, n: nat): (r: Outcome<(seq<PcrSelection>, nat)>)
    ensures r.Done? ==> |r.value.0| == n && r.value.1 <= |b|
    ensures r.Done? ==> forall s | s in r.value.0 :: |s.pcrSelect| == s.sizeOfSelect
  {
    if n == 0 then Done(([], 0))
    else
      match DecodeSelections(b, n - 1)
      case Panic => Panic
      case Done((ss, p)) =>
        match DecodeSelection(b[p..])
        case Panic => Panic
        case Done((s, q)) => Done((ss + [s], p + q))
  }

  /** What every decoded selection list satisfies: count entries, each bitmap sizeOfSelect long. */
  predicate ListWellFormed(l: PcrSelectionList)
  {
    && |l.pcrSelections| == l.count
    && forall s | s in l.pcrSelections :: |s.pcrSelect| == s.sizeOfSelect
  }

  /** Marshal_TPML_PCR_SELECTION: the uint32 count, then the count selections. */
  function DecodeSelectionList(b: seq<Byte>): (r: Outcome<(PcrSelectionList, nat)>)
    ensures r.Done? ==> ListWellFormed(r.value.0) && 4 <= r.value.1 <= |b|
  {
    if |b| < 4 then Panic
    else
      var count := BE32(b[..4]);
      match DecodeSelections(b[4..], count)
      case Panic => Panic
      case Done((ss, p)) => Done((PcrSelectionList(count, ss), 4 + p))
  }

  /** Marshal_TPMS_QUOTE_INFO (and Marshal_TPMU_ATTEST around it): the list, then the digest. */
  function DecodeQuoteInfo(b: seq<Byte>): (r: Outcome<(QuoteInfo, nat)>)
    ensures r.Done? ==> r.value.1 <= |b| && ListWellFormed(r.value.0.pcrSelect)
  {
    match DecodeSelectionList(b)
    case Panic => Panic
    case Done((list, p)) =>
      match DecodeSized(b[p..])
      case Panic => Panic
      case Done((size, buffer, q)) => Done((QuoteInfo(list, Tpm2bDigest(size, buffer)), p + q))
  }

  /** The fields after the attestation type, read at the running offset. */
  function DecodeBody(b: seq<Byte>): (r: Outcome<TpmsAttest>)
    ensures r.Done? ==> ListWellFormed(r.value.attested.quote.pcrSelect)
  {
    match DecodeSized(b)
    case Panic => Panic
    case Done((nameSize, name, p1)) =>
      match DecodeSized(b[p1..])
      case Panic => Panic
      case Done((dataSize, data, p2)) =>
        var o := p1 + p2;
        match DecodeClockInfo(b[o..])
        case Panic => Panic
        case Done((clock, p3)) =>
          var o := o + p3;
          if |b| < o + 8 then Panic
          else
            match DecodeQuoteInfo(b[o + 8..])
            case Panic => Panic
            case Done((quote, _)) =>
              Done(TpmsAttest(TpmMagic, TpmStAttestQuoteBytes, Tpm2bName(nameSize, name), Tpm2bData(dataSize, data),
                              clock, BE64(b[o..o + 8]), AttestUnion(quote)))
  }

  /**
   * MarshalRawQuoteMessage: the magic and the attestation type are compared as byte slices
   * before anything else is read; a mismatch is an error with the zero structure.
   */
  function DecodeRawQuote(raw: seq<Byte>): (r: Outcome<Result<TpmsAttest, RootParseError>>)
    ensures |raw| < 4 ==> r == Panic
    ensures 4 <= |raw| && raw[..4] != TpmMagic ==> r == Done(Err(NotATpmSignature))
    ensures 4 <= |raw| < 6 && raw[..4] == TpmMagic ==> r == Panic
    ensures 6 <= |raw| && raw[..4] == TpmMagic && raw[4..6] != TpmStAttestQuoteBytes ==> r == Done(Err(SelectorNotQuote))
    ensures r.Done? && r.value.Ok? ==>
      && r.value.value.magic == TpmMagic && r.value.value.attestationType == TpmStAttestQuoteBytes
      && ListWellFormed(r.value.value.attested.quote.pcrSelect)
  {
    if |raw| < 4 then Panic
    else if raw[..4] != TpmMagic then Done(Err(NotATpmSignature))
    else if |raw| < 6 then Panic
    else if raw[4..6] != TpmStAttestQuoteBytes then Done(Err(SelectorNotQuote))
    else
      match DecodeBody(raw[6..])
      case Panic => Panic
      case Done(t) => Done(Ok(t))
  }

  // ---------------------------------------------------------------- properties of the decoders

  /** The list consumes its 4 count bytes plus the sum of what its selections consume. */
  lemma {:induction false} SelectionsProgress(b: seq<Byte>, n: nat)
    requires DecodeSelections(b, n).Done?
    ensures DecodeSelections(b, n).value.1 == SumWidths(DecodeSelections(b, n).value.0)
  {
    if n > 0 {
      SelectionsProgress(b, n - 1);
      var (ss, p) := DecodeSelections(b, n - 1).value;
      var (s, q) := DecodeSelection(b[p..]).value;
      assert (ss + [s])[..|ss|] == ss;
    }
  }

  lemma SelectionListProgress(b: seq<Byte>)
    requires DecodeSelectionList(b).Done?
    ensures DecodeSelectionList(b).value.1 == 4 + SumWidths(DecodeSelectionList(b).value.0.pcrSelections)
  {
    SelectionsProgress(b[4..], BE32(b[..4]));
  }

  /** The quote info consumes the list's bytes and then the digest's 2 + size. */
  lemma QuoteInfoProgress(b: seq<Byte>)
    requires DecodeQuoteInfo(b).Done?
    ensures DecodeSelectionList(b).Done?
    ensures var (q, progress) := DecodeQuoteInfo(b).value;
      progress == DecodeSelectionList(b).value.1 + 2 + q.pcrDigest.size
  {
  }

  // ---------------------------------------------------------------- the decoders as the program runs them

  method MarshalTpm2bName(b: seq<Byte>) returns (s: Tpm2bName, progress: nat)
    requires DecodeSized(b).Done?
    ensures (s.size, s.name, progress) == DecodeSized(b).value
  {
    s, progress := Tpm2bName(0, []), 0;
    s := s.(size := BE16(b[..2]));
    progress := progress + 2;
    s := s.(name := b[progress..progress + s.size]);
    progress := progress + s.size;
  }

  method MarshalTpm2bData(b: seq<Byte>) returns (s: Tpm2bData, progress: nat)
    requires DecodeSized(b).Done?
    ensures (s.size, s.data, progress) == DecodeSized(b).value
  {
    s, progress := Tpm2bData(0, []), 0;
    s := s.(size := BE16(b[..2]));
    progress := progress + 2;
    s := s.(data := b[progress..progress + s.size]);
    progress := progress + s.size;
  }

  method MarshalTpm2bDigest(b: seq<Byte>) returns (s: Tpm2bDigest, progress: nat)
    requires DecodeSized(b).Done?
    ensures (s.size, s.buffer, progress) == DecodeSized(b).value
  {
    s, progress := Tpm2bDigest(0, []), 0;
    s := s.(size := BE16(b[..2]));
    progress := progress + 2;
    s := s.(buffer := b[progress..progress + s.size]);
    progress := progress + s.size;
  }

  method MarshalClockInfo(b: seq<Byte>) returns (s: ClockInfo, progress: nat)
    requires DecodeClockInfo(b).Done?
    ensures (s, progress) == DecodeClockInfo(b).value
  {
    s, progress := ClockInfo(0, 0, 0, []), 0;
    s := s.(clock := BE64(b[..8]));
    progress := progress + 8;
    s := s.(resetCount := BE32(b[progress..progress + 4]));
    progress := progress + 4;
    s := s.(restartCount := BE32(b[progress..progress + 4]));
    progress := progress + 4;
    s := s.(safe := b[progress..progress + 1]);
    progress := progress + 1;
  }

  method MarshalPcrSelection(b: seq<Byte>) returns (s: PcrSelection, progress: nat)
    requires DecodeSelection(b).Done?
    ensures (s, progress) == DecodeSelection(b).value
  {
    s, progress := PcrSelection([], 0, []), 0;
    s := s.(hashAlgorithmId := b[..2]);
    progress := progress + 2;
    s := s.(sizeOfSelect := b[progress..progress + 1][0]);
    progress := progress + 1;
    s := s.(pcrSelect := b[progress..progress + s.sizeOfSelect]);
    progress := progress + s.sizeOfSelect;
  }

  /** Once a selection panics, so does every longer run of selections. */
  lemma {:induction false} SelectionsPanicPersists(b: seq<Byte>, i: nat, n: nat)
    requires i <= n && DecodeSelections(b, i).Panic?
    ensures DecodeSelections(b, n).Panic?
    decreases n
  {
    if i < n {
      SelectionsPanicPersists(b, i, n - 1);
    }
  }

  /** A longer run of selections that does not panic means no shorter one panics either. */
  lemma SelectionsPrefixDone(b: seq<Byte>, i: nat, n: nat)
    requires i <= n && DecodeSelections(b, n).Done?
    ensures DecodeSelections(b, i).Done?
  {
    if DecodeSelections(b, i).Panic? {
      SelectionsPanicPersists(b, i, n);
    }
  }

  /**
   * One more iteration of the loop: when n selections decode and the first i < n have consumed
   * p bytes, the selection at p decodes and extends the run by one.
   */
  lemma SelectionsNext(b: seq<Byte>, i: nat, n: nat, ss: seq<PcrSelection>, p: nat)
    requires i < n && DecodeSelections(b, n).Done?
    requires DecodeSelections(b, i) == Done((ss, p))
    ensures p <= |b| && DecodeSelection(b[p..]).Done?
    ensures DecodeSelections(b, i + 1)
      == Done((ss + [DecodeSelection(b[p..]).value.0], p + DecodeSelection(b[p..]).value.1))
  {
    SelectionsPrefixDone(b, i + 1, n);
    var next := DecodeSelection(b[p..]);
    assert DecodeSelections(b, i + 1) == if next.Panic? then Panic else Done((ss + [next.value.0], p + next.value.1));
  }

  /**
   * The count-bounded loop of Marshal_TPML_PCR_SELECTION: one selection per iteration, each read
   * at the running offset into the bytes after the count.
   */
  method MarshalSelections(items: seq<Byte>, count: U32) returns (ss: seq<PcrSelection>, progress: nat)
    requires DecodeSelections(items, count).Done?
    ensures DecodeSelections(items, count) == Done((ss, progress))
  {
    ss, progress := [], 0;
    var i := 0;
    while i < count
      invariant i <= count && DecodeSelections(items, i) == Done((ss, progress))
    {
      SelectionsNext(items, i, count, ss, progress);
      var r, p := MarshalPcrSelection(items[progress..]);
      ss, progress := ss + [r], progress + p;
      i := i + 1;
    }
  }

  method MarshalPcrSelectionList(b: seq<Byte>) returns (s: PcrSelectionList, progress: nat)
    requires DecodeSelectionList(b).Done?
    ensures (s, progress) == DecodeSelectionList(b).value
  {
    s := PcrSelectionList(BE32(b[..4]), []);
    progress := 4;
    var selections, p := MarshalSelections(b[progress..], s.count);
    s := s.(pcrSelections := selections);
    progress := progress + p;
  }

  method MarshalQuoteInfo(b: seq<Byte>) returns (s: QuoteInfo, progress: nat)
    requires DecodeQuoteInfo(b).Done?
    ensures (s, progress) == DecodeQuoteInfo(b).value
  {
    var list;
    list, progress := MarshalPcrSelectionList(b);
    var e, tp := MarshalTpm2bDigest(b[progress..]);
    progress := progress + tp;
    s := QuoteInfo(list, e);
  }

  method MarshalAttestUnion(b: seq<Byte>) returns (s: AttestUnion, progress: nat)
    requires DecodeQuoteInfo(b).Done?
    ensures (s.quote, progress) == DecodeQuoteInfo(b).value
  {
    var quote;
    quote, progress := MarshalQuoteInfo(b);
    s := AttestUnion(quote);
  }

  /** The fields after the header, at the running offset; `b` is the message after its 6 header bytes. */
  method MarshalBody(b: seq<Byte>) returns (t: TpmsAttest)
    requires DecodeBody(b).Done?
    ensures t == DecodeBody(b).value
  {
    ghost var r := DecodeBody(b).value;
    t := ZeroAttest.(magic := TpmMagic, attestationType := TpmStAttestQuoteBytes);
    var offset := 0;
    var name, progress := MarshalTpm2bName(b[offset..]);
    t := t.(qualifiedSigner := name);
    offset := offset + progress;
    assert DecodeSized(b[offset..]).Done?;
    var data;
    data, progress := MarshalTpm2bData(b[offset..]);
    t := t.(extraData := data);
    assert b[offset..][progress..] == b[offset + progress..];
    offset := offset + progress;
    assert DecodeClockInfo(b[offset..]).Done? && offset + 25 <= |b|;
    var clock;
    clock, progress := MarshalClockInfo(b[offset..]);
    t := t.(clockInfo := clock);
    offset := offset + progress;
    t := t.(firmwareVersion := BE64(b[offset..offset + 8]));
    offset := offset + 8;
    assert DecodeQuoteInfo(b[offset..]).Done?;
    var attested;
    attested, progress := MarshalAttestUnion(b[offset..]);
    t := t.(attested := attested);
    assert t == r;
  }

  /**
   * MarshalRawQuoteMessage. It requires what the program needs not to panic; on the two header
   * errors it returns the zero structure.
   */
  method MarshalRawQuoteMessage(rawQuoteMessage: seq<Byte>) returns (t: TpmsAttest, err: Option<RootParseError>)
    requires DecodeRawQuote(rawQuoteMessage).Done?
    ensures DecodeRawQuote(rawQuoteMessage).value == if err.None? then Ok(t) else Err(err.value)
    ensures err.Some? ==> t == ZeroAttest
  {
    var offset := 0;
    var magic := rawQuoteMessage[offset..offset + 4];
    offset := offset + 4;
    if magic != TpmMagic {
      return ZeroAttest, Some(NotATpmSignature);
    }
    var attestationType := rawQuoteMessage[offset..offset + 2];
    offset := offset + 2;
    if attestationType != TpmStAttestQuoteBytes {
      return ZeroAttest, Some(SelectorNotQuote);
    }
    t := MarshalBody(rawQuoteMessage[offset..]);
    err := None;
  }
}
