/**
 * The older root package's PCR handling (PCR.go): the bitmap decoder GetPCRList, the splitter
 * that assigns the digests of a PCR file to the selected PCRs in selection order, and the digest
 * check that stores its result in the quote through the pointer.
 */
module RootPcr {
  import opened Wrappers
  import opened Bytes
  import opened Crypto
  import opened PcrBitmap
  import opened RootStructures

  /**
   * CUSTOM_TPM_ALG: a digest size and the two raw TPM_ALG_ID bytes. The type and the two ids
   * below are not defined in any file of the package; the ids are those of section 6.3 of the
   * TCG TPM 2.0 Library Specification, Part 2.
   */
  datatype CustomTpmAlg = CustomTpmAlg(hashSize: nat, algorithm: seq<Byte>)

  const TpmAlgSha1Bytes: seq<Byte> := [0x00, 0x04]
  const TpmAlgSha256Bytes: seq<Byte> := [0x00, 0x0B]

  datatype RootPcrError =
    | FileSizeMismatch    // "invalid file or hash Alagorithm mismatch "
    | SelectionMismatch   // "file does not match pcr selections in quote"
    | DigestNotVerified   // "quote digest could not be verified"

  type PcrValues = map<int, seq<Byte>>

  /** PCRQuote, always handled through a pointer. */
  class PcrQuote {
    var algorithm: CustomTpmAlg
    var selection: seq<int>
    var values: PcrValues
    var digest: seq<Byte>
    var digestVerified: bool

    constructor (algorithm: CustomTpmAlg, selection: seq<int>)
      ensures this.algorithm == algorithm && this.selection == selection
      ensures values == map[] && digest == [] && !digestVerified
    {
      this.algorithm := algorithm;
      this.selection := selection;
      values := map[];
      digest := [];
      digestVerified := false;
    }
  }

  // ---------------------------------------------------------------- GetPCRList

  /**
   * GetPCRList: the same nested loop as the tool package's SelectedPCRs. It indexes
   * pcrSelect[s] for every s < sizeOfSelect, which the decoder guarantees.
   */
  method GetPcrList(pcrSelection: PcrSelection) returns (list: seq<nat>)
    requires pcrSelection.sizeOfSelect <= |pcrSelection.pcrSelect|
    ensures list == Selected(pcrSelection.pcrSelect[..pcrSelection.sizeOfSelect])
    ensures forall x :: x in list <==> IsSelected(pcrSelection.pcrSelect[..pcrSelection.sizeOfSelect], x)
    ensures StrictlyIncreasing(list)
  {
    list := SelectedIndices(pcrSelection.pcrSelect, pcrSelection.sizeOfSelect);
    SelectedMembership(pcrSelection.pcrSelect[..pcrSelection.sizeOfSelect]);
    SelectedIncreasing(pcrSelection.pcrSelect[..pcrSelection.sizeOfSelect]);
  }

  // ---------------------------------------------------------------- ParseValuePcrFileWithList

  /** The i-th digest of the file. */
  function Chunk(raw: seq<Byte>, size: nat, i: nat): (c: seq<Byte>)
    ensures (i + 1) * size <= |raw| ==> |c| == size
  {
    if (i + 1) * size <= |raw| then raw[i * size .. (i + 1) * size] else []
  }

  /** The map after the first i iterations: digest j stored under list[j], later entries winning. */
  function SelectionMap(raw: seq<Byte>, size: nat, list: seq<int>, i: nat): PcrValues
    requires i <= |list| && i * size <= |raw|
  {
    if i == 0 then map[]
    else
      MulLe(i - 1, i, size);
      SelectionMap(raw, size, list, i - 1)[list[i - 1] := Chunk(raw, size, i - 1)]
  }

  /**
   * ParseValuePcrFileWithList as a function: the file must be a whole number of digests and
   * exactly one digest per listed PCR; then digest i is stored under list[i].
   */
  function SplitBySelection(raw: seq<Byte>, list: seq<int>, size: nat): (r: Result<PcrValues, RootPcrError>)
    requires size > 0
    ensures r.Ok? <==> |raw| == |list| * size
    ensures |raw| % size != 0 ==> r == Err(FileSizeMismatch)
    ensures |raw| % size == 0 && |raw| != |list| * size ==> r == Err(SelectionMismatch)
  {
    DivMul(|raw|, size);
    MulDivExact(|list|, size);
    if |raw| % size != 0 then Err(FileSizeMismatch)
    else if |raw| / size != |list| then Err(SelectionMismatch)
    else Ok(SelectionMap(raw, size, list, |list|))
  }

  predicate Distinct(list: seq<int>)
  {
    forall i, j | 0 <= i < j < |list| :: list[i] != list[j]
  }

  /** A list GetPCRList produces never names a PCR twice. */
  lemma IncreasingDistinct(list: seq<nat>)
    requires StrictlyIncreasing(list)
    ensures Distinct(list)
  {
  }

  /** The keys after i iterations are the first i listed PCRs. */
  lemma {:induction false} SelectionMapKeys(raw: seq<Byte>, size: nat, list: seq<int>, i: nat)
    requires i <= |list| && i * size <= |raw|
    ensures forall k :: k in SelectionMap(raw, size, list, i) <==> k in list[..i]
  {
    if i > 0 {
      MulLe(i - 1, i, size);
      SelectionMapKeys(raw, size, list, i - 1);
      assert list[..i] == list[..i - 1] + [list[i - 1]];
    }
  }

  /** With no PCR listed twice, each listed PCR holds the digest at its own position. */
  lemma {:induction false} SelectionMapAt(raw: seq<Byte>, size: nat, list: seq<int>, i: nat, j: nat)
    requires i <= |list| && i * size <= |raw| && Distinct(list) && j < i
    ensures (j + 1) * size <= |raw| && list[j] in SelectionMap(raw, size, list, i)
    ensures SelectionMap(raw, size, list, i)[list[j]] == Chunk(raw, size, j)
  {
    MulLe(j + 1, i, size);
    MulLe(i - 1, i, size);
    if j < i - 1 {
      SelectionMapAt(raw, size, list, i - 1, j);
    }
  }

  /** With no PCR listed twice, the map has one entry per listed PCR. */
  lemma {:induction false} SelectionMapSize(raw: seq<Byte>, size: nat, list: seq<int>, i: nat)
    requires i <= |list| && i * size <= |raw| && Distinct(list)
    ensures |SelectionMap(raw, size, list, i)| == i
  {
    if i > 0 {
      MulLe(i - 1, i, size);
      SelectionMapSize(raw, size, list, i - 1);
      SelectionMapKeys(raw, size, list, i - 1);
      assert list[i - 1] !in list[..i - 1];
    }
  }

  lemma SplitIsSelectionMap(raw: seq<Byte>, list: seq<int>, size: nat)
    requires size > 0 && SplitBySelection(raw, list, size).Ok?
    ensures |list| * size == |raw| && SplitBySelection(raw, list, size).value == SelectionMap(raw, size, list, |list|)
  {
    MulDivExact(|list|, size);
  }

  /**
   * A successful split over a list with no repeated PCR: the keys are exactly the listed PCRs,
   * one entry each, and list[i] holds the i-th digest of the file.
   */
  lemma SplitBySelectionContents(raw: seq<Byte>, list: seq<int>, size: nat)
    requires size > 0 && Distinct(list) && SplitBySelection(raw, list, size).Ok?
    ensures forall k :: k in SplitBySelection(raw, list, size).value <==> k in list
    ensures |SplitBySelection(raw, list, size).value| == |list|
    ensures forall i | 0 <= i < |list| ::
      list[i] in SplitBySelection(raw, list, size).value && SplitBySelection(raw, list, size).value[list[i]] == Chunk(raw, size, i)
  {
    SplitIsSelectionMap(raw, list, size);
    var m := SelectionMap(raw, size, list, |list|);
    assert SplitBySelection(raw, list, size).value == m;
    SelectionMapKeys(raw, size, list, |list|);
    SelectionMapSize(raw, size, list, |list|);
    assert list[..|list|] == list;
    forall i | 0 <= i < |list|
      ensures list[i] in SplitBySelection(raw, list, size).value
      ensures SplitBySelection(raw, list, size).value[list[i]] == Chunk(raw, size, i)
    {
      SelectionMapAt(raw, size, list, |list|, i);
    }
  }

  /**
   * ParseValuePcrFileWithList: the two size checks, then a loop that copies `hashSize` bytes at
   * `progress` into the map under list[iter], `left` times. A zero hashSize divides by zero.
   */
  method ParseValuePcrFileWithList(rawFile: seq<Byte>, list: seq<int>, alg: CustomTpmAlg) returns (q: PcrQuote?, err: Option<RootPcrError>)
    requires alg.hashSize > 0
    ensures err.Some? ==> q == null && SplitBySelection(rawFile, list, alg.hashSize) == Err(err.value)
    ensures err.None? ==> q != null && fresh(q) && SplitBySelection(rawFile, list, alg.hashSize) == Ok(q.values)
    ensures err.None? ==> q.algorithm == alg && q.selection == list && q.digest == [] && !q.digestVerified
  {
    var size := alg.hashSize;
    if |rawFile| % size != 0 {
      return null, Some(FileSizeMismatch);
    }
    if |rawFile| / size != |list| {
      return null, Some(SelectionMismatch);
    }
    DivMul(|rawFile|, size);
    MulDivExact(|list|, size);
    q := new PcrQuote(alg, list);
    var left := |rawFile| / size;
    var progress := 0;
    var iter := 0;
    while left > 0
      invariant iter + left == |list| && progress == iter * size && iter * size <= |rawFile|
      invariant q.values == SelectionMap(rawFile, size, list, iter)
      invariant q.algorithm == alg && q.selection == list && q.digest == [] && !q.digestVerified
    {
      MulLe(iter + 1, |list|, size);
      assert (iter + 1) * size == progress + size;
      var read := rawFile[progress .. progress + size];
      progress := progress + size;
      q.values := q.values[list[iter] := read];
      iter := iter + 1;
      left := left - 1;
    }
    err := None;
  }

  // ---------------------------------------------------------------- VerifyQuoteDigest

  /** quote.Values[key]: a missing key reads as the nil slice. */
  function Lookup(values: PcrValues, key: int): seq<Byte>
  {
    if key in values then values[key] else []
  }

  /** The bytes VerifyQuoteDigest hashes: the values concatenated in selection order. */
  function RootConcat(values: PcrValues, selection: seq<int>): seq<Byte>
  {
    if selection == [] then []
    else RootConcat(values, selection[..|selection| - 1]) + Lookup(values, selection[|selection| - 1])
  }

  /** copy(dst, src): the first min(len(dst), len(src)) bytes of dst replaced by those of src. */
  function CopyInto(dst: seq<Byte>, src: seq<Byte>): (r: seq<Byte>)
    ensures |r| == |dst|
    ensures forall i | 0 <= i < |r| :: r[i] == if i < |src| then src[i] else dst[i]
  {
    if |src| < |dst| then src + dst[|src|..] else src[..|dst|]
  }

  /**
   * The sum VerifyQuoteDigest computes: hashSize zero bytes, overwritten by SHA-256 or SHA-1 of
   * the data when the algorithm id is one of those two.
   */
  function ComputedSum(hash: HashFn, alg: CustomTpmAlg, data: seq<Byte>): (sum: seq<Byte>)
    ensures |sum| == alg.hashSize
  {
    var zeros := seq(alg.hashSize, _ => 0);
    if alg.algorithm == TpmAlgSha256Bytes then CopyInto(zeros, hash(Sha256, data))
    else if alg.algorithm == TpmAlgSha1Bytes then CopyInto(zeros, hash(Sha1, data))
    else zeros
  }

  /** With the digest size matching the algorithm, the sum is exactly the hash. */
  lemma ComputedSumIsHash(hash: HashFn, data: seq<Byte>)
    ensures ComputedSum(hash, CustomTpmAlg(32, TpmAlgSha256Bytes), data) == hash(Sha256, data)
    ensures ComputedSum(hash, CustomTpmAlg(20, TpmAlgSha1Bytes), data) == hash(Sha1, data)
  {
    assert TpmAlgSha1Bytes != TpmAlgSha256Bytes;
  }

  /** For any other algorithm id the sum stays all zeros, whatever is hashed. */
  lemma ComputedSumUnknown(hash: HashFn, alg: CustomTpmAlg, data: seq<Byte>)
    requires alg.algorithm != TpmAlgSha256Bytes && alg.algorithm != TpmAlgSha1Bytes
    ensures forall i | 0 <= i < alg.hashSize :: ComputedSum(hash, alg, data)[i] == 0
  {
  }

  /** The outcome of VerifyQuoteDigest: the sum it stores, and the error on a mismatch. */
  function QuoteDigestCheck(hash: HashFn, alg: CustomTpmAlg, values: PcrValues, selection: seq<int>, expectedDigest: seq<Byte>): (r: (seq<Byte>, Option<RootPcrError>))
    ensures |r.0| == alg.hashSize
    ensures r.1.None? <==> expectedDigest == r.0
    ensures r.1.Some? ==> r.1.value == DigestNotVerified
  {
    var sum := ComputedSum(hash, alg, RootConcat(values, selection));
    (sum, if expectedDigest == sum then None else Some(DigestNotVerified))
  }

  /** RootConcat only looks at the listed keys. */
  lemma {:induction false} RootConcatFrame(a: PcrValues, b: PcrValues, selection: seq<int>)
    requires forall k | k in selection :: Lookup(a, k) == Lookup(b, k)
    ensures RootConcat(a, selection) == RootConcat(b, selection)
  {
    if selection != [] {
      var init := selection[..|selection| - 1];
      assert forall k | k in init :: k in selection;
      RootConcatFrame(a, b, init);
    }
  }

  /** Storing the i-th digest under a PCR not listed before it leaves the earlier concatenation alone. */
  lemma SelectionMapLaterFrame(raw: seq<Byte>, size: nat, list: seq<int>, i: nat)
    requires 0 < i <= |list| && i * size <= |raw| && Distinct(list)
    ensures (i - 1) * size <= |raw|
    ensures RootConcat(SelectionMap(raw, size, list, i), list[..i - 1])
         == RootConcat(SelectionMap(raw, size, list, i - 1), list[..i - 1])
  {
    MulLe(i - 1, i, size);
    var prev, m := SelectionMap(raw, size, list, i - 1), SelectionMap(raw, size, list, i);
    var init := list[..i - 1];
    forall k | k in init
      ensures Lookup(m, k) == Lookup(prev, k)
    {
      var j :| 0 <= j < i - 1 && init[j] == k;
      assert list[j] == k;
    }
    RootConcatFrame(m, prev, init);
  }

  /** Concatenating the first i values in selection order gives back the first i digests. */
  lemma {:induction false} RootConcatSplitPrefix(raw: seq<Byte>, size: nat, list: seq<int>, i: nat)
    requires i <= |list| && i * size <= |raw| && Distinct(list)
    ensures RootConcat(SelectionMap(raw, size, list, i), list[..i]) == raw[..i * size]
  {
    if i > 0 {
      MulLe(i - 1, i, size);
      var lo, hi := (i - 1) * size, i * size;
      assert hi == lo + size && hi <= |raw|;
      var prev, m := SelectionMap(raw, size, list, i - 1), SelectionMap(raw, size, list, i);
      var init := list[..i - 1];
      assert list[..i][..i - 1] == init;
      RootConcatSplitPrefix(raw, size, list, i - 1);
      SelectionMapLaterFrame(raw, size, list, i);
      var digest := raw[lo..hi];
      assert m[list[i - 1]] == digest;
      assert RootConcat(m, list[..i]) == RootConcat(m, init) + digest;
      assert raw[..lo] + digest == raw[..hi];
    }
  }

  /**
   * Splitting a file by a list with no repeated PCR and concatenating the values in that list's
   * order gives back the file, so the digest check hashes exactly the file.
   */
  lemma RootConcatSplit(raw: seq<Byte>, list: seq<int>, size: nat)
    requires size > 0 && Distinct(list) && SplitBySelection(raw, list, size).Ok?
    ensures RootConcat(SplitBySelection(raw, list, size).value, list) == raw
  {
    RootConcatSplitPrefix(raw, size, list, |list|);
    assert list[..|list|] == list;
  }

  /**
   * The root pipeline's digest check on a SHA-256 PCR file split by a selection: it passes
   * exactly when SHA-256 of the whole file is the expected digest.
   */
  lemma DigestOfSplitFile(hash: HashFn, raw: seq<Byte>, list: seq<int>, expectedDigest: seq<Byte>)
    requires Distinct(list) && SplitBySelection(raw, list, 32).Ok?
    ensures QuoteDigestCheck(hash, CustomTpmAlg(32, TpmAlgSha256Bytes), SplitBySelection(raw, list, 32).value, list, expectedDigest)
      == (hash(Sha256, raw), if expectedDigest == hash(Sha256, raw) then None else Some(DigestNotVerified))
  {
    RootConcatSplit(raw, list, 32);
    ComputedSumIsHash(hash, raw);
  }

  /**
   * VerifyQuoteDigest: append the values in selection order, hash, store the sum in
   * quote.Digest, and set DigestVerified only when the sum matches.
   */
  method VerifyQuoteDigest(quote: PcrQuote, expectedDigest: seq<Byte>, hash: HashFn) returns (err: Option<RootPcrError>)
    modifies quote
    ensures quote.algorithm == old(quote.algorithm) && quote.selection == old(quote.selection)
    ensures quote.values == old(quote.values)
    ensures (quote.digest, err) == QuoteDigestCheck(hash, quote.algorithm, quote.values, quote.selection, expectedDigest)
    ensures quote.digestVerified == (old(quote.digestVerified) || err.None?)
  {
    var alg := quote.algorithm;
    var tDigest := [];
    var i := 0;
    while i < |quote.selection|
      invariant i <= |quote.selection|
      invariant tDigest == RootConcat(quote.values, quote.selection[..i])
    {
      assert quote.selection[..i + 1][..i] == quote.selection[..i];
      tDigest := tDigest + Lookup(quote.values, quote.selection[i]);
      i := i + 1;
    }
    assert quote.selection[..i] == quote.selection;
    var sum := ComputedSum(hash, alg, tDigest);
    quote.digest := sum;
    if expectedDigest == sum {
      quote.digestVerified := true;
      return None;
    } else {
      return Some(DigestNotVerified);
    }
  }
}
