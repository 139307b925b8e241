# TPM 2.0 quote attestation, modelled in Dafny

The program checks a TPM 2.0 quote. It takes five inputs: a PEM public key, the raw
TPMS_ATTEST message the TPM signed, the signature, a caller nonce, and a "values" file of
concatenated PCR digests. It accepts the quote when all of these hold:

- the signature over SHA-256 of the message verifies;
- the message parses as a TPM-generated quote;
- the quote's extra data is the nonce;
- there is exactly one PCR selection, and its hash is supported;
- the hash of the PCR digests, concatenated in order, is the quote's pcrDigest.

The repository holds two generations of this pipeline, and both are modelled:

- **The `tool` package** (current).
  - `parseRawQuoteMessage` reads the message through a `bytes.Reader` and reports an error for
    every short read.
  - `parseValuePcrFileWithList` keys the digests of the PCR file 1, 2, 3, ... by position.
  - `verifyQuoteDigest` hashes those digests in key order through a `hash.Hash`.
  - `Attest` chains the stages.
- **The older root package.**
  - `MarshalRawQuoteMessage` and its `Marshal_*` helpers slice the buffer at a running offset
    without length checks.
  - `GetPCRList` decodes the selection bitmap.
  - `ParseValuePcrFileWithList` keys the digests by the selected PCRs, in selection order.
  - `VerifyQuoteDigest` stores its result in the quote through the pointer.
  - `Attest` handles only RSA PKCS#1 v1.5 over SHA-256, and SHA-256 or SHA-1 PCR banks.

Modules:

- `Wrappers`: `Option`, `Result`, and `Outcome`. `Outcome` is a value or a Go runtime panic.
- `Bytes`: fixed-width integers and `encoding/binary` big-endian.
- `Crypto`:
  - the foreign primitives, taken as function values;
  - `hash.Hash` as a class;
  - `subtle.ConstantTimeCompare`.
- `PcrBitmap`: the TPMS_PCR_SELECT bitmap decoder, which both generations share.
- Tool side:
  - `ToolTypes`: the record.
  - `ToolWire`: decoders, encoders, and their round trips.
  - `ToolParse`: the `bytes.Reader` parser as a class plus methods, proved equal to `ToolWire`.
  - `ToolMarshal`: `String` methods and `SelectedPCRs`.
  - `ToolPcr`: hex printing, the PCR file split, and the digest check.
  - `ToolAttest`: the pipeline.
- Root side:
  - `RootStructures`: decoders as functions with `Panic`, and the `Marshal_*` functions as
    methods.
  - `RootPcr`: the `PCRQuote` class, the split, and the digest check.
  - `RootAttest`: the pipeline.
- `Generations`: relates the two generations.
  - The root decoder returns a structure exactly when the tool parser does, with the same
    fields.
  - The root decoder panics exactly when the tool parser reports a field it could not read.
    This holds for a message slice whose capacity is its length (see "## Left out").
  - The two PCR splits hold the same digests under different keys.

## Model

| member | source | states |
|---|---|---|
| Bytes.Put16 | tool/TPMSAttestParse.go:37 | the 2-byte big-endian encoding decodes back to its value |
| Bytes.Put32 | tool/TPMSAttestParse.go:29 | the 4-byte big-endian encoding decodes back to its value |
| Bytes.Put64 | tool/TPMSAttestParse.go:68 | the 8-byte big-endian encoding decodes back to its value |
| Bytes.Put16OfBE16 | tool/TPMSAttestParse.go:37 | every 2-byte string is the encoding of the uint16 read from it |
| Bytes.Put32OfBE32 | tool/TPMSAttestParse.go:29 | every 4-byte string is the encoding of the uint32 read from it |
| Bytes.Put64OfBE64 | tool/TPMSAttestParse.go:68 | every 8-byte string is the encoding of the uint64 read from it |
| Crypto.ConstantTimeCompare | tool/attest.go:35 | the result is 1 exactly when both slices have equal length and contents, otherwise 0 |
| Crypto.Hasher.constructor | tool/attest.go:45-57 | a new hash.Hash of the given algorithm has had nothing written to it |
| Crypto.Hasher.Write | tool/PCR.go:52 | the bytes written are appended to the stream |
| Crypto.Hasher.Sum | tool/PCR.go:53 | the sum has the algorithm's digest size |
| PcrBitmap.HasBit | tool/TPMSAttestMarshal.go:56-59 | the bit test `n & (1 << pos) > 0`; HasBitArith reads it arithmetically |
| PcrBitmap.Selected | tool/TPMSAttestMarshal.go:39-54 | the list the nested loop builds, octet by octet; its membership, order and length are stated by SelectedMembership, SelectedIncreasing and SelectedLength |
| PcrBitmap.HasBitArith | tool/TPMSAttestMarshal.go:56-59 | `n & (1 << pos) > 0` holds exactly when bit pos of n is 1 |
| PcrBitmap.ByteIndicesSpec | tool/TPMSAttestMarshal.go:45-50 | the inner loop appends `base + i` exactly for the set bits i, in increasing order |
| PcrBitmap.SelectedMembership | tool/TPMSAttestMarshal.go:39-54 | x is in the decoded list exactly when bit x % 8 of octet x / 8 is set |
| PcrBitmap.SelectedIncreasing | tool/TPMSAttestMarshal.go:39-54 | the decoded list is strictly increasing, and each index is below 8 * sizeOfSelect |
| PcrBitmap.SelectedBelow2040 | tool/TPMSAttestMarshal.go:42-43 | with a uint8 octet count, no decoded index reaches 2040 |
| PcrBitmap.SelectedLength | tool/TPMSAttestMarshal.go:39-54 | the list has one entry per selected PCR, with no duplicates |
| PcrBitmap.SelectedIndices | tool/TPMSAttestMarshal.go:39-54 | the nested loop returns exactly the decoded list of the first sizeOfSelect octets |
| ToolTypes.KnownAlgIds | tool/TPMSAttest.go:88-94 | the five named algorithm ids, all distinct |
| ToolTypes.SoleSelection | tool/attest.go:39-43 | with a count of 1, the first selection exists and its bitmap has sizeOfSelect octets |
| ToolWire.Take | tool/TPMSAttestParse.go:48-50 | reading n bytes succeeds exactly when n bytes remain; otherwise it reports the field |
| ToolWire.Read16 | tool/TPMSAttestParse.go:37-39 | a uint16 read succeeds exactly when 2 bytes remain; otherwise it reports the field |
| ToolWire.Read32 | tool/TPMSAttestParse.go:29-31 | a uint32 read succeeds exactly when 4 bytes remain; otherwise it reports the field |
| ToolWire.Read64 | tool/TPMSAttestParse.go:68-70 | a uint64 read succeeds exactly when 8 bytes remain and consumes them; otherwise it reports the field |
| ToolWire.ReadSized | tool/TPMSAttestParse.go:44-51 | a TPM2B read yields a payload of exactly the size read, and consumes input |
| ToolWire.ReadClockInfo | tool/TPMSAttestParse.go:62-65 | TPMS_CLOCK_INFO is read as one 17-byte struct |
| ToolWire.ReadSelection | tool/TPMSAttestParse.go:79-90 | a decoded selection's bitmap has sizeOfSelect octets, and the read consumes input |
| ToolWire.ReadSelections | tool/TPMSAttestParse.go:78-92 | the loop yields exactly n selections, each well formed |
| ToolWire.ReadSelectionList | tool/TPMSAttestParse.go:74-92 | the list holds exactly count selections |
| ToolWire.ReadQuoteInfo | tool/TPMSAttestParse.go:72-100 | the decoded quote info is well formed (count, bitmaps, digest size) |
| ToolWire.ReadTail | tool/TPMSAttestParse.go:62-100 | the clock, firmware and quote info are read in order, and the quote is well formed |
| ToolWire.ReadBody | tool/TPMSAttestParse.go:44-100 | the body after the header is well formed and carries the header read |
| ToolWire.ParseQuote | tool/TPMSAttestParse.go:10-103 | the header errors (short magic, wrong magic with its value, short type, wrong type) come first; a parsed quote is well formed and carries TPM_GENERATED and TPM_ST_ATTEST_QUOTE |
| ToolWire.EncodeClockInfo | tool/TPMSAttest.go:42-47 | the clock info occupies 8 + 4 + 4 + 1 bytes |
| ToolWire.TakeComplete | tool/TPMSAttestParse.go:48-50 | reading |e| bytes of e + rest yields e and leaves rest |
| ToolWire.Read16Sound | tool/TPMSAttestParse.go:37 | the input is the encoding of the uint16 read, followed by what is left |
| ToolWire.Read16Complete | tool/TPMSAttestParse.go:37 | an encoded uint16 followed by anything reads back as that value |
| ToolWire.Read32Sound | tool/TPMSAttestParse.go:29 | the input is the encoding of the uint32 read, followed by what is left |
| ToolWire.Read32Complete | tool/TPMSAttestParse.go:29 | an encoded uint32 followed by anything reads back as that value |
| ToolWire.Read64Sound | tool/TPMSAttestParse.go:68 | the input is the encoding of the uint64 read, followed by what is left |
| ToolWire.Read64Complete | tool/TPMSAttestParse.go:68 | an encoded uint64 followed by anything reads back as that value |
| ToolWire.ReadSizedSound | tool/TPMSAttestParse.go:44-51 | the input is the encoding of the TPM2B read, followed by what is left |
| ToolWire.ReadSizedComplete | tool/TPMSAttestParse.go:44-51 | an encoded TPM2B followed by anything reads back as that TPM2B |
| ToolWire.ReadClockInfoSound | tool/TPMSAttestParse.go:62-65 | the input is the encoding of the clock info read, followed by what is left |
| ToolWire.ReadClockInfoComplete | tool/TPMSAttestParse.go:62-65 | an encoded clock info followed by anything reads back as that clock info |
| ToolWire.ReadSelectionSound | tool/TPMSAttestParse.go:79-90 | the input is the encoding of the selection read, followed by what is left |
| ToolWire.ReadSelectionComplete | tool/TPMSAttestParse.go:79-90 | a well-formed selection, encoded and followed by anything, reads back as that selection |
| ToolWire.ReadSelectionsSound | tool/TPMSAttestParse.go:78-92 | the input is the encoding of the selections read, followed by what is left |
| ToolWire.ReadSelectionsComplete | tool/TPMSAttestParse.go:78-92 | well-formed selections, encoded and followed by anything, read back as those selections |
| ToolWire.ReadQuoteInfoSound | tool/TPMSAttestParse.go:72-100 | the input is the encoding of the quote info read, followed by what is left |
| ToolWire.ReadQuoteInfoComplete | tool/TPMSAttestParse.go:72-100 | a well-formed quote info, encoded and followed by anything, reads back as itself |
| ToolWire.ReadTailSound | tool/TPMSAttestParse.go:62-100 | the input is the encoding of the tail read, followed by what is left |
| ToolWire.ReadTailComplete | tool/TPMSAttestParse.go:62-100 | an encoded tail followed by anything reads back as that tail |
| ToolWire.ReadBodySound | tool/TPMSAttestParse.go:44-100 | the input is the encoding of the body read, followed by what is left |
| ToolWire.ReadBodyComplete | tool/TPMSAttestParse.go:44-100 | a well-formed body, encoded and followed by anything, reads back as itself |
| ToolWire.ParseSound | tool/TPMSAttestParse.go:10-103 | the message starts with the encoding of the quote parsed from it |
| ToolWire.ParseComplete | tool/TPMSAttestParse.go:10-103 | round trip: a well-formed quote, encoded and followed by anything, parses back to itself |
| ToolWire.TrailingBytesIgnored | tool/TPMSAttestParse.go:94-102 | appending bytes to a parsable message does not change the parse |
| ToolWire.TruncationFails | tool/TPMSAttestParse.go:29-100 | cutting a parsable message anywhere inside its encoding makes the parse fail |
| ToolWire.EncodeSelectionsLength | tool/TPMSAttestParse.go:78-92 | each encoded selection takes at least 3 bytes |
| ToolWire.MinimumLengthForCount | tool/TPMSAttestParse.go:74-92 | a message that parses is at least 41 + 3 * count bytes long |
| ToolParse.Reader.constructor | tool/TPMSAttestParse.go:24 | a new reader is at position 0 of the message |
| ToolParse.Reader.ReadFull | tool/TPMSAttestParse.go:48-50 | reads n bytes exactly as ToolWire.Take does, and consumes everything left on a short read |
| ToolParse.Reader.ReadUint16 | tool/TPMSAttestParse.go:37-39 | reads a uint16 exactly as ToolWire.Read16 does |
| ToolParse.Reader.ReadUint32 | tool/TPMSAttestParse.go:29-31 | reads a uint32 exactly as ToolWire.Read32 does |
| ToolParse.Reader.ReadUint64 | tool/TPMSAttestParse.go:68-70 | reads a uint64 exactly as ToolWire.Read64 does |
| ToolParse.SelectionErrorPersists | tool/TPMSAttestParse.go:78-92 | once the selection loop fails, the whole loop fails with that error |
| ToolParse.ReadSizedFrom | tool/TPMSAttestParse.go:44-51 | the reader-based TPM2B read computes ToolWire.ReadSized and advances past it |
| ToolParse.ReadSelectionFrom | tool/TPMSAttestParse.go:79-90 | one loop body computes ToolWire.ReadSelection and advances past it |
| ToolParse.ReadNextSelection | tool/TPMSAttestParse.go:78-91 | after i selections, one more iteration yields the first i + 1 selections or their error |
| ToolParse.ReadSelectionsFrom | tool/TPMSAttestParse.go:77-92 | the count-bounded loop computes ToolWire.ReadSelections |
| ToolParse.ReadQuoteFrom | tool/TPMSAttestParse.go:72-100 | the Attested part computes ToolWire.ReadQuoteInfo |
| ToolParse.ReadTailFrom | tool/TPMSAttestParse.go:62-100 | clock, firmware and quote computed as ToolWire.ReadTail |
| ToolParse.ReadBodyFrom | tool/TPMSAttestParse.go:44-100 | the body computed as ToolWire.ReadBody |
| ToolParse.ParseRawQuoteMessage | tool/TPMSAttestParse.go:10-103 | returns the parsed quote with no error, or the zero TPMSAttest with the first error |
| ToolMarshal.TpmStString | tool/TPMSAttestMarshal.go:7-12 | "TPM_ST_ATTEST_QUOTE" exactly for 0x8018, "Unknown" otherwise |
| ToolMarshal.TpmAlgString | tool/TPMSAttestMarshal.go:18-33 | "Unknown" exactly for ids outside the five known ones |
| ToolMarshal.AlgFromName | tool/TPMSAttestMarshal.go:18-33 | reading a name back yields only known ids |
| ToolMarshal.AlgNameRoundTrip | tool/TPMSAttestMarshal.go:18-33 | a printed known id reads back as itself; an unknown one reads back as nothing |
| ToolMarshal.AlgNamesDistinct | tool/TPMSAttestMarshal.go:18-33 | distinct known ids print distinct names |
| ToolMarshal.YesNoString | tool/TPMSAttestMarshal.go:71-76 | "Yes" exactly for 1; "No" for every other byte |
| ToolMarshal.SelectedPcrs | tool/TPMSAttestMarshal.go:39-54 | the list holds exactly the selected PCRs, strictly increasing, each below 8 * sizeOfSelect |
| ToolPcr.DigitValue | tool/PCR.go:17-19 | a hex digit's value is below 16 |
| ToolPcr.DigitValueInverse | tool/PCR.go:17-19 | a digit's value prints back as that digit |
| ToolPcr.HexString | tool/PCR.go:17-19 | two characters per byte |
| ToolPcr.HexStringLowercase | tool/PCR.go:17-19 | every printed character is a lowercase hex digit |
| ToolPcr.HexDecode | tool/PCR.go:17-19 | a decoded string had two characters per byte |
| ToolPcr.DigitRoundTrip | tool/PCR.go:17-19 | a printed digit reads back as its value |
| ToolPcr.HexPairDecode | tool/PCR.go:17-19 | two printed digits decode to the byte hi * 16 + lo, ahead of the decoded rest |
| ToolPcr.HexRoundTrip | tool/PCR.go:17-19 | PCRValue.String loses nothing: the printed value decodes back to the digest |
| ToolPcr.PositionMap | tool/PCR.go:32-39 | the first count digests keyed 1 .. count; PositionMapKeys and PositionMapAt state its keys and entries |
| ToolPcr.SplitByPosition | tool/PCR.go:24-41 | the split fails exactly when the file is not a whole number of digests |
| ToolPcr.PositionMapKeys | tool/PCR.go:32-39 | after count iterations the keys are exactly 1 .. count |
| ToolPcr.PositionMapAt | tool/PCR.go:32-38 | key k holds bytes (k-1)*size .. k*size of the file |
| ToolPcr.SplitKeys | tool/PCR.go:24-41 | a whole-digest file of n digests gives keys 1 .. n, and an empty file an empty map |
| ToolPcr.ParseValuePcrFileWithList | tool/PCR.go:24-41 | the reader loop computes SplitByPosition; on error it returns no values |
| ToolPcr.Concatenate | tool/PCR.go:44-51 | quote[1] .. quote[n] appended in key order, or nothing when a key is missing; ConcatenateFails, ConcatenateSplit and ConcatenateFrame state it |
| ToolPcr.DigestCheck | tool/PCR.go:43-60 | verifyQuoteDigest's verdict on a fresh hasher; VerifyQuoteDigest equals it and DigestOfSplitFile states when it passes |
| ToolPcr.ConcatenateFails | tool/PCR.go:45-49 | the concatenation fails exactly when some key in 1 .. n is missing |
| ToolPcr.ConcatenateFailurePersists | tool/PCR.go:45-49 | once a key is missing, concatenating further keys still fails |
| ToolPcr.ConcatenateSplit | tool/PCR.go:44-51 | concatenating the split file in key order gives back the file |
| ToolPcr.ConcatenateFrame | tool/PCR.go:45-50 | the concatenation up to n reads only keys 1 .. n |
| ToolPcr.DigestOfSplitFile | tool/PCR.go:43-60 | for a file split by position, the check passes exactly when the hash of the whole file is the expected digest |
| ToolPcr.VerifyQuoteDigest | tool/PCR.go:43-60 | a missing key is an error and nothing is written; otherwise the concatenation is written and the sum compared |
| ToolAttest.VerifySignature | tool/attest.go:72-97 | accepts exactly an RSA key whose PKCS#1 v1.5 check, or an ECDSA key whose ASN.1 check, verifies SHA-256 of the message |
| ToolAttest.ResolvePcrHash | tool/attest.go:45-57 | resolves exactly SHA-1/256/384/512, each to the hash of that id |
| ToolAttest.ResolveAlgId | tool/attest.go:45-57 | every hash resolves from its own id; SM3_256 does not resolve |
| ToolAttest.PcrStage | tool/attest.go:59-69 | the result always carries the parsed quote; a failure carries no PCR values; success needs a whole number of digests |
| ToolAttest.QuoteStage | tool/attest.go:34-69 | the result is `Attested{}` or carries the quote; success needs the nonce to be the extra data and a count of 1 |
| ToolAttest.AttestSpec | tool/attest.go:23-70 | success needs a verified signature and a parsed message, whose quote the result carries, with the nonce as its extra data |
| ToolAttest.CheckPcrFile | tool/attest.go:59-69 | the split-then-digest stage computes PcrStage |
| ToolAttest.CheckQuote | tool/attest.go:34-69 | the stages after the parse compute QuoteStage |
| ToolAttest.Attest | tool/attest.go:23-70 | the method computes AttestSpec, result and error together |
| ToolAttest.EarlyFailuresReturnEmpty | tool/attest.go:23-57 | the signature, parse, nonce, count and hash failures each return their error and `Attested{}` |
| ToolAttest.LateFailuresKeepQuote | tool/attest.go:59-66 | the PCR file failures keep the parsed quote in the result, with no PCR values |
| ToolAttest.AttestAccepts | tool/attest.go:23-70 | accepts exactly on a valid signature, parse, nonce, single supported selection, and a file that hashes to pcrDigest; the values are then keyed 1 .. n |
| RootStructures.DecodeSized | structures.go:176-187 | a TPM2B decodes without panic exactly when 2 + size bytes are there, and consumes exactly those |
| RootStructures.DecodeClockInfo | structures.go:152-169 | the clock info decodes without panic exactly when 17 bytes are there |
| RootStructures.DecodeSelection | structures.go:128-143 | a selection decodes without panic exactly when 3 + sizeOfSelect bytes are there |
| RootStructures.DecodeSelections | structures.go:113-118 | n selections, each with a bitmap of sizeOfSelect octets |
| RootStructures.DecodeSelectionList | structures.go:106-120 | the list holds count selections and consumes at least the count's 4 bytes |
| RootStructures.DecodeQuoteInfo | structures.go:72-81 | the decoded quote info's list is well formed and within the buffer |
| RootStructures.DecodeBody | structures.go:28-41 | a decoded body's selection list is well formed |
| RootStructures.DecodeRawQuote | structures.go:11-44 | for a slice whose capacity is its length: panics below 4 bytes, or below 6 with the right magic; a wrong magic or type is its error; a result carries both header constants |
| RootStructures.SelectionsProgress | structures.go:113-118 | the loop's progress is the sum of 3 + sizeOfSelect over the selections |
| RootStructures.SelectionListProgress | structures.go:106-120 | the list consumes 4 bytes plus its selections |
| RootStructures.QuoteInfoProgress | structures.go:72-81 | the quote info consumes the list, then 2 + digest size |
| RootStructures.MarshalTpm2bName | structures.go:176-187 | Marshal_TPM2B_NAME returns DecodeSized's size, payload and progress |
| RootStructures.MarshalTpm2bData | structures.go:88-99 | Marshal_TPM2B_DATA returns DecodeSized's size, payload and progress |
| RootStructures.MarshalTpm2bDigest | structures.go:194-205 | Marshal_TPM2B_DIGEST returns DecodeSized's size, payload and progress |
| RootStructures.MarshalClockInfo | structures.go:152-169 | Marshal_TPMS_CLOCK_INFO returns DecodeClockInfo's value |
| RootStructures.MarshalPcrSelection | structures.go:128-143 | Marshal_TPMS_PCR_SELECTION returns DecodeSelection's value |
| RootStructures.SelectionsPanicPersists | structures.go:113-118 | a panic at selection i is a panic of the whole loop |
| RootStructures.MarshalSelections | structures.go:111-118 | the append loop returns DecodeSelections' selections and progress |
| RootStructures.MarshalPcrSelectionList | structures.go:106-120 | Marshal_TPML_PCR_SELECTION returns DecodeSelectionList's value |
| RootStructures.MarshalQuoteInfo | structures.go:72-81 | Marshal_TPMS_QUOTE_INFO returns DecodeQuoteInfo's value |
| RootStructures.MarshalAttestUnion | structures.go:61-65 | Marshal_TPMU_ATTEST wraps DecodeQuoteInfo's value |
| RootStructures.MarshalBody | structures.go:28-41 | the offset-advancing field reads return DecodeBody's value |
| RootStructures.MarshalRawQuoteMessage | structures.go:11-44 | returns DecodeRawQuote's result; on a header error, the zero structure |
| RootPcr.PcrQuote.constructor | PCR.go:51-56 | a new quote holds the algorithm and list, no values, and is not verified |
| RootPcr.GetPcrList | PCR.go:21-36 | the list holds exactly the selected PCRs, strictly increasing |
| RootPcr.Chunk | PCR.go:62-63 | each chunk read within the file is hashSize bytes long |
| RootPcr.SplitBySelection | PCR.go:43-71 | succeeds exactly when the file holds one digest per listed PCR; otherwise "invalid file" before "does not match" |
| RootPcr.IncreasingDistinct | PCR.go:21-36 | a list GetPCRList returns never names a PCR twice |
| RootPcr.SelectionMap | PCR.go:58-68 | the map after i iterations, digest j under list[j]; SelectionMapKeys, SelectionMapAt and SelectionMapSize state it |
| RootPcr.SelectionMapKeys | PCR.go:58-68 | after i iterations the keys are the first i listed PCRs |
| RootPcr.SelectionMapAt | PCR.go:58-68 | with distinct PCRs, list[j] holds the j-th digest of the file |
| RootPcr.SelectionMapSize | PCR.go:58-68 | with distinct PCRs, the map has one entry per iteration |
| RootPcr.SplitIsSelectionMap | PCR.go:43-71 | a successful split is the map after all its iterations |
| RootPcr.SplitBySelectionContents | PCR.go:43-71 | the keys are exactly the listed PCRs, one entry each, and list[i] holds the i-th digest |
| RootPcr.ParseValuePcrFileWithList | PCR.go:43-71 | returns nil with SplitBySelection's error, or a fresh quote whose values are the split, unverified |
| RootPcr.Lookup | PCR.go:77 | `quote.Values[key]`: a missing key reads as the empty slice |
| RootPcr.RootConcat | PCR.go:75-78 | the values appended in selection order; RootConcatFrame, RootConcatSplitPrefix and RootConcatSplit state it |
| RootPcr.CopyInto | PCR.go:83 | copy overwrites the first min(len) bytes of dst and keeps its length |
| RootPcr.ComputedSum | PCR.go:80-87 | the sum is always hashSize bytes long |
| RootPcr.ComputedSumIsHash | PCR.go:80-87 | with the matching size, the SHA-256 and SHA-1 sums are the hash itself |
| RootPcr.ComputedSumUnknown | PCR.go:80-87 | for any other algorithm id the sum stays all zeros |
| RootPcr.QuoteDigestCheck | PCR.go:73-96 | the check passes exactly when the expected digest equals the computed sum |
| RootPcr.RootConcatFrame | PCR.go:76-78 | the concatenation reads only the listed keys |
| RootPcr.RootConcatSplitPrefix | PCR.go:58-78 | concatenating the first i values in list order gives the first i digests |
| RootPcr.RootConcatSplit | PCR.go:43-78 | splitting by a repeat-free list and concatenating in that order gives back the file |
| RootPcr.DigestOfSplitFile | PCR.go:73-96 | on a SHA-256 file split by a selection, the check passes exactly when SHA-256 of the file is the digest |
| RootPcr.VerifyQuoteDigest | PCR.go:73-96 | stores the sum in quote.Digest; sets DigestVerified exactly on a match; changes nothing else |
| RootAttest.VerifyRsaSignature | attest.go:104-121 | panics exactly when the key is not RSA; accepts exactly when an RSA key verifies PKCS#1 v1.5 over SHA-256 |
| RootAttest.PcrHashAlgorithm | attest.go:60-74 | SHA-256 and SHA-1 only, with sha256.Size and sha1.Size |
| RootAttest.AcceptedSumIsHash | attest.go:60-74 | for an accepted id, the computed sum is the hash of the data |
| RootAttest.PcrStage | attest.go:76-101 | every failure of the split, the digest or the empty selection returns `Attested{}` |
| RootAttest.QuoteStage | attest.go:49-101 | every failure returns `Attested{}`; a decoded quote never panics here |
| RootAttest.AttestSpec | attest.go:32-102 | any other signing method is refused first; every failure returns `Attested{}` |
| RootAttest.CheckPcrFile | attest.go:76-101 | the method computes PcrStage |
| RootAttest.CheckQuote | attest.go:49-101 | the method computes QuoteStage |
| RootAttest.Attest | attest.go:32-102 | the method computes AttestSpec when the program does not panic |
| RootAttest.PcrStageAccepts | attest.go:76-89 | the digest stage on the decoded bitmap passes exactly when the whole file hashes to the digest |
| RootAttest.QuoteStageAccepts | attest.go:49-101 | the checks after decoding accept exactly the quotes QuoteAcceptable describes |
| RootAttest.AttestAccepts | attest.go:32-102 | accepts exactly on RSA, a valid signature, a decoded message and an acceptable quote; the output copies the quote and keys values by selected PCR |
| RootAttest.AttestPanics | attest.go:32-58 | panics exactly on a non-RSA key, or a valid signature over a message too short to decode (capacity equal to length) |
| Generations.SizedAgree | structures.go:176-187 | a root TPM2B decodes exactly when the tool reads it, with the same values; a tool failure is a short read |
| Generations.ClockAgree | structures.go:152-169 | the root clock info decodes exactly when the tool reads it, with the same values |
| Generations.SelectionAgree | structures.go:128-143 | a root selection decodes exactly when the tool reads it, with the same values |
| Generations.SelectionsStepAgree | structures.go:113-118 | if n - 1 selections agree, the n-th one agrees too |
| Generations.SelectionsAgreeAt | structures.go:113-118 | for every n, the n-selection loops agree |
| Generations.SelectionListAgree | structures.go:106-120 | the selection lists agree |
| Generations.QuoteInfoAgree | structures.go:72-81 | the quote infos agree |
| Generations.TailAgree | structures.go:34-41 | clock, firmware and quote agree |
| Generations.RootBodyDone | structures.go:28-41 | after both TPM2Bs, the root body decodes exactly when the tail does |
| Generations.RootBodyValue | structures.go:28-41 | a decoded root body is built from the two TPM2Bs and the tail |
| Generations.ToolBodyShape | tool/TPMSAttestParse.go:44-100 | after both TPM2Bs, the tool body is read exactly when the tail is, with the tail's error |
| Generations.BodyAgree | structures.go:28-41 | the root body decodes exactly when the tool reads it, with the same values |
| Generations.ParsersAgree | structures.go:11-44 | on every buffer the root returns a structure exactly when the tool does, with equal fields and matching header errors, and, for a slice whose capacity is its length, panics exactly where the tool reports a short read |
| Generations.HeaderOnlyMessage | structures.go:28 | with capacity equal to length, the header-only message panics in the root decoder reading the signer's size (structures.go:179); the tool parser reports a short read of that size |
| Generations.KeyingDiffers | tool/PCR.go:32-39 | bitmap 0x03 with two digests: the tool keys them 1 and 2, the root keys them 0 and 1 |
| Generations.KeyingAt | PCR.go:58-68 | digest i sits under list[i] in the root map and under i + 1 in the tool map |
| Generations.KeyingCorrespondence | PCR.go:43-71 | the tool's keys are 1 .. n, the root's are the selected PCRs, and they hold the same digests in the same order |

## Left out

- TPMExtend, in both generations, is not modelled: nothing in the verification pipeline calls it.
- These are not part of this model: JSON output (the `MarshalJSON` methods), file and console
  I/O, the command-line front ends, the mobile binding, and `tpm2quoteattest.go`.
- Hashing, PEM and X.509 decoding, and RSA and ECDSA verification are foreign functions.
  - They are parameters of type `Crypto.Primitives`.
  - The only fact assumed about them is the digest length.
- `pem.Decode` returning nil is not modelled. In both `verifySignature` functions it makes
  `block.Bytes` a nil dereference; here a PEM failure and a PKIX failure are one `None`.
- ConstantTimeCompare's timing is not modelled, only its value.
- ToolParse.Reader.ReadFull: `io.EOF` and `io.ErrUnexpectedEOF` are one short-read error.
  - Error messages are data constructors, not strings.
  - `err.error` wrapping with `%w` is not modelled.
- Go slices are sequences, so capacity and aliasing are not modelled.
  - ToolParse.ReadSelectionsFrom accumulates into a sequence. The program instead fills a slice
    preallocated with `count` entries.
  - Allocating that slice from an untrusted 32-bit count is not modelled. Neither is the
    out-of-memory failure it can cause.
- The deferred `recover` in `parseRawQuoteMessage` is not modelled. In this model no read can
  panic, so the recover branch is dead.
- RootStructures.DecodeRawQuote, the other `Decode*` functions, Generations.ParsersAgree,
  Generations.HeaderOnlyMessage and RootAttest.AttestPanics: the panic characterisation assumes
  the message slice's capacity equals its length.
  - Go checks `s[lo:hi]` against `cap(s)`, and only `s[lo:]` against `len(s)`.
  - The command-line caller reads the message with `ioutil.ReadFile`, whose buffer has
    zero-filled capacity beyond the length.
  - With such a buffer, a bounded slice past the end reads zeros instead of panicking.
    A message with its last digest byte dropped then decodes with a 0x00 byte and no error.
    `ff 54 43 47` is then refused as "selector is not TPM_ST_ATTEST_QUOTE".
    The header-only message still panics, but at structures.go:31 rather than at structures.go:179.
  - Slice capacity is not modelled.
- RootPcr.ParseValuePcrFileWithList requires `hashSize > 0`.
  - A zero size divides by zero in Go.
  - Every caller passes 20 or 32.
- RootStructures.MarshalRawQuoteMessage and the other `Marshal*` methods require that their
  decoder does not panic. A Go panic is not a state a Dafny method can end in. The panicking
  inputs are characterised by the `Decode*` functions and by Generations.ParsersAgree instead.
- RootAttest.Attest requires that AttestSpec does not panic, for the same reason.
  - RootAttest.AttestPanics states exactly when it would panic.
- ToolPcr.DigitValue: its contract states only the bound. DigitValueInverse states the
  inverse.
- `CUSTOM_TPM_ALG`, `TPM_ALG_SHA256` and `TPM_ALG_SHA1` are used by the root package but not
  defined in any of its files.
  - They are modelled as a digest size plus two id bytes.
  - The id values follow section 6.3 of the TCG TPM 2.0 Library Specification, Part 2.
- The PCR-file keying differs between the generations.
  - The tool keys digests by position + 1 and ignores the bitmap.
  - The root keys them by the selected PCR.
  - Both are modelled as written. Generations.KeyingCorrespondence relates them.

## Findings

| source | as written | input that shows it | evidently intended | confidence | as-written member | corrected member |
|---|---|---|---|---|---|---|
| structures.go:16-41 | every field is sliced at the running offset without a length check, so a short message panics with a slice bound out of range; where the slice has spare capacity, a bounded slice instead reads the bytes past its length (zeros from `ioutil.ReadFile`) and the panic moves or disappears | the 6-byte header-only message `ff 54 43 47 80 18` | a truncated message is an error value, which is what the `tool` parser's reads provide | not executed | RootStructures.DecodeRawQuote (shown by Generations.HeaderOnlyMessage) | ToolWire.ParseQuote (Generations.ParsersAgree, ToolWire.TruncationFails) |
