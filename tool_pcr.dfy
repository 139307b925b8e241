/**
 * The PCR side of the `tool` package: printing a PCR value, splitting the raw "values" file
 * into digests keyed 1, 2, 3, ... in file order, and checking the hash of those digests,
 * concatenated in key order, against the quote's pcrDigest.
 */
module ToolPcr {
  import opened Wrappers
  import opened Bytes
  import opened Crypto

  /** The errors of parseValuePcrFileWithList and verifyQuoteDigest. */
  datatype PcrError =
    | FileSizeMismatch                                 // "invalid file or hash algorithm mismatch"
    | InvalidPcrValueMap                               // "invalid pcr value map"
    | DigestMismatch(expected: seq<Byte>, got: seq<Byte>)  // "quote digest does not match ..."

  /** PCRValues: PCR digests by key. */
  type PcrValues = map<int, seq<Byte>>

  // ---------------------------------------------------------------- PCRValue.String

  const HexDigits: string := "0123456789abcdef"

  function HexDigit(d: nat): (c: char)
    requires d < 16
  {
    HexDigits[d]
  }

  /** The value of a lowercase hex digit, if it is one. */
  function DigitValue(c: char): (d: Option<nat>)
    ensures d.Some? ==> d.value < 16
  {
    if '0' <= c <= '9' then Some(c as int - '0' as int)
    else if 'a' <= c <= 'f' then Some(c as int - 'a' as int + 10)
    else None
  }

  /** A digit's value prints back as that digit. */
  lemma DigitValueInverse(c: char)
    requires DigitValue(c).Some?
    ensures HexDigit(DigitValue(c).value) == c
  {
    assert HexDigits == ['0', '1', '2', '3', '4', '5', '6', '7', '8', '9', 'a', 'b', 'c', 'd', 'e', 'f'];
  }

  /** hex.EncodeToString: two lowercase digits per byte, high nibble first. */
  function HexString(v: seq<Byte>): (s: string)
    ensures |s| == 2 * |v|
  {
    if v == [] then ""
    else [HexDigit(v[0] / 16), HexDigit(v[0] % 16)] + HexString(v[1..])
  }

  /** Every character printed is a lowercase hex digit. */
  lemma {:induction false} HexStringLowercase(v: seq<Byte>)
    ensures forall i | 0 <= i < |HexString(v)| :: HexString(v)[i] in HexDigits
  {
    if v != [] {
      HexStringLowercase(v[1..]);
      var s, tail := HexString(v), HexString(v[1..]);
      assert forall i | 2 <= i < |s| :: s[i] == tail[i - 2];
    }
  }

  /** The partner of HexString: hex.DecodeString restricted to lowercase digits. */
  function HexDecode(s: string): (v: Option<seq<Byte>>)
    ensures v.Some? ==> |s| == 2 * |v.value|
    decreases |s|
  {
    if s == [] then Some([])
    else if |s| < 2 then None
    else
      var hi, lo, rest := DigitValue(s[0]), DigitValue(s[1]), HexDecode(s[2..]);
      if hi.None? || lo.None? || rest.None? then None
      else Some([hi.value * 16 + lo.value] + rest.value)
  }

  lemma DigitRoundTrip(d: nat)
    requires d < 16
    ensures DigitValue(HexDigit(d)) == Some(d)
  {
    assert HexDigits == ['0', '1', '2', '3', '4', '5', '6', '7', '8', '9', 'a', 'b', 'c', 'd', 'e', 'f'];
  }

  lemma HexPairDecode(hi: nat, lo: nat, tail: string)
    requires hi < 16 && lo < 16
    ensures HexDecode([HexDigit(hi), HexDigit(lo)] + tail) ==
      if HexDecode(tail).None? then None else Some([hi * 16 + lo] + HexDecode(tail).value)
  {
    var s := [HexDigit(hi), HexDigit(lo)] + tail;
    DigitRoundTrip(hi);
    DigitRoundTrip(lo);
    assert s[0] == HexDigit(hi) && s[1] == HexDigit(lo) && s[2..] == tail;
    var b: Byte := hi * 16 + lo;
    assert HexDecode(s) == if HexDecode(tail).None? then None else Some([b] + HexDecode(tail).value);
  }

  /** PCRValue.String loses nothing: the printed value decodes back to the digest. */
  lemma {:induction false} HexRoundTrip(v: seq<Byte>)
    ensures HexDecode(HexString(v)) == Some(v)
  {
    if v != [] {
      var hi, lo, tail := v[0] / 16, v[0] % 16, HexString(v[1..]);
      var s := [HexDigit(hi), HexDigit(lo)] + tail;
      assert s == HexString(v);
      DigitRoundTrip(hi);
      DigitRoundTrip(lo);
      HexRoundTrip(v[1..]);
      HexPairDecode(hi, lo, tail);
      assert hi * 16 + lo == v[0];
      assert [v[0]] + v[1..] == v;
    }
  }

  // ---------------------------------------------------------------- parseValuePcrFileWithList

  /** The first `count` digests of the file, keyed 1 .. count in file order. */
  function PositionMap(raw: seq<Byte>, size: nat, count: nat): PcrValues
    requires size > 0 && count * size <= |raw|
  {
    if count == 0 then map[]
    else
      MulLe(count - 1, count, size);
      PositionMap(raw, size, count - 1)[count := raw[(count - 1) * size .. count * size]]
  }

  /**
   * parseValuePcrFileWithList as a function of the file and the digest size: an error unless the
   * file is a whole number of digests, otherwise every digest keyed by its position plus one.
   */
  function SplitByPosition(raw: seq<Byte>, size: nat): (r: Result<PcrValues, PcrError>)
    requires size > 0
    ensures r.Err? <==> |raw| % size != 0
    ensures r.Err? ==> r.error == FileSizeMismatch
  {
    if |raw| % size != 0 then Err(FileSizeMismatch)
    else
      DivMul(|raw|, size);
      Ok(PositionMap(raw, size, |raw| / size))
  }

  /** The keys are exactly 1 .. count, so the map has count entries. */
  lemma {:induction false} PositionMapKeys(raw: seq<Byte>, size: nat, count: nat)
    requires size > 0 && count * size <= |raw|
    ensures forall k :: k in PositionMap(raw, size, count) <==> 1 <= k <= count
    ensures |PositionMap(raw, size, count)| == count
  {
    if count > 0 {
      MulLe(count - 1, count, size);
      PositionMapKeys(raw, size, count - 1);
      var prev := PositionMap(raw, size, count - 1);
      assert count !in prev.Keys;
      assert PositionMap(raw, size, count).Keys == prev.Keys + {count};
    }
  }

  /** Entry k is the k-th digest of the file: bytes (k-1)*size .. k*size. */
  lemma {:induction false} PositionMapAt(raw: seq<Byte>, size: nat, count: nat, k: int)
    requires size > 0 && count * size <= |raw| && 1 <= k <= count
    ensures k * size <= |raw| && k in PositionMap(raw, size, count)
    ensures PositionMap(raw, size, count)[k] == raw[(k - 1) * size .. k * size]
  {
    MulLe(k, count, size);
    if k < count {
      MulLe(count - 1, count, size);
      PositionMapAt(raw, size, count - 1, k);
    }
  }

  /**
   * The split keys the file by position, never by the quote's selection: a file of n digests
   * gives keys 1 .. n, and an empty file an empty map.
   */
  lemma SplitKeys(raw: seq<Byte>, size: nat)
    requires size > 0 && |raw| % size == 0
    ensures SplitByPosition(raw, size).Ok?
    ensures forall k :: k in SplitByPosition(raw, size).value <==> 1 <= k <= |raw| / size
    ensures |SplitByPosition(raw, size).value| == |raw| / size
    ensures raw == [] ==> SplitByPosition(raw, size).value == map[]
  {
    PositionMapKeys(raw, size, |raw| / size);
  }

  /**
   * The loop of parseValuePcrFileWithList: io.ReadFull of `size` bytes from a bytes.Reader over
   * the file, `count` times, storing each digest under key iter + 1.
   */
  method ParseValuePcrFileWithList(rawFile: seq<Byte>, alg: Hasher) returns (result: PcrValues, err: Option<PcrError>)
    ensures SplitByPosition(rawFile, alg.Size()) == if err.None? then Ok(result) else Err(err.value)
    ensures err.Some? ==> result == map[]
  {
    var size := alg.Size();
    if |rawFile| % size != 0 {
      return map[], Some(FileSizeMismatch);
    }
    result := map[];
    var count := |rawFile| / size;
    DivMul(|rawFile|, size);
    var offset := 0;
    var iter := 0;
    while iter < count
      invariant iter <= count && offset == iter * size
      invariant result == PositionMap(rawFile, size, iter)
    {
      MulLe(iter + 1, count, size);
      assert offset + size == (iter + 1) * size;
      var value := rawFile[offset .. offset + size];
      assert value == rawFile[iter * size .. (iter + 1) * size];
      result := result[iter + 1 := value];
      offset := offset + size;
      iter := iter + 1;
    }
    err := None;
  }

  // ---------------------------------------------------------------- verifyQuoteDigest

  /**
   * The bytes verifyQuoteDigest hashes: quote[1] .. quote[n] concatenated in key order, or None
   * when one of those keys is missing.
   */
  function Concatenate(quote: PcrValues, n: nat): Option<seq<Byte>>
  {
    if n == 0 then Some([])
    else match Concatenate(quote, n - 1)
      case None => None
      case Some(c) => if n in quote then Some(c + quote[n]) else None
  }

  /** The concatenation fails exactly when some key in 1 .. n is missing. */
  lemma {:induction false} ConcatenateFails(quote: PcrValues, n: nat)
    ensures Concatenate(quote, n).None? <==> exists k :: 1 <= k <= n && k !in quote
  {
    if n > 0 {
      ConcatenateFails(quote, n - 1);
    }
  }

  /** Once a key is missing, looking further does not help. */
  lemma {:induction false} ConcatenateFailurePersists(quote: PcrValues, i: nat, n: nat)
    requires i <= n && Concatenate(quote, i).None?
    ensures Concatenate(quote, n).None?
    decreases n
  {
    if i < n {
      ConcatenateFailurePersists(quote, i, n - 1);
    }
  }

  /** Concatenating the split file in key order gives back the file. */
  lemma {:induction false} ConcatenateSplit(raw: seq<Byte>, size: nat, count: nat)
    requires size > 0 && count * size <= |raw|
    ensures Concatenate(PositionMap(raw, size, count), count) == Some(raw[..count * size])
  {
    if count > 0 {
      MulLe(count - 1, count, size);
      var m, prev := PositionMap(raw, size, count), PositionMap(raw, size, count - 1);
      ConcatenateSplit(raw, size, count - 1);
      ConcatenateFrame(prev, m, count - 1);
      assert raw[..(count - 1) * size] + raw[(count - 1) * size .. count * size] == raw[..count * size];
    }
  }

  /** The concatenation up to n only looks at keys 1 .. n. */
  lemma {:induction false} ConcatenateFrame(a: PcrValues, b: PcrValues, n: nat)
    requires forall k | 1 <= k <= n :: (k in a <==> k in b) && (k in a ==> a[k] == b[k])
    ensures Concatenate(a, n) == Concatenate(b, n)
  {
    if n > 0 {
      ConcatenateFrame(a, b, n - 1);
    }
  }

  /** What verifyQuoteDigest decides when handed a hasher nothing was written to. */
  function DigestCheck(hash: HashFn, alg: HashAlg, quote: PcrValues, expectedDigest: seq<Byte>): Option<PcrError>
  {
    match Concatenate(quote, |quote|)
    case None => Some(InvalidPcrValueMap)
    case Some(c) =>
      var sum := hash(alg, c);
      if ConstantTimeCompare(expectedDigest, sum) == 1 then None else Some(DigestMismatch(expectedDigest, sum))
  }

  /**
   * For a PCR file split by position, the digest check passes exactly when the hash of the
   * whole file, byte for byte, is the expected digest.
   */
  lemma DigestOfSplitFile(hash: HashFn, alg: HashAlg, raw: seq<Byte>, expectedDigest: seq<Byte>)
    requires |raw| % DigestSize(alg) == 0
    ensures SplitByPosition(raw, DigestSize(alg)).Ok?
    ensures DigestCheck(hash, alg, SplitByPosition(raw, DigestSize(alg)).value, expectedDigest)
      == if hash(alg, raw) == expectedDigest then None else Some(DigestMismatch(expectedDigest, hash(alg, raw)))
  {
    var size := DigestSize(alg);
    var count := |raw| / size;
    SplitKeys(raw, size);
    ConcatenateSplit(raw, size, count);
    assert raw[..count * size] == raw;
  }

  /**
   * verifyQuoteDigest: concatenate quote[1] .. quote[len(quote)], write the bytes to the hasher,
   * take its sum and compare it with the expected digest.
   */
  method VerifyQuoteDigest(quote: PcrValues, expectedDigest: seq<Byte>, alg: Hasher) returns (err: Option<PcrError>)
    modifies alg
    ensures Concatenate(quote, |quote|).None? ==> err == Some(InvalidPcrValueMap) && alg.written == old(alg.written)
    ensures Concatenate(quote, |quote|).Some? ==>
      && alg.written == old(alg.written) + Concatenate(quote, |quote|).value
      && err == if expectedDigest == alg.Sum() then None else Some(DigestMismatch(expectedDigest, alg.Sum()))
    ensures old(alg.written) == [] ==> err == DigestCheck(alg.hash, alg.alg, quote, expectedDigest)
  {
    var concatenated := [];
    var i := 0;
    while i < |quote|
      invariant i <= |quote|
      invariant Concatenate(quote, i) == Some(concatenated)
    {
      if i + 1 !in quote {
        ConcatenateFailurePersists(quote, i + 1, |quote|);
        return Some(InvalidPcrValueMap);
      }
      concatenated := concatenated + quote[i + 1];
      i := i + 1;
    }
    alg.Write(concatenated);
    assert old(alg.written) == [] ==> alg.written == concatenated;
    var sum := alg.Sum();
    if ConstantTimeCompare(expectedDigest, sum) == 1 {
      err := None;
    } else {
      err := Some(DigestMismatch(expectedDigest, sum));
    }
  }
}
