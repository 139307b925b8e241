/**
 * The TPMS_ATTEST wire format as the `tool` parser reads it through a bytes.Reader: every
 * field big-endian, every read bounds-checked. Each decoder takes the unread input and returns
 * the value together with what is left unread; the encoder beside it is its inverse, and the
 * lemmas prove the two agree in both directions.
 */
module ToolWire {
  import opened Wrappers
  import opened Bytes
  import opened ToolTypes

  /** The field whose binary.Read came up short. */
  datatype Field =
    | MagicField | AttestationTypeField
    | QualifiedSignerSize | QualifiedSignerName
    | ExtraDataSize | ExtraDataData
    | ClockInfoField | FirmwareVersionField
    | PcrSelectCount | SelectionHashAlgorithm | SelectionSizeOfSelect | SelectionPcrSelect
    | PcrDigestSize | PcrDigestBuffer

  datatype ParseError =
    | CouldNotRead(field: Field)
    | MagicMismatch(got: U32)
    | UnsupportedAttestationType

  /** A decoded value and the input left unread after it. */
  type Parsed<T> = Result<(T, seq<Byte>), ParseError>

  lemma Assoc(a: seq<Byte>, b: seq<Byte>, c: seq<Byte>)
    ensures (a + b) + c == a + (b + c)
  {
  }

  // ---------------------------------------------------------------- decoders

  /** io.ReadFull of `n` bytes: it succeeds exactly when `n` bytes remain. */
  function Take(b: seq<Byte>, n: nat, f: Field): (r: Parsed<seq<Byte>>)
    ensures r.Ok? <==> n <= |b|
    ensures r.Ok? ==> r.value.0 == b[..n] && r.value.1 == b[n..] && b == r.value.0 + r.value.1
    ensures r.Err? ==> r.error == CouldNotRead(f)
  {
    if n <= |b| then Ok((b[..n], b[n..])) else Err(CouldNotRead(f))
  }

  function Read16(b: seq<Byte>, f: Field): (r: Parsed<U16>)
    ensures r.Ok? <==> 2 <= |b|
    ensures r.Ok? ==> |r.value.1| == |b| - 2
    ensures r.Err? ==> r.error == CouldNotRead(f)
  {
    var p :- Take(b, 2, f);
    Ok((BE16(p.0), p.1))
  }

  function Read32(b: seq<Byte>, f: Field): (r: Parsed<U32>)
    ensures r.Ok? <==> 4 <= |b|
    ensures r.Ok? ==> |r.value.1| == |b| - 4
    ensures r.Err? ==> r.error == CouldNotRead(f)
  {
    var p :- Take(b, 4, f);
    Ok((BE32(p.0), p.1))
  }

  function Read64(b: seq<Byte>, f: Field): (r: Parsed<U64>)
    ensures r.Ok? <==> 8 <= |b|
    ensures r.Ok? ==> |r.value.1| == |b| - 8
    ensures r.Err? ==> r.error == CouldNotRead(f)
  {
    var p :- Take(b, 8, f);
    Ok((BE64(p.0), p.1))
  }

  /** A TPM2B: a uint16 size, then that many bytes (make([]byte, Size) then binary.Read). */
  function ReadSized(b: seq<Byte>, sizeField: Field, payloadField: Field): (r: Parsed<(U16, seq<Byte>)>)
    ensures r.Ok? ==> |r.value.0.1| == r.value.0.0 && |r.value.1| < |b|
  {
    var s :- Read16(b, sizeField);
    var p :- Take(s.1, s.0, payloadField);
    Ok(((s.0, p.0), p.1))
  }

  /** TPMS_CLOCK_INFO is read as one 17-byte struct: 8 + 4 + 4 + 1. */
  function ReadClockInfo(b: seq<Byte>): (r: Parsed<ClockInfo>)
    ensures r.Ok? ==> |r.value.1| == |b| - 17
  {
    var p :- Take(b, 17, ClockInfoField);
    var raw := p.0;
    Ok((ClockInfo(BE64(raw[..8]), BE32(raw[8..12]), BE32(raw[12..16]), raw[16]), p.1))
  }

  function ReadSelection(b: seq<Byte>): (r: Parsed<PcrSelection>)
    ensures r.Ok? ==> |r.value.1| < |b| && SelectionWellFormed(r.value.0)
  {
    var alg :- Read16(b, SelectionHashAlgorithm);
    var size :- Take(alg.1, 1, SelectionSizeOfSelect);
    var sizeOfSelect := size.0[0];
    var sel :- Take(size.1, sizeOfSelect, SelectionPcrSelect);
    Ok((PcrSelection(alg.0, sizeOfSelect, sel.0), sel.1))
  }

  /** The first `n` selections, read one after another as the loop does. */
  function ReadSelections(b: seq<Byte>, n: nat): (r: Parsed<seq<PcrSelection>>)
    ensures r.Ok? ==> |r.value.1| <= |b| && |r.value.0| == n
    ensures r.Ok? ==> forall s | s in r.value.0 :: SelectionWellFormed(s)
  {
    if n == 0 then Ok(([], b))
    else
      var prefix :- ReadSelections(b, n - 1);
      var last :- ReadSelection(prefix.1);
      Ok((prefix.0 + [last.0], last.1))
  }

  function ReadSelectionList(b: seq<Byte>): (r: Parsed<PcrSelectionList>)
    ensures r.Ok? ==> |r.value.1| <= |b|
    ensures r.Ok? ==> |r.value.0.pcrSelections| == r.value.0.count
  {
    var count :- Read32(b, PcrSelectCount);
    var sels :- ReadSelections(count.1, count.0);
    Ok((PcrSelectionList(count.0, sels.0), sels.1))
  }

  function ReadQuoteInfo(b: seq<Byte>): (r: Parsed<QuoteInfo>)
    ensures r.Ok? ==> |r.value.1| <= |b| && QuoteWellFormed(r.value.0)
  {
    var list :- ReadSelectionList(b);
    var digest :- ReadSized(list.1, PcrDigestSize, PcrDigestBuffer);
    Ok((QuoteInfo(list.0, Tpm2bDigest(digest.0.0, digest.0.1)), digest.1))
  }

  /** The fields after the two TPM2Bs: clock info, firmware version and the quote itself. */
  function ReadTail(b: seq<Byte>): (r: Parsed<(ClockInfo, U64, QuoteInfo)>)
    ensures r.Ok? ==> |r.value.1| <= |b| && QuoteWellFormed(r.value.0.2)
  {
    var clock :- ReadClockInfo(b);
    var fw :- Read64(clock.1, FirmwareVersionField);
    var quote :- ReadQuoteInfo(fw.1);
    Ok(((clock.0, fw.0, quote.0), quote.1))
  }

  /** Everything after the attestation type. */
  function ReadBody(b: seq<Byte>, magic: U32, typ: U16): (r: Parsed<TpmsAttest>)
    ensures r.Ok? ==> |r.value.1| <= |b| && WellFormed(r.value.0)
    ensures r.Ok? ==> r.value.0.magic == magic && r.value.0.attestationType == typ
  {
    var name :- ReadSized(b, QualifiedSignerSize, QualifiedSignerName);
    var data :- ReadSized(name.1, ExtraDataSize, ExtraDataData);
    var tail :- ReadTail(data.1);
    Ok((TpmsAttest(magic, typ, Tpm2bName(name.0.0, name.0.1), Tpm2bData(data.0.0, data.0.1),
                   tail.0.0, tail.0.1, AttestUnion(tail.0.2)), tail.1))
  }

  /**
   * parseRawQuoteMessage as a function: the structure, or the first error met. The header is
   * checked before anything else is read: a short magic, a wrong magic (reported with the value
   * read), a short attestation type and a type other than TPM_ST_ATTEST_QUOTE each stop the
   * parse with their own error.
   */
  function ParseQuote(raw: seq<Byte>): (r: Result<TpmsAttest, ParseError>)
    ensures |raw| < 4 ==> r == Err(CouldNotRead(MagicField))
    ensures 4 <= |raw| && BE32(raw[..4]) != TpmGeneratedValue ==> r == Err(MagicMismatch(BE32(raw[..4])))
    ensures 4 <= |raw| < 6 && BE32(raw[..4]) == TpmGeneratedValue ==> r == Err(CouldNotRead(AttestationTypeField))
    ensures 6 <= |raw| && BE32(raw[..4]) == TpmGeneratedValue && BE16(raw[4..6]) != TpmStAttestQuote
      ==> r == Err(UnsupportedAttestationType)
    ensures r.Ok? ==>
      (WellFormed(r.value) && r.value.magic == TpmGeneratedValue && r.value.attestationType == TpmStAttestQuote)
  {
    var magic :- Read32(raw, MagicField);
    if magic.0 != TpmGeneratedValue then Err(MagicMismatch(magic.0))
    else
      var typ :- Read16(magic.1, AttestationTypeField);
      assert typ.1 == raw[6..] && typ.0 == BE16(raw[4..6]) by {
        assert raw[4..][..2] == raw[4..6] && raw[4..][2..] == raw[6..];
      }
      if typ.0 != TpmStAttestQuote then Err(UnsupportedAttestationType)
      else
        var body :- ReadBody(typ.1, magic.0, typ.0);
        Ok(body.0)
  }

  // ---------------------------------------------------------------- encoders

  function EncodeSized(size: U16, payload: seq<Byte>): seq<Byte>
  {
    Put16(size) + payload
  }

  function EncodeClockInfo(c: ClockInfo): (e: seq<Byte>)
    ensures |e| == 17
  {
    Put64(c.clock) + Put32(c.resetCount) + Put32(c.restartCount) + [c.safe]
  }

  function EncodeSelection(s: PcrSelection): seq<Byte>
  {
    Put16(s.hashAlgorithm) + [s.sizeOfSelect] + s.pcrSelect
  }

  function EncodeSelections(ss: seq<PcrSelection>): seq<Byte>
  {
    if ss == [] then [] else EncodeSelections(ss[..|ss| - 1]) + EncodeSelection(ss[|ss| - 1])
  }

  function EncodeQuoteInfo(q: QuoteInfo): seq<Byte>
  {
    Put32(q.pcrSelect.count) + EncodeSelections(q.pcrSelect.pcrSelections)
      + EncodeSized(q.pcrDigest.size, q.pcrDigest.buffer)
  }

  function EncodeTail(c: ClockInfo, fw: U64, q: QuoteInfo): seq<Byte>
  {
    EncodeClockInfo(c) + Put64(fw) + EncodeQuoteInfo(q)
  }

  function EncodeBody(t: TpmsAttest): seq<Byte>
  {
    EncodeSized(t.qualifiedSigner.size, t.qualifiedSigner.name)
      + EncodeSized(t.extraData.size, t.extraData.data)
      + EncodeTail(t.clockInfo, t.firmwareVersion, t.attested.quote)
  }

  /** The TPMS_ATTEST encoding: header, then the body in field order. */
  function Encode(t: TpmsAttest): seq<Byte>
  {
    Put32(t.magic) + Put16(t.attestationType) + EncodeBody(t)
  }

  // ---------------------------------------------------------------- decode <==> encode
  // For each decoder: Sound (the input is the encoding of what was decoded, followed by what is
  // left unread) and Complete (an encoding followed by anything decodes back to the value).

  lemma TakeComplete(e: seq<Byte>, rest: seq<Byte>, f: Field)
    ensures Take(e + rest, |e|, f) == Ok((e, rest))
  {
    assert (e + rest)[..|e|] == e;
    assert (e + rest)[|e|..] == rest;
  }

  lemma Read16Sound(b: seq<Byte>, f: Field)
    requires Read16(b, f).Ok?
    ensures b == Put16(Read16(b, f).value.0) + Read16(b, f).value.1
  {
    Put16OfBE16(b[..2]);
  }

  lemma Read16Complete(x: U16, rest: seq<Byte>, f: Field)
    ensures Read16(Put16(x) + rest, f) == Ok((x, rest))
  {
    TakeComplete(Put16(x), rest, f);
  }

  lemma Read32Sound(b: seq<Byte>, f: Field)
    requires Read32(b, f).Ok?
    ensures b == Put32(Read32(b, f).value.0) + Read32(b, f).value.1
  {
    Put32OfBE32(b[..4]);
  }

  lemma Read32Complete(x: U32, rest: seq<Byte>, f: Field)
    ensures Read32(Put32(x) + rest, f) == Ok((x, rest))
  {
    TakeComplete(Put32(x), rest, f);
  }

  lemma Read64Sound(b: seq<Byte>, f: Field)
    requires Read64(b, f).Ok?
    ensures b == Put64(Read64(b, f).value.0) + Read64(b, f).value.1
  {
    Put64OfBE64(b[..8]);
  }

  lemma Read64Complete(x: U64, rest: seq<Byte>, f: Field)
    ensures Read64(Put64(x) + rest, f) == Ok((x, rest))
  {
    TakeComplete(Put64(x), rest, f);
  }

  lemma ReadSizedSound(b: seq<Byte>, sf: Field, pf: Field)
    requires ReadSized(b, sf, pf).Ok?
    ensures var r := ReadSized(b, sf, pf).value;
      b == EncodeSized(r.0.0, r.0.1) + r.1
  {
    var r := ReadSized(b, sf, pf).value;
    Read16Sound(b, sf);
    Assoc(Put16(r.0.0), r.0.1, r.1);
  }

  lemma ReadSizedComplete(size: U16, payload: seq<Byte>, rest: seq<Byte>, sf: Field, pf: Field)
    requires |payload| == size
    ensures ReadSized(EncodeSized(size, payload) + rest, sf, pf) == Ok(((size, payload), rest))
  {
    Assoc(Put16(size), payload, rest);
    Read16Complete(size, payload + rest, sf);
    TakeComplete(payload, rest, pf);
  }

  lemma ReadClockInfoSound(b: seq<Byte>)
    requires ReadClockInfo(b).Ok?
    ensures var r := ReadClockInfo(b).value;
      b == EncodeClockInfo(r.0) + r.1
  {
    var raw := b[..17];
    Put64OfBE64(raw[..8]);
    Put32OfBE32(raw[8..12]);
    Put32OfBE32(raw[12..16]);
    assert raw == raw[..8] + raw[8..12] + raw[12..16] + [raw[16]];
  }

  lemma ReadClockInfoComplete(c: ClockInfo, rest: seq<Byte>)
    ensures ReadClockInfo(EncodeClockInfo(c) + rest) == Ok((c, rest))
  {
    var e := EncodeClockInfo(c);
    TakeComplete(e, rest, ClockInfoField);
    assert e[..8] == Put64(c.clock) && e[8..12] == Put32(c.resetCount);
    assert e[12..16] == Put32(c.restartCount) && e[16] == c.safe;
  }

  lemma ReadSelectionSound(b: seq<Byte>)
    requires ReadSelection(b).Ok?
    ensures var r := ReadSelection(b).value;
      b == EncodeSelection(r.0) + r.1
  {
    var r := ReadSelection(b).value;
    var s := r.0;
    Read16Sound(b, SelectionHashAlgorithm);
    Assoc(Put16(s.hashAlgorithm), [s.sizeOfSelect], s.pcrSelect + r.1);
    Assoc(Put16(s.hashAlgorithm) + [s.sizeOfSelect], s.pcrSelect, r.1);
  }

  lemma ReadSelectionComplete(s: PcrSelection, rest: seq<Byte>)
    requires SelectionWellFormed(s)
    ensures ReadSelection(EncodeSelection(s) + rest) == Ok((s, rest))
  {
    var h := Put16(s.hashAlgorithm);
    Assoc(h + [s.sizeOfSelect], s.pcrSelect, rest);
    Assoc(h, [s.sizeOfSelect], s.pcrSelect + rest);
    Read16Complete(s.hashAlgorithm, [s.sizeOfSelect] + (s.pcrSelect + rest), SelectionHashAlgorithm);
    TakeComplete([s.sizeOfSelect], s.pcrSelect + rest, SelectionSizeOfSelect);
    TakeComplete(s.pcrSelect, rest, SelectionPcrSelect);
  }

  lemma {:induction false} ReadSelectionsSound(b: seq<Byte>, n: nat)
    requires ReadSelections(b, n).Ok?
    ensures var r := ReadSelections(b, n).value;
      b == EncodeSelections(r.0) + r.1
  {
    if n > 0 {
      var prefix := ReadSelections(b, n - 1).value;
      ReadSelectionsSound(b, n - 1);
      var last := ReadSelection(prefix.1).value;
      ReadSelectionSound(prefix.1);
      var ss := prefix.0 + [last.0];
      assert ss[..n - 1] == prefix.0;
      Assoc(EncodeSelections(prefix.0), EncodeSelection(last.0), last.1);
    }
  }

  lemma {:induction false} ReadSelectionsComplete(ss: seq<PcrSelection>, rest: seq<Byte>)
    requires forall s | s in ss :: SelectionWellFormed(s)
    ensures ReadSelections(EncodeSelections(ss) + rest, |ss|) == Ok((ss, rest))
  {
    if ss != [] {
      var init, final := ss[..|ss| - 1], ss[|ss| - 1];
      assert ss == init + [final];
      assert forall s | s in init :: s in ss;
      var tail := EncodeSelection(final) + rest;
      Assoc(EncodeSelections(init), EncodeSelection(final), rest);
      ReadSelectionsComplete(init, tail);
      ReadSelectionComplete(final, rest);
      var b := EncodeSelections(ss) + rest;
      assert b == EncodeSelections(init) + tail;
      assert ReadSelections(b, |ss| - 1) == Ok((init, tail));
      assert ReadSelection(tail) == Ok((final, rest));
    } else {
      assert EncodeSelections(ss) + rest == rest;
    }
  }

  lemma ReadQuoteInfoSound(b: seq<Byte>)
    requires ReadQuoteInfo(b).Ok?
    ensures var r := ReadQuoteInfo(b).value;
      b == EncodeQuoteInfo(r.0) + r.1
  {
    var r := ReadQuoteInfo(b).value;
    var q := r.0;
    var count := Read32(b, PcrSelectCount).value;
    Read32Sound(b, PcrSelectCount);
    var sels := ReadSelections(count.1, count.0).value;
    ReadSelectionsSound(count.1, count.0);
    ReadSizedSound(sels.1, PcrDigestSize, PcrDigestBuffer);
    var e1, e2, e3 := Put32(q.pcrSelect.count), EncodeSelections(q.pcrSelect.pcrSelections),
                      EncodeSized(q.pcrDigest.size, q.pcrDigest.buffer);
    Assoc(e2, e3, r.1);
    Assoc(e1, e2, e3 + r.1);
    Assoc(e1 + e2, e3, r.1);
  }

  lemma ReadQuoteInfoComplete(q: QuoteInfo, rest: seq<Byte>)
    requires QuoteWellFormed(q)
    ensures ReadQuoteInfo(EncodeQuoteInfo(q) + rest) == Ok((q, rest))
  {
    var e1, e2, e3 := Put32(q.pcrSelect.count), EncodeSelections(q.pcrSelect.pcrSelections),
                      EncodeSized(q.pcrDigest.size, q.pcrDigest.buffer);
    Assoc(e1 + e2, e3, rest);
    Assoc(e1, e2, e3 + rest);
    Read32Complete(q.pcrSelect.count, e2 + (e3 + rest), PcrSelectCount);
    ReadSelectionsComplete(q.pcrSelect.pcrSelections, e3 + rest);
    assert ReadSelectionList(EncodeQuoteInfo(q) + rest) == Ok((q.pcrSelect, e3 + rest));
    ReadSizedComplete(q.pcrDigest.size, q.pcrDigest.buffer, rest, PcrDigestSize, PcrDigestBuffer);
  }

  lemma ReadTailSound(b: seq<Byte>)
    requires ReadTail(b).Ok?
    ensures var r := ReadTail(b).value;
      b == EncodeTail(r.0.0, r.0.1, r.0.2) + r.1
  {
    var r := ReadTail(b).value;
    var clock := ReadClockInfo(b).value;
    ReadClockInfoSound(b);
    var fw := Read64(clock.1, FirmwareVersionField).value;
    Read64Sound(clock.1, FirmwareVersionField);
    ReadQuoteInfoSound(fw.1);
    var e1, e2, e3 := EncodeClockInfo(r.0.0), Put64(r.0.1), EncodeQuoteInfo(r.0.2);
    Assoc(e1, e2, e3 + r.1);
    Assoc(e1 + e2, e3, r.1);
  }

  lemma ReadTailComplete(c: ClockInfo, fw: U64, q: QuoteInfo, rest: seq<Byte>)
    requires QuoteWellFormed(q)
    ensures ReadTail(EncodeTail(c, fw, q) + rest) == Ok(((c, fw, q), rest))
  {
    var e1, e2, e3 := EncodeClockInfo(c), Put64(fw), EncodeQuoteInfo(q);
    Assoc(e1 + e2, e3, rest);
    Assoc(e1, e2, e3 + rest);
    ReadClockInfoComplete(c, e2 + (e3 + rest));
    Read64Complete(fw, e3 + rest, FirmwareVersionField);
    ReadQuoteInfoComplete(q, rest);
  }

  lemma ReadBodySound(b: seq<Byte>, magic: U32, typ: U16)
    requires ReadBody(b, magic, typ).Ok?
    ensures var r := ReadBody(b, magic, typ).value;
      b == EncodeBody(r.0) + r.1
  {
    var r := ReadBody(b, magic, typ).value;
    var name := ReadSized(b, QualifiedSignerSize, QualifiedSignerName).value;
    ReadSizedSound(b, QualifiedSignerSize, QualifiedSignerName);
    var data := ReadSized(name.1, ExtraDataSize, ExtraDataData).value;
    ReadSizedSound(name.1, ExtraDataSize, ExtraDataData);
    ReadTailSound(data.1);
    var t := r.0;
    var e1 := EncodeSized(t.qualifiedSigner.size, t.qualifiedSigner.name);
    var e2 := EncodeSized(t.extraData.size, t.extraData.data);
    var e3 := EncodeTail(t.clockInfo, t.firmwareVersion, t.attested.quote);
    Assoc(e1, e2, e3 + r.1);
    Assoc(e1 + e2, e3, r.1);
  }

  lemma ReadBodyComplete(t: TpmsAttest, rest: seq<Byte>)
    requires WellFormed(t)
    ensures ReadBody(EncodeBody(t) + rest, t.magic, t.attestationType) == Ok((t, rest))
  {
    var e1 := EncodeSized(t.qualifiedSigner.size, t.qualifiedSigner.name);
    var e2 := EncodeSized(t.extraData.size, t.extraData.data);
    var e3 := EncodeTail(t.clockInfo, t.firmwareVersion, t.attested.quote);
    Assoc(e1 + e2, e3, rest);
    Assoc(e1, e2, e3 + rest);
    ReadSizedComplete(t.qualifiedSigner.size, t.qualifiedSigner.name, e2 + (e3 + rest),
                      QualifiedSignerSize, QualifiedSignerName);
    ReadSizedComplete(t.extraData.size, t.extraData.data, e3 + rest, ExtraDataSize, ExtraDataData);
    ReadTailComplete(t.clockInfo, t.firmwareVersion, t.attested.quote, rest);
  }

  // ---------------------------------------------------------------- the parser as a whole

  /** What a successful parse returns is what the buffer starts with, re-encoded. */
  lemma ParseSound(raw: seq<Byte>)
    requires ParseQuote(raw).Ok?
    ensures Encode(ParseQuote(raw).value) <= raw
  {
    var t := ParseQuote(raw).value;
    var magic := Read32(raw, MagicField).value;
    Read32Sound(raw, MagicField);
    var typ := Read16(magic.1, AttestationTypeField).value;
    Read16Sound(magic.1, AttestationTypeField);
    var body := ReadBody(typ.1, magic.0, typ.0).value;
    ReadBodySound(typ.1, magic.0, typ.0);
    assert body.0 == t;
    var h1, h2, e := Put32(t.magic), Put16(t.attestationType), EncodeBody(t);
    Assoc(h2, e, body.1);
    Assoc(h1, h2 + e, body.1);
    Assoc(h1, h2, e);
    assert raw == Encode(t) + body.1;
  }

  /** Round trip: the encoding of a well-formed quote, followed by anything, parses back to it. */
  lemma ParseComplete(t: TpmsAttest, trailing: seq<Byte>)
    requires WellFormed(t) && t.magic == TpmGeneratedValue && t.attestationType == TpmStAttestQuote
    ensures ParseQuote(Encode(t) + trailing) == Ok(t)
  {
    var h1, h2, e := Put32(t.magic), Put16(t.attestationType), EncodeBody(t);
    Assoc(h1 + h2, e, trailing);
    Assoc(h1, h2, e + trailing);
    Read32Complete(t.magic, h2 + (e + trailing), MagicField);
    Read16Complete(t.attestationType, e + trailing, AttestationTypeField);
    ReadBodyComplete(t, trailing);
  }

  lemma PrefixSplit(p: seq<Byte>, b: seq<Byte>)
    requires p <= b
    ensures b == p + b[|p|..]
  {
    assert b[..|p|] == p;
  }

  /** Bytes after the PCR digest are never looked at. */
  lemma TrailingBytesIgnored(raw: seq<Byte>, extra: seq<Byte>)
    requires ParseQuote(raw).Ok?
    ensures ParseQuote(raw + extra) == ParseQuote(raw)
  {
    var t := ParseQuote(raw).value;
    ParseSound(raw);
    var e := Encode(t);
    PrefixSplit(e, raw);
    Assoc(e, raw[|e|..], extra);
    ParseComplete(t, raw[|e|..] + extra);
  }

  /** Truncating a parsable buffer anywhere inside its encoding makes the parse fail. */
  lemma TruncationFails(raw: seq<Byte>, p: seq<Byte>)
    requires ParseQuote(raw).Ok? && p <= raw && |p| < |Encode(ParseQuote(raw).value)|
    ensures ParseQuote(p).Err?
  {
    if ParseQuote(p).Ok? {
      var t' := ParseQuote(p).value;
      ParseSound(p);
      var e := Encode(t');
      assert e <= raw;
      PrefixSplit(e, raw);
      ParseComplete(t', raw[|e|..]);
    }
  }

  lemma {:induction false} EncodeSelectionsLength(ss: seq<PcrSelection>)
    ensures |EncodeSelections(ss)| >= 3 * |ss|
  {
    if ss != [] {
      EncodeSelectionsLength(ss[..|ss| - 1]);
    }
  }

  /**
   * A parse that succeeds has read 4 + 3 * Count bytes of selection list at least; the
   * buffer is therefore at least 41 + 3 * Count bytes long (6 header, 2 + 2 sizes, 17 clock,
   * 8 firmware, 4 count, 2 digest size).
   */
  lemma MinimumLengthForCount(raw: seq<Byte>)
    requires ParseQuote(raw).Ok?
    ensures |raw| >= 41 + 3 * ParseQuote(raw).value.attested.quote.pcrSelect.count
  {
    var t := ParseQuote(raw).value;
    ParseSound(raw);
    EncodeSelectionsLength(t.attested.quote.pcrSelect.pcrSelections);
  }
}
