/**
 * The two generations side by side. The root decoder (structures.go) slices at a running
 * offset and panics on a short buffer; the tool parser (tool/TPMSAttestParse.go) reads through
 * a bytes.Reader and reports an error. On every buffer they agree: the root decoder finishes
 * exactly when the tool parser succeeds, with the same fields, its header errors are the tool's
 * header errors, and it panics exactly where the tool parser reports a field it could not read.
 * Buffers are sequences whose capacity is their length: a Go slice with spare capacity lets a
 * bounded slice expression read past the length instead of panicking.
 * The PCR files are keyed differently: by position in the tool, by the selected PCR in the root.
 */
module Generations {
  import opened Wrappers
  import opened Bytes
  import RS = RootStructures
  import TT = ToolTypes
  import TW = ToolWire
  import opened PcrBitmap
  import ToolPcr
  import RootPcr

  // ---------------------------------------------------------------- how the two records correspond

  predicate SelectionAgrees(r: RS.PcrSelection, t: TT.PcrSelection)
  {
    && |r.hashAlgorithmId| == 2 && BE16(r.hashAlgorithmId) == t.hashAlgorithm
    && r.sizeOfSelect == t.sizeOfSelect && r.pcrSelect == t.pcrSelect
  }

  predicate SelectionsAgree(rs: seq<RS.PcrSelection>, ts: seq<TT.PcrSelection>)
  {
    |rs| == |ts| && forall i | 0 <= i < |rs| :: SelectionAgrees(rs[i], ts[i])
  }

  predicate ClockAgrees(r: RS.ClockInfo, t: TT.ClockInfo)
  {
    r.clock == t.clock && r.resetCount == t.resetCount && r.restartCount == t.restartCount && r.safe == [t.safe]
  }

  predicate QuoteAgrees(r: RS.QuoteInfo, t: TT.QuoteInfo)
  {
    && r.pcrSelect.count == t.pcrSelect.count
    && SelectionsAgree(r.pcrSelect.pcrSelections, t.pcrSelect.pcrSelections)
    && r.pcrDigest.size == t.pcrDigest.size && r.pcrDigest.buffer == t.pcrDigest.buffer
  }

  /** The root record holds the same values as the tool record, byte slices for integers. */
  predicate AttestAgrees(r: RS.TpmsAttest, t: TT.TpmsAttest)
  {
    && |r.magic| == 4 && BE32(r.magic) == t.magic
    && |r.attestationType| == 2 && BE16(r.attestationType) == t.attestationType
    && r.qualifiedSigner.size == t.qualifiedSigner.size && r.qualifiedSigner.name == t.qualifiedSigner.name
    && r.extraData.size == t.extraData.size && r.extraData.data == t.extraData.data
    && ClockAgrees(r.clockInfo, t.clockInfo)
    && r.firmwareVersion == t.firmwareVersion
    && QuoteAgrees(r.attested.quote, t.attested.quote)
  }

  // ---------------------------------------------------------------- field by field

  /**
   * A TPM2B: the root decoder finishes exactly when the tool reads both the size and the
   * payload, with the same values, the tool leaving unread what follows the root's progress.
   */
  lemma SizedAgree(b: seq<Byte>, sf: TW.Field, pf: TW.Field)
    ensures RS.DecodeSized(b).Done? <==> TW.ReadSized(b, sf, pf).Ok?
    ensures RS.DecodeSized(b).Done? ==>
      var (size, payload, progress) := RS.DecodeSized(b).value;
      TW.ReadSized(b, sf, pf).value == ((size, payload), b[progress..])
    ensures TW.ReadSized(b, sf, pf).Err? ==> TW.ReadSized(b, sf, pf).error.CouldNotRead?
  {
    if 2 <= |b| {
      var size := BE16(b[..2]);
      if 2 + size <= |b| {
        assert b[2..][..size] == b[2..2 + size] && b[2..][size..] == b[2 + size..];
      }
    }
  }

  lemma ClockAgree(b: seq<Byte>)
    ensures RS.DecodeClockInfo(b).Done? <==> TW.ReadClockInfo(b).Ok?
    ensures RS.DecodeClockInfo(b).Done? ==>
      && ClockAgrees(RS.DecodeClockInfo(b).value.0, TW.ReadClockInfo(b).value.0)
      && TW.ReadClockInfo(b).value.1 == b[17..]
    ensures TW.ReadClockInfo(b).Err? ==> TW.ReadClockInfo(b).error.CouldNotRead?
  {
    if 17 <= |b| {
      var raw := b[..17];
      assert raw[..8] == b[..8] && raw[8..12] == b[8..12] && raw[12..16] == b[12..16];
      assert b[16..17] == [raw[16]];
    }
  }

  lemma SelectionAgree(b: seq<Byte>)
    ensures RS.DecodeSelection(b).Done? <==> TW.ReadSelection(b).Ok?
    ensures RS.DecodeSelection(b).Done? ==>
      var (s, progress) := RS.DecodeSelection(b).value;
      var (t, rest) := TW.ReadSelection(b).value;
      SelectionAgrees(s, t) && rest == b[progress..]
    ensures TW.ReadSelection(b).Err? ==> TW.ReadSelection(b).error.CouldNotRead?
  {
    if 3 <= |b| {
      var n := b[2];
      assert b[2..][..1] == [b[2]] && b[2..][1..] == b[3..];
      if 3 + n <= |b| {
        assert b[3..][..n] == b[3..3 + n] && b[3..][n..] == b[3 + n..];
      }
    }
  }

  lemma SelectionsAgreeAppend(rs: seq<RS.PcrSelection>, ts: seq<TT.PcrSelection>, s: RS.PcrSelection, t: TT.PcrSelection)
    requires SelectionsAgree(rs, ts) && SelectionAgrees(s, t)
    ensures SelectionsAgree(rs + [s], ts + [t])
  {
    forall i | 0 <= i < |rs| + 1
      ensures SelectionAgrees((rs + [s])[i], (ts + [t])[i])
    {
      if i < |rs| {
        assert (rs + [s])[i] == rs[i] && (ts + [t])[i] == ts[i];
      }
    }
  }

  /** One more selection, once the first n - 1 agree. */
  lemma SelectionsStepAgree(b: seq<Byte>, n: nat, rs: seq<RS.PcrSelection>, p: nat, ts: seq<TT.PcrSelection>)
    requires n > 0 && p <= |b|
    requires RS.DecodeSelections(b, n - 1) == Done((rs, p))
    requires TW.ReadSelections(b, n - 1) == Ok((ts, b[p..]))
    requires SelectionsAgree(rs, ts)
    ensures RS.DecodeSelections(b, n).Done? <==> TW.ReadSelections(b, n).Ok?
    ensures RS.DecodeSelections(b, n).Done? ==>
      && SelectionsAgree(RS.DecodeSelections(b, n).value.0, TW.ReadSelections(b, n).value.0)
      && TW.ReadSelections(b, n).value.1 == b[RS.DecodeSelections(b, n).value.1..]
    ensures TW.ReadSelections(b, n).Err? ==> TW.ReadSelections(b, n).error.CouldNotRead?
  {
    SelectionAgree(b[p..]);
    var next := RS.DecodeSelection(b[p..]);
    if next.Done? {
      var s, q := next.value.0, next.value.1;
      var t, rest := TW.ReadSelection(b[p..]).value.0, TW.ReadSelection(b[p..]).value.1;
      assert b[p..][q..] == b[p + q..];
      SelectionsAgreeAppend(rs, ts, s, t);
    }
  }

  /** The selection loops agree count by count. */
  lemma {:induction false} SelectionsAgreeAt(b: seq<Byte>, n: nat)
    ensures RS.DecodeSelections(b, n).Done? <==> TW.ReadSelections(b, n).Ok?
    ensures RS.DecodeSelections(b, n).Done? ==>
      && SelectionsAgree(RS.DecodeSelections(b, n).value.0, TW.ReadSelections(b, n).value.0)
      && TW.ReadSelections(b, n).value.1 == b[RS.DecodeSelections(b, n).value.1..]
    ensures TW.ReadSelections(b, n).Err? ==> TW.ReadSelections(b, n).error.CouldNotRead?
  {
    if n > 0 {
      SelectionsAgreeAt(b, n - 1);
      var prev := RS.DecodeSelections(b, n - 1);
      if prev.Done? {
        SelectionsStepAgree(b, n, prev.value.0, prev.value.1, TW.ReadSelections(b, n - 1).value.0);
      }
    }
  }

  lemma SelectionListAgree(b: seq<Byte>)
    ensures RS.DecodeSelectionList(b).Done? <==> TW.ReadSelectionList(b).Ok?
    ensures RS.DecodeSelectionList(b).Done? ==>
      var (rl, progress) := RS.DecodeSelectionList(b).value;
      var (tl, rest) := TW.ReadSelectionList(b).value;
      && rl.count == tl.count && SelectionsAgree(rl.pcrSelections, tl.pcrSelections)
      && rest == b[progress..]
    ensures TW.ReadSelectionList(b).Err? ==> TW.ReadSelectionList(b).error.CouldNotRead?
  {
    if 4 <= |b| {
      SelectionsAgreeAt(b[4..], BE32(b[..4]));
      if RS.DecodeSelectionList(b).Done? {
        var p := RS.DecodeSelections(b[4..], BE32(b[..4])).value.1;
        assert b[4..][p..] == b[4 + p..];
      }
    }
  }

  lemma QuoteInfoAgree(b: seq<Byte>)
    ensures RS.DecodeQuoteInfo(b).Done? <==> TW.ReadQuoteInfo(b).Ok?
    ensures RS.DecodeQuoteInfo(b).Done? ==>
      QuoteAgrees(RS.DecodeQuoteInfo(b).value.0, TW.ReadQuoteInfo(b).value.0)
    ensures TW.ReadQuoteInfo(b).Err? ==> TW.ReadQuoteInfo(b).error.CouldNotRead?
  {
    SelectionListAgree(b);
    if RS.DecodeSelectionList(b).Done? {
      var p := RS.DecodeSelectionList(b).value.1;
      SizedAgree(b[p..], TW.PcrDigestSize, TW.PcrDigestBuffer);
    }
  }

  /** The tail after the two TPM2Bs: clock info, firmware version, quote info. */
  lemma TailAgree(b: seq<Byte>)
    ensures (17 + 8 <= |b| && RS.DecodeQuoteInfo(b[25..]).Done?) <==> TW.ReadTail(b).Ok?
    ensures 17 + 8 <= |b| && RS.DecodeQuoteInfo(b[25..]).Done? ==>
      var (clock, fw, quote) := TW.ReadTail(b).value.0;
      && ClockAgrees(RS.DecodeClockInfo(b).value.0, clock)
      && BE64(b[17..25]) == fw
      && QuoteAgrees(RS.DecodeQuoteInfo(b[25..]).value.0, quote)
    ensures TW.ReadTail(b).Err? ==> TW.ReadTail(b).error.CouldNotRead?
  {
    ClockAgree(b);
    if 25 <= |b| {
      assert b[17..][..8] == b[17..25] && b[17..][8..] == b[25..];
      QuoteInfoAgree(b[25..]);
    }
  }

  /** The root body once both TPM2Bs are read: the tail c after them decides whether it panics, */
  lemma RootBodyDone(b: seq<Byte>, n1: U16, name: seq<Byte>, p1: nat, n2: U16, data: seq<Byte>, p2: nat, c: seq<Byte>)
    requires RS.DecodeSized(b) == Done((n1, name, p1)) && p1 <= |b|
    requires RS.DecodeSized(b[p1..]) == Done((n2, data, p2)) && p1 + p2 <= |b| && c == b[p1 + p2..]
    ensures RS.DecodeBody(b).Done? <==> 25 <= |c| && RS.DecodeQuoteInfo(c[25..]).Done?
  {
    if p1 + p2 + 25 <= |b| {
      assert c[25..] == b[p1 + p2 + 25..];
    }
  }

  /** and what it holds when it does not. */
  lemma RootBodyValue(b: seq<Byte>, n1: U16, name: seq<Byte>, p1: nat, n2: U16, data: seq<Byte>, p2: nat, c: seq<Byte>)
    requires RS.DecodeSized(b) == Done((n1, name, p1)) && p1 <= |b|
    requires RS.DecodeSized(b[p1..]) == Done((n2, data, p2)) && p1 + p2 <= |b| && c == b[p1 + p2..]
    requires RS.DecodeBody(b).Done?
    ensures 25 <= |c| && RS.DecodeQuoteInfo(c[25..]).Done?
    ensures RS.DecodeBody(b).value == RS.TpmsAttest(RS.TpmMagic, RS.TpmStAttestQuoteBytes, RS.Tpm2bName(n1, name),
        RS.Tpm2bData(n2, data), RS.DecodeClockInfo(c).value.0, BE64(c[17..25]),
        RS.AttestUnion(RS.DecodeQuoteInfo(c[25..]).value.0))
  {
    var o := p1 + p2;
    assert c[25..] == b[o + 25..] && c[17..25] == b[o + 17..o + 25];
  }

  /** The tool body once both TPM2Bs are read: the tail decides it. */
  lemma ToolBodyShape(b: seq<Byte>, magic: U32, typ: U16, n1: U16, name: seq<Byte>, rest1: seq<Byte>,
                      n2: U16, data: seq<Byte>, rest2: seq<Byte>)
    requires TW.ReadSized(b, TW.QualifiedSignerSize, TW.QualifiedSignerName) == Ok(((n1, name), rest1))
    requires TW.ReadSized(rest1, TW.ExtraDataSize, TW.ExtraDataData) == Ok(((n2, data), rest2))
    ensures TW.ReadBody(b, magic, typ).Ok? <==> TW.ReadTail(rest2).Ok?
    ensures TW.ReadBody(b, magic, typ).Ok? ==>
      var (clock, fw, quote) := TW.ReadTail(rest2).value.0;
      TW.ReadBody(b, magic, typ).value.0 ==
        TT.TpmsAttest(magic, typ, TT.Tpm2bName(n1, name), TT.Tpm2bData(n2, data), clock, fw, TT.AttestUnion(quote))
    ensures TW.ReadBody(b, magic, typ).Err? ==> TW.ReadBody(b, magic, typ).error == TW.ReadTail(rest2).error
  {
  }

  lemma BodyAgree(b: seq<Byte>, magic: U32, typ: U16)
    ensures RS.DecodeBody(b).Done? <==> TW.ReadBody(b, magic, typ).Ok?
    ensures RS.DecodeBody(b).Done? ==>
      var r, t := RS.DecodeBody(b).value, TW.ReadBody(b, magic, typ).value.0;
      && r.qualifiedSigner.size == t.qualifiedSigner.size && r.qualifiedSigner.name == t.qualifiedSigner.name
      && r.extraData.size == t.extraData.size && r.extraData.data == t.extraData.data
      && ClockAgrees(r.clockInfo, t.clockInfo)
      && r.firmwareVersion == t.firmwareVersion
      && QuoteAgrees(r.attested.quote, t.attested.quote)
    ensures TW.ReadBody(b, magic, typ).Err? ==> TW.ReadBody(b, magic, typ).error.CouldNotRead?
  {
    SizedAgree(b, TW.QualifiedSignerSize, TW.QualifiedSignerName);
    if RS.DecodeSized(b).Done? {
      var n1, name, p1 := RS.DecodeSized(b).value.0, RS.DecodeSized(b).value.1, RS.DecodeSized(b).value.2;
      SizedAgree(b[p1..], TW.ExtraDataSize, TW.ExtraDataData);
      if RS.DecodeSized(b[p1..]).Done? {
        var n2, data, p2 := RS.DecodeSized(b[p1..]).value.0, RS.DecodeSized(b[p1..]).value.1, RS.DecodeSized(b[p1..]).value.2;
        var c := b[p1 + p2..];
        assert b[p1..][p2..] == c;
        RootBodyDone(b, n1, name, p1, n2, data, p2, c);
        if RS.DecodeBody(b).Done? {
          RootBodyValue(b, n1, name, p1, n2, data, p2, c);
        }
        ToolBodyShape(b, magic, typ, n1, name, b[p1..], n2, data, c);
        TailAgree(c);
      }
    }
  }

  // ---------------------------------------------------------------- the two parsers

  /**
   * On every buffer: the root decoder returns a structure exactly when the tool parser does,
   * and the two hold the same values; the root's "not a tpm signature" is the tool's magic
   * mismatch, its "selector is not TPM_ST_ATTEST_QUOTE" the tool's unsupported type, and the
   * root panics exactly when the tool reports a field it could not read (for a buffer whose
   * capacity is its length).
   */
  lemma ParsersAgree(raw: seq<Byte>)
    ensures RS.DecodeRawQuote(raw).Done? && RS.DecodeRawQuote(raw).value.Ok? <==> TW.ParseQuote(raw).Ok?
    ensures RS.DecodeRawQuote(raw).Done? && RS.DecodeRawQuote(raw).value.Ok? ==>
      AttestAgrees(RS.DecodeRawQuote(raw).value.value, TW.ParseQuote(raw).value)
    ensures RS.DecodeRawQuote(raw) == Done(Err(RS.NotATpmSignature)) <==>
      TW.ParseQuote(raw).Err? && TW.ParseQuote(raw).error.MagicMismatch?
    ensures RS.DecodeRawQuote(raw) == Done(Err(RS.SelectorNotQuote)) <==>
      TW.ParseQuote(raw) == Err(TW.UnsupportedAttestationType)
    ensures RS.DecodeRawQuote(raw).Panic? <==> TW.ParseQuote(raw).Err? && TW.ParseQuote(raw).error.CouldNotRead?
  {
    if 4 <= |raw| {
      Put32OfBE32(raw[..4]);
      assert raw[..4] == RS.TpmMagic <==> BE32(raw[..4]) == TT.TpmGeneratedValue;
      if 6 <= |raw| {
        Put16OfBE16(raw[4..6]);
        assert raw[4..6] == RS.TpmStAttestQuoteBytes <==> BE16(raw[4..6]) == TT.TpmStAttestQuote;
        assert raw[4..][2..] == raw[6..];
        BodyAgree(raw[6..], BE32(raw[..4]), BE16(raw[4..6]));
      }
    }
  }

  /**
   * The header-only message ff 54 43 47 80 18: with no capacity past its length, the root
   * decoder panics reading the signer's size, where the tool parser reports that it could not
   * read it. (With spare capacity the size reads as zero and the panic moves to the slice at
   * offset 8, past the length.)
   */
  lemma HeaderOnlyMessage()
    ensures RS.DecodeRawQuote([0xff, 0x54, 0x43, 0x47, 0x80, 0x18]) == Panic
    ensures TW.ParseQuote([0xff, 0x54, 0x43, 0x47, 0x80, 0x18]) == Err(TW.CouldNotRead(TW.QualifiedSignerSize))
  {
    var raw: seq<Byte> := [0xff, 0x54, 0x43, 0x47, 0x80, 0x18];
    assert raw[..4] == RS.TpmMagic && raw[4..6] == RS.TpmStAttestQuoteBytes;
    assert raw[6..] == [];
  }

  // ---------------------------------------------------------------- PCR keying

  /**
   * A bitmap 0x03 selects PCRs 0 and 1. With two digests in the file the tool keys them 1 and
   * 2, by position, and the root keys them 0 and 1, by the selected PCR.
   */
  lemma KeyingDiffers(d0: seq<Byte>, d1: seq<Byte>)
    requires |d0| == 32 && |d1| == 32
    ensures Selected([0x03]) == [0, 1]
    ensures ToolPcr.SplitByPosition(d0 + d1, 32) == Ok(map[1 := d0, 2 := d1])
    ensures RootPcr.SplitBySelection(d0 + d1, [0, 1], 32) == Ok(map[0 := d0, 1 := d1])
  {
    HasBitArith(0x03, 0);
    HasBitArith(0x03, 1);
    HasBitArith(0x03, 2);
    HasBitArith(0x03, 3);
    HasBitArith(0x03, 4);
    HasBitArith(0x03, 5);
    HasBitArith(0x03, 6);
    HasBitArith(0x03, 7);
    assert Pow2(2) == 4 && Pow2(3) == 8 && Pow2(4) == 16 && Pow2(5) == 32 && Pow2(6) == 64 && Pow2(7) == 128;
    var raw := d0 + d1;
    assert raw[0..32] == d0 && raw[32..64] == d1;
    assert |raw| / 32 == 2 && |raw| % 32 == 0;
    assert ToolPcr.PositionMap(raw, 32, 1) == map[1 := d0];
    assert ToolPcr.PositionMap(raw, 32, 2) == map[1 := d0, 2 := d1];
    assert RootPcr.Chunk(raw, 32, 0) == d0 && RootPcr.Chunk(raw, 32, 1) == d1;
    assert RootPcr.SelectionMap(raw, 32, [0, 1], 1) == map[0 := d0];
    assert RootPcr.SelectionMap(raw, 32, [0, 1], 2) == map[0 := d0, 1 := d1];
  }

  /** Digest i of the file: under list[i] in the root map, under i + 1 in the tool map. */
  lemma KeyingAt(raw: seq<Byte>, list: seq<int>, size: nat, i: nat)
    requires size > 0 && RootPcr.Distinct(list) && RootPcr.SplitBySelection(raw, list, size).Ok? && i < |list|
    ensures ToolPcr.SplitByPosition(raw, size).Ok?
    ensures list[i] in RootPcr.SplitBySelection(raw, list, size).value && i + 1 in ToolPcr.SplitByPosition(raw, size).value
    ensures RootPcr.SplitBySelection(raw, list, size).value[list[i]] == ToolPcr.SplitByPosition(raw, size).value[i + 1]
  {
    RootPcr.SplitIsSelectionMap(raw, list, size);
    MulDivExact(|list|, size);
    RootPcr.SplitBySelectionContents(raw, list, size);
    ToolPcr.PositionMapAt(raw, size, |list|, i + 1);
  }

  /**
   * In general the tool's keys are 1 .. n whatever the bitmap, while the root's keys are the
   * PCRs the bitmap selects, holding the same digests in the same order.
   */
  lemma KeyingCorrespondence(raw: seq<Byte>, bitmap: seq<Byte>, size: nat)
    requires size > 0 && RootPcr.SplitBySelection(raw, Selected(bitmap), size).Ok?
    ensures ToolPcr.SplitByPosition(raw, size).Ok?
    ensures var tool, root, list := ToolPcr.SplitByPosition(raw, size).value,
                                   RootPcr.SplitBySelection(raw, Selected(bitmap), size).value, Selected(bitmap);
      && (forall k :: k in tool <==> 1 <= k <= |list|)
      && (forall k :: k in root <==> IsSelected(bitmap, k))
      && forall i | 0 <= i < |list| :: list[i] in root && i + 1 in tool && root[list[i]] == tool[i + 1]
  {
    var list := Selected(bitmap);
    RootPcr.SplitIsSelectionMap(raw, list, size);
    MulDivExact(|list|, size);
    ToolPcr.SplitKeys(raw, size);
    SelectedIncreasing(bitmap);
    SelectedMembership(bitmap);
    RootPcr.IncreasingDistinct(list);
    RootPcr.SplitBySelectionContents(raw, list, size);
    forall i | 0 <= i < |list|
      ensures list[i] in RootPcr.SplitBySelection(raw, list, size).value && i + 1 in ToolPcr.SplitByPosition(raw, size).value
      ensures RootPcr.SplitBySelection(raw, list, size).value[list[i]] == ToolPcr.SplitByPosition(raw, size).value[i + 1]
    {
      KeyingAt(raw, list, size, i);
    }
  }
}
