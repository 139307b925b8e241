/**
 * parseRawQuoteMessage as the program runs it: one bytes.Reader whose position advances with
 * every binary.Read, a TPMSAttest filled in field by field, and a loop that writes each
 * selection into a slice allocated from the untrusted count. Each method is proved to compute
 * exactly what the ToolWire decoders describe.
 */
module ToolParse {
  import opened Wrappers
  import opened Bytes
  import opened ToolTypes
  import opened ToolWire

  /** A bytes.Reader: the buffer and the position of the next unread byte. */
  class Reader {
    const data: seq<Byte>
    var pos: nat

    ghost predicate Valid()
      reads this
    {
      pos <= |data|
    }

    constructor (data: seq<Byte>)
      ensures Valid() && this.data == data && pos == 0
    {
      this.data := data;
      pos := 0;
    }

    function Unread(): seq<Byte>
      reads this
      requires Valid()
    {
      data[pos..]
    }

    /**
     * io.ReadFull of `n` bytes, which binary.Read performs for every field. A short read
     * consumes what was left and fails; `f` names the field for the error the caller reports.
     */
    method ReadFull(n: nat, ghost f: Field) returns (p: seq<Byte>, ok: bool)
      requires Valid()
      modifies this
      ensures Valid()
      ensures Take(old(Unread()), n, f) == if ok then Ok((p, Unread())) else Err(CouldNotRead(f))
      ensures !ok ==> Unread() == []
    {
      if pos + n <= |data| {
        p, ok := data[pos..pos + n], true;
        assert data[pos..][..n] == p && data[pos..][n..] == data[pos + n..];
        pos := pos + n;
      } else {
        p, ok := data[pos..], false;
        pos := |data|;
      }
    }

    method ReadUint16(ghost f: Field) returns (v: U16, ok: bool)
      requires Valid()
      modifies this
      ensures Valid()
      ensures Read16(old(Unread()), f) == if ok then Ok((v, Unread())) else Err(CouldNotRead(f))
    {
      var p;
      p, ok := ReadFull(2, f);
      v := if ok then BE16(p) else 0;
    }

    method ReadUint32(ghost f: Field) returns (v: U32, ok: bool)
      requires Valid()
      modifies this
      ensures Valid()
      ensures Read32(old(Unread()), f) == if ok then Ok((v, Unread())) else Err(CouldNotRead(f))
    {
      var p;
      p, ok := ReadFull(4, f);
      v := if ok then BE32(p) else 0;
    }

    method ReadUint64(ghost f: Field) returns (v: U64, ok: bool)
      requires Valid()
      modifies this
      ensures Valid()
      ensures Read64(old(Unread()), f) == if ok then Ok((v, Unread())) else Err(CouldNotRead(f))
    {
      var p;
      p, ok := ReadFull(8, f);
      v := if ok then BE64(p) else 0;
    }
  }

  /** Once the selection loop has failed, reading more selections fails the same way. */
  lemma {:induction false} SelectionErrorPersists(b: seq<Byte>, i: nat, n: nat)
    requires i <= n && ReadSelections(b, i).Err?
    ensures ReadSelections(b, n) == ReadSelections(b, i)
    decreases n
  {
    if i < n {
      SelectionErrorPersists(b, i, n - 1);
    }
  }

  /** ReadSized in terms of its two stages. */
  lemma ReadSizedStages(b: seq<Byte>, sf: Field, pf: Field)
    ensures Read16(b, sf).Err? ==> ReadSized(b, sf, pf) == Err(CouldNotRead(sf))
    ensures Read16(b, sf).Ok? ==> (
      var s := Read16(b, sf).value;
      ReadSized(b, sf, pf) == match Take(s.1, s.0, pf)
        case Ok(p) => Ok(((s.0, p.0), p.1))
        case Err(e) => Err(e))
  {
  }

  /** A TPM2B field: binary.Read of the uint16 size, make([]byte, size), binary.Read of the payload. */
  method ReadSizedFrom(reader: Reader, sf: Field, pf: Field) returns (size: U16, payload: seq<Byte>, err: Option<ParseError>)
    requires reader.Valid()
    modifies reader
    ensures reader.Valid()
    ensures ReadSized(old(reader.Unread()), sf, pf)
      == if err.None? then Ok(((size, payload), reader.Unread())) else Err(err.value)
  {
    ghost var start := reader.Unread();
    var ok1, ok2;
    size, ok1 := reader.ReadUint16(sf);
    if !ok1 {
      ReadSizedStages(start, sf, pf);
      return 0, [], Some(CouldNotRead(sf));
    }
    ghost var mid := reader.Unread();
    payload, ok2 := reader.ReadFull(size, pf);
    ReadSizedStages(start, sf, pf);
    if !ok2 {
      return 0, [], Some(CouldNotRead(pf));
    }
    err := None;
  }

  /** One iteration of the loop body: hashAlgorithm, sizeOfSelect, then the bitmap. */
  method ReadSelectionFrom(reader: Reader) returns (s: PcrSelection, err: Option<ParseError>)
    requires reader.Valid()
    modifies reader
    ensures reader.Valid()
    ensures ReadSelection(old(reader.Unread()))
      == if err.None? then Ok((s, reader.Unread())) else Err(err.value)
  {
    var alg, ok := reader.ReadUint16(SelectionHashAlgorithm);
    if !ok {
      return PcrSelection(0, 0, []), Some(CouldNotRead(SelectionHashAlgorithm));
    }
    var size;
    size, ok := reader.ReadFull(1, SelectionSizeOfSelect);
    if !ok {
      return PcrSelection(0, 0, []), Some(CouldNotRead(SelectionSizeOfSelect));
    }
    var sel;
    sel, ok := reader.ReadFull(size[0], SelectionPcrSelect);
    if !ok {
      return PcrSelection(0, 0, []), Some(CouldNotRead(SelectionPcrSelect));
    }
    s, err := PcrSelection(alg, size[0], sel), None;
  }

  /** One iteration of the selection loop, after the first i selections were read. */
  method ReadNextSelection(reader: Reader, ghost first: seq<Byte>, ghost i: nat, ghost acc: seq<PcrSelection>)
    returns (s: PcrSelection, err: Option<ParseError>)
    requires reader.Valid() && ReadSelections(first, i) == Ok((acc, reader.Unread()))
    modifies reader
    ensures reader.Valid()
    ensures ReadSelections(first, i + 1) == if err.None? then Ok((acc + [s], reader.Unread())) else Err(err.value)
  {
    s, err := ReadSelectionFrom(reader);
  }

  /**
   * The loop of the Attested part: `count` selections read one after another into the slice
   * allocated for them.
   */
  method ReadSelectionsFrom(reader: Reader, count: U32) returns (selections: seq<PcrSelection>, err: Option<ParseError>)
    requires reader.Valid()
    modifies reader
    ensures reader.Valid()
    ensures ReadSelections(old(reader.Unread()), count)
      == if err.None? then Ok((selections, reader.Unread())) else Err(err.value)
  {
    ghost var first := reader.Unread();
    selections := [];
    var i: nat := 0;
    while i < count
      invariant i <= count && reader.Valid()
      invariant ReadSelections(first, i) == Ok((selections, reader.Unread()))
    {
      var s, e := ReadNextSelection(reader, first, i, selections);
      if e.Some? {
        SelectionErrorPersists(first, i + 1, count);
        return [], e;
      }
      selections := selections + [s];
      i := i + 1;
    }
    err := None;
  }

  /** ReadQuoteInfo in terms of its stages: the count, the selections, the digest. */
  lemma ReadQuoteInfoStages(b: seq<Byte>)
    ensures Read32(b, PcrSelectCount).Err? ==> ReadQuoteInfo(b) == Err(CouldNotRead(PcrSelectCount))
    ensures Read32(b, PcrSelectCount).Ok? ==> (
      var count := Read32(b, PcrSelectCount).value;
      var sels := ReadSelections(count.1, count.0);
      && (sels.Err? ==> ReadQuoteInfo(b) == Err(sels.error))
      && (sels.Ok? ==> ReadQuoteInfo(b) == match ReadSized(sels.value.1, PcrDigestSize, PcrDigestBuffer)
            case Ok(d) => Ok((QuoteInfo(PcrSelectionList(count.0, sels.value.0), Tpm2bDigest(d.0.0, d.0.1)), d.1))
            case Err(e) => Err(e)))
  {
  }

  /** The Attested part: the count, the selections, then the PCR digest. */
  method ReadQuoteFrom(reader: Reader) returns (q: QuoteInfo, err: Option<ParseError>)
    requires reader.Valid()
    modifies reader
    ensures reader.Valid()
    ensures ReadQuoteInfo(old(reader.Unread()))
      == if err.None? then Ok((q, reader.Unread())) else Err(err.value)
  {
    q := QuoteInfo(PcrSelectionList(0, []), Tpm2bDigest(0, []));
    ghost var start := reader.Unread();
    ReadQuoteInfoStages(start);
    var count, ok := reader.ReadUint32(PcrSelectCount);
    if !ok {
      return q, Some(CouldNotRead(PcrSelectCount));
    }
    var selections, e := ReadSelectionsFrom(reader, count);
    if e.Some? {
      return q, e;
    }
    q := q.(pcrSelect := PcrSelectionList(count, selections));
    var size, buffer;
    size, buffer, e := ReadSizedFrom(reader, PcrDigestSize, PcrDigestBuffer);
    if e.Some? {
      return q, e;
    }
    q, err := q.(pcrDigest := Tpm2bDigest(size, buffer)), None;
  }

  /** The stages of ReadTail: clock info, firmware version, quote. */
  lemma ReadTailStages(b: seq<Byte>)
    ensures ReadClockInfo(b).Err? ==> ReadTail(b) == Err(ReadClockInfo(b).error)
    ensures ReadClockInfo(b).Ok? ==> (
      var clock := ReadClockInfo(b).value;
      var fw := Read64(clock.1, FirmwareVersionField);
      && (fw.Err? ==> ReadTail(b) == Err(fw.error))
      && (fw.Ok? ==> ReadTail(b) == match ReadQuoteInfo(fw.value.1)
            case Ok(q) => Ok(((clock.0, fw.value.0, q.0), q.1))
            case Err(e) => Err(e)))
  {
  }

  /** The clock info, the firmware version and the quote, read field by field. */
  method ReadTailFrom(reader: Reader) returns (clock: ClockInfo, firmware: U64, quote: QuoteInfo, err: Option<ParseError>)
    requires reader.Valid()
    modifies reader
    ensures reader.Valid()
    ensures ReadTail(old(reader.Unread()))
      == if err.None? then Ok(((clock, firmware, quote), reader.Unread())) else Err(err.value)
  {
    ghost var start := reader.Unread();
    ReadTailStages(start);
    clock, firmware := ClockInfo(0, 0, 0, 0), 0;
    quote := QuoteInfo(PcrSelectionList(0, []), Tpm2bDigest(0, []));
    var bytes, ok1 := reader.ReadFull(17, ClockInfoField);
    if !ok1 {
      return clock, firmware, quote, Some(CouldNotRead(ClockInfoField));
    }
    clock := ClockInfo(BE64(bytes[..8]), BE32(bytes[8..12]), BE32(bytes[12..16]), bytes[16]);
    assert ReadClockInfo(start) == Ok((clock, reader.Unread()));
    var ok2;
    firmware, ok2 := reader.ReadUint64(FirmwareVersionField);
    if !ok2 {
      return clock, firmware, quote, Some(CouldNotRead(FirmwareVersionField));
    }
    quote, err := ReadQuoteFrom(reader);
  }

  /** The stages of ReadBody: the qualified signer, the extra data, the tail. */
  lemma ReadBodyStages(b: seq<Byte>, magic: U32, typ: U16)
    ensures ReadSized(b, QualifiedSignerSize, QualifiedSignerName).Err? ==>
      ReadBody(b, magic, typ) == Err(ReadSized(b, QualifiedSignerSize, QualifiedSignerName).error)
    ensures ReadSized(b, QualifiedSignerSize, QualifiedSignerName).Ok? ==> (
      var name := ReadSized(b, QualifiedSignerSize, QualifiedSignerName).value;
      var data := ReadSized(name.1, ExtraDataSize, ExtraDataData);
      && (data.Err? ==> ReadBody(b, magic, typ) == Err(data.error))
      && (data.Ok? ==> ReadBody(b, magic, typ) == match ReadTail(data.value.1)
            case Ok(tail) => Ok((TpmsAttest(magic, typ, Tpm2bName(name.0.0, name.0.1),
                                            Tpm2bData(data.value.0.0, data.value.0.1),
                                            tail.0.0, tail.0.1, AttestUnion(tail.0.2)), tail.1))
            case Err(e) => Err(e)))
  {
  }

  /** The two TPM2Bs and the tail, filling a TPMSAttest whose header is already read. */
  method ReadBodyFrom(reader: Reader, magic: U32, typ: U16) returns (t: TpmsAttest, err: Option<ParseError>)
    requires reader.Valid()
    modifies reader
    ensures reader.Valid()
    ensures ReadBody(old(reader.Unread()), magic, typ)
      == if err.None? then Ok((t, reader.Unread())) else Err(err.value)
  {
    ghost var start := reader.Unread();
    ReadBodyStages(start, magic, typ);
    t := ZeroAttest.(magic := magic, attestationType := typ);
    var size, bytes, e := ReadSizedFrom(reader, QualifiedSignerSize, QualifiedSignerName);
    if e.Some? {
      return t, e;
    }
    t := t.(qualifiedSigner := Tpm2bName(size, bytes));
    size, bytes, e := ReadSizedFrom(reader, ExtraDataSize, ExtraDataData);
    if e.Some? {
      return t, e;
    }
    t := t.(extraData := Tpm2bData(size, bytes));
    var clock, firmware, quote;
    clock, firmware, quote, err := ReadTailFrom(reader);
    t := t.(clockInfo := clock, firmwareVersion := firmware, attested := AttestUnion(quote));
  }

  /** ParseQuote in terms of the header and ReadBody. */
  lemma ParseQuoteStages(raw: seq<Byte>)
    ensures 6 <= |raw| && BE32(raw[..4]) == TpmGeneratedValue && BE16(raw[4..6]) == TpmStAttestQuote ==>
      ParseQuote(raw) == match ReadBody(raw[6..], TpmGeneratedValue, TpmStAttestQuote)
        case Ok(body) => Ok(body.0)
        case Err(e) => Err(e)
  {
    if 6 <= |raw| {
      assert raw[4..][..2] == raw[4..6] && raw[4..][2..] == raw[6..];
    }
  }

  /**
   * parseRawQuoteMessage: on success the parsed structure and no error; on any failure Go's
   * zero TPMSAttest together with the error that stopped the parse.
   */
  method ParseRawQuoteMessage(raw: seq<Byte>) returns (t: TpmsAttest, err: Option<ParseError>)
    ensures ParseQuote(raw).Ok? ==> t == ParseQuote(raw).value && err == None
    ensures ParseQuote(raw).Err? ==> t == ZeroAttest && err == Some(ParseQuote(raw).error)
  {
    var reader := new Reader(raw);
    ParseQuoteStages(raw);

    var magic, ok1 := reader.ReadUint32(MagicField);
    if !ok1 {
      return ZeroAttest, Some(CouldNotRead(MagicField));
    }
    if magic != TpmGeneratedValue {
      return ZeroAttest, Some(MagicMismatch(magic));
    }
    var typ, ok2 := reader.ReadUint16(AttestationTypeField);
    if !ok2 {
      return ZeroAttest, Some(CouldNotRead(AttestationTypeField));
    }
    if typ != TpmStAttestQuote {
      return ZeroAttest, Some(UnsupportedAttestationType);
    }
    assert reader.Unread() == raw[6..];
    var e;
    t, e := ReadBodyFrom(reader, magic, typ);
    if e.Some? {
      return ZeroAttest, e;
    }
    err := None;
  }
}
