/**
 * The display side of the `tool` package: the names printed for TPM_ST, TPM_ALG_ID and
 * TPMI_YES_NO values, and the decoding of a selection's bitmap into PCR indices.
 */
module ToolMarshal {
  import opened Wrappers
  import opened Bytes
  import opened ToolTypes
  import opened PcrBitmap

  /** tpmSt.String. */
  function TpmStString(t: U16): (name: string)
    ensures name == "TPM_ST_ATTEST_QUOTE" <==> t == TpmStAttestQuote
    ensures name != "TPM_ST_ATTEST_QUOTE" ==> name == "Unknown"
  {
    if t == TpmStAttestQuote then "TPM_ST_ATTEST_QUOTE" else "Unknown"
  }

  /** tpmAlg.String: the five ids the package knows by name, anything else "Unknown". */
  function TpmAlgString(a: U16): (name: string)
    ensures name == "Unknown" <==> a !in KnownAlgIds()
  {
    if a == TpmAlgSha1 then "TPM_ALG_SHA1"
    else if a == TpmAlgSha256 then "TPM_ALG_SHA256"
    else if a == TpmAlgSha384 then "TPM_ALG_SHA384"
    else if a == TpmAlgSha512 then "TPM_ALG_SHA512"
    else if a == TpmAlgSm3256 then "TPM_ALG_SM3_256"
    else "Unknown"
  }

  /** The inverse reading of the name table: which id a printed name stands for. */
  function AlgFromName(name: string): (a: Option<U16>)
    ensures a.Some? ==> a.value in KnownAlgIds()
  {
    if name == "TPM_ALG_SHA1" then Some(TpmAlgSha1)
    else if name == "TPM_ALG_SHA256" then Some(TpmAlgSha256)
    else if name == "TPM_ALG_SHA384" then Some(TpmAlgSha384)
    else if name == "TPM_ALG_SHA512" then Some(TpmAlgSha512)
    else if name == "TPM_ALG_SM3_256" then Some(TpmAlgSm3256)
    else None
  }

  /**
   * The names identify the known ids: reading a printed name back gives the id it was printed
   * for, and an unknown id reads back as nothing.
   */
  lemma AlgNameRoundTrip(a: U16)
    ensures a in KnownAlgIds() ==> AlgFromName(TpmAlgString(a)) == Some(a)
    ensures a !in KnownAlgIds() ==> AlgFromName(TpmAlgString(a)) == None
  {
  }

  /** Two distinct known ids never print the same name. */
  lemma AlgNamesDistinct(a: U16, b: U16)
    requires a in KnownAlgIds() && b in KnownAlgIds() && a != b
    ensures TpmAlgString(a) != TpmAlgString(b)
  {
    AlgNameRoundTrip(a);
    AlgNameRoundTrip(b);
  }

  /** tpMiYesNo.String: only the value 1 is "Yes"; 0 and every other byte value print "No". */
  function YesNoString(v: U8): (name: string)
    ensures name == "Yes" <==> v == 1
    ensures name != "Yes" ==> name == "No"
  {
    if v == 1 then "Yes" else "No"
  }

  /**
   * tpmsPcrSelection.SelectedPCRs. It reads PcrSelect[s] for every s < SizeOfSelect, so a
   * bitmap shorter than SizeOfSelect would make it panic; every parsed selection has exactly
   * SizeOfSelect octets.
   */
  method SelectedPcrs(t: PcrSelection) returns (list: seq<nat>)
    requires t.sizeOfSelect <= |t.pcrSelect|
    ensures list == Selected(t.pcrSelect[..t.sizeOfSelect])
    ensures forall x :: x in list <==> IsSelected(t.pcrSelect[..t.sizeOfSelect], x)
    ensures StrictlyIncreasing(list) && forall x | x in list :: x < 8 * t.sizeOfSelect
  {
    list := SelectedIndices(t.pcrSelect, t.sizeOfSelect);
    SelectedMembership(t.pcrSelect[..t.sizeOfSelect]);
    SelectedIncreasing(t.pcrSelect[..t.sizeOfSelect]);
  }
}
