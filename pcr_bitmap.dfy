/**
 * The TPMS_PCR_SELECT bitmap (TCG TPM 2.0 Library Specification, Part 2, section 10.6.1):
 * octet s of the bitmap holds PCRs 8*s .. 8*s+7, PCR 8*s+i in bit i. Both generations decode it
 * with the same nested loop (tool.tpmsPcrSelection.SelectedPCRs and the root GetPCRList), so
 * the decoder and its properties are stated once here.
 */
module PcrBitmap {
  import opened Bytes

  /** hasBit: n & (1 << pos) is non-zero. */
  predicate HasBit(n: Byte, pos: nat)
    requires pos < 8
  {
    (n as bv8) & ((1 as bv8) << pos) != 0
  }

  function Pow2(k: nat): (p: nat)
    ensures p >= 1
  {
    if k == 0 then 1 else 2 * Pow2(k - 1)
  }

  /** The bit test read arithmetically: bit `pos` of n is the parity of n / 2^pos. */
  lemma HasBitArith(n: Byte, pos: nat)
    requires pos < 8
    ensures HasBit(n, pos) <==> (n / Pow2(pos)) % 2 == 1
  {
    assert Pow2(0) == 1 && Pow2(1) == 2 && Pow2(2) == 4 && Pow2(3) == 8;
    assert Pow2(4) == 16 && Pow2(5) == 32 && Pow2(6) == 64 && Pow2(7) == 128;
  }

  /** One pass of the inner loop: `base + j` for every set bit j < i of n, in order. */
  function ByteIndices(n: Byte, base: nat, i: nat): seq<nat>
    requires i <= 8
  {
    if i == 0 then []
    else ByteIndices(n, base, i - 1) + (if HasBit(n, i - 1) then [base + i - 1] else [])
  }

  /** The list both loops build: the indices of the set bits of every octet, octet by octet. */
  function Selected(bitmap: seq<Byte>): seq<nat>
  {
    if |bitmap| == 0 then []
    else Selected(bitmap[..|bitmap| - 1]) + ByteIndices(bitmap[|bitmap| - 1], 8 * (|bitmap| - 1), 8)
  }

  /** The reading of TPM 2.0 Library Part 2, section 10.6.1: PCR x is selected when bit x % 8 of octet x / 8 is set. */
  predicate IsSelected(bitmap: seq<Byte>, x: int)
  {
    0 <= x < 8 * |bitmap| && HasBit(bitmap[x / 8], x % 8)
  }

  /** The selected PCRs as a set. */
  function SelectedSet(bitmap: seq<Byte>): set<nat>
  {
    set x: nat | x < 8 * |bitmap| && IsSelected(bitmap, x)
  }

  predicate StrictlyIncreasing(s: seq<nat>)
  {
    forall i, j | 0 <= i < j < |s| :: s[i] < s[j]
  }

  lemma {:induction false} ByteIndicesSpec(n: Byte, base: nat, i: nat)
    requires i <= 8
    ensures forall x :: x in ByteIndices(n, base, i) <==> base <= x < base + i && HasBit(n, x - base)
    ensures StrictlyIncreasing(ByteIndices(n, base, i))
  {
    if i > 0 {
      ByteIndicesSpec(n, base, i - 1);
      var a := ByteIndices(n, base, i - 1);
      assert forall k | 0 <= k < |a| :: a[k] in a;
    }
  }

  /** Membership: x is in the decoded list exactly when the bitmap selects PCR x. */
  lemma {:induction false} SelectedMembership(bitmap: seq<Byte>)
    ensures forall x :: x in Selected(bitmap) <==> IsSelected(bitmap, x)
  {
    if |bitmap| > 0 {
      var k := |bitmap| - 1;
      var init := bitmap[..k];
      SelectedMembership(init);
      ByteIndicesSpec(bitmap[k], 8 * k, 8);
      forall x
        ensures x in Selected(bitmap) <==> IsSelected(bitmap, x)
      {
        if 0 <= x < 8 * k {
          assert bitmap[x / 8] == init[x / 8];
        }
      }
    }
  }

  /** Every index is below 8 * |bitmap|, and the list is in strictly ascending order. */
  lemma {:induction false} SelectedIncreasing(bitmap: seq<Byte>)
    ensures forall x | x in Selected(bitmap) :: x < 8 * |bitmap|
    ensures StrictlyIncreasing(Selected(bitmap))
  {
    if |bitmap| > 0 {
      var k := |bitmap| - 1;
      SelectedIncreasing(bitmap[..k]);
      ByteIndicesSpec(bitmap[k], 8 * k, 8);
      var a, b := Selected(bitmap[..k]), ByteIndices(bitmap[k], 8 * k, 8);
      assert forall i | 0 <= i < |a| :: a[i] in a;
      assert forall j | 0 <= j < |b| :: b[j] in b;
    }
  }

  /** sizeOfSelect is a uint8, so no selected PCR index reaches 2040. */
  lemma SelectedBelow2040(bitmap: seq<Byte>)
    requires |bitmap| <= 255
    ensures forall x | x in Selected(bitmap) :: x < 2040
  {
    SelectedIncreasing(bitmap);
  }

  function Elements(s: seq<nat>): set<nat>
  {
    set x | x in s
  }

  lemma {:induction false} DistinctCard(s: seq<nat>)
    requires StrictlyIncreasing(s)
    ensures |Elements(s)| == |s|
  {
    if |s| > 0 {
      var init, last := s[..|s| - 1], s[|s| - 1];
      assert StrictlyIncreasing(init);
      DistinctCard(init);
      assert s == init + [last];
      assert Elements(s) == Elements(init) + {last};
      forall x | x in Elements(init)
        ensures x < last
      {
        var k :| 0 <= k < |init| && init[k] == x;
      }
    }
  }

  /** The list has one entry per set bit: its length is the number of selected PCRs. */
  lemma SelectedLength(bitmap: seq<Byte>)
    ensures |Selected(bitmap)| == |SelectedSet(bitmap)|
  {
    SelectedMembership(bitmap);
    SelectedIncreasing(bitmap);
    DistinctCard(Selected(bitmap));
    assert Elements(Selected(bitmap)) == SelectedSet(bitmap);
  }

  /**
   * The nested loop of SelectedPCRs / GetPCRList: octets 0 .. sizeOfSelect - 1, bits 0 .. 7,
   * appending `i + pcrPos` for each set bit, with pcrPos advancing by 8 per octet.
   */
  method SelectedIndices(pcrSelect: seq<Byte>, sizeOfSelect: U8) returns (list: seq<nat>)
    requires sizeOfSelect <= |pcrSelect|
    ensures list == Selected(pcrSelect[..sizeOfSelect])
  {
    list := [];
    var pcrPos := 0;
    var s := 0;
    while s < sizeOfSelect
      invariant s <= sizeOfSelect && pcrPos == 8 * s
      invariant list == Selected(pcrSelect[..s])
    {
      var i := 0;
      while i < 8
        invariant i <= 8
        invariant list == Selected(pcrSelect[..s]) + ByteIndices(pcrSelect[s], pcrPos, i)
      {
        if HasBit(pcrSelect[s], i) {
          list := list + [i + pcrPos];
        }
        i := i + 1;
      }
      assert pcrSelect[..s + 1][..s] == pcrSelect[..s];
      pcrPos := pcrPos + 8;
      s := s + 1;
    }
  }
}
