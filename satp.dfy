/** `build_satp` of kernel/src/arch.rs: the value written to the RISC-V `satp` register, which
    selects the address-translation mode, the address-space identifier and the root page table.
    Section 4.1.11 of the RISC-V Privileged Architecture specification (version 1.12) lays the
    64-bit register out as MODE in bits 63..60, ASID in bits 59..44 and PPN in bits 43..0.
    `usize` values are 64-bit words here. */
module Arch {

  /** `build_satp` either panics with "satp not aligned!" or returns the register value. */
  datatype SatpResult = Satp(value: bv64) | NotAligned

  /** The mask the source applies to the page-frame number: 40 bits, not the 44 of the
      standard's PPN field. */
  const PPN_MASK: bv64 := 0xff_ffff_ffff

  /** MODE value for Sv39 paging. */
  const SV39: bv64 := 8

  /** The standard's reading of a `satp` value: MODE, ASID and PPN fields. */
  predicate HasFields(v: bv64, mode: bv64, asid: bv64, ppn: bv64)
  {
    v >> 60 == mode && (v >> 44) & 0xffff == asid && v & 0xfff_ffff_ffff == ppn
  }

  /** `build_satp(mode, asid, addr)`: reject a root address that is not page-aligned, otherwise
      pack `mode << 60 | (asid & 0xffff) << 44 | (addr >> 12) & 0xff_ffff_ffff`. */
  function BuildSatp(mode: bv64, asid: bv64, addr: bv64): (r: SatpResult)
    ensures r.NotAligned? <==> addr % 4096 != 0
  {
    if addr % 4096 != 0 then NotAligned
    else Satp((mode << 60) | ((asid & 0xffff) << 44) | ((addr >> 12) & PPN_MASK))
  }

  lemma ModeBits(mode: bv64, asid: bv64, addr: bv64)
    requires addr % 4096 == 0
    ensures BuildSatp(mode, asid, addr).value >> 60 == mode & 0xf
  {
  }

  lemma AsidBits(mode: bv64, asid: bv64, addr: bv64)
    requires addr % 4096 == 0
    ensures (BuildSatp(mode, asid, addr).value >> 44) & 0xffff == asid & 0xffff
  {
  }

  lemma PpnBits(mode: bv64, asid: bv64, addr: bv64)
    requires addr % 4096 == 0
    ensures BuildSatp(mode, asid, addr).value & 0xfff_ffff_ffff == (addr >> 12) & PPN_MASK
  {
  }

  /** Read with the standard's layout, an accepted value holds the mode's low four bits, the
      ASID's low 16 bits and the low 40 bits of the root's page-frame number. */
  lemma SatpFields(mode: bv64, asid: bv64, addr: bv64)
    requires addr % 4096 == 0
    ensures HasFields(BuildSatp(mode, asid, addr).value, mode & 0xf, asid & 0xffff, (addr >> 12) & PPN_MASK)
  {
    ModeBits(mode, asid, addr);
    AsidBits(mode, asid, addr);
    PpnBits(mode, asid, addr);
  }

  /** A mode that fits the four-bit field is read back unchanged; larger modes lose their high
      bits to the 64-bit shift. */
  lemma ModeField(mode: bv64, asid: bv64, addr: bv64)
    requires addr % 4096 == 0
    ensures BuildSatp(mode, asid, addr).value >> 60 == mode <==> mode < 16
  {
    ModeBits(mode, asid, addr);
  }

  /** Only the low 16 bits of the ASID matter. */
  lemma AsidMasked(mode: bv64, asid: bv64, addr: bv64)
    ensures BuildSatp(mode, asid & 0xffff, addr) == BuildSatp(mode, asid, addr)
  {
  }

  /** Bits 43..40, the top of the standard's PPN field, are always zero. */
  lemma PpnTopBitsZero(mode: bv64, asid: bv64, addr: bv64)
    requires addr % 4096 == 0
    ensures (BuildSatp(mode, asid, addr).value >> 40) & 0xf == 0
  {
  }

  /** The root table's address comes back from the PPN field when it lies below 2^52. */
  lemma RootRoundTrip(mode: bv64, asid: bv64, addr: bv64)
    requires addr % 4096 == 0 && addr < 1 << 52
    ensures (BuildSatp(mode, asid, addr).value & PPN_MASK) << 12 == addr
  {
  }

  /** With a mode below 16 the three fields do not overlap, so the bitwise OR is a sum. */
  lemma FieldsAdd(mode: bv64, asid: bv64, addr: bv64)
    requires addr % 4096 == 0 && mode < 16
    ensures BuildSatp(mode, asid, addr).value ==
      (mode << 60) + ((asid & 0xffff) << 44) + ((addr >> 12) & PPN_MASK)
  {
  }

  /** Below 2^52 the packed value is exactly the standard's layout of mode, ASID and PPN. */
  lemma MatchesStandardBelow52(mode: bv64, asid: bv64, addr: bv64)
    requires addr % 4096 == 0 && addr < 1 << 52 && mode < 16 && asid < 0x1_0000
    ensures HasFields(BuildSatp(mode, asid, addr).value, mode, asid, addr >> 12)
  {
    SatpFields(mode, asid, addr);
  }

  /** At 2^52 and above the 40-bit mask drops address bits the standard's 44-bit PPN field
      would keep: the page-aligned root 2^52 (a valid 56-bit physical address) is encoded with
      PPN 0. */
  lemma PpnTruncatedAt52()
    ensures BuildSatp(SV39, 0, 1 << 52) == Satp(SV39 << 60)
    ensures !HasFields(BuildSatp(SV39, 0, 1 << 52).value, SV39, 0, (1 << 52) >> 12)
  {
  }
}
