/**
  Probe points, probes and the instruction check of the aarch64 back end
  (kprobe/src/arch/aarch64/mod.rs, kprobe/src/lib.rs).
*/
module ProbeTypes {
  import opened Bytes

  type word = bv32

  /** The breakpoint patched into the text, and the one that ends an instruction slot. */
  const BRK_KPROBES: word := 0xD420_0080
  const BRK_KPROBES_SS: word := 0xD420_00C0
  const INST_LEN: nat := 4

  datatype Kind = Kprobe | Kretprobe | Uprobe | Uretprobe

  /** UniProbe: equal when the variant and the shared object behind it are the same. */
  datatype Probe = Probe(kind: Kind, id: nat)

  /** The probe point of one address: its slot, and the user-space copy once there is one. */
  datatype Point = Point(addr: nat, slot: nat, pid: Option<int>, dynamic: nat) {
    function BreakAddress(): nat { addr }
    function ReturnAddress(): nat { addr + INST_LEN }
    /** Where the instruction is executed: the slot, or its copy in user space. */
    function StepAddress(): nat { if dynamic != 0 then dynamic else slot }
    function DebugAddress(): nat { StepAddress() + INST_LEN }
  }

  datatype InstallError = InvalidAddress | UnsupportedInstruction | UnsafeInstruction

  /** The masks of validate_instruction. */
  predicate IsRejected(inst: word) {
    || inst & 0x7c00_0000 == 0x1400_0000
    || inst & 0x7e00_0000 == 0x3400_0000
    || inst & 0x7e00_0000 == 0x3600_0000
    || inst & 0xff00_0010 == 0x5400_0000
    || inst & 0xffff_fc1f == 0xd61f_0000 || inst & 0xffff_fc1f == 0xd63f_0000 || inst & 0xffff_fc1f == 0xd65f_0000
    || inst & 0x9f00_0000 == 0x1000_0000
    || inst & 0x3b00_0000 == 0x1800_0000
    || inst & 0xff00_0000 == 0xd400_0000 || inst & 0xff00_0000 == 0xd500_0000
  }

  function ValidateInstruction(inst: word): Result<(), InstallError> {
    if inst == BRK_KPROBES || inst == BRK_KPROBES_SS then Err(UnsupportedInstruction)
    else if IsRejected(inst) then Err(UnsafeInstruction)
    else Ok(())
  }

  predicate Accepted(inst: word) {
    ValidateInstruction(inst).Ok?
  }

  // ----- What the architecture says

  /** Bits 28 to 24 are 10000: adr when bit 31 is clear, adrp when it is set. */
  predicate IsPcRelAddress(inst: word) { (inst >> 24) & 0x1f == 0x10 }
  predicate IsAdrp(inst: word) { IsPcRelAddress(inst) && inst >> 31 == 1 }

  /** Bits 29 to 27 are 011 and bits 25 and 24 are 00: a load from a PC-relative literal. */
  predicate IsLiteralLoad(inst: word) { (inst >> 27) & 0x7 == 0x3 && (inst >> 24) & 0x3 == 0 }

  predicate IsImmediateBranch(inst: word) { (inst >> 26) & 0x1f == 0x05 }
  predicate IsCompareOrTestBranch(inst: word) { (inst >> 26) & 0x1f == 0x0d }
  /** Bits 31 to 25 are 0101010: b.cond, and bc.cond when bit 4 is set. */
  predicate IsConditionalBranch(inst: word) { inst >> 25 == 0x2a }
  /** Bits 31 to 25 are 1101011: br, blr, ret, eret and their authenticated forms. */
  predicate IsRegisterBranch(inst: word) { inst >> 25 == 0x6b }
  predicate IsExceptionOrSystem(inst: word) { inst >> 25 == 0x6a }

  /**
    The encodings of Armv8-A that read or set the PC, or leave the ordinary flow. The class of
    exception and system instructions counts as a whole, although some of it, `nop` for one, does
    neither. Later extensions add others: FEAT_CMPBR and FEAT_PAuth_LR are not covered.
  */
  predicate IsPositionDependent(inst: word) {
    || IsPcRelAddress(inst) || IsLiteralLoad(inst) || IsImmediateBranch(inst) || IsCompareOrTestBranch(inst)
    || IsConditionalBranch(inst) || IsRegisterBranch(inst) || IsExceptionOrSystem(inst)
  }

  /** The position-dependent encodings that no mask of the check covers. */
  predicate IsMissed(inst: word) {
    || IsAdrp(inst)
    || (IsConditionalBranch(inst) && inst & 0x0100_0010 != 0)
    || (IsRegisterBranch(inst) && inst & 0xffff_fc1f != 0xd61f_0000 && inst & 0xffff_fc1f != 0xd63f_0000
        && inst & 0xffff_fc1f != 0xd65f_0000)
  }

  /**
    The check rejects every position-dependent instruction of Armv8-A but these, and rejects
    nothing else: an accepted one is position dependent exactly when it is one of the missed.
  */
  lemma CheckIsExactUpTo(inst: word)
    ensures IsRejected(inst) <==> IsPositionDependent(inst) && !IsMissed(inst)
    ensures Accepted(inst) ==> (IsPositionDependent(inst) <==> IsMissed(inst))
  {
    BranchMasks(inst);
    AddressMasks(inst);
    ConditionMask(inst);
    RegisterMasks(inst);
    SystemMasks(inst);
    MissedPasses(inst);
    hide IsPcRelAddress, IsAdrp, IsLiteralLoad, IsImmediateBranch, IsCompareOrTestBranch, IsConditionalBranch,
      IsRegisterBranch, IsExceptionOrSystem;
  }

  // The masks of the check, class by class.

  lemma BranchMasks(inst: word)
    ensures inst & 0x7c00_0000 == 0x1400_0000 <==> IsImmediateBranch(inst)
    ensures inst & 0x7e00_0000 == 0x3400_0000 || inst & 0x7e00_0000 == 0x3600_0000 <==> IsCompareOrTestBranch(inst)
  {
  }

  lemma AddressMasks(inst: word)
    ensures inst & 0x9f00_0000 == 0x1000_0000 <==> IsPcRelAddress(inst) && !IsAdrp(inst)
    ensures inst & 0x3b00_0000 == 0x1800_0000 <==> IsLiteralLoad(inst)
    ensures IsAdrp(inst) ==> IsPcRelAddress(inst)
  {
  }

  lemma ConditionMask(inst: word)
    ensures inst & 0xff00_0010 == 0x5400_0000 <==> IsConditionalBranch(inst) && inst & 0x0100_0010 == 0
  {
  }

  lemma RegisterMasks(inst: word)
    ensures inst & 0xffff_fc1f == 0xd61f_0000 || inst & 0xffff_fc1f == 0xd63f_0000 || inst & 0xffff_fc1f == 0xd65f_0000
            ==> IsRegisterBranch(inst)
  {
  }

  lemma MissedPasses(inst: word)
    ensures IsMissed(inst) ==> !IsRejected(inst)
  {
  }

  lemma SystemMasks(inst: word)
    ensures inst & 0xff00_0000 == 0xd400_0000 || inst & 0xff00_0000 == 0xd500_0000 <==> IsExceptionOrSystem(inst)
  {
  }

  /**
    One instruction of each kind that must not be moved: b, bl, cbz, tbz, b.eq, br, blr, ret, adr,
    a literal load, svc and msr. All are refused; add and a load through a register are not.
  */
  lemma KnownInstructions()
    ensures forall w | w in {0x1400_0001, 0x9400_0001, 0x3400_0020, 0x3600_0020, 0x5400_0020, 0xD61F_0000, 0xD63F_0000,
                             0xD65F_03C0, 0x1000_0000, 0x5800_0020, 0xD400_0001, 0xD518_4000} ::
              ValidateInstruction(w) == Err(UnsafeInstruction)
    ensures forall w | w in {0x9100_0400, 0xF940_0020} :: ValidateInstruction(w).Ok?
    ensures forall w | w in {0xD420_0080, 0xD420_00C0} :: ValidateInstruction(w) == Err(UnsupportedInstruction)
  {
  }

  /** `adrp x0, #0`: accepted, although what it computes depends on where it runs. */
  lemma AdrpIsAccepted()
    ensures IsAdrp(0x9000_0000) && IsPositionDependent(0x9000_0000) && Accepted(0x9000_0000)
  {
  }
}
