/** The argument block of `__builtin_apply_args` and `__builtin_apply`: three walks over the registers
    compute the same offsets, so what is saved can be restored. */
module ApplyArgs {
  import opened Arithmetic
  import opened Options

  type Byte = b: int | 0 <= b < 256

  datatype AnyMode = Mode(size: nat, align: nat)

  /** A machine mode: its size and alignment in bytes. */
  type Mode = m: AnyMode | m.size > 0 && m.align > 0 witness Mode(1, 1)

  /** `apply_args_mode`: the mode each register is saved in, None for VOIDmode. */
  type Modes = seq<Option<Mode>>

  /** `if (size % align != 0) size = CEIL (size, align) * align` */
  function RoundUp(size: nat, align: nat): (r: nat)
    requires align > 0
    ensures size <= r < size + align && r % align == 0
  {
    RoundUpFacts(size, align);
    if size % align != 0 then (size + align - 1) / align * align else size
  }

  method AlignSize(size: nat, align: nat) returns (r: nat)
    requires align > 0
    ensures r == RoundUp(size, align)
  {
    r := size;
    if size % align != 0 {
      RoundUpFacts(size, align);
      r := (size + align - 1) / align * align;
    }
  }

  lemma RoundUpFacts(size: nat, align: nat)
    requires align > 0
    ensures var r := (size + align - 1) / align * align; size <= r < size + align && r % align == 0
  {
    var q := (size + align - 1) / align;
    assert size + align - 1 == q * align + (size + align - 1) % align;
    assert q * align >= 0;
    DivUnique(q * align, align, q, 0);
  }

  /** The running size when a walk comes to register k. */
  function Position(modes: Modes, header: nat, k: nat): nat
    requires k <= |modes|
  {
    if k == 0 then header
    else
      var before := Position(modes, header, k - 1);
      match modes[k - 1]
      case None => before
      case Some(m) => RoundUp(before, m.align) + m.size
  }

  /** Where register k goes. */
  function Offset(modes: Modes, header: nat, k: nat): nat
    requires k < |modes| && modes[k].Some?
  {
    RoundUp(Position(modes, header, k), modes[k].value.align)
  }

  lemma {:induction false} PositionGrows(modes: Modes, header: nat, j: nat, k: nat)
    requires j <= k <= |modes|
    ensures header <= Position(modes, header, j) <= Position(modes, header, k)
    decreases k
  {
    if j < k {
      PositionGrows(modes, header, j, k - 1);
    } else if k > 0 {
      PositionGrows(modes, header, k - 1, k - 1);
    }
  }

  /** Slots are aligned, above the header, within the block, and each begins after the ones before it end. */
  lemma SlotsDisjoint(modes: Modes, header: nat, j: nat, k: nat)
    requires j < k <= |modes| && modes[j].Some?
    ensures Offset(modes, header, j) % modes[j].value.align == 0
    ensures header <= Offset(modes, header, j)
    ensures Offset(modes, header, j) + modes[j].value.size <= Position(modes, header, k)
    ensures k < |modes| && modes[k].Some? ==> Offset(modes, header, j) + modes[j].value.size <= Offset(modes, header, k)
  {
    PositionGrows(modes, header, 0, j);
    PositionGrows(modes, header, j + 1, k);
  }

  /** The target: pointers, whether the address of a structure value is passed in a place of its own
      (`struct_value_rtx`), and comes in in one (`struct_value_incoming_rtx`), the modes of the argument
      registers, and the register each is found in on entry (INCOMING_REGNO). */
  datatype Target = Target(pointerSize: nat, structValue: bool, structValueIncoming: bool, modes: Modes,
      incoming: nat -> nat) {
    function Header(): nat {
      pointerSize + if structValue then pointerSize else 0
    }

    function Used(k: nat): bool {
      k < |modes| && modes[k].Some?
    }

    function Slot(k: nat): nat
      requires Used(k)
    {
      Offset(modes, Header(), k)
    }

    function Size(k: nat): nat
      requires Used(k)
    {
      modes[k].value.size
    }

    /** The size of the block. */
    function Total(): nat {
      Position(modes, Header(), |modes|)
    }

    /** Storing the incoming structure value address runs into the slot of register k: the header has no
        room for it. */
    predicate Overwritten(k: nat)
      requires Used(k)
    {
      structValueIncoming && !structValue && Slot(k) < 2 * pointerSize
    }
  }

  /** `apply_args_reg_offset` and the size that is computed once. */
  class Layout {
    const target: Target
    var regOffset: seq<nat>
    var size: int

    constructor (target: Target)
      ensures this.target == target && size == -1
    {
      this.target := target;
      regOffset, size := [], -1;
    }

    /** Not computed yet, or right. */
    ghost predicate Valid()
      reads this
    {
      size < 0 || (size == target.Total() && |regOffset| == |target.modes|
                   && forall k :: 0 <= k < |regOffset| ==> regOffset[k] == if target.Used(k) then target.Slot(k) else 0)
    }

    /** `apply_args_size`, with the modes given. */
    method ApplyArgsSize() returns (r: int)
      requires Valid()
      modifies this
      ensures Valid() && r == size == target.Total()
    {
      if size < 0 {
        var n := target.pointerSize;
        if target.structValue {
          n := n + target.pointerSize;
        }
        regOffset := [];
        var regno := 0;
        while regno < |target.modes|
          invariant regno <= |target.modes| && n == Position(target.modes, target.Header(), regno)
          invariant |regOffset| == regno
          invariant forall k :: 0 <= k < regno ==> regOffset[k] == if target.Used(k) then target.Slot(k) else 0
        {
          if target.modes[regno].Some? {
            var mode := target.modes[regno].value;
            n := AlignSize(n, mode.align);
            regOffset := regOffset + [n];
            n := n + mode.size;
          } else {
            regOffset := regOffset + [0];
          }
          regno := regno + 1;
        }
        size := n;
      }
      r := size;
    }
  }

  /** A block with some bytes written. */
  function Written(block: seq<Byte>, offset: nat, bytes: seq<Byte>): (r: seq<Byte>)
    requires offset + |bytes| <= |block|
    ensures |r| == |block|
  {
    block[..offset] + bytes + block[offset + |bytes|..]
  }

  /** `emit_move_insn` to memory. */
  method Store(block: array<Byte>, offset: nat, bytes: seq<Byte>)
    requires offset + |bytes| <= block.Length
    modifies block
    ensures block[..] == Written(old(block[..]), offset, bytes)
  {
    var i := 0;
    while i < |bytes|
      invariant i <= |bytes|
      invariant forall j :: 0 <= j < i ==> block[offset + j] == bytes[j]
      invariant forall j :: 0 <= j < block.Length && !(offset <= j < offset + i) ==> block[j] == old(block[j])
    {
      block[offset + i] := bytes[i];
      i := i + 1;
    }
  }

  /** What registers hold; a register saved in a mode has that many bytes. */
  type Registers = nat -> seq<Byte>

  ghost predicate Sized(t: Target, regs: Registers) {
    forall k :: t.Used(k) ==> |regs(t.incoming(k))| == t.Size(k)
  }

  /** What slot k of the block holds. */
  function Read(t: Target, block: seq<Byte>, k: nat): seq<Byte>
    requires t.Used(k) && |block| == t.Total()
  {
    SlotsDisjoint(t.modes, t.Header(), k, |t.modes|);
    block[t.Slot(k)..t.Slot(k) + t.Size(k)]
  }

  /** The block after the first n registers have been saved. */
  function SavedUpTo(t: Target, block: seq<Byte>, regs: Registers, n: nat): (r: seq<Byte>)
    requires n <= |t.modes| && |block| == t.Total() && Sized(t, regs)
    ensures |r| == |block|
  {
    if n == 0 then block
    else
      var before := SavedUpTo(t, block, regs, n - 1);
      if !t.Used(n - 1) then before
      else
        SlotsDisjoint(t.modes, t.Header(), n - 1, |t.modes|);
        Written(before, t.Slot(n - 1), regs(t.incoming(n - 1)))
  }

  lemma {:induction false} SavedHolds(t: Target, block: seq<Byte>, regs: Registers, n: nat, k: nat)
    requires n <= |t.modes| && |block| == t.Total() && Sized(t, regs) && t.Used(k) && k < n
    ensures Read(t, SavedUpTo(t, block, regs, n), k) == regs(t.incoming(k))
  {
    var before, after := SavedUpTo(t, block, regs, n - 1), SavedUpTo(t, block, regs, n);
    SlotsDisjoint(t.modes, t.Header(), k, |t.modes|);
    if k < n - 1 {
      SavedHolds(t, block, regs, n - 1, k);
      if t.Used(n - 1) {
        SlotsDisjoint(t.modes, t.Header(), k, n - 1);
        SlotsDisjoint(t.modes, t.Header(), n - 1, |t.modes|);
        WrittenElsewhere(before, t.Slot(n - 1), regs(t.incoming(n - 1)), t.Slot(k), t.Slot(k) + t.Size(k));
      }
    } else {
      WrittenThere(before, t.Slot(k), regs(t.incoming(k)));
    }
  }

  lemma WrittenThere(block: seq<Byte>, offset: nat, bytes: seq<Byte>)
    requires offset + |bytes| <= |block|
    ensures Written(block, offset, bytes)[offset..offset + |bytes|] == bytes
  {
  }

  lemma WrittenElsewhere(block: seq<Byte>, offset: nat, bytes: seq<Byte>, lo: nat, hi: nat)
    requires offset + |bytes| <= |block| && lo <= hi <= |block| && (hi <= offset || offset + |bytes| <= lo)
    ensures Written(block, offset, bytes)[lo..hi] == block[lo..hi]
  {
  }

  /** The whole block that `expand_builtin_apply_args_1` fills: the registers, then the argument pointer and
      the address of the structure value. */
  function Saved(t: Target, block: seq<Byte>, regs: Registers, argPointer: seq<Byte>,
      address: seq<Byte>): (r: seq<Byte>)
    requires |block| == t.Total() && Sized(t, regs) && Fits(t, argPointer, address)
    ensures |r| == |block|
  {
    var filled := SavedUpTo(t, block, regs, |t.modes|);
    PositionGrows(t.modes, t.Header(), 0, |t.modes|);
    var pointed := Written(filled, 0, argPointer);
    if t.structValueIncoming then Written(pointed, t.pointerSize, address) else pointed
  }

  /** Pointers have their size, and an incoming structure value address goes into the block. */
  predicate Fits(t: Target, argPointer: seq<Byte>, address: seq<Byte>) {
    |argPointer| == t.pointerSize == |address| && (t.structValueIncoming ==> 2 * t.pointerSize <= t.Total())
  }

  /** The header holds the argument pointer and the address of the structure value. */
  ghost predicate HeaderReads(t: Target, saved: seq<Byte>, argPointer: seq<Byte>, address: seq<Byte>) {
    && t.pointerSize <= |saved| && saved[..t.pointerSize] == argPointer
    && (t.structValueIncoming ==> 2 * t.pointerSize <= |saved| && saved[t.pointerSize..2 * t.pointerSize] == address)
  }

  /** Every register reads back as it was saved, whatever the structure value address, exactly when no slot
      is overwritten by it; and the header always reads back. */
  lemma RoundTripExact(t: Target, block: seq<Byte>, regs: Registers, argPointer: seq<Byte>)
    requires |block| == t.Total() && Sized(t, regs) && Fits(t, argPointer, argPointer)
    ensures (forall address: seq<Byte>, k: nat :: |address| == t.pointerSize && t.Used(k) ==>
               Read(t, Saved(t, block, regs, argPointer, address), k) == regs(t.incoming(k)))
            <==> forall k: nat :: t.Used(k) ==> !t.Overwritten(k)
    ensures forall address: seq<Byte> :: |address| == t.pointerSize ==>
              HeaderReads(t, Saved(t, block, regs, argPointer, address), argPointer, address)
  {
    forall address: seq<Byte>, k: nat | |address| == t.pointerSize && t.Used(k) && !t.Overwritten(k)
      ensures Read(t, Saved(t, block, regs, argPointer, address), k) == regs(t.incoming(k))
    {
      KeptSlot(t, block, regs, argPointer, address, k);
    }
    if k: nat :| t.Used(k) && t.Overwritten(k) {
      LostSlot(t, block, regs, argPointer, k);
    }
    forall address: seq<Byte> | |address| == t.pointerSize
      ensures HeaderReads(t, Saved(t, block, regs, argPointer, address), argPointer, address)
    {
      HeaderKept(t, block, regs, argPointer, address);
    }
  }

  lemma HeaderKept(t: Target, block: seq<Byte>, regs: Registers, argPointer: seq<Byte>, address: seq<Byte>)
    requires |block| == t.Total() && Sized(t, regs) && Fits(t, argPointer, address)
    ensures HeaderReads(t, Saved(t, block, regs, argPointer, address), argPointer, address)
  {
  }

  lemma KeptSlot(t: Target, block: seq<Byte>, regs: Registers, argPointer: seq<Byte>, address: seq<Byte>, k: nat)
    requires |block| == t.Total() && Sized(t, regs) && Fits(t, argPointer, address) && t.Used(k) && !t.Overwritten(k)
    ensures Read(t, Saved(t, block, regs, argPointer, address), k) == regs(t.incoming(k))
  {
    var filled := SavedUpTo(t, block, regs, |t.modes|);
    var lo, hi := t.Slot(k), t.Slot(k) + t.Size(k);
    SavedHolds(t, block, regs, |t.modes|, k);
    SlotsDisjoint(t.modes, t.Header(), k, |t.modes|);
    WrittenElsewhere(filled, 0, argPointer, lo, hi);
    if t.structValueIncoming { WrittenElsewhere(Written(filled, 0, argPointer), t.pointerSize, address, lo, hi); }
  }

  lemma ByteAt(block: seq<Byte>, lo: nat, hi: nat, i: nat)
    requires lo <= i < hi <= |block|
    ensures block[lo..hi][i - lo] == block[i]
  {
  }

  /** A slot that begins within the place the address is stored to loses its first byte to some address. */
  lemma LostSlot(t: Target, block: seq<Byte>, regs: Registers, argPointer: seq<Byte>, k: nat)
    requires |block| == t.Total() && Sized(t, regs) && Fits(t, argPointer, argPointer) && t.Used(k) && t.Overwritten(k)
    ensures exists address: seq<Byte> :: |address| == t.pointerSize
              && Read(t, Saved(t, block, regs, argPointer, address), k) != regs(t.incoming(k))
  {
    SlotsDisjoint(t.modes, t.Header(), k, |t.modes|);
    var first := regs(t.incoming(k))[0];
    var other: Byte := if first == 0 then 1 else 0;
    var address: seq<Byte> := seq(t.pointerSize, _ => other);
    HeaderKept(t, block, regs, argPointer, address);
    var saved := Saved(t, block, regs, argPointer, address);
    ByteAt(saved, t.pointerSize, 2 * t.pointerSize, t.Slot(k));
    ByteAt(saved, t.Slot(k), t.Slot(k) + t.Size(k), t.Slot(k));
    assert Read(t, saved, k)[0] == other;
  }

  /** A target that passes the structure value address in but keeps no place for it: the address is read
      back as the first argument. */
  lemma LostArgument(block: seq<Byte>, regs: Registers, argPointer: seq<Byte>, address: seq<Byte>)
    requires |block| == 8 && |regs(0)| == |argPointer| == |address| == 4
    ensures var t := Target(4, false, true, [Some(Mode(4, 4))], k => k);
            && t.Total() == 8 && Sized(t, regs) && Fits(t, argPointer, address) && t.Overwritten(0)
            && Read(t, Saved(t, block, regs, argPointer, address), 0) == address
  {
    var t := Target(4, false, true, [Some(Mode(4, 4))], k => k);
    assert Position(t.modes, 4, 0) == 4 && Position(t.modes, 4, 1) == 8;
    HeaderKept(t, block, regs, argPointer, address);
  }

  /** The loop that stores the argument registers in the block. */
  method SaveRegisters(t: Target, block: array<Byte>, regs: Registers)
    requires block.Length == t.Total() && Sized(t, regs)
    modifies block
    ensures block[..] == SavedUpTo(t, old(block[..]), regs, |t.modes|)
  {
    var size := t.pointerSize;
    if t.structValue {
      size := size + t.pointerSize;
    }
    var regno := 0;
    while regno < |t.modes|
      invariant regno <= |t.modes| && size == Position(t.modes, t.Header(), regno)
      invariant block[..] == SavedUpTo(t, old(block[..]), regs, regno)
    {
      if t.modes[regno].Some? {
        var mode := t.modes[regno].value;
        size := AlignSize(size, mode.align);
        SlotsDisjoint(t.modes, t.Header(), regno, |t.modes|);
        assert t.Used(regno) && size == t.Slot(regno);
        Store(block, size, regs(t.incoming(regno)));
        size := size + mode.size;
      }
      regno := regno + 1;
    }
  }

  /** `expand_builtin_apply_args_1` */
  method SaveArgs(t: Target, block: array<Byte>, regs: Registers, argPointer: seq<Byte>, address: seq<Byte>)
    requires block.Length == t.Total() && Sized(t, regs) && Fits(t, argPointer, address)
    modifies block
    ensures block[..] == Saved(t, old(block[..]), regs, argPointer, address)
  {
    PositionGrows(t.modes, t.Header(), 0, |t.modes|);
    SaveRegisters(t, block, regs);
    Store(block, 0, argPointer);
    var size := t.pointerSize;
    if t.structValueIncoming {
      Store(block, size, address);
    }
  }

  /** The restore loop of `expand_builtin_apply`: what each register is given. */
  method RestoreRegisters(t: Target, block: array<Byte>) returns (regs: seq<Option<seq<Byte>>>)
    requires block.Length == t.Total()
    ensures |regs| == |t.modes|
    ensures forall k: nat :: k < |regs| ==> regs[k] == if t.Used(k) then Some(Read(t, block[..], k)) else None
  {
    var size := t.pointerSize;
    if t.structValue {
      size := size + t.pointerSize;
    }
    regs := [];
    var regno := 0;
    while regno < |t.modes|
      invariant regno <= |t.modes| && size == Position(t.modes, t.Header(), regno) && |regs| == regno
      invariant forall k: nat :: k < regno ==> regs[k] == if t.Used(k) then Some(Read(t, block[..], k)) else None
    {
      if t.modes[regno].Some? {
        var mode := t.modes[regno].value;
        size := AlignSize(size, mode.align);
        SlotsDisjoint(t.modes, t.Header(), regno, |t.modes|);
        assert t.Used(regno) && size == t.Slot(regno);
        regs := regs + [Some(block[size..size + mode.size])];
        size := size + mode.size;
      } else {
        regs := regs + [None];
      }
      regno := regno + 1;
    }
  }
}
