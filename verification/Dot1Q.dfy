/** The VLAN rewriter bpfWithDot1Q: a preamble that matches one 802.1Q tag, followed by the
    original program with its packet loads moved behind the four tag bytes. */
module Dot1Q {
  import opened Bpf

  // ---------------------------------------------------------------- the rewriter

  /** Go's conversion uint32(id). */
  function Uint32(id: int): Word {
    (id % TWO_32) as bv32
  }

  /** Matches frames without a tag. */
  const UNTAGGED_ONLY: Program := [
    LoadAbsolute(12, 2),
    JumpIf(Equal, 0x8100, 2, 0),
    JumpIf(Equal, 0x88a8, 1, 0),
    JumpIf(Equal, 0x9100, 0, 1),
    RetConstant(0)
  ]

  /** Matches frames whose outermost tag is an 0x8100 tag that carries id. */
  function Tagged(id: int): Program {
    [ LoadAbsolute(12, 2),
      JumpIf(Equal, 0x8100, 0, 3),
      LoadAbsolute(14, 2),
      ALUOpConstant(And, 0xfff),
      JumpIf(Equal, Uint32(id), 1, 0),
      RetConstant(0) ]
  }

  /** The offset is a 32-bit unsigned number, and adding 4 to it wraps around. */
  function ShiftOffset(off: Offset): Offset {
    if off >= 12 then (off + 4) % TWO_32 else off
  }

  function ShiftLoad(i: Instr): Instr {
    if i.LoadAbsolute? then LoadAbsolute(ShiftOffset(i.off), i.size) else i
  }

  function ShiftLoads(p: Program): (q: Program)
    ensures |q| == |p| && forall i :: 0 <= i < |p| ==> q[i] == ShiftLoad(p[i])
  {
    seq(|p|, i requires 0 <= i < |p| => ShiftLoad(p[i]))
  }

  function WithDot1Q(org: Program, id: int): Program {
    if id == 0 then UNTAGGED_ONLY + org else Tagged(id) + ShiftLoads(org)
  }

  /** The rewriter as the program runs it: append, then an in-place pass over the appended part.
      The caller's slice is not in the modifies clause: it stays as it was. */
  method BpfWithDot1Q(org: array<Instr>, id: int) returns (code: array<Instr>)
    ensures fresh(code)
    ensures code[..] == WithDot1Q(org[..], id)
  {
    var pre := if id == 0 then UNTAGGED_ONLY else Tagged(id);
    var both := pre + org[..];
    code := new Instr[|both|](k requires 0 <= k < |both| => both[k]);
    assert code[..] == both;
    if id == 0 {
      return;
    }
    var i := |pre|;
    while i < code.Length
      invariant |pre| <= i <= code.Length == |both|
      invariant forall k :: 0 <= k < |both| ==>
                              code[k] == if |pre| <= k < i then ShiftLoad(both[k]) else both[k]
    {
      var load := code[i];
      if load.LoadAbsolute? && load.off >= 12 {
        code[i] := LoadAbsolute((load.off + 4) % TWO_32, load.size);
      }
      i := i + 1;
    }
    assert code[..] == pre + ShiftLoads(org[..]);
  }

  // ---------------------------------------------------------------- tags on frames

  /** The frame with an 802.1Q tag inserted behind the two MAC addresses. */
  function Tag(f: Frame, tci: (bv8, bv8)): Frame
    requires |f| >= 12
  {
    f[..12] + [0x81, 0x00, tci.0, tci.1] + f[12..]
  }

  function Untag(g: Frame): Frame
    requires |g| >= 16
  {
    g[..12] + g[16..]
  }

  /** The VLAN id inside a tag's control information: its low twelve bits. */
  function Vid(tci: (bv8, bv8)): Word {
    (((tci.0 as Word) << 8) | (tci.1 as Word)) & 0xfff
  }

  predicate CarriesTag(g: Frame, id: int) {
    |g| >= 16 && Half(g, 12) == 0x8100 && Vid((g[14], g[15])) == Uint32(id)
  }

  predicate CarriesNoTag(g: Frame) {
    |g| >= 14 && Half(g, 12) !in {0x8100 as Word, 0x88a8, 0x9100}
  }

  // ---------------------------------------------------------------- which programs may be wrapped

  predicate Straddles(off: Offset, size: LoadSize) {
    off < 12 < off + size
  }

  /** The instruction reads the packet only through absolute loads on one side of byte 12, which can
      be moved behind `tags` tags without wrapping around, or in front of byte 12. */
  predicate Movable(i: Instr, tags: nat) {
    match i
    case LoadAbsolute(off, size) => !Straddles(off, size) && off + 4 * tags < TWO_32
    case LoadIndirect(_, _) => false
    case LoadMemShift(off) => off < 12
    case _ => true
  }

  predicate AllMovable(p: Program, tags: nat) {
    forall i :: 0 <= i < |p| ==> Movable(p[i], tags)
  }

  // ---------------------------------------------------------------- one load

  lemma ShiftedLoad(off: Offset, size: LoadSize, g: Frame)
    requires |g| >= 16 && !Straddles(off, size) && off + 4 < TWO_32
    ensures Load(g, ShiftOffset(off), size) == Load(Untag(g), off, size)
  {
    hide BigEndian;
    var f := Untag(g);
    var d := if off >= 12 then 4 else 0;
    if off + size <= |f| {
      assert forall k :: off <= k < off + size ==> f[k] == g[k + d];
      assert f[off..off + size] == g[off + d..off + d + size];
    }
  }

  lemma UntagTag(f: Frame, tci: (bv8, bv8))
    requires |f| >= 12
    ensures Untag(Tag(f, tci)) == f
    ensures Half(Tag(f, tci), 12) == 0x8100
    ensures Tag(f, tci)[14] == tci.0 && Tag(f, tci)[15] == tci.1
  {
  }

  // ---------------------------------------------------------------- meaning is preserved

  lemma ShiftedStep(i: Instr, r: Regs, g: Frame)
    requires |g| >= 16 && Movable(i, 1)
    ensures Step(ShiftLoad(i), r, g) == Step(i, r, Untag(g))
  {
    hide Alu, Holds, Load, Indexed, HeaderLength, Negated;
    if i.LoadAbsolute? {
      ShiftedLoad(i.off, i.size, g);
    }
  }

  // ---------------------------------------------------------------- which instructions, exactly

  predicate Reads(i: Instr) {
    i.LoadAbsolute? || i.LoadIndirect? || i.LoadMemShift?
  }

  /** A tagged frame, tag 1, that is just long enough for the moved load. */
  function EdgeFrame(i: Instr): (g: Frame)
    requires Reads(i)
    ensures CarriesTag(g, 1)
  {
    var n := match i {
      case LoadAbsolute(_, _) => 16
      case LoadIndirect(off, size) => off + 16 + size
      case LoadMemShift(off) => if off < 16 then 16 else off + 1
      case _ => 16
    };
    var g := Tag(seq(n - 4, _ => 0), (0, 1));
    UntagTag(seq(n - 4, _ => 0), (0, 1));
    VidOfOne();
    g
  }

  lemma VidOfOne()
    ensures Vid((0, 1)) == Uint32(1)
  {
  }

  /** On its edge frame an unmovable load has a value, and none on the frame without the tag. */
  lemma EdgeOfAbsolute(i: Instr)
    requires i.LoadAbsolute? && !Movable(i, 1)
    ensures Load(EdgeFrame(i), ShiftOffset(i.off), i.size).Value?
    ensures Load(Untag(EdgeFrame(i)), i.off, i.size).OutOfBounds?
  {
    hide BigEndian, Vid, Uint32;
    assert |EdgeFrame(i)| == 16;
    if i.off >= 12 {
      assert ShiftOffset(i.off) < 4;
    }
  }

  lemma EdgeOfIndirect(i: Instr, x: Word)
    requires i.LoadIndirect? && x as nat == 16
    ensures Load(EdgeFrame(i), Indexed(i.off, x), i.size).Value?
    ensures Load(Untag(EdgeFrame(i)), Indexed(i.off, x), i.size).OutOfBounds?
  {
    hide BigEndian, Vid, Uint32;
    assert |EdgeFrame(i)| == i.off + 16 + i.size;
  }

  lemma EdgeOfMemShift(i: Instr)
    requires i.LoadMemShift? && i.off >= 12
    ensures i.off < |EdgeFrame(i)| && i.off >= |Untag(EdgeFrame(i))|
  {
    hide Vid, Uint32;
  }

  const X16: Regs := Regs(0, 16, map[])

  lemma UnmovableStep(i: Instr, r: Regs)
    requires !Movable(i, 1) && r.x as nat == 16
    ensures Reads(i) && Step(ShiftLoad(i), r, EdgeFrame(i)).Next?
    ensures Step(ShiftLoad(i), r, EdgeFrame(i)).skip == 0
    ensures Step(i, r, Untag(EdgeFrame(i))) == Stop(0)
  {
    hide Alu, Holds, Load, Indexed, HeaderLength, Negated, EdgeFrame, Untag;
    match i
    case LoadAbsolute(_, _) => EdgeOfAbsolute(i);
    case LoadIndirect(_, _) => EdgeOfIndirect(i, r.x);
    case LoadMemShift(_) => EdgeOfMemShift(i);
    case _ =>
  }

  /** The rewritten instruction does on every frame with a tag what the original does on the frame
      without it, from every register state, exactly when the instruction is movable. */
  lemma MovableExactly(i: Instr)
    ensures (forall r, g: Frame | |g| >= 16 :: Step(ShiftLoad(i), r, g) == Step(i, r, Untag(g)))
            <==> Movable(i, 1)
  {
    hide Step, Movable, EdgeFrame;
    if Movable(i, 1) {
      forall r, g: Frame | |g| >= 16 ensures Step(ShiftLoad(i), r, g) == Step(i, r, Untag(g)) {
        ShiftedStep(i, r, g);
      }
    } else {
      UnmovableStep(i, X16);
      assert Step(ShiftLoad(i), X16, EdgeFrame(i)) != Step(i, X16, Untag(EdgeFrame(i)));
    }
  }

  /** A filter around one load: X is 16, the load is made, and the frame accepted. */
  function AroundLoad(i: Instr): Program {
    [LoadConstant(RegX, 16), i, RetConstant(1)]
  }

  // ---------------------------------------------------------------- whole programs

  lemma {:induction false} ShiftedRun(p: Program, pc: nat, r: Regs, g: Frame)
    requires |g| >= 16 && AllMovable(p, 1)
    ensures Run(ShiftLoads(p), pc, r, g) == Run(p, pc, r, Untag(g))
    decreases |p| - pc
  {
    hide Step, Movable;
    if pc < |p| {
      assert Movable(p[pc], 1);
      ShiftedStep(p[pc], r, g);
      match Step(p[pc], r, Untag(g))
      case Stop(_) =>
      case Next(skip, r') => ShiftedRun(p, pc + 1 + skip, r', g);
    }
  }

  lemma MaskedHalf(g: Frame)
    requires |g| >= 16
    ensures Half(g, 14) & 0xfff == Vid((g[14], g[15]))
  {
  }

  /** The preamble hands over to the code behind it on a frame with the tag, with the VLAN id
      left in A, and ends the run with 0 on every other frame. */
  lemma TaggedPreamble(id: int, q: Program, g: Frame)
    ensures Exec(Tagged(id) + q, g) ==
              if CarriesTag(g, id) then Run(Tagged(id) + q, 6, INITIAL.(a := Uint32(id)), g)
              else Ret(0)
  {
    hide Step, BigEndian, Vid, Uint32;
    var p := Tagged(id) + q;
    assert p[0] == LoadAbsolute(12, 2) && p[1] == JumpIf(Equal, 0x8100, 0, 3);
    assert p[2] == LoadAbsolute(14, 2) && p[3] == ALUOpConstant(And, 0xfff);
    assert p[4] == JumpIf(Equal, Uint32(id), 1, 0) && p[5] == RetConstant(0);
    RunLoad(p, 0, INITIAL, g);
    if |g| >= 14 {
      var r1 := INITIAL.(a := Half(g, 12));
      RunJumpIfEqual(p, 1, r1, g);
      RunRet(p, 5, r1, g);
      RunLoad(p, 2, r1, g);
      if |g| >= 16 {
        var r2 := INITIAL.(a := Half(g, 14));
        var r3 := INITIAL.(a := Half(g, 14) & 0xfff);
        RunAnd(p, 3, r2, g);
        RunJumpIfEqual(p, 4, r3, g);
        RunRet(p, 5, r3, g);
        MaskedHalf(g);
      }
    }
  }

  lemma VidIsShort(g: Frame)
    ensures |g| >= 16 ==> Vid((g[14], g[15])) <= 0xfff
  {
  }

  /** The control information that carries a VLAN id of twelve bits. */
  function TciOf(vid: Word): (tci: (bv8, bv8))
    requires vid <= 0xfff
    ensures Vid(tci) == vid
  {
    ((vid >> 8) as bv8, (vid & 0xff) as bv8)
  }

  lemma TagMatches(f: Frame, id: int)
    requires |f| >= 12 && Uint32(id) <= 0xfff
    ensures CarriesTag(Tag(f, TciOf(Uint32(id))), id)
    ensures Untag(Tag(f, TciOf(Uint32(id)))) == f
  {
    hide TciOf, Vid, Uint32;
    UntagTag(f, TciOf(Uint32(id)));
  }

  /** Some frame carries the id exactly when it fits into twelve bits; for any other id the filter
      accepts nothing, whatever the program. */
  lemma VlanExistsExactly(id: int)
    ensures (exists g :: CarriesTag(g, id)) <==> Uint32(id) <= 0xfff
    ensures id != 0 ==>
              ((forall p, g :: Exec(WithDot1Q(p, id), g) == Ret(0)) <==> Uint32(id) > 0xfff)
  {
    hide Uint32, Vid, TciOf;
    if Uint32(id) <= 0xfff {
      var g := Tag(seq(12, _ => 0), TciOf(Uint32(id)));
      TagMatches(seq(12, _ => 0), id);
      assert CarriesTag(g, id);
      if id != 0 {
        AcceptAllWrapped(id, g);
        assert Exec(WithDot1Q([RetConstant(1)], id), g) != Ret(0);
      }
    } else {
      forall g ensures !CarriesTag(g, id) {
        VidIsShort(g);
      }
      if id != 0 {
        forall p, g ensures Exec(WithDot1Q(p, id), g) == Ret(0) {
          NoSuchVlan(p, id, g);
        }
      }
    }
  }

  lemma AcceptAllWrapped(id: int, g: Frame)
    requires id != 0 && CarriesTag(g, id)
    ensures Exec(WithDot1Q([RetConstant(1)], id), g) == Ret(1)
  {
    hide Uint32, Vid, CarriesTag;
    var p := [RetConstant(1)];
    var r := INITIAL.(a := Uint32(id));
    TaggedPreamble(id, ShiftLoads(p), g);
    RunSuffix(Tagged(id), ShiftLoads(p), 0, r, g);
    RunRet(ShiftLoads(p), 0, r, g);
  }

  lemma NoSuchVlan(p: Program, id: int, g: Frame)
    requires id != 0 && Uint32(id) > 0xfff
    ensures Exec(WithDot1Q(p, id), g) == Ret(0)
  {
    TaggedPreamble(id, ShiftLoads(p), g);
    VidIsShort(g);
  }

  // ---------------------------------------------------------------- what a wrapped program means

  /** The frames a filter for the id hands to the program. */
  predicate Matches(g: Frame, id: int) {
    if id == 0 then CarriesNoTag(g) else CarriesTag(g, id)
  }

  /** The frame that the program then judges. */
  function Inner(g: Frame, id: int): Frame
    requires Matches(g, id)
  {
    if id == 0 then g else Untag(g)
  }

  /** What the preamble leaves in A. */
  function LeftInA(g: Frame, id: int): Word
    requires Matches(g, id)
  {
    if id == 0 then Half(g, 12) else Uint32(id)
  }

  lemma TaggedRun(p: Program, id: int, g: Frame)
    requires id != 0 && AllMovable(p, 1)
    ensures Exec(WithDot1Q(p, id), g) ==
              if CarriesTag(g, id) then Run(p, 0, INITIAL.(a := Uint32(id)), Untag(g)) else Ret(0)
  {
    TaggedPreamble(id, ShiftLoads(p), g);
    if CarriesTag(g, id) {
      RunSuffix(Tagged(id), ShiftLoads(p), 0, INITIAL.(a := Uint32(id)), g);
      ShiftedRun(p, 0, INITIAL.(a := Uint32(id)), g);
    }
  }

  /** Id 0 keeps exactly the frames without an 0x8100, 0x88a8 or 0x9100 EtherType.  No load moves,
      so packet-dependent loads are allowed here. */
  lemma UntaggedRun(p: Program, g: Frame)
    ensures Exec(WithDot1Q(p, 0), g) ==
              if CarriesNoTag(g) then Run(p, 0, INITIAL.(a := Half(g, 12)), g) else Ret(0)
  {
    hide Step, BigEndian;
    var q := UNTAGGED_ONLY + p;
    assert q[0] == LoadAbsolute(12, 2) && q[1] == JumpIf(Equal, 0x8100, 2, 0);
    assert q[2] == JumpIf(Equal, 0x88a8, 1, 0) && q[3] == JumpIf(Equal, 0x9100, 0, 1);
    assert q[4] == RetConstant(0);
    RunLoad(q, 0, INITIAL, g);
    if |g| >= 14 {
      var r := INITIAL.(a := Half(g, 12));
      RunJumpIfEqual(q, 1, r, g);
      RunJumpIfEqual(q, 2, r, g);
      RunJumpIfEqual(q, 3, r, g);
      RunRet(q, 4, r, g);
      RunSuffix(UNTAGGED_ONLY, p, 0, r, g);
    }
  }

  /** What wrapping a program does on every frame, whatever the program makes of A. */
  lemma WrappedRun(p: Program, id: int, g: Frame)
    requires id != 0 ==> AllMovable(p, 1)
    ensures Exec(WithDot1Q(p, id), g) ==
              if Matches(g, id) then Run(p, 0, INITIAL.(a := LeftInA(g, id)), Inner(g, id)) else Ret(0)
  {
    if id == 0 {
      UntaggedRun(p, g);
    } else {
      TaggedRun(p, id, g);
    }
  }

  /** The program's result on the frames it can be handed does not depend on what is left in A. */
  ghost predicate Indifferent(p: Program, id: int) {
    if id == 0 then forall f | CarriesNoTag(f) :: Run(p, 0, INITIAL.(a := Half(f, 12)), f) == Exec(p, f)
    else forall f: Frame | |f| >= 12 :: Run(p, 0, INITIAL.(a := Uint32(id)), f) == Exec(p, f)
  }

  /** Writing A before reading it is enough. */
  lemma WritesAFirstIsIndifferent(p: Program, id: int)
    requires WritesAFirst(p, 0)
    ensures Indifferent(p, id)
  {
    hide Half;
    forall a, f ensures Run(p, 0, INITIAL.(a := a), f) == Exec(p, f) {
      InitialAIrrelevant(p, 0, INITIAL, a, f);
    }
  }

  /** Exact meaning of a wrapped program on every frame: the original program's result on the frame
      without its tag when the outermost tag carries the id (for id 0, on an untagged frame), and 0
      otherwise. */
  lemma WithDot1QMeaning(p: Program, id: int, g: Frame)
    requires (id != 0 ==> AllMovable(p, 1)) && Indifferent(p, id)
    ensures Exec(WithDot1Q(p, id), g) == if Matches(g, id) then Exec(p, Inner(g, id)) else Ret(0)
  {
    hide Half, Uint32, Vid;
    WrappedRun(p, id, g);
  }

  /** A program keeps its meaning on every frame of the id exactly when it is indifferent to what the
      preamble leaves in A, or the id matches no frame at all. */
  lemma KeepsMeaningExactly(p: Program, id: int)
    requires id != 0 ==> AllMovable(p, 1)
    ensures (forall g | Matches(g, id) :: Exec(WithDot1Q(p, id), g) == Exec(p, Inner(g, id)))
            <==> Uint32(id) > 0xfff || Indifferent(p, id)
  {
    hide Uint32, Vid, TciOf, Half;
    if Uint32(id) > 0xfff {
      ZeroIsShort();
      VlanExistsExactly(id);
    } else if Indifferent(p, id) {
      forall g | Matches(g, id) ensures Exec(WithDot1Q(p, id), g) == Exec(p, Inner(g, id)) {
        WithDot1QMeaning(p, id, g);
      }
    } else {
      var g := SeesA(p, id);
      assert Matches(g, id) && Exec(WithDot1Q(p, id), g) != Exec(p, Inner(g, id));
    }
  }

  lemma ZeroIsShort()
    ensures Uint32(0) <= 0xfff
  {
  }

  lemma SeesA(p: Program, id: int) returns (g: Frame)
    requires (id != 0 ==> AllMovable(p, 1)) && Uint32(id) <= 0xfff && !Indifferent(p, id)
    ensures Matches(g, id) && Exec(WithDot1Q(p, id), g) != Exec(p, Inner(g, id))
  {
    hide Uint32, Vid, TciOf, Half;
    if id == 0 {
      g :| CarriesNoTag(g) && Run(p, 0, INITIAL.(a := Half(g, 12)), g) != Exec(p, g);
    } else {
      var f: Frame :| |f| >= 12 && Run(p, 0, INITIAL.(a := Uint32(id)), f) != Exec(p, f);
      g := Tag(f, TciOf(Uint32(id)));
      TagMatches(f, id);
    }
    WrappedRun(p, id, g);
  }

  // ---------------------------------------------------------------- programs around one load

  lemma AroundLoadRuns(i: Instr, g: Frame)
    requires Reads(i)
    ensures Exec(AroundLoad(i), g) == Ret(if Step(i, X16, g).Next? then 1 else 0)
  {
    hide Alu, Holds, Load, Indexed, HeaderLength, Negated;
    var p := AroundLoad(i);
    assert Exec(p, g) == Run(p, 1, X16, g);
    if Step(i, X16, g).Next? {
      RunRet(p, 2, Step(i, X16, g).regs, g);
    }
  }

  lemma AroundLoadIsLegal(i: Instr)
    requires Reads(i)
    ensures Legal(AroundLoad(i)) && WritesAFirst(AroundLoad(i), 0)
  {
    var p := AroundLoad(i);
    assert InRange(p, 0) && InRange(p, 1) && InRange(p, 2);
    assert WritesAFirst(p, 2);
    assert WritesAFirst(p, 1);
  }

  lemma WrappedAroundLoadRuns(i: Instr, g: Frame)
    requires Reads(i) && CarriesTag(g, 1)
    ensures Exec(WithDot1Q(AroundLoad(i), 1), g) == Ret(if Step(ShiftLoad(i), X16, g).Next? then 1 else 0)
  {
    hide Step, Uint32;
    var q := ShiftLoads(AroundLoad(i));
    assert q == AroundLoad(ShiftLoad(i));
    AroundLoadIsLegal(ShiftLoad(i));
    TaggedPreamble(1, q, g);
    RunSuffix(Tagged(1), q, 0, INITIAL.(a := Uint32(1)), g);
    InitialAIrrelevant(q, 0, INITIAL, Uint32(1), g);
    AroundLoadRuns(ShiftLoad(i), g);
  }

  /** For every load there is a legal program around it that keeps its meaning exactly when the load
      is movable: no load, straddling, wrapping, indexed or of a header length, is excluded in vain. */
  lemma ProgramExactly(i: Instr)
    requires Reads(i)
    ensures Legal(AroundLoad(i)) && WritesAFirst(AroundLoad(i), 0)
    ensures (forall g | CarriesTag(g, 1) ::
               Exec(WithDot1Q(AroundLoad(i), 1), g) == Exec(AroundLoad(i), Untag(g)))
            <==> Movable(i, 1)
  {
    hide Step, EdgeFrame, Exec, Movable;
    var p := AroundLoad(i);
    AroundLoadIsLegal(i);
    if Movable(i, 1) {
      AroundMovable(i);
      WritesAFirstIsIndifferent(p, 1);
      forall g | CarriesTag(g, 1) ensures Exec(WithDot1Q(p, 1), g) == Exec(p, Untag(g)) {
        WithDot1QMeaning(p, 1, g);
      }
    } else {
      var g := EdgeFrame(i);
      UnmovableBreaks(i);
      assert CarriesTag(g, 1) && Exec(WithDot1Q(p, 1), g) != Exec(p, Untag(g));
    }
  }

  lemma AroundMovable(i: Instr)
    requires Movable(i, 1)
    ensures AllMovable(AroundLoad(i), 1)
  {
  }

  lemma UnmovableBreaks(i: Instr)
    requires Reads(i) && !Movable(i, 1)
    ensures Exec(WithDot1Q(AroundLoad(i), 1), EdgeFrame(i)) == Ret(1)
    ensures Exec(AroundLoad(i), Untag(EdgeFrame(i))) == Ret(0)
  {
    hide Exec, Load, Indexed, HeaderLength, Alu, Holds;
    var g := EdgeFrame(i);
    UnmovableStep(i, X16);
    WrappedAroundLoadRuns(i, g);
    AroundLoadRuns(i, Untag(g));
  }

  // ---------------------------------------------------------------- stacks of tags

  /** A wrapped program is again a program that can be wrapped, with room for one tag less. */
  lemma WrappedIsWrappable(p: Program, id: int, tags: nat)
    requires Legal(p) && AllMovable(p, tags + 1) && 14 + 4 * tags < TWO_32
    ensures Legal(WithDot1Q(p, id))
    ensures AllMovable(WithDot1Q(p, id), tags)
    ensures WritesAFirst(WithDot1Q(p, id), 0)
  {
    var q := WithDot1Q(p, id);
    var n := |q| - |p|;
    forall pc | 0 <= pc < |q| ensures InRange(q, pc) && Movable(q[pc], tags) {
      if pc >= n {
        assert InRange(p, pc - n) && Movable(p[pc - n], tags + 1);
        assert q[pc] == p[pc - n] || q[pc] == ShiftLoad(p[pc - n]);
      }
    }
  }

  /** The innermost tag's id comes first. */
  function WithDot1QAll(p: Program, ids: seq<int>): Program
    decreases |ids|
  {
    if ids == [] then p else WithDot1QAll(WithDot1Q(p, ids[0]), ids[1..])
  }

  function TagAll(f: Frame, tcis: seq<(bv8, bv8)>): (g: Frame)
    requires |f| >= 12
    ensures |g| >= 12
    decreases |tcis|
  {
    if tcis == [] then f else TagAll(Tag(f, tcis[0]), tcis[1..])
  }

  datatype Peeled = NoMatch | Bare(f: Frame)

  /** What is left after taking the tags off from the outside, each of which must carry its id; id 0
      stands for no further tag. */
  function Peel(g: Frame, ids: seq<int>): Peeled
    decreases |ids|
  {
    if ids == [] then Bare(g) else
    match Peel(g, ids[1..])
    case NoMatch => NoMatch
    case Bare(f) => if Matches(f, ids[0]) then Bare(Inner(f, ids[0])) else NoMatch
  }

  /** Exact meaning of a program wrapped once per id, on every frame. */
  lemma {:induction false} StackMeaning(p: Program, ids: seq<int>, g: Frame)
    requires Legal(p) && AllMovable(p, |ids|) && 14 + 4 * |ids| < TWO_32
    requires ids != [] ==> Indifferent(p, ids[0])
    ensures Exec(WithDot1QAll(p, ids), g) ==
              match Peel(g, ids) case NoMatch => Ret(0) case Bare(f) => Exec(p, f)
    decreases |ids|
  {
    hide Indifferent, Matches, Movable;
    if ids != [] {
      var q := WithDot1Q(p, ids[0]);
      WrappedIsWrappable(p, ids[0], |ids| - 1);
      if |ids| > 1 {
        WritesAFirstIsIndifferent(q, ids[1]);
      }
      StackMeaning(q, ids[1..], g);
      match Peel(g, ids[1..])
      case NoMatch =>
      case Bare(f) =>
        FewerTags(p, |ids|);
        WithDot1QMeaning(p, ids[0], f);
    }
  }

  lemma FewerTags(p: Program, tags: nat)
    requires AllMovable(p, tags) && tags >= 1
    ensures AllMovable(p, 1)
  {
    forall i | 0 <= i < |p| ensures Movable(p[i], 1) {
      assert Movable(p[i], tags);
    }
  }

  predicate CarryIds(tcis: seq<(bv8, bv8)>, ids: seq<int>) {
    |tcis| == |ids| && forall i :: 0 <= i < |ids| ==> Vid(tcis[i]) == Uint32(ids[i])
  }

  lemma {:induction false} PeelTagAll(f: Frame, tcis: seq<(bv8, bv8)>, ids: seq<int>)
    requires |f| >= 12 && CarryIds(tcis, ids) && 0 !in ids
    ensures Peel(TagAll(f, tcis), ids) == Bare(f)
    decreases |ids|
  {
    if ids != [] {
      UntagTag(f, tcis[0]);
      PeelTagAll(Tag(f, tcis[0]), tcis[1..], ids[1..]);
    }
  }

  /** Wrapping once per tag is transparent: on a frame with the stack of tags, the wrapped filter
      gives the original filter's verdict on the bare frame. */
  lemma StackedTagsTransparent(p: Program, ids: seq<int>, f: Frame, tcis: seq<(bv8, bv8)>)
    requires Legal(p) && AllMovable(p, |ids|) && 14 + 4 * |ids| < TWO_32
    requires ids != [] ==> Indifferent(p, ids[0])
    requires 0 !in ids && |f| >= 12 && CarryIds(tcis, ids)
    ensures Exec(WithDot1QAll(p, ids), TagAll(f, tcis)) == Exec(p, f)
  {
    StackMeaning(p, ids, TagAll(f, tcis));
    PeelTagAll(f, tcis, ids);
  }

  // ---------------------------------------------------------------- each condition is needed

  /** Returning A is the simplest program that is not indifferent: it shows the VLAN id, or the
      EtherType. */
  lemma DirtyABreaks(id: int)
    ensures var p := [RetA];
            && Legal(p) && AllMovable(p, 1)
            && (Indifferent(p, id) <==> id != 0 && Uint32(id) == 0)
  {
    hide Uint32, BigEndian;
    var p := [RetA];
    assert InRange(p, 0);
    forall a, f ensures Run(p, 0, INITIAL.(a := a), f) == Ret(a) {
      RunRet(p, 0, INITIAL.(a := a), f);
    }
    assert INITIAL.(a := 0) == INITIAL;
    var f: Frame := seq(12, _ => 0) + [0, 1];
    SmallEtherType(f);
    if id == 0 {
      assert CarriesNoTag(f) && Run(p, 0, INITIAL.(a := Half(f, 12)), f) != Exec(p, f);
    } else {
      assert Exec(p, f) == Ret(0);
      assert Uint32(id) != 0 ==> Run(p, 0, INITIAL.(a := Uint32(id)), f) != Exec(p, f);
    }
  }

  lemma SmallEtherType(f: Frame)
    requires f == seq(12, _ => 0) + [0, 1]
    ensures Half(f, 12) == 1
  {
  }

  /** Reading A does not have to break a program: masking it out does not. */
  lemma ReadingAIsHarmless(id: int)
    ensures var p := [ALUOpConstant(And, 0), RetA];
            Legal(p) && AllMovable(p, 1) && !WritesAFirst(p, 0) && Indifferent(p, id)
  {
    var p := [ALUOpConstant(And, 0), RetA];
    assert InRange(p, 0) && InRange(p, 1);
    forall r, f ensures Run(p, 0, r, f) == Ret(0) {
      RunAnd(p, 0, r, f);
      MaskedOut(r.a);
      RunRet(p, 1, r.(a := 0), f);
    }
  }

  lemma MaskedOut(a: Word)
    ensures a & 0 == 0
  {
  }

  /** One call matches one tag: behind two tags the program sees the inner tag, not the frame. */
  lemma OneCallOneTag(p: Program, id: int, f: Frame, inner: (bv8, bv8), outer: (bv8, bv8))
    requires id != 0 && AllMovable(p, 1) && Indifferent(p, id)
    requires |f| >= 12 && Vid(outer) == Uint32(id)
    ensures Exec(WithDot1Q(p, id), TagAll(f, [inner, outer])) == Exec(p, Tag(f, inner))
  {
    assert TagAll(f, [inner, outer]) == TagAll(Tag(f, inner), [outer]) == Tag(Tag(f, inner), outer);
    UntagTag(Tag(f, inner), outer);
    WithDot1QMeaning(p, id, Tag(Tag(f, inner), outer));
  }

  // ---------------------------------------------------------------- the shipped filters

  const ACCEPT: Word := 262144

  function BpfMulticast(not: bool): Program {
    [ LoadAbsolute(0, 2),
      JumpIf(Equal, 0x3333, 0, 3),
      LoadAbsolute(12, 2),
      JumpIf(Equal, 0x86dd, 0, 1),
      RetConstant(if not then 0 else ACCEPT),
      RetConstant(if not then ACCEPT else 0) ]
  }

  function BpfICMPv6(id: int): Program {
    [ LoadAbsolute(12, 2),
      JumpIf(Equal, 0x86dd, 0, 5),
      LoadAbsolute(20, 1),
      JumpIf(Equal, 0x3a, 0, 3),
      LoadAbsolute(54, 1),
      JumpIf(Equal, Uint32(id), 0, 1),
      RetConstant(ACCEPT),
      RetConstant(0) ]
  }

  const BPF_RA: Program := BpfICMPv6(134)

  const BPF_ND: Program := [
    LoadAbsolute(0, 2),
    JumpIf(Equal, 0x3333, 0, 7),
    LoadAbsolute(12, 2),
    JumpIf(Equal, 0x86dd, 0, 5),
    LoadAbsolute(20, 1),
    JumpIf(Equal, 0x3a, 0, 3),
    LoadAbsolute(54, 1),
    JumpIf(Equal, 135, 0, 1),
    RetConstant(ACCEPT),
    RetConstant(0)
  ]

  /** The four filters of the program can be wrapped for any stack of up to a million tags. */
  lemma FiltersAreWrappable(p: Program, not: bool, id: int)
    requires p == BpfMulticast(not) || p == BpfICMPv6(id) || p == BPF_RA || p == BPF_ND
    ensures Legal(p) && AllMovable(p, 1_000_000) && WritesAFirst(p, 0)
  {
    forall pc | 0 <= pc < |p| ensures InRange(p, pc) && Movable(p[pc], 1_000_000) {
    }
  }

  /** An ICMPv6 message of the type, directly behind an untagged IPv6 header. */
  predicate CarriesICMPv6(g: Frame, kind: Word) {
    |g| >= 55 && Half(g, 12) == 0x86dd && g[20] == 0x3a && g[54] as Word == kind
  }

  predicate IsIPv6Multicast(g: Frame) {
    |g| >= 2 && Half(g, 0) == 0x3333
  }

  lemma LoadByte(g: Frame, off: nat)
    ensures Load(g, off, 1) == if off < |g| then Value(g[off] as Word) else OutOfBounds
  {
  }

  /** The tail that three of the filters share: from instruction pc on, accept the message type. */
  lemma MessageRun(p: Program, pc: nat, kind: Word, r: Regs, g: Frame)
    requires pc + 8 == |p|
    requires p[pc..] == [LoadAbsolute(12, 2), JumpIf(Equal, 0x86dd, 0, 5), LoadAbsolute(20, 1),
                         JumpIf(Equal, 0x3a, 0, 3), LoadAbsolute(54, 1), JumpIf(Equal, kind, 0, 1),
                         RetConstant(ACCEPT), RetConstant(0)]
    ensures Run(p, pc, r, g) == Ret(if CarriesICMPv6(g, kind) then ACCEPT else 0)
  {
    hide Step, BigEndian;
    assert forall i :: 0 <= i < 8 ==> p[pc..][i] == p[pc + i];
    RunLoad(p, pc, r, g);
    if |g| >= 14 {
      var r1 := r.(a := Half(g, 12));
      RunJumpIfEqual(p, pc + 1, r1, g);
      RunRet(p, pc + 7, r1, g);
      RunLoad(p, pc + 2, r1, g);
      LoadByte(g, 20);
      if |g| > 20 {
        var r2 := r.(a := g[20] as Word);
        ByteIs(g[20], 0x3a);
        RunJumpIfEqual(p, pc + 3, r2, g);
        RunRet(p, pc + 7, r2, g);
        RunLoad(p, pc + 4, r2, g);
        LoadByte(g, 54);
        if |g| > 54 {
          var r3 := r.(a := g[54] as Word);
          RunJumpIfEqual(p, pc + 5, r3, g);
          RunRet(p, pc + 6, r3, g);
          RunRet(p, pc + 7, r3, g);
        }
      }
    }
  }

  lemma ByteIs(b: bv8, c: bv8)
    ensures b as Word == c as Word <==> b == c
  {
  }

  /** What the filters accept, exactly: router advertisements, and messages of any one ICMPv6 type. */
  lemma ICMPv6AcceptsExactly(id: int, g: Frame)
    ensures Exec(BpfICMPv6(id), g) == Ret(if CarriesICMPv6(g, Uint32(id)) then 262144 else 0)
    ensures Exec(BPF_RA, g) == Ret(if CarriesICMPv6(g, 134) then 262144 else 0)
  {
    hide Step, BigEndian, CarriesICMPv6;
    MessageRun(BpfICMPv6(id), 0, Uint32(id), INITIAL, g);
    MessageRun(BPF_RA, 0, 134, INITIAL, g);
  }

  /** Neighbour solicitations sent to an IPv6 multicast address. */
  lemma NDAcceptsExactly(g: Frame)
    ensures Exec(BPF_ND, g) == Ret(if IsIPv6Multicast(g) && CarriesICMPv6(g, 135) then 262144 else 0)
  {
    hide Step, BigEndian, CarriesICMPv6;
    RunLoad(BPF_ND, 0, INITIAL, g);
    if |g| >= 2 {
      var r := INITIAL.(a := Half(g, 0));
      RunJumpIfEqual(BPF_ND, 1, r, g);
      RunRet(BPF_ND, 9, r, g);
      MessageRun(BPF_ND, 2, 135, r, g);
    }
  }

  /** The multicast filter and its negation; a frame too short for its loads is refused by both. */
  lemma MulticastAcceptsExactly(not: bool, g: Frame)
    ensures Exec(BpfMulticast(not), g) ==
            Ret(if |g| < 2 || (IsIPv6Multicast(g) && |g| < 14) then 0
                else if (IsIPv6Multicast(g) && Half(g, 12) == 0x86dd) != not then 262144 else 0)
  {
    hide Step, BigEndian;
    var p := BpfMulticast(not);
    RunLoad(p, 0, INITIAL, g);
    if |g| >= 2 {
      var r := INITIAL.(a := Half(g, 0));
      RunJumpIfEqual(p, 1, r, g);
      RunRet(p, 5, r, g);
      RunLoad(p, 2, r, g);
      if |g| >= 14 {
        var r2 := INITIAL.(a := Half(g, 12));
        RunJumpIfEqual(p, 3, r2, g);
        RunRet(p, 4, r2, g);
        RunRet(p, 5, r2, g);
      }
    }
  }
}
