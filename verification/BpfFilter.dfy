/** The compiler for the GPU device filter and the policy its programs enforce. */
module BpfFilter {
  import opened Common
  import opened BpfMachine

  /** One test of the jump chain: compare a register with an immediate. */
  datatype Test = Test(code: u8, reg: nat, imm: i32)

  ghost predicate IsTest(t: Test) {
    (t.code == JEQ_K || t.code == JNE_K) && (t.reg == 2 || t.reg == 3)
  }

  function MakeInsn(code: u8, dst: nat, src: nat, off: i16, imm: i32): Insn
    requires dst < 16 && src < 16
  {
    Insn(code, dst + 16 * src, off, imm)
  }

  /** The device's own view of a test: R2 is the major number, R3 the minor. */
  predicate Matches(t: Test, d: DeviceCtx) {
    var v := if t.reg == 2 then d.major else d.minor;
    if t.code == JEQ_K then v == SignExtend(t.imm) else v != SignExtend(t.imm)
  }

  /** The tests in the order in which they are emitted. */
  function Tests(uvm: Option<u32>, gpus: seq<u32>): (ts: seq<Test>)
    ensures |ts| == 6 + (if uvm.Some? then 1 else 0) + |gpus|
  {
    SystemTests() + NvidiaTests(uvm, gpus)
  }

  function SystemTests(): seq<Test> {
    [Test(JEQ_K, 2, 1), Test(JEQ_K, 2, 5), Test(JEQ_K, 2, 136)]
  }

  function NvidiaTests(uvm: Option<u32>, gpus: seq<u32>): seq<Test> {
    (if uvm.Some? then [Test(JEQ_K, 2, WrapI32(uvm.value))] else [])
    + [Test(JNE_K, 2, 195), Test(JEQ_K, 3, 255), Test(JEQ_K, 3, 254)]
    + seq(|gpus|, i requires 0 <= i < |gpus| => Test(JEQ_K, 3, WrapI32(gpus[i])))
  }

  /** The jump in slot `idx` of a program whose allow block starts at `allow`. */
  function PatchedJump(t: Test, idx: nat, allow: nat): Insn
    requires t.reg < 16
  {
    MakeInsn(t.code, t.reg, 0, WrapI16(allow - idx - 1), t.imm)
  }

  ghost predicate AllTests(ts: seq<Test>) {
    forall i :: 0 <= i < |ts| ==> IsTest(ts[i])
  }

  /** One-pass description of a finished filter: two loads, the chain, the deny
      block and the allow block. */
  ghost function Assemble(ts: seq<Test>): (p: seq<Insn>)
    requires AllTests(ts)
    ensures |p| == |ts| + 6
  {
    [MakeInsn(LDX_MEM_W, 2, 1, 4, 0), MakeInsn(LDX_MEM_W, 3, 1, 8, 0)]
    + seq(|ts|, i requires 0 <= i < |ts| => PatchedJump(ts[i], i + 2, |ts| + 4))
    + [MakeInsn(MOV64_K, 0, 0, 0, 0), MakeInsn(EXIT, 0, 0, 0, 0),
       MakeInsn(MOV64_K, 0, 0, 0, 1), MakeInsn(EXIT, 0, 0, 0, 0)]
  }

  lemma TestsAreTests(uvm: Option<u32>, gpus: seq<u32>)
    ensures AllTests(Tests(uvm, gpus)) && AllTests(NvidiaTests(uvm, gpus))
  {
  }

  /** What the emission pass has produced after the tests `ts`. */
  ghost predicate Emitted(insns: seq<Insn>, jumps: seq<nat>, ts: seq<Test>) {
    && AllTests(ts) && |insns| == |ts| + 2 && |jumps| == |ts|
    && insns[0] == MakeInsn(LDX_MEM_W, 2, 1, 4, 0) && insns[1] == MakeInsn(LDX_MEM_W, 3, 1, 8, 0)
    && (forall i :: 0 <= i < |ts| ==>
          jumps[i] == i + 2 && insns[i + 2] == MakeInsn(ts[i].code, ts[i].reg, 0, 0, ts[i].imm))
  }

  /** Appends a jump whose offset is still to be patched, and records its slot. */
  method PushJump(insns: seq<Insn>, jumps: seq<nat>, t: Test, ghost ts: seq<Test>)
    returns (insns': seq<Insn>, jumps': seq<nat>)
    requires IsTest(t) && Emitted(insns, jumps, ts)
    ensures Emitted(insns', jumps', ts + [t])
  {
    jumps' := jumps + [|insns|];
    insns' := insns + [MakeInsn(t.code, t.reg, 0, 0, t.imm)];
  }

  /** The loads and the three tests for system devices. */
  method EmitSystem() returns (insns: seq<Insn>, jumps: seq<nat>)
    ensures Emitted(insns, jumps, SystemTests())
  {
    insns := [MakeInsn(LDX_MEM_W, 2, 1, 4, 0)];
    insns := insns + [MakeInsn(LDX_MEM_W, 3, 1, 8, 0)];
    jumps := [];
    insns, jumps := PushJump(insns, jumps, Test(JEQ_K, 2, 1), []);
    insns, jumps := PushJump(insns, jumps, Test(JEQ_K, 2, 5), [] + [Test(JEQ_K, 2, 1)]);
    insns, jumps := PushJump(insns, jumps, Test(JEQ_K, 2, 136), [] + [Test(JEQ_K, 2, 1)] + [Test(JEQ_K, 2, 5)]);
    assert [] + [Test(JEQ_K, 2, 1)] + [Test(JEQ_K, 2, 5)] + [Test(JEQ_K, 2, 136)] == SystemTests();
  }

  /** The tests that do not depend on the GPU list. */
  method EmitFixed(uvm: Option<u32>) returns (insns: seq<Insn>, jumps: seq<nat>)
    ensures Emitted(insns, jumps, Tests(uvm, []))
  {
    insns, jumps := EmitSystem();
    ghost var ts := SystemTests();
    if uvm.Some? {
      insns, jumps := PushJump(insns, jumps, Test(JEQ_K, 2, WrapI32(uvm.value)), ts);
      ts := ts + [Test(JEQ_K, 2, WrapI32(uvm.value))];
    }
    insns, jumps := PushJump(insns, jumps, Test(JNE_K, 2, 195), ts);
    ts := ts + [Test(JNE_K, 2, 195)];
    insns, jumps := PushJump(insns, jumps, Test(JEQ_K, 3, 255), ts);
    ts := ts + [Test(JEQ_K, 3, 255)];
    insns, jumps := PushJump(insns, jumps, Test(JEQ_K, 3, 254), ts);
    ts := ts + [Test(JEQ_K, 3, 254)];
    assert ts == Tests(uvm, []);
  }

  /** First pass: the loads and the whole chain, every offset still zero. */
  method EmitChain(uvm: Option<u32>, gpus: seq<u32>) returns (insns: seq<Insn>, jumps: seq<nat>)
    ensures Emitted(insns, jumps, Tests(uvm, gpus))
  {
    insns, jumps := EmitFixed(uvm);
    for g := 0 to |gpus|
      invariant Emitted(insns, jumps, Tests(uvm, gpus[..g]))
    {
      insns, jumps := PushJump(insns, jumps, Test(JEQ_K, 3, WrapI32(gpus[g])), Tests(uvm, gpus[..g]));
      TestsSnoc(uvm, gpus[..g], gpus[g]);
      assert gpus[..g] + [gpus[g]] == gpus[..g + 1];
    }
    assert gpus[..|gpus|] == gpus;
  }

  lemma TestsSnoc(uvm: Option<u32>, gpus: seq<u32>, g: u32)
    ensures Tests(uvm, gpus + [g]) == Tests(uvm, gpus) + [Test(JEQ_K, 3, WrapI32(g))]
  {
  }

  /** Narrowing moves a number by whole multiples of the modulus. */
  lemma WrapShift(x: int) returns (q: int)
    ensures WrapI16(x) == x + q * TWO_16
  {
    q := if x % TWO_16 < 0x8000 then -(x / TWO_16) else -(x / TWO_16) - 1;
  }

  lemma WrapShifted(x: int, q: int)
    ensures WrapI16(x + q * TWO_16) == WrapI16(x)
  {
    assert (x + q * TWO_16) % TWO_16 == x % TWO_16;
  }

  lemma WrappedDifference(allow: int, idx: int)
    ensures WrapI16(WrapI16(WrapI16(allow) - WrapI16(idx)) - 1) == WrapI16(allow - idx - 1)
  {
    var a := WrapShift(allow);
    var b := WrapShift(idx);
    var c := WrapShift(WrapI16(allow) - WrapI16(idx));
    WrapShifted(allow - idx - 1, a - b + c);
  }

  /** Second pass: every recorded jump, and nothing else, gets the distance to
      the allow block. The arithmetic wraps as `i16` does in release builds. */
  method PatchOffsets(insns: seq<Insn>, jumps: seq<nat>, allow: nat) returns (patched: seq<Insn>)
    requires forall j :: 0 <= j < |jumps| ==> jumps[j] < |insns|
    ensures |patched| == |insns|
    ensures forall i :: 0 <= i < |insns| ==>
              patched[i] == if i in jumps then insns[i].(off := WrapI16(allow - i - 1)) else insns[i]
  {
    patched := insns;
    for j := 0 to |jumps|
      invariant |patched| == |insns|
      invariant forall i :: 0 <= i < |insns| ==>
                  patched[i] == if i in jumps[..j] then insns[i].(off := WrapI16(allow - i - 1)) else insns[i]
    {
      var idx := jumps[j];
      var offset := WrapI16(WrapI16(WrapI16(allow) - WrapI16(idx)) - 1);
      WrappedDifference(allow, idx);
      assert jumps[..j + 1] == jumps[..j] + [idx];
      patched := patched[idx := patched[idx].(off := offset)];
    }
    assert jumps[..|jumps|] == jumps;
  }

  /** The compiler: both passes, with the two exit blocks pushed in between. */
  method CompileBpfProgram(uvm: Option<u32>, gpus: seq<u32>) returns (insns: seq<Insn>)
    ensures AllTests(Tests(uvm, gpus)) && insns == Assemble(Tests(uvm, gpus))
  {
    var jumps;
    insns, jumps := EmitChain(uvm, gpus);
    ghost var ts := Tests(uvm, gpus);
    insns := insns + [MakeInsn(MOV64_K, 0, 0, 0, 0), MakeInsn(EXIT, 0, 0, 0, 0)];
    var allow := |insns|;
    insns := insns + [MakeInsn(MOV64_K, 0, 0, 0, 1), MakeInsn(EXIT, 0, 0, 0, 0)];
    insns := PatchOffsets(insns, jumps, allow);
    RecordedSlots(jumps);
    AssembledAt(ts, insns);
  }

  lemma RecordedSlots(jumps: seq<nat>)
    requires forall j :: 0 <= j < |jumps| ==> jumps[j] == j + 2
    ensures forall i: nat :: i in jumps <==> 2 <= i < |jumps| + 2
  {
    forall i: nat | 2 <= i < |jumps| + 2 ensures i in jumps { assert jumps[i - 2] == i; }
  }

  lemma AssembledAt(ts: seq<Test>, p: seq<Insn>)
    requires AllTests(ts) && |p| == |ts| + 6
    requires p[0] == MakeInsn(LDX_MEM_W, 2, 1, 4, 0) && p[1] == MakeInsn(LDX_MEM_W, 3, 1, 8, 0)
    requires forall i :: 0 <= i < |ts| ==> p[i + 2] == PatchedJump(ts[i], i + 2, |ts| + 4)
    requires p[|ts| + 2..] == [MakeInsn(MOV64_K, 0, 0, 0, 0), MakeInsn(EXIT, 0, 0, 0, 0),
                               MakeInsn(MOV64_K, 0, 0, 0, 1), MakeInsn(EXIT, 0, 0, 0, 0)]
    ensures p == Assemble(ts)
  {
    assert p == p[..2] + p[2..|ts| + 2] + p[|ts| + 2..];
    assert p[2..|ts| + 2] == Assemble(ts)[2..|ts| + 2];
  }

  // ----- meaning of an assembled chain -----

  /** Machine state when execution stands at slot `pc` with both fields loaded. */
  ghost function Loaded(d: DeviceCtx, pc: int): Machine {
    Machine(pc, map[1 := CtxPtr, 2 := Num(d.major), 3 := Num(d.minor)])
  }

  /** The offsets of all jumps are representable exactly when the first, which
      jumps furthest, has a representable one. */
  predicate Reachable(n: nat) {
    n <= 0x7ffe
  }

  lemma TwoLoads(ts: seq<Test>, d: DeviceCtx, steps: nat)
    requires AllTests(ts)
    ensures Run(Assemble(ts), d, Entry(), steps + 2) == Run(Assemble(ts), d, Loaded(d, 2), steps)
  {
    var p := Assemble(ts);
    var m1 := Machine(1, map[1 := CtxPtr, 2 := Num(d.major)]);
    assert Step(p, d, Entry()) == Running(m1);
    assert Step(p, d, m1) == Running(Loaded(d, 2));
    assert Run(p, d, m1, steps + 1) == Run(p, d, Loaded(d, 2), steps);
  }

  lemma AllowBlock(ts: seq<Test>, d: DeviceCtx, steps: nat)
    requires AllTests(ts) && steps >= 2
    ensures Run(Assemble(ts), d, Loaded(d, |ts| + 4), steps) == Exit(1)
  {
    var p := Assemble(ts);
    var m := Loaded(d, |ts| + 4);
    var m' := Machine(|ts| + 5, m.regs[0 := Num(1)]);
    assert Step(p, d, m) == Running(m');
    assert Step(p, d, m') == Exit(1);
  }

  lemma DenyBlock(ts: seq<Test>, d: DeviceCtx, steps: nat)
    requires AllTests(ts) && steps >= 2
    ensures Run(Assemble(ts), d, Loaded(d, |ts| + 2), steps) == Exit(0)
  {
    var p := Assemble(ts);
    var m := Loaded(d, |ts| + 2);
    var m' := Machine(|ts| + 3, m.regs[0 := Num(0)]);
    assert Step(p, d, m) == Running(m');
    assert Step(p, d, m') == Exit(0);
  }

  lemma OneTest(ts: seq<Test>, d: DeviceCtx, i: nat)
    requires AllTests(ts) && i < |ts|
    ensures Step(Assemble(ts), d, Loaded(d, i + 2)) ==
            Running(Loaded(d, if Matches(ts[i], d) then i + 3 + WrapI16(|ts| + 1 - i) else i + 3))
  {
    assert IsTest(ts[i]);
    assert Assemble(ts)[i + 2] == PatchedJump(ts[i], i + 2, |ts| + 4);
  }

  ghost predicate AnyMatch(ts: seq<Test>, d: DeviceCtx, i: nat) {
    exists j :: i <= j < |ts| && Matches(ts[j], d)
  }

  lemma ShortOffset(x: nat)
    requires x <= 0x7fff
    ensures WrapI16(x) == x
  {
  }

  /** In an in-range chain a matching test goes to the allow block. */
  lemma TestStep(ts: seq<Test>, d: DeviceCtx, i: nat, steps: nat)
    requires AllTests(ts) && Reachable(|ts|) && i < |ts| && steps > 0
    ensures var next := if Matches(ts[i], d) then |ts| + 4 else i + 3;
            Run(Assemble(ts), d, Loaded(d, i + 2), steps) == Run(Assemble(ts), d, Loaded(d, next), steps - 1)
  {
    OneTest(ts, d, i);
    ShortOffset(|ts| + 1 - i);
  }

  lemma {:induction false} ChainFrom(ts: seq<Test>, d: DeviceCtx, i: nat, steps: nat)
    requires AllTests(ts) && Reachable(|ts|) && i <= |ts| && steps >= |ts| - i + 3
    ensures Run(Assemble(ts), d, Loaded(d, i + 2), steps) == Exit(if AnyMatch(ts, d, i) then 1 else 0)
    decreases |ts| - i
  {
    if i == |ts| {
      DenyBlock(ts, d, steps);
    } else {
      TestStep(ts, d, i, steps);
      if Matches(ts[i], d) {
        AllowBlock(ts, d, steps - 1);
      } else {
        ChainFrom(ts, d, i + 1, steps - 1);
      }
      AnyMatchHead(ts, d, i);
    }
  }

  lemma AnyMatchHead(ts: seq<Test>, d: DeviceCtx, i: nat)
    requires i < |ts|
    ensures AnyMatch(ts, d, i) <==> Matches(ts[i], d) || AnyMatch(ts, d, i + 1)
  {
  }

  /** Any in-range chain halts within its own length and returns 1 exactly when
      some test matches. */
  lemma ChainMeaning(ts: seq<Test>, d: DeviceCtx)
    requires AllTests(ts) && Reachable(|ts|)
    ensures Run(Assemble(ts), d, Entry(), |Assemble(ts)|) == Exit(if AnyMatch(ts, d, 0) then 1 else 0)
  {
    TwoLoads(ts, d, |ts| + 4);
    ChainFrom(ts, d, 0, |ts| + 4);
  }

  // ----- the policy -----

  const NVIDIA_MAJOR := 195

  /** The devices a job with these GPUs may open. */
  predicate Allowed(uvm: Option<u32>, gpus: set<u32>, d: DeviceCtx) {
    d.major != NVIDIA_MAJOR || uvm == Some(d.major) || d.minor == 254 || d.minor == 255 || d.minor in gpus
  }

  function IdSet(gpus: seq<u32>): set<u32> {
    set g | g in gpus
  }

  /** The ids whose immediate keeps its value: sign extension turns any other
      into a number no 32-bit minor can equal. */
  function Expressible(gpus: set<u32>): set<u32> {
    set g | g in gpus && g < TWO_31
  }

  lemma GpuTest(d: DeviceCtx, g: u32)
    ensures Matches(Test(JEQ_K, 3, WrapI32(g)), d) <==> d.minor == g && g < TWO_31
  {
  }

  /** The tests for majors 1, 5 and 136 are covered by the test for "not NVIDIA". */
  lemma NvidiaTestsDecide(uvm: Option<u32>, gpus: seq<u32>, d: DeviceCtx)
    ensures (exists j :: 0 <= j < |NvidiaTests(uvm, gpus)| && Matches(NvidiaTests(uvm, gpus)[j], d))
            <==> Allowed(uvm, Expressible(IdSet(gpus)), d)
  {
    var ts := NvidiaTests(uvm, gpus);
    var k := if uvm.Some? then 1 else 0;
    assert ts[k] == Test(JNE_K, 2, 195) && ts[k + 1] == Test(JEQ_K, 3, 255) && ts[k + 2] == Test(JEQ_K, 3, 254);
    assert forall i :: 0 <= i < |gpus| ==> ts[k + 3 + i] == Test(JEQ_K, 3, WrapI32(gpus[i]));
    if Allowed(uvm, Expressible(IdSet(gpus)), d) {
      if d.major != 195 { assert Matches(ts[k], d); }
      else if uvm == Some(d.major) { assert Matches(ts[0], d); }
      else if d.minor == 255 { assert Matches(ts[k + 1], d); }
      else if d.minor == 254 { assert Matches(ts[k + 2], d); }
      else {
        var i :| 0 <= i < |gpus| && gpus[i] == d.minor;
        assert Matches(ts[k + 3 + i], d);
      }
    }
    if j :| 0 <= j < |ts| && Matches(ts[j], d) {
      if j >= k + 3 {
        GpuTest(d, gpus[j - k - 3]);
        assert d.minor in IdSet(gpus);
      }
    }
  }

  lemma TestsDecide(uvm: Option<u32>, gpus: seq<u32>, d: DeviceCtx)
    ensures (exists j :: 0 <= j < |Tests(uvm, gpus)| && Matches(Tests(uvm, gpus)[j], d))
            <==> Allowed(uvm, Expressible(IdSet(gpus)), d)
  {
    NvidiaTestsDecide(uvm, gpus, d);
    var ts, ns := Tests(uvm, gpus), NvidiaTests(uvm, gpus);
    if j :| 0 <= j < |ns| && Matches(ns[j], d) { assert Matches(ts[3 + j], d); }
    if j :| 0 <= j < |ts| && Matches(ts[j], d) {
      if j >= 3 { assert Matches(ns[j - 3], d); }
    }
  }

  ghost function Filter(uvm: Option<u32>, gpus: seq<u32>): seq<Insn> {
    TestsAreTests(uvm, gpus);
    Assemble(Tests(uvm, gpus))
  }

  predicate InRange(uvm: Option<u32>, gpus: seq<u32>) {
    Reachable(|Tests(uvm, gpus)|)
  }

  /** The compiled filter halts on every device within its own length, and its
      verdict is the policy for the ids that survive as immediates. */
  lemma FilterVerdict(uvm: Option<u32>, gpus: seq<u32>, d: DeviceCtx)
    requires InRange(uvm, gpus)
    ensures Run(Filter(uvm, gpus), d, Entry(), |Filter(uvm, gpus)|) ==
            Exit(if Allowed(uvm, Expressible(IdSet(gpus)), d) then 1 else 0)
  {
    TestsAreTests(uvm, gpus);
    ChainMeaning(Tests(uvm, gpus), d);
    TestsDecide(uvm, gpus, d);
  }

  /** The order and repetition of the GPU list do not matter. */
  lemma FilterDependsOnIdSet(uvm: Option<u32>, gpus: seq<u32>, gpus': seq<u32>, d: DeviceCtx, r: u64)
    requires InRange(uvm, gpus) && InRange(uvm, gpus') && IdSet(gpus) == IdSet(gpus')
    ensures Returns(Filter(uvm, gpus), d, r) <==> Returns(Filter(uvm, gpus'), d, r)
  {
    FilterReturns(uvm, gpus, d);
    FilterReturns(uvm, gpus', d);
    var v: u64 := if Allowed(uvm, Expressible(IdSet(gpus)), d) then 1 else 0;
    if Returns(Filter(uvm, gpus), d, r) { ReturnsUnique(Filter(uvm, gpus), d, r, v); }
    if Returns(Filter(uvm, gpus'), d, r) { ReturnsUnique(Filter(uvm, gpus'), d, r, v); }
  }

  lemma FilterReturns(uvm: Option<u32>, gpus: seq<u32>, d: DeviceCtx)
    requires InRange(uvm, gpus)
    ensures Returns(Filter(uvm, gpus), d, if Allowed(uvm, Expressible(IdSet(gpus)), d) then 1 else 0)
  {
    FilterVerdict(uvm, gpus, d);
  }

  /** Dropping the three tests for majors 1, 5 and 136 gives a program with the
      same verdict on every device. */
  lemma SystemTestsRedundant(uvm: Option<u32>, gpus: seq<u32>, d: DeviceCtx)
    requires InRange(uvm, gpus)
    ensures AllTests(NvidiaTests(uvm, gpus))
    ensures var short := Assemble(NvidiaTests(uvm, gpus));
            Run(short, d, Entry(), |short|) == Run(Filter(uvm, gpus), d, Entry(), |Filter(uvm, gpus)|)
  {
    TestsAreTests(uvm, gpus);
    ChainMeaning(NvidiaTests(uvm, gpus), d);
    NvidiaTestsDecide(uvm, gpus, d);
    FilterVerdict(uvm, gpus, d);
  }

  /** Where the jump of test `i` goes when it is taken. */
  ghost function Landing(ts: seq<Test>, i: nat): int
    requires AllTests(ts) && i < |ts|
  {
    i + 3 + Assemble(ts)[i + 2].off
  }

  /** Every patched jump goes forward onto the first slot of the allow block
      exactly when the chain is short enough for 16-bit offsets. */
  lemma JumpsLandOnAllow(ts: seq<Test>)
    requires AllTests(ts) && |ts| > 0
    ensures (forall i: nat :: i < |ts| ==> Landing(ts, i) == |ts| + 4) <==> Reachable(|ts|)
    ensures Reachable(|ts|) ==> forall i: nat :: i < |ts| ==> i + 2 < Landing(ts, i) < |Assemble(ts)|
  {
    forall i: nat | i < |ts| ensures Landing(ts, i) == i + 3 + WrapI16(|ts| + 1 - i) {
      assert Assemble(ts)[i + 2] == PatchedJump(ts[i], i + 2, |ts| + 4);
    }
    if Reachable(|ts|) {
      forall i: nat | i < |ts| ensures Landing(ts, i) == |ts| + 4 { ShortOffset(|ts| + 1 - i); }
    } else {
      assert Landing(ts, 0) == 3 + WrapI16(|ts| + 1);
    }
  }

  // ----- exactly when the compiled filter enforces the policy -----

  ghost predicate EnforcesOn(uvm: Option<u32>, gpus: seq<u32>, d: DeviceCtx) {
    Returns(Filter(uvm, gpus), d, if Allowed(uvm, IdSet(gpus), d) then 1 else 0)
  }

  ghost predicate Enforces(uvm: Option<u32>, gpus: seq<u32>) {
    forall d :: EnforcesOn(uvm, gpus, d)
  }

  lemma {:induction false} FreshBelow(s: set<u32>, n: nat) returns (x: nat)
    requires |s| < n
    ensures x < n && x !in s
  {
    x := n - 1;
    if x in s {
      assert s - {x} + {x} == s;
      x := FreshBelow(s - {n - 1}, n - 1);
    }
  }

  lemma {:induction false} IdSetSize(gpus: seq<u32>)
    ensures |IdSet(gpus)| <= |gpus|
  {
    if gpus != [] {
      IdSetSize(gpus[1..]);
      assert IdSet(gpus) == {gpus[0]} + IdSet(gpus[1..]);
    } else {
      assert IdSet(gpus) == {};
    }
  }

  lemma LoadAgain(ts: seq<Test>, d: DeviceCtx, pc: nat)
    requires AllTests(ts) && pc <= 1
    ensures Step(Assemble(ts), d, Loaded(d, pc)) == Running(Loaded(d, pc + 1))
  {
    var m := Loaded(d, pc);
    assert Loaded(d, pc + 1).regs == if pc == 0 then m.regs[2 := Num(d.major)] else m.regs[3 := Num(d.minor)];
  }

  /** In an out-of-range chain the jumps of the first five tests fall short. */
  lemma EarlyJumpFallsShort(n: nat, i: nat)
    requires !Reachable(n) && i < 5 && i < n && (n + 4 >= TWO_16 || i == 0)
    ensures var to := i + 3 + WrapI16(n + 1 - i); to <= n + 2 && (n + 4 >= TWO_16 || to < 0)
  {
  }

  /** With an out-of-range chain, a device that only early tests match never
      reaches the allow block: its jump leaves the program or lands in the chain. */
  lemma {:induction false} NeverAllows(ts: seq<Test>, d: DeviceCtx, pc: int, steps: nat)
    requires AllTests(ts) && !Reachable(|ts|) && Matches(ts[0], d)
    requires forall i :: 5 <= i < |ts| ==> !Matches(ts[i], d)
    requires pc <= |ts| + 2 && (|ts| + 4 >= TWO_16 || pc <= 2)
    ensures Run(Assemble(ts), d, Loaded(d, pc), steps) != Exit(1)
    decreases steps
  {
    if steps == 0 || pc < 0 {
    } else if pc == |ts| + 2 {
      if steps >= 2 { DenyBlock(ts, d, steps); } else { DenyBlockStarts(ts, d); }
    } else {
      var next := StepFallsShort(ts, d, pc);
      NeverAllows(ts, d, next, steps - 1);
    }
  }

  lemma StepFallsShort(ts: seq<Test>, d: DeviceCtx, pc: nat) returns (next: int)
    requires AllTests(ts) && !Reachable(|ts|) && Matches(ts[0], d)
    requires forall i :: 5 <= i < |ts| ==> !Matches(ts[i], d)
    requires pc < |ts| + 2 && (|ts| + 4 >= TWO_16 || pc <= 2)
    ensures Step(Assemble(ts), d, Loaded(d, pc)) == Running(Loaded(d, next))
    ensures next <= |ts| + 2 && (|ts| + 4 >= TWO_16 || next <= 2)
  {
    next := pc + 1;
    if pc <= 1 {
      LoadAgain(ts, d, pc);
    } else {
      OneTest(ts, d, pc - 2);
      if Matches(ts[pc - 2], d) {
        EarlyJumpFallsShort(|ts|, pc - 2);
        next := pc + 1 + WrapI16(|ts| + 3 - pc);
      }
    }
  }

  lemma DenyBlockStarts(ts: seq<Test>, d: DeviceCtx)
    requires AllTests(ts)
    ensures Run(Assemble(ts), d, Loaded(d, |ts| + 2), 1).Running?
  {
    assert Step(Assemble(ts), d, Loaded(d, |ts| + 2)).Running?;
  }

  lemma LongChainFails(uvm: Option<u32>, gpus: seq<u32>)
    requires !InRange(uvm, gpus) && |gpus| + 2 < TWO_32
    ensures !Enforces(uvm, gpus)
  {
    IdSetSize(gpus);
    var minor := FreshBelow(IdSet(gpus) + {254, 255}, TWO_32);
    var d := DeviceCtx(0, 1, minor);
    TestsAreTests(uvm, gpus);
    var ts := Tests(uvm, gpus);
    forall i | 5 <= i < |ts| ensures !Matches(ts[i], d) {
      var k := 6 + (if uvm.Some? then 1 else 0);
      if i >= k {
        assert ts[i] == Test(JEQ_K, 3, WrapI32(gpus[i - k]));
        assert gpus[i - k] in IdSet(gpus);
      }
    }
    assert Allowed(uvm, IdSet(gpus), d) && Filter(uvm, gpus) == Assemble(ts);
    if EnforcesOn(uvm, gpus, d) {
      var steps: nat :| Run(Assemble(ts), d, Entry(), steps) == Exit(1);
      RunMonotone(Assemble(ts), d, Entry(), steps, steps + 2);
      TwoLoads(ts, d, steps);
      NeverAllows(ts, d, 2, steps);
    }
  }

  lemma WideIdFails(uvm: Option<u32>, gpus: seq<u32>, g: u32)
    requires InRange(uvm, gpus) && g in gpus && g >= TWO_31 && uvm != Some(NVIDIA_MAJOR)
    ensures !Enforces(uvm, gpus)
  {
    var d := DeviceCtx(0, NVIDIA_MAJOR, g);
    FilterReturns(uvm, gpus, d);
    assert g in IdSet(gpus);
    if EnforcesOn(uvm, gpus, d) { ReturnsUnique(Filter(uvm, gpus), d, 0, 1); }
  }

  /** The compiled filter enforces the policy on every device exactly when the
      chain fits 16-bit offsets and every GPU id fits a non-negative immediate
      (ids are not consulted at all when the UVM major is the NVIDIA major).
      The instruction count handed to the kernel is itself a 32-bit number. */
  lemma EnforcesExactly(uvm: Option<u32>, gpus: seq<u32>)
    requires |gpus| + 12 < TWO_32
    ensures Enforces(uvm, gpus) <==>
            |gpus| + (if uvm.Some? then 1 else 0) <= 32760
            && (uvm == Some(NVIDIA_MAJOR) || forall g :: g in gpus ==> g < TWO_31)
  {
    if !InRange(uvm, gpus) {
      LongChainFails(uvm, gpus);
    } else if g :| g in gpus && g >= TWO_31 && uvm != Some(NVIDIA_MAJOR) {
      WideIdFails(uvm, gpus, g);
    } else {
      forall d ensures EnforcesOn(uvm, gpus, d) {
        FilterReturns(uvm, gpus, d);
        assert IdSet(gpus) == Expressible(IdSet(gpus)) || uvm == Some(NVIDIA_MAJOR);
      }
    }
  }
}
