/** Hypercall words and the rep-hypercall loop (include/asm-generic/mshyperv.h, with the
    layout of include/asm-generic/hyperv-tlfs.h).
 */
module HyperV {
  import Arith
  import opened Bits
  import opened Collections

  /** `GENMASK_ULL(h, l)` */
  function GenMask(h: nat, l: nat): nat
    requires l <= h < 64
  {
    And(U64(0xFFFF_FFFF_FFFF_FFFF - Pow2(l) + 1), Shr(0xFFFF_FFFF_FFFF_FFFF, 63 - h))
  }

  lemma BitOfOnes(k: nat, i: nat)
    ensures Bit(Pow2(k) - 1, i) == (i < k)
  {
    if i < k {
      ZeroBit(i);
      BitOfComplement(0, k, i);
    } else {
      BitOfSmall(Pow2(k) - 1, k, i);
    }
  }

  /** The mask of w digits, for any width. */
  lemma MaskBits(h: nat, l: nat, i: nat, w: nat, ones: nat)
    requires l <= h < w && ones == Pow2(w) - 1
    ensures Pow2(l) <= Pow2(w)
    ensures Bit(And(ones - Pow2(l) + 1, Shr(ones, w - 1 - h)), i) == (l <= i <= h)
    ensures And(ones - Pow2(l) + 1, Shr(ones, w - 1 - h)) <= ones
  {
    Pow2Mono(l, w);
    var low, high := ones - Pow2(l) + 1, Shr(ones, w - 1 - h);
    BitAnd(low, high, i);
    BitOfShr(ones, w - 1 - h, i);
    BitOfOnes(w, w - 1 - h + i);
    if i < w {
      BitOfOnes(l, i);
      BitOfComplement(Pow2(l) - 1, w, i);
    }
    AndBounded(low, high, w);
  }

  /** The mask has exactly the bits from l to h. */
  lemma GenMaskBits(h: nat, l: nat, i: nat)
    requires l <= h < 64
    ensures Bit(GenMask(h, l), i) == (l <= i <= h)
    ensures GenMask(h, l) <= 0xFFFF_FFFF_FFFF_FFFF
  {
    Pow2At64();
    MaskBits(h, l, i, 64, 0xFFFF_FFFF_FFFF_FFFF);
    Unwrapped(0xFFFF_FFFF_FFFF_FFFF - Pow2(l) + 1);
  }

  lemma Unwrapped(x: int)
    requires 0 <= x < 0x1_0000_0000_0000_0000
    ensures U64(x) == x
  {}

  /** Masking and shifting reads the binary digits l .. h as a number. */
  lemma FieldValue(word: nat, h: nat, l: nat)
    requires l <= h < 64
    ensures Shr(And(word, GenMask(h, l)), l) == word / Pow2(l) % Pow2(h + 1 - l)
  {
    var x, n := Shr(word, l), h + 1 - l;
    forall i: nat
      ensures Bit(Shr(And(word, GenMask(h, l)), l), i) == Bit(And(x, Pow2(n) - 1), i)
    {
      BitOfShr(And(word, GenMask(h, l)), l, i);
      BitAnd(word, GenMask(h, l), l + i);
      GenMaskBits(h, l, l + i);
      BitAnd(x, Pow2(n) - 1, i);
      BitOfShr(word, l, i);
      BitOfOnes(n, i);
    }
    EqualBits(Shr(And(word, GenMask(h, l)), l), And(x, Pow2(n) - 1));
    ShrIsDiv(word, l);
    AndLowMask(x, n);
  }

  /** Clearing the topmost part of a word, high, leaves the rest. */
  lemma ClearField(low: nat, high: nat, v: nat, h: nat, l: nat)
    requires l <= h < 64 && low < Pow2(l) && v < Pow2(h + 1 - l) && high == v * Pow2(l)
    ensures GenMask(h, l) <= 0xFFFF_FFFF_FFFF_FFFF
    ensures And(low + high, 0xFFFF_FFFF_FFFF_FFFF - GenMask(h, l)) == low
  {
    GenMaskBits(h, l, 0);
    OrDisjoint(low, v, l);
    var keep := 0xFFFF_FFFF_FFFF_FFFF - GenMask(h, l);
    forall i: nat
      ensures Bit(And(low + high, keep), i) == Bit(low, i)
    {
      BitOfProduct(v, l, i);
      ClearFieldBit(low, high, v, h, l, keep, i);
    }
    EqualBits(And(low + high, keep), low);
  }

  lemma ClearFieldBit(low: nat, high: nat, v: nat, h: nat, l: nat, keep: nat, i: nat)
    requires l <= h < 64 && low < Pow2(l) && v < Pow2(h + 1 - l) && Or(low, high) == low + high
    requires GenMask(h, l) + keep == 0xFFFF_FFFF_FFFF_FFFF
    requires Bit(high, i) == (i >= l && Bit(v, i - l))
    ensures Bit(And(low + high, keep), i) == Bit(low, i)
  {
    BitAnd(low + high, keep, i);
    BitOr(low, high, i);
    if i >= l { BitOfSmall(low, l, i); }
    if i > h {
      BitOfSmall(v, h + 1 - l, i - l);
    } else {
      Pow2At64();
      GenMaskBits(h, l, i);
      BitOfComplement(GenMask(h, l), 64, i);
    }
  }

  // ----- control and status words

  /** The digits 0 .. 15, 32 .. 43 and 48 .. 59. */
  function LowPart(word: u64): u16 { word % 0x1_0000 }
  function RepPart(word: u64): u16 { word / 0x1_0000_0000 % 4096 }
  function StartPart(word: u64): u16 { word / 0x1_0000_0000_0000 % 4096 }

  /** A control word with these values in their places and every other digit zero. */
  function Control(code: u16, varHead: u16, reps: u16, start: u16): u64
    requires varHead < 1024 && reps < 4096 && start < 4096
  {
    code + varHead * 0x2_0000 + reps * 0x1_0000_0000 + start * 0x1_0000_0000_0000
  }

  lemma ControlParts(code: u16, varHead: u16, reps: u16, start: u16)
    requires varHead < 1024 && reps < 4096 && start < 4096
    ensures RepPart(Control(code, varHead, reps, start)) == reps
    ensures StartPart(Control(code, varHead, reps, start)) == start
  {
    var low := code + varHead * 0x2_0000;
    UpperDigits(low, reps + start * 0x1_0000, 0x1_0000_0000);
    UpperDigits(low + reps * 0x1_0000_0000, start, 0x1_0000_0000_0000);
    LowDigits(reps, start * 16, 4096);
  }

  /** The places of all the others: the code in digits 0 .. 15, the header size in 17 .. 26, and
      zero in the fast bit and in the three reserved fields. */
  lemma ControlDigits(code: u16, varHead: u16, reps: u16, start: u16)
    requires varHead < 1024 && reps < 4096 && start < 4096
    ensures var word := Control(code, varHead, reps, start);
      && LowPart(word) == code && word / 0x1_0000 % 2 == 0 && word / 0x2_0000 % 1024 == varHead
      && word / 0x800_0000 % 32 == 0 && word / 0x1000_0000_0000 % 16 == 0 && word / 0x1000_0000_0000_0000 == 0
  {
    var head, count := code + varHead * 0x2_0000, reps * 0x1_0000_0000;
    UpperDigits(code, 2 * varHead + reps * 0x1_0000 + start * 0x1_0000_0000, 0x1_0000);
    UpperDigits(code, varHead + reps * 0x8000 + start * 0x8000_0000, 0x2_0000);
    UpperDigits(head, 32 * reps + start * 0x20_0000, 0x800_0000);
    UpperDigits(head + count, 16 * start, 0x1000_0000_0000);
    UpperDigits(head + count + start * 0x1_0000_0000_0000, 0, 0x1000_0000_0000_0000);
    LowDigits(code, 2 * varHead + reps * 0x1_0000 + start * 0x1_0000_0000, 0x1_0000);
    LowDigits(0, varHead + reps * 0x8000 + start * 0x8000_0000, 2);
    LowDigits(varHead, reps * 32 + start * 0x20_0000, 1024);
    LowDigits(0, reps + start * 0x1_0000, 32);
    LowDigits(0, start, 16);
  }

  lemma LowDigits(low: int, high: int, unit: int)
    requires 0 <= low < unit
    ensures (low + high * unit) % unit == low
  {
    Arith.DivUnique(low + high * unit, unit, high);
  }

  lemma UpperDigits(low: int, high: int, unit: int)
    requires 0 <= low < unit
    ensures (low + high * unit) / unit == high
  {
    Arith.DivUnique(low + high * unit, unit, high);
  }

  lemma SmallPowers()
    ensures Pow2(10) == 1024 && Pow2(12) == 4096 && Pow2(16) == 0x1_0000 && Pow2(17) == 0x2_0000
    ensures Pow2(48) == 0x1_0000_0000_0000
  {
    Pow2At32();
    Pow2Add(32, 16);
  }

  /** `hv_result` */
  method HvResult(status: u64) returns (r: u16)
    ensures r == LowPart(status)
  {
    SmallPowers();
    FieldValue(status, 15, 0);
    r := And(status, GenMask(15, 0));
  }

  /** `hv_repcomp` */
  method HvRepComp(status: u64) returns (r: u16)
    ensures r == RepPart(status)
  {
    SmallPowers();
    Pow2At32();
    FieldValue(status, 43, 32);
    r := Shr(And(status, GenMask(43, 32)), 32);
  }

  /** `word |= high`, above the digits in use. */
  method OrField(word: u64, l: nat, high: u64, ghost v: nat) returns (r: u64)
    requires word < Pow2(l) && high == v * Pow2(l) && word + high < 0x1_0000_0000_0000_0000
    ensures r == word + high
  {
    OrDisjoint(word, v, l);
    r := Or(word, high);
  }

  /** The two or-ins before the loop. */
  method FirstControl(code: u16, varHead: u16, reps: u16) returns (control: u64)
    requires varHead < 1024 && reps < 4096
    ensures control == Control(code, varHead, reps, 0)
  {
    SmallPowers();
    Pow2At32();
    control := OrField(code, 17, U64(varHead * 0x2_0000), varHead);
    control := OrField(control, 32, U64(reps * 0x1_0000_0000), reps);
  }

  /** `word &= ~GENMASK_ULL(h, l); word |= new`, on a word that ends at digit h. */
  method ReplaceField(word: u64, h: nat, l: nat, high: u64, ghost v: nat, ghost low: nat, ghost v': nat, ghost high': nat)
      returns (r: u64)
    requires l <= h < 64 && low < Pow2(l) && v < Pow2(h + 1 - l) && v' < Pow2(h + 1 - l)
    requires word == low + high' && high == v * Pow2(l) && high' == v' * Pow2(l)
    requires low + high < 0x1_0000_0000_0000_0000
    ensures r == low + high
  {
    ClearField(low, high', v', h, l);
    r := And(word, 0xFFFF_FFFF_FFFF_FFFF - GenMask(h, l));
    r := OrField(r, l, high, v);
  }

  /** The two updates of the control word at the end of an iteration. */
  method NextControl(word: u64, repComp: u16, ghost code: u16, ghost varHead: u16, ghost reps: u16, ghost start: u16)
      returns (control: u64)
    requires varHead < 1024 && reps < 4096 && start < 4096 && repComp < 4096
    requires word == Control(code, varHead, reps, start)
    ensures control == Control(code, varHead, reps, repComp)
  {
    SmallPowers();
    ghost var low := code + varHead * 0x2_0000 + reps * 0x1_0000_0000;
    control := ReplaceField(word, 59, 48, U64(repComp * 0x1_0000_0000_0000),
                            repComp, low, start, start * 0x1_0000_0000_0000);
  }

  // ----- the rep-hypercall loop

  predicate Success(status: u64) { LowPart(status) == 0 }

  /** What stays the same from call to call. */
  datatype Request = Request(code: u16, varHead: u16, reps: u16)

  predicate Compliant(r: Request) { r.varHead < 1024 && r.reps < 4096 }

  /** A call: its two words, what they say, and the control word made from them for the next. */
  datatype Call = Call(control: u64, status: u64, start: u16, done: u16, ok: bool, next: u64)

  /** The n-th call: its control word is the request with its start index, the hypervisor gave
      the status, and the other fields are what the status says. After a success the next control
      word is the request with the completed count as its start index. */
  ghost predicate Answered(hypervisor: (nat, u64) -> u64, r: Request, n: nat, c: Call)
    requires Compliant(r)
  {
    && c.start <= r.reps && c.control == Control(r.code, r.varHead, r.reps, c.start)
    && c.status == hypervisor(n, c.control)
    && c.done == RepPart(c.status) && c.ok == (c.status % 0x1_0000 == 0)
    && (c.ok ==> c.start <= c.done <= r.reps && c.next == Control(r.code, r.varHead, r.reps, c.done))
  }

  /** The control word of the call after these. */
  ghost function NextWord(r: Request, calls: seq<Call>): u64
    requires Compliant(r)
  {
    if calls == [] then Control(r.code, r.varHead, r.reps, 0) else calls[|calls| - 1].next
  }

  /** The reps a successful call performs: from its start index up to the completed count. */
  ghost function Between(from: nat, to: nat): seq<nat> {
    if from <= to then seq(to - from, i => from + i) else []
  }

  ghost function Performed(calls: seq<Call>): seq<nat> {
    if calls == [] then []
    else Performed(calls[..|calls| - 1]) + Between(calls[|calls| - 1].start, calls[|calls| - 1].done)
  }

  /** Where call k starts: at the place the call before it reached. */
  ghost function Reached(calls: seq<Call>, k: nat): u16
    requires k <= |calls|
  {
    if k == 0 then 0 else calls[k - 1].done
  }

  /** Every call carries the same request and was answered by the hypervisor. */
  ghost predicate AllAnswered(hypervisor: (nat, u64) -> u64, calls: seq<Call>, r: Request)
    requires Compliant(r)
  {
    forall k {:trigger Answered(hypervisor, r, k, calls[k])} :: 0 <= k < |calls| ==>
      Answered(hypervisor, r, k, calls[k])
  }

  /** Call k starts where the one before it stopped. */
  ghost predicate Continues(calls: seq<Call>, k: nat)
    requires k < |calls|
  {
    calls[k].start == Reached(calls, k)
  }

  /** Call k did the reps from its start up to its completed count. */
  predicate Succeeded(call: Call) { call.ok && call.start <= call.done }

  /** Every call but the last succeeded, and each goes on where the one before it stopped. */
  ghost predicate Chained(calls: seq<Call>) {
    && (forall k: nat {:trigger Continues(calls, k)} :: k < |calls| ==> Continues(calls, k))
    && (forall k :: 0 <= k < |calls| - 1 ==> Succeeded(calls[k]))
  }

  lemma ExtendChain(calls: seq<Call>, call: Call)
    requires Chained(calls) && (calls != [] ==> Succeeded(calls[|calls| - 1])) && call.start == Reached(calls, |calls|)
    ensures Chained(calls + [call])
  {
    var more := calls + [call];
    forall k: nat | k < |more|
      ensures Continues(more, k)
    {
      assert k < |calls| ==> Continues(calls, k);
    }
  }

  /** What the loop relies on: a successful call reports no more reps than were asked for, and
      more than its start index, unless none were asked for. The hypervisor may answer the
      n-th call in any other way. */
  ghost predicate MakesProgress(hypervisor: (nat, u64) -> u64) {
    forall n: nat, control: u64 {:trigger Honest(control, hypervisor(n, control))} ::
      Honest(control, hypervisor(n, control))
  }

  ghost predicate Honest(control: u64, status: u64) {
    Success(status) ==>
      && RepPart(status) <= RepPart(control)
      && (StartPart(control) < RepPart(status) || RepPart(control) == 0)
  }

  lemma HonestCall(r: Request, start: u16, status: u64)
    requires Compliant(r) && start <= r.reps && Success(status)
    requires Honest(Control(r.code, r.varHead, r.reps, start), status)
    ensures start < RepPart(status) <= r.reps || start == RepPart(status) == r.reps == 0
  {
    ControlParts(r.code, r.varHead, r.reps, start);
  }

  lemma Extend(hypervisor: (nat, u64) -> u64, calls: seq<Call>, r: Request, call: Call)
    requires Compliant(r) && AllAnswered(hypervisor, calls, r) && Answered(hypervisor, r, |calls|, call)
    ensures AllAnswered(hypervisor, calls + [call], r)
  {
    var more := calls + [call];
    forall k | 0 <= k < |more|
      ensures Answered(hypervisor, r, k, more[k])
    {
      assert k < |calls| ==> Answered(hypervisor, r, k, calls[k]);
    }
  }

  /** Calls that each go on from the last cover the reps below the place reached, each once. */
  lemma {:induction false} PerformedInOrder(calls: seq<Call>, n: nat)
    requires Chained(calls) && n <= |calls| && (n == |calls| > 0 ==> Succeeded(calls[n - 1]))
    ensures Performed(calls[..n]) == UpTo(Reached(calls, n))
  {
    if n > 0 {
      PerformedInOrder(calls, n - 1);
      assert Continues(calls, n - 1) && Succeeded(calls[n - 1]);
      assert calls[..n][..n - 1] == calls[..n - 1];
      Join(calls[n - 1].start, calls[n - 1].done);
    }
  }

  lemma Join(from: nat, to: nat)
    requires from <= to
    ensures UpTo(from) + Between(from, to) == UpTo(to)
  {}

  /** What the calls of a finished loop performed. */
  ghost predicate Covered(calls: seq<Call>, reps: nat)
    requires calls != []
  {
    var n := |calls| - 1;
    if calls[n].ok then Performed(calls) == UpTo(reps) else Performed(calls[..n]) == UpTo(calls[n].start)
  }

  lemma LoopCovers(calls: seq<Call>, reps: nat)
    requires calls != [] && Chained(calls)
    requires calls[|calls| - 1].ok ==> calls[|calls| - 1].start <= calls[|calls| - 1].done == reps
    ensures Covered(calls, reps)
  {
    var n := |calls| - 1;
    if calls[n].ok {
      PerformedInOrder(calls, n + 1);
      assert calls[..n + 1] == calls;
    } else {
      PerformedInOrder(calls, n);
      assert Continues(calls, n);
    }
  }

  /** One pass of the loop: the call, and the control word of the next one. */
  method Iterate(hypervisor: (nat, u64) -> u64, r: Request, calls: seq<Call>, control: u64) returns (call: Call)
    requires Compliant(r) && MakesProgress(hypervisor) && AllAnswered(hypervisor, calls, r)
    requires calls != [] ==> calls[|calls| - 1].ok
    requires control == NextWord(r, calls)
    ensures AllAnswered(hypervisor, calls + [call], r) && call.start == Reached(calls, |calls|)
    ensures call.ok ==> call.start < call.done <= r.reps || call.start == call.done == r.reps == 0
  {
    ghost var start := Reached(calls, |calls|);
    if calls != [] {
      ghost var n := |calls| - 1;
      assert Answered(hypervisor, r, n, calls[n]);
    }
    var status := hypervisor(|calls|, control);
    assert Honest(control, status);
    ControlParts(r.code, r.varHead, r.reps, start);
    var result := HvResult(status);
    var repComp := HvRepComp(status);
    var next := control;
    if result == 0 {
      HonestCall(r, start, status);
      next := NextControl(control, repComp, r.code, r.varHead, r.reps, start);
    }
    call := Call(control, status, StartPart(control), repComp, result == 0, next);
    Extend(hypervisor, calls, r, call);
  }

  /** `hv_do_rep_hypercall`, and the calls it made. On success the reps 0 .. reps - 1 were
      performed once each, in order; on failure those before the failing call were. */
  method DoRepHypercall(hypervisor: (nat, u64) -> u64, r: Request) returns (status: u64, calls: seq<Call>)
    requires Compliant(r) && MakesProgress(hypervisor)
    ensures 1 <= |calls| <= r.reps + 1 && status == calls[|calls| - 1].status
    ensures AllAnswered(hypervisor, calls, r) && Chained(calls)
    ensures Covered(calls, r.reps)
  {
    var control := FirstControl(r.code, r.varHead, r.reps);
    calls := [];
    while true
      invariant AllAnswered(hypervisor, calls, r) && Chained(calls) && control == NextWord(r, calls)
      invariant calls != [] ==> Succeeded(calls[|calls| - 1]) && Reached(calls, |calls|) < r.reps
      invariant |calls| <= Reached(calls, |calls|)
      decreases r.reps - Reached(calls, |calls|)
    {
      var call := Iterate(hypervisor, r, calls, control);
      ExtendChain(calls, call);
      calls := calls + [call];
      status, control := call.status, call.next;
      if !call.ok || call.done >= r.reps {
        LoopCovers(calls, r.reps);
        return;
      }
    }
  }
}
