/** The inline part of the queued read/write lock (include/asm-generic/qrwlock.h) as a
    state machine: both trylocks, the fast paths of both locks, and both unlocks.

    Every atomic operation on the 32-bit word `cnts`, and the byte store that releases a
    writer, is one sequentially consistent step. A thread sent to a slow path is parked;
    a parked reader may give its count back, as the comment in `queued_read_lock` says.
 */
module QrwLock {
  import opened Arith
  import opened Bits
  import Collections
  import Runs

  type Tid = nat

  datatype Pc =
    | Idle
    | ReadSeen      // read trylock saw no writer, the add still to come
    | ReadUndo      // read trylock added its bias and met a writer, the subtract still to come
    | Reading
    | ReadParked    // in the slow path, its bias still counted
    | ReadQueued    // in the slow path, its bias given back
    | WriteSeen     // write trylock saw zero, the compare-and-exchange still to come
    | Writing
    | WriteParked

  datatype State = State(cnts: u32, pc: map<Tid, Pc>)

  datatype Action =
    | ReadTryLook(t: Tid)
    | ReadTryAdd(t: Tid)
    | ReadTryUndo(t: Tid)
    | ReadLock(t: Tid)
    | ReadUnlock(t: Tid)
    | SlowGiveBack(t: Tid)
    | WriteTryLook(t: Tid)
    | WriteTryCas(t: Tid)
    | WriteLock(t: Tid)
    | WriteUnlock(t: Tid)

  /** `cnts & _QW_WMASK` */
  function WriterBits(cnts: u32): nat { cnts % 512 }

  /** `_QW_WMASK` is 2^9 - 1, so masking is the remainder modulo `_QR_BIAS`. */
  lemma WriterMask(cnts: u32)
    ensures And(cnts, 0x1ff) == WriterBits(cnts)
  {
    assert Pow2(9) == 512;
    AndLowMask(cnts, 9);
  }

  function AddReader(cnts: u32): u32 { U32(cnts + 512) }

  /** Counting a reader leaves the writer bits alone. */
  lemma AddReaderKeepsWriter(cnts: u32)
    ensures WriterBits(AddReader(cnts)) == WriterBits(cnts)
  {
    var q, c := cnts / 512, AddReader(cnts);
    if cnts + 512 < 0x1_0000_0000 {
      DivUnique(c, 512, q + 1);
    } else {
      assert c == cnts + 512 - 0x1_0000_0000;
      DivUnique(c, 512, q + 1 - 0x80_0000);
    }
  }

  function SubReader(cnts: u32): u32 { U32(cnts - 512) }

  /** The word after its low-order byte is stored as zero. */
  function ClearWlocked(cnts: u32): u32 { cnts - cnts % 0x100 }

  /** `smp_store_release(&lock->wlocked, 0)` clears the low-order byte in both byte orders:
      `wlocked` comes first in little-endian memory and last in big-endian memory. */
  lemma ByteStore(cnts: u32, bigEndian: bool)
    ensures Decode(Encode(cnts, bigEndian)[if bigEndian then 3 else 0 := 0], bigEndian) == ClearWlocked(cnts)
  {
    assert Decode(Encode(cnts, bigEndian), bigEndian) == cnts;
  }

  function Init(threads: set<Tid>): State {
    State(0, map t | t in threads :: Idle)
  }

  function Next(s: State, a: Action): State {
    if a.t !in s.pc then s
    else
      var pc, t := s.pc[a.t], a.t;
      match a
      case ReadTryLook(_) =>
        if pc.Idle? && WriterBits(s.cnts) == 0 then s.(pc := s.pc[t := ReadSeen]) else s
      case ReadTryAdd(_) =>
        if !pc.ReadSeen? then s
        else
          var c := AddReader(s.cnts);
          s.(cnts := c, pc := s.pc[t := if WriterBits(c) == 0 then Reading else ReadUndo])
      case ReadTryUndo(_) =>
        if pc.ReadUndo? then s.(cnts := SubReader(s.cnts), pc := s.pc[t := Idle]) else s
      case ReadLock(_) =>
        if !pc.Idle? then s
        else
          var c := AddReader(s.cnts);
          s.(cnts := c, pc := s.pc[t := if WriterBits(c) == 0 then Reading else ReadParked])
      case ReadUnlock(_) =>
        if pc.Reading? then s.(cnts := SubReader(s.cnts), pc := s.pc[t := Idle]) else s
      case SlowGiveBack(_) =>
        if pc.ReadParked? then s.(cnts := SubReader(s.cnts), pc := s.pc[t := ReadQueued]) else s
      case WriteTryLook(_) =>
        if pc.Idle? && s.cnts == 0 then s.(pc := s.pc[t := WriteSeen]) else s
      case WriteTryCas(_) =>
        if !pc.WriteSeen? then s
        else if s.cnts == 0 then s.(cnts := 0xff, pc := s.pc[t := Writing])
        else s.(pc := s.pc[t := Idle])
      case WriteLock(_) =>
        if !pc.Idle? then s
        else if s.cnts == 0 then s.(cnts := 0xff, pc := s.pc[t := Writing])
        else s.(pc := s.pc[t := WriteParked])
      case WriteUnlock(_) =>
        if pc.Writing? then s.(cnts := ClearWlocked(s.cnts), pc := s.pc[t := Idle]) else s
  }

  function Exec(s: State, acts: seq<Action>): State { Runs.Exec(Next, s, acts) }

  // ----- what the word counts

  /** A reader whose bias is in the word: holding, about to undo, or parked. */
  predicate Counted(pc: Pc) { pc.ReadUndo? || pc.Reading? || pc.ReadParked? }

  function Readers(s: State): set<Tid> { set t | t in s.pc && Counted(s.pc[t]) }
  function Writers(s: State): set<Tid> { set t | t in s.pc && s.pc[t].Writing? }

  /** 512 for every counted reader, plus 255 in the low byte for a writer. */
  ghost predicate WordCounts(s: State) {
    s.cnts == U32(512 * |Readers(s)| + 255 * |Writers(s)|)
  }

  /** A writer never coexists with another holder. */
  ghost predicate Exclusive(s: State) {
    forall t, u :: t in s.pc && u in s.pc && s.pc[t].Writing? && (s.pc[u].Writing? || s.pc[u].Reading?)
      ==> t == u
  }

  ghost predicate Inv(s: State) {
    WordCounts(s) && Exclusive(s) && |s.pc| <= 0x80_0000
  }

  lemma AtMostOneWriter(s: State)
    requires Exclusive(s)
    ensures |Writers(s)| <= 1
  {
    var w := Writers(s);
    if w != {} {
      var t :| t in w;
      assert w == {t};
    }
  }

  /** A thread that is not counted leaves room for one more reader. */
  lemma RoomForOne(s: State, t: Tid)
    requires Inv(s) && t in s.pc && !Counted(s.pc[t])
    ensures |Readers(s)| < 0x80_0000 && |Writers(s)| <= 1
    ensures s.cnts == 512 * |Readers(s)| + 255 * |Writers(s)|
    ensures WriterBits(s.cnts) == 0 <==> Writers(s) == {}
    ensures s.cnts == 0 <==> Readers(s) == {} && Writers(s) == {}
  {
    AtMostOneWriter(s);
    assert Readers(s) <= s.pc.Keys - {t};
    Collections.SubsetSize(Readers(s), s.pc.Keys - {t});
  }

  /** How a step that changes only thread t's program counter changes the two counts. */
  lemma ReadersMove(s: State, s': State, t: Tid, pc: Pc)
    requires t in s.pc && s'.pc == s.pc[t := pc]
    ensures |Readers(s')| == |Readers(s)| + (if Counted(pc) then 1 else 0) - (if Counted(s.pc[t]) then 1 else 0)
  {
    var r := Readers(s) - {t};
    assert Readers(s) == if Counted(s.pc[t]) then r + {t} else r;
    assert Readers(s') == if Counted(pc) then r + {t} else r;
  }

  lemma WritersMove(s: State, s': State, t: Tid, pc: Pc)
    requires t in s.pc && s'.pc == s.pc[t := pc]
    ensures |Writers(s')| == |Writers(s)| + (if pc.Writing? then 1 else 0) - (if s.pc[t].Writing? then 1 else 0)
  {
    var w := Writers(s) - {t};
    assert Writers(s) == if s.pc[t].Writing? then w + {t} else w;
    assert Writers(s') == if pc.Writing? then w + {t} else w;
  }

  // ----- every step keeps the invariant

  lemma AddStep(s: State, s': State, t: Tid)
    requires Inv(s) && t in s.pc && !Counted(s.pc[t]) && !s.pc[t].Writing? && t in s'.pc
    requires s'.pc == s.pc[t := s'.pc[t]] && s'.cnts == AddReader(s.cnts)
    requires s'.pc[t] == Reading ==> WriterBits(s'.cnts) == 0
    requires Counted(s'.pc[t])
    ensures Inv(s')
  {
    RoomForOne(s, t);
    ReadersMove(s, s', t, s'.pc[t]);
    WritersMove(s, s', t, s'.pc[t]);
    AddReaderKeepsWriter(s.cnts);
    assert s'.pc.Keys == s.pc.Keys;
    forall u | s'.pc[t] == Reading && u in s'.pc
      ensures !s'.pc[u].Writing?
    {
      assert u !in Writers(s);
    }
  }

  lemma SubStep(s: State, s': State, t: Tid)
    requires Inv(s) && t in s.pc && Counted(s.pc[t]) && t in s'.pc
    requires s'.pc == s.pc[t := s'.pc[t]] && s'.cnts == SubReader(s.cnts)
    requires !Counted(s'.pc[t]) && !s'.pc[t].Writing?
    ensures Inv(s')
  {
    ReadersMove(s, s', t, s'.pc[t]);
    WritersMove(s, s', t, s'.pc[t]);
    SubReaderValue(512 * |Readers(s)| + 255 * |Writers(s)|);
    assert s'.pc.Keys == s.pc.Keys;
  }

  lemma SubReaderValue(x: int)
    ensures SubReader(U32(x)) == U32(x - 512)
  {}

  lemma WriteStep(s: State, s': State, t: Tid)
    requires Inv(s) && t in s.pc && !Counted(s.pc[t]) && !s.pc[t].Writing? && s.cnts == 0
    requires s' == s.(cnts := 0xff, pc := s.pc[t := Writing])
    ensures Inv(s')
  {
    RoomForOne(s, t);
    ReadersMove(s, s', t, Writing);
    WritersMove(s, s', t, Writing);
    assert s'.pc.Keys == s.pc.Keys;
    forall u | u in s'.pc && u != t
      ensures !s'.pc[u].Writing? && !s'.pc[u].Reading?
    {
      assert u !in Readers(s) && u !in Writers(s);
    }
  }

  lemma WriteUnlockStep(s: State, t: Tid)
    requires Inv(s) && t in s.pc && s.pc[t].Writing?
    ensures Inv(Next(s, WriteUnlock(t)))
  {
    var s' := Next(s, WriteUnlock(t));
    RoomForOne(s, t);
    ReadersMove(s, s', t, Idle);
    WritersMove(s, s', t, Idle);
    assert t in Writers(s);
    UnlockValue(|Readers(s)|);
    assert s'.pc.Keys == s.pc.Keys;
  }

  lemma UnlockValue(r: nat)
    requires r < 0x80_0000
    ensures ClearWlocked(512 * r + 255) == 512 * r == U32(512 * r)
  {
    DivUnique(512 * r + 255, 0x100, 2 * r);
    DivUnique(512 * r, 0x1_0000_0000, 0);
  }

  /** A step that moves one thread between uncounted places. */
  lemma QuietStep(s: State, s': State, t: Tid, pc: Pc)
    requires Inv(s) && t in s.pc && !Counted(s.pc[t]) && !s.pc[t].Writing?
    requires !Counted(pc) && !pc.Writing? && s' == s.(pc := s.pc[t := pc])
    ensures Inv(s')
  {
    ReadersMove(s, s', t, pc);
    WritersMove(s, s', t, pc);
    assert s'.pc.Keys == s.pc.Keys;
  }

  lemma StepKeeps(s: State, a: Action)
    requires Inv(s)
    ensures Inv(Next(s, a)) && Next(s, a).pc.Keys == s.pc.Keys
  {
    var s', t := Next(s, a), a.t;
    if s' != s {
      match a {
        case ReadTryLook(_) => QuietStep(s, s', t, ReadSeen);
        case ReadTryAdd(_) => AddStep(s, s', t);
        case ReadTryUndo(_) => SubStep(s, s', t);
        case ReadLock(_) => AddStep(s, s', t);
        case ReadUnlock(_) => SubStep(s, s', t);
        case SlowGiveBack(_) => SubStep(s, s', t);
        case WriteTryLook(_) => QuietStep(s, s', t, WriteSeen);
        case WriteTryCas(_) => if s.cnts == 0 { WriteStep(s, s', t); } else { QuietStep(s, s', t, Idle); }
        case WriteLock(_) => if s.cnts == 0 { WriteStep(s, s', t); } else { QuietStep(s, s', t, WriteParked); }
        case WriteUnlock(_) => WriteUnlockStep(s, t);
      }
    }
  }

  // ----- every interleaving

  lemma {:induction false} RunInvariant(threads: set<Tid>, acts: seq<Action>)
    requires |threads| <= 0x80_0000
    ensures var s := Exec(Init(threads), acts); s.pc.Keys == threads && Inv(s)
  {
    var s0 := Init(threads);
    if acts == [] {
      assert Readers(s0) == {} && Writers(s0) == {};
      assert s0.pc.Keys == threads;
    } else {
      var k := |acts| - 1;
      RunInvariant(threads, acts[..k]);
      StepKeeps(Exec(s0, acts[..k]), acts[k]);
    }
  }

  /** In every interleaving of fewer than 2^23 threads the word is exactly 512 times the
      readers holding or in flight plus the writer byte, and a writer is alone. */
  lemma CountsExact(threads: set<Tid>, acts: seq<Action>)
    requires |threads| < 0x80_0000
    ensures var s := Exec(Init(threads), acts);
      && s.cnts == 512 * |Readers(s)| + (if Writers(s) == {} then 0 else 0xff)
      && |Writers(s)| <= 1
  {
    var s := Exec(Init(threads), acts);
    RunInvariant(threads, acts);
    AtMostOneWriter(s);
    Collections.SubsetSize(Readers(s), s.pc.Keys);
  }

  /** No count is lost: whenever every thread is idle again the word is zero again. */
  lemma NothingLeaks(threads: set<Tid>, acts: seq<Action>)
    requires |threads| <= 0x80_0000
    requires var s := Exec(Init(threads), acts); forall t :: t in s.pc ==> s.pc[t].Idle?
    ensures Exec(Init(threads), acts).cnts == 0
  {
    var s := Exec(Init(threads), acts);
    RunInvariant(threads, acts);
    assert Readers(s) == {} && Writers(s) == {};
  }

  /** The fast paths decide correctly: a reader gets in exactly when no writer holds the
      lock, a writer exactly when nobody is counted and no writer holds it. */
  lemma FastPathOutcome(threads: set<Tid>, acts: seq<Action>, t: Tid)
    requires |threads| <= 0x80_0000
    requires var s := Exec(Init(threads), acts); t in s.pc && s.pc[t].Idle?
    ensures var s := Exec(Init(threads), acts);
      && (Next(s, ReadLock(t)).pc[t].Reading? <==> Writers(s) == {})
      && (Next(s, WriteLock(t)).pc[t].Writing? <==> Writers(s) == {} && Readers(s) == {})
  {
    var s := Exec(Init(threads), acts);
    RunInvariant(threads, acts);
    RoomForOne(s, t);
    AddReaderKeepsWriter(s.cnts);
  }

  /** Otherwise they park the thread, the reader with its count in the word. */
  lemma FastPathParks(threads: set<Tid>, acts: seq<Action>, t: Tid)
    requires |threads| <= 0x80_0000
    requires var s := Exec(Init(threads), acts); t in s.pc && s.pc[t].Idle?
    ensures var s := Exec(Init(threads), acts);
      && (Writers(s) != {} ==>
            Next(s, ReadLock(t)).pc[t].ReadParked? && Readers(Next(s, ReadLock(t))) == Readers(s) + {t})
      && (!Free(s) ==> Next(s, WriteLock(t)) == s.(pc := s.pc[t := WriteParked]))
  {
    var s := Exec(Init(threads), acts);
    RunInvariant(threads, acts);
    RoomForOne(s, t);
    AddReaderKeepsWriter(s.cnts);
  }

  ghost predicate Others(acts: seq<Action>, t: Tid) { forall k :: 0 <= k < |acts| ==> acts[k].t != t }

  lemma {:induction false} OthersKeep(s: State, acts: seq<Action>, t: Tid)
    requires Inv(s) && t in s.pc && Others(acts, t)
    ensures Inv(Exec(s, acts)) && t in Exec(s, acts).pc && Exec(s, acts).pc[t] == s.pc[t]
  {
    if acts != [] {
      var k := |acts| - 1;
      OthersKeep(s, acts[..k], t);
      StepKeeps(Exec(s, acts[..k]), acts[k]);
    }
  }

  /** `queued_read_trylock`, with any steps of other threads between its look and its add: it gets
      in if and only if no writer holds the lock at either. If only the add meets a writer the
      thread goes on to take its count back, and if the look does it is idle. */
  lemma ReadTrylockOutcome(threads: set<Tid>, acts: seq<Action>, more: seq<Action>, t: Tid)
    requires |threads| <= 0x80_0000 && Others(more, t)
    requires var s := Exec(Init(threads), acts); t in s.pc && s.pc[t].Idle?
    ensures var s := Exec(Init(threads), acts);
      var s' := Exec(Next(s, ReadTryLook(t)), more);
      && t in s'.pc
      && Next(s', ReadTryAdd(t)).pc[t] ==
           if Writers(s) != {} then Idle else if Writers(s') == {} then Reading else ReadUndo
  {
    var s := Exec(Init(threads), acts);
    var s1 := Next(s, ReadTryLook(t));
    RunInvariant(threads, acts);
    RoomForOne(s, t);
    StepKeeps(s, ReadTryLook(t));
    OthersKeep(s1, more, t);
    RoomForOne(Exec(s1, more), t);
    AddReaderKeepsWriter(Exec(s1, more).cnts);
  }

  /** `queued_write_trylock`: it gets in if and only if nobody holds or is counted, both at its
      look and at its exchange. Otherwise it leaves the word alone and the thread is idle. */
  lemma WriteTrylockOutcome(threads: set<Tid>, acts: seq<Action>, more: seq<Action>, t: Tid)
    requires |threads| <= 0x80_0000 && Others(more, t)
    requires var s := Exec(Init(threads), acts); t in s.pc && s.pc[t].Idle?
    ensures var s := Exec(Init(threads), acts);
      var s' := Exec(Next(s, WriteTryLook(t)), more);
      && t in s'.pc
      && (if Free(s) && Free(s') then Next(s', WriteTryCas(t)).pc[t] == Writing
          else Next(s', WriteTryCas(t)) == s'.(pc := s'.pc[t := Idle]))
  {
    var s := Exec(Init(threads), acts);
    var s1 := Next(s, WriteTryLook(t));
    RunInvariant(threads, acts);
    RoomForOne(s, t);
    StepKeeps(s, WriteTryLook(t));
    OthersKeep(s1, more, t);
    RoomForOne(Exec(s1, more), t);
  }

  /** Nobody holds the lock or is counted. */
  predicate Free(s: State) { Readers(s) == {} && Writers(s) == {} }

  /** Without interference each trylock succeeds exactly when the lock allows it. */
  lemma TrylockAlone(threads: set<Tid>, acts: seq<Action>, t: Tid)
    requires |threads| <= 0x80_0000
    requires var s := Exec(Init(threads), acts); t in s.pc && s.pc[t].Idle?
    ensures var s := Exec(Init(threads), acts);
      var r, w := Exec(s, [ReadTryLook(t), ReadTryAdd(t)]), Exec(s, [WriteTryLook(t), WriteTryCas(t)]);
      && t in r.pc && r.pc[t] == (if Writers(s) == {} then Reading else Idle)
      && t in w.pc && w.pc[t] == (if Free(s) then Writing else Idle)
  {
    var s := Exec(Init(threads), acts);
    ReadTrylockOutcome(threads, acts, [], t);
    WriteTrylockOutcome(threads, acts, [], t);
    ExecTwo(s, ReadTryLook(t), ReadTryAdd(t));
    ExecTwo(s, WriteTryLook(t), WriteTryCas(t));
    assert Writers(Next(s, ReadTryLook(t))) == Writers(s);
    assert Writers(Next(s, WriteTryLook(t))) == Writers(s) && Readers(Next(s, WriteTryLook(t))) == Readers(s);
  }

  lemma ExecTwo(s: State, a: Action, b: Action)
    ensures Exec(s, [a, b]) == Next(Next(s, a), b)
  {
    assert [a, b] == [a] + [b] && [b] == [b] + [];
    Runs.ExecCons(Next, s, a, [b]);
    Runs.ExecCons(Next, Next(s, a), b, []);
  }

  /** Giving the lock back, or the count of a failed attempt, takes out exactly the thread. */
  lemma ReleaseOutcome(s: State, t: Tid)
    requires t in s.pc
    ensures s.pc[t].Reading? ==> Released(s, Next(s, ReadUnlock(t)), t, Idle)
    ensures s.pc[t].ReadUndo? ==> Released(s, Next(s, ReadTryUndo(t)), t, Idle)
    ensures s.pc[t].ReadParked? ==> Released(s, Next(s, SlowGiveBack(t)), t, ReadQueued)
    ensures s.pc[t].Writing? ==> Released(s, Next(s, WriteUnlock(t)), t, Idle)
  {}

  ghost predicate Released(s: State, s': State, t: Tid, pc: Pc) {
    s'.pc == s.pc[t := pc] && Readers(s') == Readers(s) - {t} && Writers(s') == Writers(s) - {t}
  }

  // ----- 2^23 threads is the exact limit

  function ReadAll(order: seq<Tid>): seq<Action> {
    seq(|order|, i requires 0 <= i < |order| => ReadLock(order[i]))
  }

  lemma {:induction false} AfterReads(threads: set<Tid>, order: seq<Tid>)
    requires Collections.Distinct(order)
    requires forall t :: t in order ==> t in threads
    ensures var s := Exec(Init(threads), ReadAll(order));
      && s.pc.Keys == threads && s.cnts == U32(512 * |order|)
      && (forall t :: t in threads ==> s.pc[t] == if t in order then Reading else Idle)
    decreases |order|
  {
    if order != [] {
      var k := |order| - 1;
      assert ReadAll(order)[..k] == ReadAll(order[..k]);
      AfterReads(threads, order[..k]);
      assert forall t :: t in order <==> t in order[..k] || t == order[k];
      AddReaderValue(k);
      AddReaderValue(k + 1);
      ReadLockEnters(Exec(Init(threads), ReadAll(order[..k])), order[k]);
    }
  }

  lemma AddReaderValue(k: nat)
    ensures AddReader(U32(512 * k)) == U32(512 * (k + 1)) && WriterBits(U32(512 * k)) == 0
  {
    AddAfterWrap(512 * k);
    WrapKeepsMultiple(k, U32(512 * k), 512 * k / 0x1_0000_0000);
  }

  lemma AddAfterWrap(x: int)
    ensures U32(U32(x) + 512) == U32(x + 512)
  {}

  lemma WrapKeepsMultiple(k: int, r: int, q: int)
    requires 512 * k == 0x1_0000_0000 * q + r
    ensures r % 512 == 0
  {
    assert r == 512 * (k - 0x80_0000 * q);
  }

  lemma ReadLockEnters(s: State, t: Tid)
    requires t in s.pc && s.pc[t].Idle? && WriterBits(AddReader(s.cnts)) == 0
    ensures Next(s, ReadLock(t)) == State(AddReader(s.cnts), s.pc[t := Reading])
  {}

  /** One thread more than 2^23 and the reader count wraps to zero under a writer: exclusion
      holds for a set of threads if and only if it has at most 2^23. */
  lemma ExclusionLimit(threads: set<Tid>)
    ensures (forall acts :: Exclusive(Exec(Init(threads), acts))) <==> |threads| <= 0x80_0000
  {
    if |threads| <= 0x80_0000 {
      forall acts
        ensures Exclusive(Exec(Init(threads), acts))
      {
        RunInvariant(threads, acts);
      }
    } else {
      var order := Collections.Choose(threads, 0x80_0001);
      var first, last := order[..0x80_0000], order[0x80_0000];
      AfterReads(threads, first);
      var acts := ReadAll(first) + [WriteLock(last)];
      assert acts[..|acts| - 1] == ReadAll(first);
      assert last !in first;
      var s := Exec(Init(threads), acts);
      assert s.pc[last] == Writing && s.pc[order[0]] == Reading && order[0] in s.pc;
      assert !Exclusive(Exec(Init(threads), acts));
    }
  }
}
