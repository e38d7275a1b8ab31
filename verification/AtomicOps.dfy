/** The compare-and-exchange loops of include/asm-generic/atomic.h as a state machine, and
    a proof that every interleaving of them is linearizable.

    A call is entered, reads the counter, retries its compare-and-exchange until it
    succeeds, and returns. Calls are numbered in the order they are entered; the number
    only names a call in the statements below and no step depends on it.
 */
module AtomicOps {
  import Bits
  import Runs

  type u32 = Bits.u32

  type Tid = nat

  /** The operators ATOMIC_OP, ATOMIC_OP_RETURN and ATOMIC_FETCH_OP are instantiated with. */
  datatype Op = Add | Sub | And | Or | Xor

  /** `generic_atomic_op`, `generic_atomic_op_return`, `generic_atomic_fetch_op` */
  datatype Kind = Plain | Return | Fetch

  datatype Call = Call(id: nat, kind: Kind, op: Op, i: u32)

  datatype Result = Nothing | Value(v: u32)

  /** `c c_op i` on 32-bit integers. */
  function Apply(op: Op, c: u32, i: u32): u32 {
    match op
    case Add => Bits.U32(c + i)
    case Sub => Bits.U32(c - i)
    case And => Bits.And32(c, i)
    case Or => Bits.Or32(c, i)
    case Xor => Bits.Xor32(c, i)
  }

  /** What a call returns when `c` is the value its successful exchange replaced. */
  function Returned(call: Call, c: u32): Result {
    match call.kind
    case Plain => Nothing
    case Return => Value(Apply(call.op, c, call.i))
    case Fetch => Value(c)
  }

  datatype Pc =
    | Idle
    | Entered(call: Call)               // before `c = v->counter`
    | Looping(call: Call, c: u32)      // before the next arch_cmpxchg
    | Returning(call: Call, c: u32)    // after the loop

  datatype State = State(counter: u32, calls: nat, pc: map<Tid, Pc>)

  datatype Action =
    | Enter(t: Tid, kind: Kind, op: Op, i: u32)
    | Read(t: Tid)
    | Cas(t: Tid)
    | Leave(t: Tid)

  datatype Event = Invoke(call: Call) | Respond(call: Call, ret: Result)

  function Init(threads: set<Tid>, v0: u32): State {
    State(v0, 0, map t | t in threads :: Idle)
  }

  function Next(s: State, a: Action): State {
    if a.t !in s.pc then s
    else
      var pc := s.pc[a.t];
      match a
      case Enter(t, kind, op, i) =>
        if pc.Idle? then s.(calls := s.calls + 1, pc := s.pc[t := Entered(Call(s.calls, kind, op, i))]) else s
      case Read(t) =>
        if pc.Entered? then s.(pc := s.pc[t := Looping(pc.call, s.counter)]) else s
      case Cas(t) =>
        if !pc.Looping? then s
        else if s.counter == pc.c then
          s.(counter := Apply(pc.call.op, pc.c, pc.call.i), pc := s.pc[t := Returning(pc.call, pc.c)])
        else s.(pc := s.pc[t := Looping(pc.call, s.counter)])
      case Leave(t) =>
        if pc.Returning? then s.(pc := s.pc[t := Idle]) else s
  }

  /** What the callers see: calls entered and calls returned. */
  function Events(s: State, a: Action): seq<Event> {
    if a.t !in s.pc then []
    else if a.Enter? && s.pc[a.t].Idle? then [Invoke(Call(s.calls, a.kind, a.op, a.i))]
    else if a.Leave? && s.pc[a.t].Returning? then
      [Respond(s.pc[a.t].call, Returned(s.pc[a.t].call, s.pc[a.t].c))]
    else []
  }

  /** The calls whose compare-and-exchange succeeds in a step. */
  function Commits(s: State, a: Action): seq<Call> {
    if a.t in s.pc && a.Cas? && s.pc[a.t].Looping? && s.counter == s.pc[a.t].c then [s.pc[a.t].call] else []
  }

  function Exec(s: State, acts: seq<Action>): State { Runs.Exec(Next, s, acts) }
  function History(s: State, acts: seq<Action>): seq<Event> { Runs.History(Next, Events, s, acts) }
  function CommitOrder(s: State, acts: seq<Action>): seq<Call> { Runs.History(Next, Commits, s, acts) }

  /** The counter after a list of calls executed one after the other. */
  function Replay(v: u32, order: seq<Call>): u32 {
    if order == [] then v
    else
      var k := |order| - 1;
      Apply(order[k].op, Replay(v, order[..k]), order[k].i)
  }

  /** The return seen in `e` is the one the sequential execution gives at some place. */
  ghost predicate ReturnsRight(v0: u32, e: Event, order: seq<Call>)
    requires e.Respond?
  {
    exists p :: ReturnsAt(v0, e, order, p)
  }

  ghost predicate ReturnsAt(v0: u32, e: Event, order: seq<Call>, p: int)
    requires e.Respond?
  {
    0 <= p < |order| && order[p] == e.call && e.ret == Returned(e.call, Replay(v0, order[..p]))
  }

  /** No call takes effect twice. */
  ghost predicate EffectsOnce(order: seq<Call>) {
    forall p, q :: 0 <= p < q < |order| ==> order[p].id != order[q].id
  }

  /** Every call that takes effect was made. */
  ghost predicate EffectsOfCalls(h: seq<Event>, order: seq<Call>) {
    forall p :: 0 <= p < |order| ==> Invoke(order[p]) in h
  }

  /** Every returned value is the one the sequential execution gives. */
  ghost predicate ReturnsExplained(v0: u32, h: seq<Event>, order: seq<Call>) {
    forall e :: e in h && e.Respond? ==> ReturnsRight(v0, e, order)
  }

  /** A call that returned before another was made comes before it. */
  ghost predicate RealTime(h: seq<Event>, order: seq<Call>) {
    forall x, y, p, q :: 0 <= x < y < |h| && 0 <= p < |order| && 0 <= q < |order| ==>
      h[x].Respond? && h[x].call == order[p] && h[y] == Invoke(order[q]) ==> p < q
  }

  /** The sequential execution `order` explains the history `h`. */
  ghost predicate Explains(v0: u32, h: seq<Event>, order: seq<Call>) {
    EffectsOnce(order) && EffectsOfCalls(h, order) && ReturnsExplained(v0, h, order) && RealTime(h, order)
  }

  // ----- the invariant

  predicate Active(pc: Pc) { !pc.Idle? }

  /** A call that was made and has not taken effect. */
  ghost predicate CallPending(call: Call, h: seq<Event>, order: seq<Call>) {
    Invoke(call) in h && forall p :: 0 <= p < |order| ==> order[p].id != call.id
  }

  ghost predicate PcOk(v0: u32, pc: Pc, h: seq<Event>, order: seq<Call>) {
    match pc
    case Idle => true
    case Entered(call) => CallPending(call, h, order)
    case Looping(call, _) => CallPending(call, h, order)
    case Returning(call, c) => ReturnsRight(v0, Respond(call, Returned(call, c)), order)
  }

  /** Threads work on different calls, and all calls are numbered below `s.calls`. */
  ghost predicate Numbered(s: State, h: seq<Event>) {
    && (forall e :: e in h ==> e.call.id < s.calls)
    && (forall t :: t in s.pc && Active(s.pc[t]) ==> s.pc[t].call.id < s.calls)
    && (forall t, u :: t in s.pc && u in s.pc && t != u && Active(s.pc[t]) && Active(s.pc[u]) ==>
          s.pc[t].call.id != s.pc[u].call.id)
  }

  ghost predicate Inv(v0: u32, s: State, h: seq<Event>, order: seq<Call>) {
    && Explains(v0, h, order)
    && s.counter == Replay(v0, order)
    && Numbered(s, h)
    && forall t :: t in s.pc ==> PcOk(v0, s.pc[t], h, order)
  }

  // ----- every step keeps it

  lemma PcOkLater(v0: u32, pc: Pc, h: seq<Event>, e: Event, order: seq<Call>)
    requires PcOk(v0, pc, h, order)
    ensures PcOk(v0, pc, h + [e], order)
  {}

  /** A new call cannot precede anything: it has not taken effect. */
  lemma InvokeExplains(v0: u32, h: seq<Event>, order: seq<Call>, call: Call)
    requires Explains(v0, h, order) && forall e :: e in h ==> e.call.id < call.id
    ensures Explains(v0, h + [Invoke(call)], order) && CallPending(call, h + [Invoke(call)], order)
  {
    var h' := h + [Invoke(call)];
    forall p | 0 <= p < |order|
      ensures order[p].id < call.id && Invoke(order[p]) in h'
    {
      assert Invoke(order[p]) in h;
    }
  }

  lemma EnterKeeps(v0: u32, s: State, a: Action, h: seq<Event>, order: seq<Call>)
    requires Inv(v0, s, h, order) && a.Enter? && a.t in s.pc && s.pc[a.t].Idle?
    ensures Inv(v0, Next(s, a), h + Events(s, a), order)
  {
    var s', call := Next(s, a), Call(s.calls, a.kind, a.op, a.i);
    InvokeExplains(v0, h, order, call);
    forall t | t in s'.pc
      ensures PcOk(v0, s'.pc[t], h + [Invoke(call)], order)
    {
      if t != a.t { PcOkLater(v0, s.pc[t], h, Invoke(call), order); }
    }
  }

  lemma RespondExplains(v0: u32, h: seq<Event>, order: seq<Call>, e: Event)
    requires Explains(v0, h, order) && e.Respond? && ReturnsRight(v0, e, order)
    ensures Explains(v0, h + [e], order)
  {
    var h' := h + [e];
    forall p | 0 <= p < |order|
      ensures Invoke(order[p]) in h'
    {
      assert Invoke(order[p]) in h;
    }
    RespondRealTime(h, order, e);
  }

  lemma RespondRealTime(h: seq<Event>, order: seq<Call>, e: Event)
    requires RealTime(h, order) && e.Respond?
    ensures RealTime(h + [e], order)
  {
    var h' := h + [e];
    forall x, y, p, q | 0 <= x < y < |h'| && 0 <= p < |order| && 0 <= q < |order|
      && h'[x].Respond? && h'[x].call == order[p] && h'[y] == Invoke(order[q])
      ensures p < q
    {
      assert y < |h| && h'[x] == h[x] && h'[y] == h[y];
    }
  }

  lemma LeaveKeeps(v0: u32, s: State, t: Tid, h: seq<Event>, order: seq<Call>, e: Event)
    requires Inv(v0, s, h, order) && t in s.pc && s.pc[t].Returning?
    requires e == Respond(s.pc[t].call, Returned(s.pc[t].call, s.pc[t].c))
    ensures Inv(v0, s.(pc := s.pc[t := Idle]), h + [e], order)
  {
    var s' := s.(pc := s.pc[t := Idle]);
    assert PcOk(v0, s.pc[t], h, order);
    RespondExplains(v0, h, order, e);
    LeaveNumbered(s, t, h, e);
    forall u | u in s'.pc
      ensures PcOk(v0, s'.pc[u], h + [e], order)
    {
      if u != t { PcOkLater(v0, s.pc[u], h, e, order); }
    }
  }

  lemma LeaveNumbered(s: State, t: Tid, h: seq<Event>, e: Event)
    requires Numbered(s, h) && t in s.pc && s.pc[t].Returning? && e.call == s.pc[t].call
    ensures Numbered(s.(pc := s.pc[t := Idle]), h + [e])
  {}

  lemma ReadKeeps(v0: u32, s: State, t: Tid, h: seq<Event>, order: seq<Call>)
    requires Inv(v0, s, h, order) && t in s.pc && (s.pc[t].Entered? || s.pc[t].Looping?)
    ensures Inv(v0, s.(pc := s.pc[t := Looping(s.pc[t].call, s.counter)]), h, order)
  {}

  lemma ReturnsLater(v0: u32, e: Event, order: seq<Call>, call: Call)
    requires e.Respond? && ReturnsRight(v0, e, order)
    ensures ReturnsRight(v0, e, order + [call])
  {
    var p :| ReturnsAt(v0, e, order, p);
    assert (order + [call])[..p] == order[..p];
    assert ReturnsAt(v0, e, order + [call], p);
  }

  /** A successful exchange appends its call to the explanation: every call that has
      already returned is in the order, hence before it. */
  lemma CommitExplains(v0: u32, h: seq<Event>, order: seq<Call>, call: Call)
    requires Explains(v0, h, order) && CallPending(call, h, order)
    ensures Explains(v0, h, order + [call])
  {
    var order' := order + [call];
    forall e | e in h && e.Respond?
      ensures ReturnsRight(v0, e, order')
    {
      ReturnsLater(v0, e, order, call);
    }
    CommitRealTime(v0, h, order, call);
  }

  lemma CommitRealTime(v0: u32, h: seq<Event>, order: seq<Call>, call: Call)
    requires Explains(v0, h, order) && CallPending(call, h, order)
    ensures RealTime(h, order + [call])
  {
    var order' := order + [call];
    forall x, y, p, q | 0 <= x < y < |h| && 0 <= p < |order'| && 0 <= q < |order'|
      && h[x].Respond? && h[x].call == order'[p] && h[y] == Invoke(order'[q])
      ensures p < q
    {
      assert ReturnsRight(v0, h[x], order);
      var r :| ReturnsAt(v0, h[x], order, r);
      assert p < |order|;
    }
  }

  lemma CommitKeeps(v0: u32, s: State, t: Tid, h: seq<Event>, order: seq<Call>)
    requires Inv(v0, s, h, order) && t in s.pc && s.pc[t].Looping? && s.counter == s.pc[t].c
    ensures Inv(v0, Next(s, Cas(t)), h, order + [s.pc[t].call])
  {
    var s', call := Next(s, Cas(t)), s.pc[t].call;
    assert PcOk(v0, s.pc[t], h, order);
    CommitExplains(v0, h, order, call);
    assert (order + [call])[..|order|] == order;
    forall u | u in s'.pc
      ensures PcOk(v0, s'.pc[u], h, order + [call])
    {
      if u == t {
        assert ReturnsAt(v0, Respond(call, Returned(call, s.pc[t].c)), order + [call], |order|);
      } else {
        OtherPcOk(v0, s.pc[u], h, order, call);
      }
    }
  }

  lemma OtherPcOk(v0: u32, pc: Pc, h: seq<Event>, order: seq<Call>, call: Call)
    requires PcOk(v0, pc, h, order) && (Active(pc) ==> pc.call.id != call.id)
    ensures PcOk(v0, pc, h, order + [call])
  {
    if pc.Returning? { ReturnsLater(v0, Respond(pc.call, Returned(pc.call, pc.c)), order, call); }
  }

  lemma StepKeeps(v0: u32, s: State, a: Action, h: seq<Event>, order: seq<Call>)
    requires Inv(v0, s, h, order)
    ensures Inv(v0, Next(s, a), h + Events(s, a), order + Commits(s, a))
  {
    assert h + [] == h && order + [] == order;
    if a.t in s.pc {
      match a {
        case Enter(_, _, _, _) => if s.pc[a.t].Idle? { EnterKeeps(v0, s, a, h, order); }
        case Read(t) => if s.pc[t].Entered? { ReadKeeps(v0, s, t, h, order); }
        case Cas(t) =>
          if s.pc[t].Looping? {
            if s.counter == s.pc[t].c { CommitKeeps(v0, s, t, h, order); } else { ReadKeeps(v0, s, t, h, order); }
          }
        case Leave(t) => if s.pc[t].Returning? { LeaveKeeps(v0, s, t, h, order, Events(s, a)[0]); }
      }
    }
  }

  lemma {:induction false} RunInvariant(threads: set<Tid>, v0: u32, acts: seq<Action>)
    ensures var s0 := Init(threads, v0);
      Inv(v0, Exec(s0, acts), History(s0, acts), CommitOrder(s0, acts))
  {
    var s0 := Init(threads, v0);
    if acts != [] {
      var k := |acts| - 1;
      RunInvariant(threads, v0, acts[..k]);
      StepKeeps(v0, Exec(s0, acts[..k]), acts[k], History(s0, acts[..k]), CommitOrder(s0, acts[..k]));
    }
  }

  // ----- what the operations promise

  /** Linearizability, for every interleaving of any number of threads: the calls, taken in
      the order of their successful exchanges, form a sequential execution that explains
      every return value and respects real time, and the counter is its final value. */
  lemma Linearizable(threads: set<Tid>, v0: u32, acts: seq<Action>)
    ensures var s0 := Init(threads, v0);
      && Explains(v0, History(s0, acts), CommitOrder(s0, acts))
      && Exec(s0, acts).counter == Replay(v0, CommitOrder(s0, acts))
  {
    RunInvariant(threads, v0, acts);
  }

  /** What callers get back: every response belongs to a call at some place of the commit order;
      a fetch operation returns the counter just before that place, a return operation the counter
      just after it, and a plain operation nothing. */
  lemma ReturnedValues(threads: set<Tid>, v0: u32, acts: seq<Action>, e: Event)
    requires e in History(Init(threads, v0), acts) && e.Respond?
    ensures exists p :: ReturnPlace(v0, CommitOrder(Init(threads, v0), acts), e.call, e.ret, p)
  {
    var order := CommitOrder(Init(threads, v0), acts);
    Linearizable(threads, v0, acts);
    assert ReturnsRight(v0, e, order);
    var p :| ReturnsAt(v0, e, order, p);
    PlaceOfReturn(v0, order, e, p);
  }

  lemma PlaceOfReturn(v0: u32, order: seq<Call>, e: Event, p: int)
    requires e.Respond? && ReturnsAt(v0, e, order, p)
    ensures ReturnPlace(v0, order, e.call, e.ret, p)
  {
    assert order[..p + 1][..p] == order[..p];
  }

  ghost predicate ReturnPlace(v0: u32, order: seq<Call>, call: Call, ret: Result, p: int) {
    && 0 <= p < |order| && order[p] == call
    && match call.kind
       case Plain => ret == Nothing
       case Return => ret == Value(Replay(v0, order[..p + 1]))
       case Fetch => ret == Value(Replay(v0, order[..p]))
  }

  /** The arithmetic operators are those of the integers modulo 2^32, and undo each other. */
  lemma ArithmeticOperators(c: u32, i: u32)
    ensures c + i < 0x1_0000_0000 ==> Apply(Add, c, i) == c + i
    ensures i <= c ==> Apply(Sub, c, i) == c - i
    ensures Apply(Sub, Apply(Add, c, i), i) == c && Apply(Add, Apply(Sub, c, i), i) == c
  {}

  /** The bitwise operators, digit by digit. */
  lemma BitwiseOperators(c: u32, i: u32, k: nat)
    ensures Bits.Bit(Apply(And, c, i), k) <==> Bits.Bit(c, k) && Bits.Bit(i, k)
    ensures Bits.Bit(Apply(Or, c, i), k) <==> Bits.Bit(c, k) || Bits.Bit(i, k)
    ensures Bits.Bit(Apply(Xor, c, i), k) <==> Bits.Bit(c, k) != Bits.Bit(i, k)
  {
    Bits.BitAnd(c, i, k);
    Bits.BitOr(c, i, k);
    Bits.BitXor(c, i, k);
  }

  /** A call that meets no interference is done after one pass of the loop. */
  lemma CallAlone(s: State, t: Tid, kind: Kind, op: Op, i: u32)
    requires t in s.pc && s.pc[t].Idle?
    ensures var call := Call(s.calls, kind, op, i);
      var s1 := Next(s, Enter(t, kind, op, i));
      var s2 := Next(s1, Read(t));
      var s3 := Next(s2, Cas(t));
      && Events(s, Enter(t, kind, op, i)) == [Invoke(call)] && Commits(s2, Cas(t)) == [call]
      && Next(s3, Leave(t)) == State(Apply(op, s.counter, i), s.calls + 1, s.pc)
      && Events(s3, Leave(t)) ==
           [Respond(call, match kind case Plain => Nothing
                          case Return => Value(Apply(op, s.counter, i)) case Fetch => Value(s.counter))]
  {
    assert s.pc[t := Idle] == s.pc;
  }

  /** After a failed exchange the thread has seen the present counter, so that its next one
      succeeds unless another call comes in between. */
  lemma RetrySucceeds(s: State, t: Tid)
    requires t in s.pc && s.pc[t].Looping? && Commits(s, Cas(t)) == []
    ensures Next(s, Cas(t)).counter == s.counter && Commits(Next(s, Cas(t)), Cas(t)) == [s.pc[t].call]
  {}

  /** Between commits the counter does not move. */
  lemma {:induction false} QuietCounter(s: State, acts: seq<Action>)
    requires CommitOrder(s, acts) == []
    ensures Exec(s, acts).counter == s.counter
  {
    if acts != [] {
      QuietCounter(s, acts[..|acts| - 1]);
    }
  }

  lemma {:induction false} OthersLeaveMeAlone(s: State, acts: seq<Action>, t: Tid)
    requires t in s.pc && forall k :: 0 <= k < |acts| ==> acts[k].t != t
    ensures t in Exec(s, acts).pc && Exec(s, acts).pc[t] == s.pc[t]
  {
    if acts != [] {
      OthersLeaveMeAlone(s, acts[..|acts| - 1], t);
    }
  }

  /** Lock freedom: an exchange fails only if, since the thread last looked at the counter,
      some other call has taken effect. */
  lemma FailureMeansProgress(s: State, t: Tid, acts: seq<Action>)
    requires t in s.pc && s.pc[t].Looping? && s.pc[t].c == s.counter
    requires forall k :: 0 <= k < |acts| ==> acts[k].t != t
    requires Commits(Exec(s, acts), Cas(t)) == []
    ensures CommitOrder(s, acts) != []
  {
    OthersLeaveMeAlone(s, acts, t);
    if CommitOrder(s, acts) == [] { QuietCounter(s, acts); }
  }
}
