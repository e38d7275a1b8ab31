/** The generic ticket lock (include/asm-generic/spinlock.h) as a state machine.

    Every atomic read, fetch-add, compare-and-exchange and half-word store is one step;
    an interleaving is any sequence of actions by any threads, and an action that is not
    enabled leaves the state alone. Steps are sequentially consistent.
 */
module TicketLock {
  import opened Bits
  import Collections
  import Runs

  type Tid = nat

  /** Where a thread is inside lock, trylock or unlock. */
  datatype Pc =
    | Idle
    | Waiting(ticket: u16)   // drew a ticket, spinning
    | Holding
    | Probed(read: u32)      // trylock read equal halves, compare-and-exchange still to come
    | Releasing(seen: u32)   // unlock read the word, half-word store still to come

  datatype State = State(word: u32, pc: map<Tid, Pc>)

  datatype Action =
    | LockDraw(t: Tid)
    | SpinRead(t: Tid)
    | TryRead(t: Tid)
    | TryCas(t: Tid)
    | UnlockRead(t: Tid)
    | UnlockStore(t: Tid)

  datatype Kind = Draw | Acquire | Release
  datatype Event = Event(kind: Kind, t: Tid)

  /** The upper half, the next ticket to draw: `val >> 16`. */
  function NextHalf(word: u32): u16 { word / 0x1_0000 }

  /** The lower half, the ticket being served: `(u16)val`. */
  function OwnerHalf(word: u32): u16 { word % 0x1_0000 }

  /** `(u16)(x + 1)` */
  function Succ(x: u16): u16 { if x == 0xffff then 0 else x + 1 }

  /** `val + (1 << 16)` in 32 bits. */
  function AddTicket(word: u32): (w: u32)
    ensures NextHalf(w) == Succ(NextHalf(word)) && OwnerHalf(w) == OwnerHalf(word)
  {
    U32(word + 0x1_0000)
  }

  /** The two half words in memory order. */
  function Halves(word: u32, bigEndian: bool): (h: seq<u16>)
    ensures |h| == 2
  {
    var next, owner := NextHalf(word), OwnerHalf(word);
    if bigEndian then [next, owner] else [owner, next]
  }

  function FromHalves(h: seq<u16>, bigEndian: bool): u32
    requires |h| == 2
  {
    if bigEndian then (h[0] as int) * 0x1_0000 + h[1] else (h[1] as int) * 0x1_0000 + h[0]
  }

  /** The word with a new lower half. */
  function StoreOwner(word: u32, v: u16): (w: u32)
    ensures NextHalf(w) == NextHalf(word) && OwnerHalf(w) == v
  {
    word - word % 0x1_0000 + v
  }

  /** `smp_store_release((u16 *)lock + IS_ENABLED(CONFIG_CPU_BIG_ENDIAN), v)` replaces the
      lower half and nothing else, in both byte orders. */
  lemma HalfWordStore(word: u32, bigEndian: bool, v: u16)
    ensures FromHalves(Halves(word, bigEndian)[if bigEndian then 1 else 0 := v], bigEndian) == StoreOwner(word, v)
  {
    var h := Halves(word, bigEndian);
    assert FromHalves(h, bigEndian) == word;
  }

  function Init(threads: set<Tid>): State {
    State(0, map t | t in threads :: Idle)
  }

  function Next(s: State, a: Action): State {
    if a.t !in s.pc then s
    else
      var pc := s.pc[a.t];
      match a
      case LockDraw(t) =>
        if !pc.Idle? then s
        else
          var ticket := NextHalf(s.word);
          s.(word := AddTicket(s.word),
             pc := s.pc[t := if ticket == OwnerHalf(s.word) then Holding else Waiting(ticket)])
      case SpinRead(t) =>
        if pc.Waiting? && pc.ticket == OwnerHalf(s.word) then s.(pc := s.pc[t := Holding]) else s
      case TryRead(t) =>
        if pc.Idle? && NextHalf(s.word) == OwnerHalf(s.word) then s.(pc := s.pc[t := Probed(s.word)]) else s
      case TryCas(t) =>
        if !pc.Probed? then s
        else if s.word == pc.read then s.(word := AddTicket(pc.read), pc := s.pc[t := Holding])
        else s.(pc := s.pc[t := Idle])
      case UnlockRead(t) =>
        if pc.Holding? then s.(pc := s.pc[t := Releasing(s.word)]) else s
      case UnlockStore(t) =>
        if !pc.Releasing? then s
        else
          s.(word := StoreOwner(s.word, Succ(OwnerHalf(pc.seen))), pc := s.pc[t := Idle])
  }

  predicate InQueue(pc: Pc) { pc.Waiting? || pc.Holding? || pc.Releasing? }
  predicate InCritical(pc: Pc) { pc.Holding? || pc.Releasing? }

  /** What an outside observer sees of a step: a ticket drawn, the lock entered, the lock left. */
  function Events(s: State, a: Action): seq<Event> {
    if a.t !in s.pc then []
    else
      var before, after := s.pc[a.t], Next(s, a).pc[a.t];
      (if !InQueue(before) && InQueue(after) then [Event(Draw, a.t)] else [])
      + (if !InCritical(before) && InCritical(after) then [Event(Acquire, a.t)] else [])
      + (if InQueue(before) && !InQueue(after) then [Event(Release, a.t)] else [])
  }

  /** The state after an interleaving. */
  function Exec(s: State, acts: seq<Action>): State { Runs.Exec(Next, s, acts) }

  /** Everything that happened along an interleaving, in order. */
  function History(s: State, acts: seq<Action>): seq<Event> { Runs.History(Next, Events, s, acts) }

  /** The threads of the events of one kind, in order. */
  function Of(h: seq<Event>, k: Kind): seq<Tid> {
    if h == [] then []
    else Of(h[..|h| - 1], k) + (if h[|h| - 1].kind == k then [h[|h| - 1].t] else [])
  }

  /** The tickets drawn and not yet released, oldest first. */
  function Outstanding(h: seq<Event>): seq<Tid> {
    var drawn, released := Of(h, Draw), |Of(h, Release)|;
    if released <= |drawn| then drawn[released..] else []
  }

  // ----- the abstract queue behind the 32-bit word

  /** The i-th ticket from `owner` on, counted modulo 2^16. */
  function Ticket(owner: u16, i: nat): u16 {
    if i == 0 then owner else Succ(Ticket(owner, i - 1))
  }

  lemma {:induction false} TicketShift(owner: u16, i: nat)
    ensures Ticket(Succ(owner), i) == Ticket(owner, i + 1)
  {
    if i > 0 { TicketShift(owner, i - 1); }
  }

  lemma {:induction false} TicketValue(owner: u16, i: nat)
    ensures Ticket(owner, i) == U16(owner + i)
  {
    if i > 0 { TicketValue(owner, i - 1); }
  }

  /** Within one lap a ticket identifies its place in the queue. */
  lemma TicketIsOwner(owner: u16, i: nat)
    requires i < 0x1_0000
    ensures Ticket(owner, i) == owner <==> i == 0
  {
    TicketValue(owner, i);
  }

  /** The lock word and the program counters represent the queue `q` of outstanding
      tickets, oldest first. */
  ghost predicate Represents(s: State, q: seq<Tid>) {
    && NextHalf(s.word) == Ticket(OwnerHalf(s.word), |q|)
    && Collections.Distinct(q)
    && (forall t :: t in q ==> t in s.pc && InQueue(s.pc[t]))
    && (forall t :: t in s.pc && InQueue(s.pc[t]) ==> t in q)
    && (forall i :: 0 <= i < |q| && s.pc[q[i]].Waiting? ==>
          s.pc[q[i]].ticket == Ticket(OwnerHalf(s.word), i))
    && (forall i :: 0 < i < |q| ==> s.pc[q[i]].Waiting?)
    && (q != [] && s.pc[q[0]].Releasing? ==> OwnerHalf(s.pc[q[0]].seen) == OwnerHalf(s.word))
    && (forall t :: t in s.pc && s.pc[t].Probed? ==>
          NextHalf(s.pc[t].read) == OwnerHalf(s.pc[t].read))
  }

  lemma OutsiderCount(q: seq<Tid>, t: Tid, threads: set<Tid>)
    requires Collections.Distinct(q) && (forall u :: u in q ==> u in threads) && t in threads && t !in q
    ensures |q| < |threads|
  {
    Collections.DistinctCount(q, threads - {t});
  }

  /** Is the oldest ticket holder inside the critical section? */
  ghost predicate Entered(s: State, q: seq<Tid>)
    requires Represents(s, q)
  {
    q != [] && InCritical(s.pc[q[0]])
  }

  /** The five things a step of thread t can look like from outside, where `in0` and `in1`
      say whether the oldest ticket holder is inside before and after. */
  ghost predicate EventShape(e: seq<Event>, t: Tid, q: seq<Tid>, q': seq<Tid>, in0: bool, in1: bool) {
    || (e == [] && q' == q && in1 == in0)
    || (e == [Event(Draw, t)] && q != [] && q' == q + [t] && in1 == in0)
    || (e == [Event(Draw, t), Event(Acquire, t)] && q == [] && q' == [t] && !in0 && in1)
    || (e == [Event(Acquire, t)] && q' == q && q != [] && q[0] == t && !in0 && in1)
    || (e == [Event(Release, t)] && q != [] && q[0] == t && q' == q[1..] && in0 && !in1)
  }

  ghost predicate StepShape(s: State, a: Action, q: seq<Tid>, q': seq<Tid>)
    requires Represents(s, q) && Represents(Next(s, a), q')
  {
    EventShape(Events(s, a), a.t, q, q', Entered(s, q), Entered(Next(s, a), q'))
  }

  // ----- every step keeps the representation

  lemma LockDrawKeeps(s: State, t: Tid, q: seq<Tid>)
    requires Represents(s, q) && t in s.pc && s.pc[t].Idle? && |q| < 0x1_0000
    ensures Represents(Next(s, LockDraw(t)), q + [t])
  {
    TicketIsOwner(OwnerHalf(s.word), |q|);
  }

  lemma LockDrawShape(s: State, t: Tid, q: seq<Tid>)
    requires Represents(s, q) && t in s.pc && s.pc[t].Idle? && |q| < 0x1_0000
    requires Represents(Next(s, LockDraw(t)), q + [t])
    ensures StepShape(s, LockDraw(t), q, q + [t])
  {
    TicketIsOwner(OwnerHalf(s.word), |q|);
    assert (q + [t])[0] == if q == [] then t else q[0];
  }

  lemma TryCasKeeps(s: State, t: Tid, q: seq<Tid>) returns (q': seq<Tid>)
    requires Represents(s, q) && t in s.pc && s.pc[t].Probed? && |q| < 0x1_0000
    ensures Represents(Next(s, TryCas(t)), q')
    ensures StepShape(s, TryCas(t), q, q')
    ensures if s.word == s.pc[t].read then q == [] && q' == [t] && Next(s, TryCas(t)).pc[t] == Holding
            else q' == q && Next(s, TryCas(t)).pc[t] == Idle
  {
    TicketIsOwner(OwnerHalf(s.word), |q|);
    q' := if s.word == s.pc[t].read then [t] else q;
  }

  lemma UnlockStoreKeeps(s: State, t: Tid, q: seq<Tid>)
    requires Represents(s, q) && t in s.pc && s.pc[t].Releasing?
    ensures q != [] && q[0] == t && Represents(Next(s, UnlockStore(t)), q[1..])
  {
    var s', r := Next(s, UnlockStore(t)), q[1..];
    assert t in q;
    assert forall u :: u in q <==> u == t || u in r;
    assert t !in r;
    TicketShift(OwnerHalf(s.word), |r|);
    forall i | 0 <= i < |r|
      ensures r[i] == q[i + 1] && s'.pc[r[i]].Waiting?
      ensures s'.pc[r[i]].ticket == Ticket(OwnerHalf(s'.word), i)
    {
      TicketShift(OwnerHalf(s.word), i);
    }
  }

  lemma UnlockStoreShape(s: State, t: Tid, q: seq<Tid>)
    requires Represents(s, q) && t in s.pc && s.pc[t].Releasing? && q != [] && q[0] == t
    requires Represents(Next(s, UnlockStore(t)), q[1..])
    ensures StepShape(s, UnlockStore(t), q, q[1..])
  {
    if |q| > 1 { assert q[1..][0] == q[1]; }
  }

  lemma SpinReadKeeps(s: State, t: Tid, q: seq<Tid>)
    requires Represents(s, q) && t in s.pc && s.pc[t].Waiting? && |q| <= 0x1_0000
    ensures Represents(Next(s, SpinRead(t)), q)
    ensures StepShape(s, SpinRead(t), q, q)
    ensures s.pc[t].ticket == OwnerHalf(s.word) <==> t == q[0]
  {
    assert t in q;
    var i :| 0 <= i < |q| && q[i] == t;
    TicketIsOwner(OwnerHalf(s.word), i);
  }

  lemma TryReadKeeps(s: State, t: Tid, q: seq<Tid>)
    requires Represents(s, q)
    ensures Represents(Next(s, TryRead(t)), q)
    ensures StepShape(s, TryRead(t), q, q)
  {}

  lemma UnlockReadKeeps(s: State, t: Tid, q: seq<Tid>)
    requires Represents(s, q)
    ensures Represents(Next(s, UnlockRead(t)), q)
    ensures StepShape(s, UnlockRead(t), q, q)
  {
    if t in s.pc && s.pc[t].Holding? { assert t in q; }
  }

  lemma StepKeeps(s: State, a: Action, q: seq<Tid>) returns (q': seq<Tid>)
    requires Represents(s, q) && |s.pc| <= 0x1_0000
    ensures Represents(Next(s, a), q') && StepShape(s, a, q, q')
  {
    q' := q;
    if a.t in s.pc {
      QueueFits(s, q);
      match a {
        case LockDraw(t) =>
          if s.pc[t].Idle? { LockDrawKeeps(s, t, q); LockDrawShape(s, t, q); q' := q + [t]; } else { NoStep(s, a, q); }
        case SpinRead(t) =>
          if s.pc[t].Waiting? { SpinReadKeeps(s, t, q); } else { NoStep(s, a, q); }
        case TryRead(t) => TryReadKeeps(s, t, q);
        case TryCas(t) =>
          if s.pc[t].Probed? { q' := TryCasKeeps(s, t, q); } else { NoStep(s, a, q); }
        case UnlockRead(t) => UnlockReadKeeps(s, t, q);
        case UnlockStore(t) =>
          if s.pc[t].Releasing? {
            UnlockStoreKeeps(s, t, q);
            UnlockStoreShape(s, t, q);
            q' := q[1..];
          } else { NoStep(s, a, q); }
      }
    }
  }

  lemma QueueFits(s: State, q: seq<Tid>)
    requires Represents(s, q)
    ensures |q| <= |s.pc|
    ensures forall t :: t in s.pc && !InQueue(s.pc[t]) ==> |q| < |s.pc|
  {
    Collections.DistinctCount(q, s.pc.Keys);
    forall t | t in s.pc && !InQueue(s.pc[t])
      ensures |q| < |s.pc|
    {
      OutsiderCount(q, t, s.pc.Keys);
    }
  }

  lemma SameThreads(s: State, a: Action)
    ensures Next(s, a).pc.Keys == s.pc.Keys
  {}

  lemma NoStep(s: State, a: Action, q: seq<Tid>)
    requires Represents(s, q) && Next(s, a) == s
    ensures StepShape(s, a, q, q)
  {}

  // ----- every interleaving

  lemma {:induction false} OfAppend(g: seq<Event>, h: seq<Event>, k: Kind)
    ensures Of(g + h, k) == Of(g, k) + Of(h, k)
  {
    if h == [] {
      assert g + h == g;
    } else {
      var n := |h| - 1;
      assert (g + h)[..|g + h| - 1] == g + h[..n];
      OfAppend(g, h[..n], k);
    }
  }

  lemma OfOne(e: Event, k: Kind)
    ensures Of([e], k) == if e.kind == k then [e.t] else []
  {
    assert [e][..0] == [];
  }

  lemma OfTwo(e: Event, f: Event, k: Kind)
    ensures Of([e, f], k) == Of([e], k) + Of([f], k)
  {
    assert [e, f] == [e] + [f];
    OfAppend([e], [f], k);
  }

  /** The three projections of the history describe one queue: tickets are released in
      the order they were drawn, and entered in the order they were drawn. */
  ghost predicate InOrder(h: seq<Event>, inside: bool) {
    var drawn, entered, released := Of(h, Draw), Of(h, Acquire), Of(h, Release);
    && released <= entered <= drawn
    && |entered| == |released| + (if inside then 1 else 0)
  }

  ghost predicate RunInv(s: State, h: seq<Event>) {
    Represents(s, Outstanding(h)) && InOrder(h, Entered(s, Outstanding(h)))
  }

  lemma {:induction false} RunInvariant(threads: set<Tid>, acts: seq<Action>)
    requires |threads| <= 0x1_0000
    ensures var s := Exec(Init(threads), acts);
      s.pc.Keys == threads && RunInv(s, History(Init(threads), acts))
  {
    var s0 := Init(threads);
    if acts != [] {
      var k := |acts| - 1;
      var s, h := Exec(s0, acts[..k]), History(s0, acts[..k]);
      RunInvariant(threads, acts[..k]);
      var q' := StepKeeps(s, acts[k], Outstanding(h));
      SameThreads(s, acts[k]);
      HistoryStep(h, Events(s, acts[k]), acts[k].t, q', Entered(s, Outstanding(h)), Entered(Next(s, acts[k]), q'));
    }
  }

  lemma OfShort(e: seq<Event>, k: Kind)
    requires |e| <= 2
    ensures Of(e, k) == (if |e| > 0 && e[0].kind == k then [e[0].t] else [])
                        + (if |e| > 1 && e[1].kind == k then [e[1].t] else [])
  {
    if |e| == 1 {
      OfOne(e[0], k);
      assert e == [e[0]];
    } else if |e| == 2 {
      OfOne(e[0], k);
      OfOne(e[1], k);
      OfTwo(e[0], e[1], k);
      assert e == [e[0], e[1]];
    }
  }

  lemma ShapeProjections(e: seq<Event>, t: Tid, q: seq<Tid>, q': seq<Tid>, in0: bool, in1: bool)
    requires EventShape(e, t, q, q', in0, in1)
    ensures Of(e, Draw) == if |e| > 0 && e[0].kind == Draw then [t] else []
    ensures Of(e, Acquire) == if |e| > 0 && e[|e| - 1].kind == Acquire then [t] else []
    ensures Of(e, Release) == if |e| > 0 && e[0].kind == Release then [t] else []
  {
    OfShort(e, Draw);
    OfShort(e, Acquire);
    OfShort(e, Release);
  }

  /** Outstanding tickets computed from the two projections that matter. */
  lemma OutstandingIs(h: seq<Event>, drawn: seq<Tid>, released: seq<Tid>)
    requires Of(h, Draw) == drawn && Of(h, Release) == released && |released| <= |drawn|
    ensures Outstanding(h) == drawn[|released|..]
  {}

  lemma HistoryStep(h: seq<Event>, e: seq<Event>, t: Tid, q': seq<Tid>, in0: bool, in1: bool)
    requires InOrder(h, in0) && EventShape(e, t, Outstanding(h), q', in0, in1)
    ensures InOrder(h + e, in1) && Outstanding(h + e) == q'
  {
    var drawn, entered, released := Of(h, Draw), Of(h, Acquire), Of(h, Release);
    OfAppend(h, e, Draw);
    OfAppend(h, e, Acquire);
    OfAppend(h, e, Release);
    ShapeProjections(e, t, Outstanding(h), q', in0, in1);
    ProjectionsStep(drawn, entered, released, e, t, drawn[|released|..], q', in0, in1);
    OutstandingIs(h + e, Of(h + e, Draw), Of(h + e, Release));
  }

  lemma ProjectionsStep(drawn: seq<Tid>, entered: seq<Tid>, released: seq<Tid>,
                        e: seq<Event>, t: Tid, q: seq<Tid>, q': seq<Tid>, in0: bool, in1: bool)
    requires released <= entered <= drawn && |entered| == |released| + (if in0 then 1 else 0)
    requires q == drawn[|released|..] && EventShape(e, t, q, q', in0, in1)
    ensures var d, a, r :=
              drawn + (if |e| > 0 && e[0].kind == Draw then [t] else []),
              entered + (if |e| > 0 && e[|e| - 1].kind == Acquire then [t] else []),
              released + (if |e| > 0 && e[0].kind == Release then [t] else []);
      r <= a <= d && |a| == |r| + (if in1 then 1 else 0) && q' == d[|r|..]
  {
    if q != [] { assert drawn[|released|] == q[0]; }
  }

  // ----- what the lock promises

  ghost predicate Exclusive(s: State) {
    forall t, u :: t in s.pc && u in s.pc && InCritical(s.pc[t]) && InCritical(s.pc[u]) ==> t == u
  }

  lemma RepresentsExclusive(s: State, q: seq<Tid>)
    requires Represents(s, q)
    ensures Exclusive(s)
  {
    forall t, u | t in s.pc && u in s.pc && InCritical(s.pc[t]) && InCritical(s.pc[u])
      ensures t == u
    {
      assert t in q && u in q;
    }
  }

  /** Mutual exclusion, for every interleaving of at most 2^16 threads. */
  lemma MutualExclusion(threads: set<Tid>, acts: seq<Action>)
    requires |threads| <= 0x1_0000
    ensures Exclusive(Exec(Init(threads), acts))
  {
    RunInvariant(threads, acts);
    var s0 := Init(threads);
    RepresentsExclusive(Exec(s0, acts), Outstanding(History(s0, acts)));
  }

  /** First come, first served: threads enter in the order in which they drew tickets,
      leave in the order in which they entered, and at most one is inside. */
  lemma FirstComeFirstServed(threads: set<Tid>, acts: seq<Action>)
    requires |threads| <= 0x1_0000
    ensures var h := History(Init(threads), acts);
      Of(h, Release) <= Of(h, Acquire) <= Of(h, Draw) && |Of(h, Acquire)| <= |Of(h, Release)| + 1
  {
    RunInvariant(threads, acts);
  }

  /** Is the spin condition `ticket == (u16)VAL` of a waiting thread true? */
  predicate SpinEnds(s: State, t: Tid) {
    t in s.pc && s.pc[t].Waiting? && s.pc[t].ticket == OwnerHalf(s.word)
  }

  /** If nobody is inside while somebody waits, exactly one waiter can stop spinning. */
  lemma ExactlyOneProceeds(threads: set<Tid>, acts: seq<Action>, w: Tid)
    requires |threads| <= 0x1_0000
    requires var s := Exec(Init(threads), acts);
      && w in s.pc && s.pc[w].Waiting?
      && forall t :: t in s.pc ==> !InCritical(s.pc[t])
    ensures var s := Exec(Init(threads), acts);
      exists t :: SpinEnds(s, t) && forall u :: SpinEnds(s, u) ==> u == t
  {
    RunInvariant(threads, acts);
    var s0 := Init(threads);
    var s, q := Exec(s0, acts), Outstanding(History(s0, acts));
    assert w in q;
    QueueFits(s, q);
    assert s.pc[q[0]].Waiting?;
    SpinReadKeeps(s, q[0], q);
    assert SpinEnds(s, q[0]);
    forall u | SpinEnds(s, u)
      ensures u == q[0]
    {
      SpinReadKeeps(s, u, q);
    }
  }

  /** A waiter with d tickets ahead of it: until it enters, at most d unlocks happen, it
      keeps waiting, and its spin condition is true exactly after the d-th of them. */
  lemma Countdown(threads: set<Tid>, acts: seq<Action>, more: seq<Action>, t: Tid, d: nat)
    requires |threads| <= 0x1_0000
    requires var s0 := Init(threads);
      var s, q := Exec(s0, acts), Outstanding(History(s0, acts));
      && t in s.pc && s.pc[t].Waiting? && d < |q| && q[d] == t
      && t !in Of(History(s, more), Acquire)
    ensures var s := Exec(Init(threads), acts);
      var s', unlocks := Exec(s, more), |Of(History(s, more), Release)|;
      && unlocks <= d && t in s'.pc && s'.pc[t].Waiting?
      && (SpinEnds(s', t) <==> unlocks == d)
  {
    var s0 := Init(threads);
    RunInvariant(threads, acts);
    RunInvariant(threads, acts + more);
    Runs.ExecAppend(Next, s0, acts, more);
    Runs.HistoryAppend(Next, Events, s0, acts, more);
    var s, h := Exec(s0, acts), History(s0, acts);
    var s', e := Exec(s, more), History(s, more);
    var q, q' := Outstanding(h), Outstanding(h + e);
    var i := PlaceAdvances(h, e, d, Entered(s, q), Entered(s', q'));
    PlaceDecides(s', q', i);
  }

  lemma PlaceDecides(s: State, q: seq<Tid>, i: nat)
    requires Represents(s, q) && |s.pc| <= 0x1_0000 && i < |q| && (Entered(s, q) ==> i > 0)
    ensures s.pc[q[i]].Waiting? && (SpinEnds(s, q[i]) <==> i == 0)
  {
    QueueFits(s, q);
    SpinReadKeeps(s, q[i], q);
  }

  /** Where a ticket that is not entered meanwhile ends up in the queue. */
  lemma PlaceAdvances(h: seq<Event>, e: seq<Event>, d: nat, in0: bool, in1: bool) returns (i: nat)
    requires InOrder(h, in0) && InOrder(h + e, in1)
    requires d < |Outstanding(h)| && (in0 ==> d > 0)
    requires Outstanding(h)[d] !in Of(e, Acquire)
    ensures |Of(e, Release)| <= d && i == d - |Of(e, Release)| < |Outstanding(h + e)|
    ensures Outstanding(h + e)[i] == Outstanding(h)[d] && (in1 ==> i > 0)
  {
    OfAppend(h, e, Draw);
    OfAppend(h, e, Acquire);
    OfAppend(h, e, Release);
    var drawn, entered, released := Of(e, Draw), Of(e, Acquire), Of(e, Release);
    OutstandingIs(h + e, Of(h, Draw) + drawn, Of(h, Release) + released);
    PlaceKept(Of(h, Draw), Of(h, Acquire), Of(h, Release), drawn, entered, released, d, in0, in1,
              Outstanding(h), Outstanding(h + e));
    i := d - |released|;
  }

  /** The same on the projections: what was not entered meanwhile was not released either. */
  lemma PlaceKept(drawn: seq<Tid>, entered: seq<Tid>, released: seq<Tid>,
                  drawn': seq<Tid>, entered': seq<Tid>, released': seq<Tid>,
                  d: nat, in0: bool, in1: bool, q: seq<Tid>, q': seq<Tid>)
    requires released <= entered <= drawn && |entered| == |released| + (if in0 then 1 else 0)
    requires released + released' <= entered + entered' <= drawn + drawn'
    requires |entered + entered'| == |released + released'| + (if in1 then 1 else 0)
    requires q == drawn[|released|..] && q' == (drawn + drawn')[|released + released'|..]
    requires d < |q| && (in0 ==> d > 0) && q[d] !in entered'
    ensures |released'| + (if in1 then 1 else 0) <= d && d - |released'| < |q'| && q'[d - |released'|] == q[d]
  {
    forall k | |entered| <= k < |entered + entered'|
      ensures (drawn + drawn')[k] in entered'
    {
      assert (entered + entered')[k] == (drawn + drawn')[k];
    }
    assert (drawn + drawn')[|released| + d] == drawn[|released| + d];
  }

  // ----- the queries

  // ----- what each call comes to

  ghost predicate Others(acts: seq<Action>, t: Tid) { forall k :: 0 <= k < |acts| ==> acts[k].t != t }

  lemma {:induction false} OthersLeaveMeAlone(s: State, acts: seq<Action>, t: Tid)
    requires t in s.pc && Others(acts, t)
    ensures t in Exec(s, acts).pc && Exec(s, acts).pc[t] == s.pc[t]
  {
    if acts != [] {
      OthersLeaveMeAlone(s, acts[..|acts| - 1], t);
    }
  }

  /** `arch_spin_lock` on a free lock returns at once; otherwise it leaves the thread waiting. */
  lemma LockOutcome(threads: set<Tid>, acts: seq<Action>, t: Tid)
    requires |threads| <= 0x1_0000
    requires var s := Exec(Init(threads), acts); t in s.pc && s.pc[t].Idle?
    ensures var s, q := Exec(Init(threads), acts), Outstanding(History(Init(threads), acts));
      var pc := Next(s, LockDraw(t)).pc[t];
      if q == [] then pc.Holding? else pc.Waiting?
  {
    RunInvariant(threads, acts);
    FreeIffEmpty(Exec(Init(threads), acts), Outstanding(History(Init(threads), acts)), t);
  }

  /** For a thread outside the queue, equal halves of the word mean that the queue is empty. */
  lemma FreeIffEmpty(s: State, q: seq<Tid>, t: Tid)
    requires Represents(s, q) && |s.pc| <= 0x1_0000 && t in s.pc && !InQueue(s.pc[t])
    ensures NextHalf(s.word) == OwnerHalf(s.word) <==> q == []
  {
    QueueFits(s, q);
    TicketIsOwner(OwnerHalf(s.word), |q|);
  }

  /** A waiter whose spin condition is true enters at its next look, any other keeps waiting. */
  lemma SpinOutcome(s: State, t: Tid)
    requires t in s.pc && s.pc[t].Waiting?
    ensures if SpinEnds(s, t) then Next(s, SpinRead(t)) == s.(pc := s.pc[t := Holding]) else Next(s, SpinRead(t)) == s
  {}

  /** `arch_spin_trylock`, with any steps of other threads between its read and its exchange: it
      succeeds if and only if nobody held or waited for the lock at the read and the word is the
      same again at the exchange. Otherwise it fails and the thread is idle again. */
  lemma TrylockOutcome(threads: set<Tid>, acts: seq<Action>, more: seq<Action>, t: Tid)
    requires |threads| <= 0x1_0000 && Others(more, t)
    requires var s := Exec(Init(threads), acts); t in s.pc && s.pc[t].Idle?
    ensures var s, q := Exec(Init(threads), acts), Outstanding(History(Init(threads), acts));
      var s' := Exec(Next(s, TryRead(t)), more);
      t in s'.pc && Next(s', TryCas(t)).pc[t] == if q == [] && s'.word == s.word then Holding else Idle
  {
    var s := Exec(Init(threads), acts);
    RunInvariant(threads, acts);
    FreeIffEmpty(s, Outstanding(History(Init(threads), acts)), t);
    OthersLeaveMeAlone(Next(s, TryRead(t)), more, t);
  }

  /** Without interference, trylock succeeds exactly on a free lock. */
  lemma TrylockAlone(threads: set<Tid>, acts: seq<Action>, t: Tid)
    requires |threads| <= 0x1_0000
    requires var s := Exec(Init(threads), acts); t in s.pc && s.pc[t].Idle?
    ensures var s, q := Exec(Init(threads), acts), Outstanding(History(Init(threads), acts));
      var s' := Exec(s, [TryRead(t), TryCas(t)]);
      t in s'.pc && s'.pc[t] == if q == [] then Holding else Idle
  {
    var s := Exec(Init(threads), acts);
    TrylockOutcome(threads, acts, [], t);
    assert [TryRead(t), TryCas(t)] == [TryRead(t)] + [TryCas(t)] && [TryCas(t)] == [TryCas(t)] + [];
    Runs.ExecCons(Next, s, TryRead(t), [TryCas(t)]);
    Runs.ExecCons(Next, Next(s, TryRead(t)), TryCas(t), []);
  }

  /** `arch_spin_unlock` by the holder, with any steps of other threads between its read and its
      store: the thread is idle, and the queue has lost its head, the thread itself, and nothing
      else. */
  lemma UnlockOutcome(threads: set<Tid>, acts: seq<Action>, more: seq<Action>, t: Tid)
    requires |threads| <= 0x1_0000 && Others(more, t)
    requires var s := Exec(Init(threads), acts); t in s.pc && s.pc[t].Holding?
    ensures var before := acts + [UnlockRead(t)] + more;
      var s, q := Exec(Init(threads), before), Outstanding(History(Init(threads), before));
      var after := before + [UnlockStore(t)];
      && q != [] && q[0] == t
      && t in Exec(Init(threads), after).pc && Exec(Init(threads), after).pc[t] == Idle
      && Outstanding(History(Init(threads), after)) == q[1..]
  {
    var s0 := Init(threads);
    var read := acts + [UnlockRead(t)];
    var before := read + more;
    var after := before + [UnlockStore(t)];
    assert read[..|acts|] == acts && after[..|before|] == before;
    Runs.ExecAppend(Next, s0, read, more);
    OthersLeaveMeAlone(Exec(s0, read), more, t);
    RunInvariant(threads, before);
    ReleaseOutcome(Exec(s0, before), History(s0, before), t);
  }

  lemma ReleaseOutcome(s: State, h: seq<Event>, t: Tid)
    requires RunInv(s, h) && t in s.pc && s.pc[t].Releasing?
    ensures var q := Outstanding(h);
      && q != [] && q[0] == t && t in Next(s, UnlockStore(t)).pc && Next(s, UnlockStore(t)).pc[t] == Idle
      && Outstanding(h + Events(s, UnlockStore(t))) == q[1..]
  {
    UnlockStoreKeeps(s, t, Outstanding(h));
    ReleaseEvent(s, t);
    HeadReleased(h, t);
  }

  lemma ReleaseEvent(s: State, t: Tid)
    requires t in s.pc && s.pc[t].Releasing?
    ensures Events(s, UnlockStore(t)) == [Event(Release, t)]
    ensures t in Next(s, UnlockStore(t)).pc && Next(s, UnlockStore(t)).pc[t] == Idle
  {}

  lemma HeadReleased(h: seq<Event>, t: Tid)
    requires Outstanding(h) != []
    ensures Outstanding(h + [Event(Release, t)]) == Outstanding(h)[1..]
  {
    var e := Event(Release, t);
    OfAppend(h, [e], Draw);
    OfAppend(h, [e], Release);
    OfOne(e, Draw);
    OfOne(e, Release);
    var drawn, released := Of(h, Draw), Of(h, Release);
    ShorterTail(drawn, |released|);
    OutstandingIs(h, drawn, released);
    OutstandingIs(h + [e], drawn, released + [t]);
  }

  lemma ShorterTail(drawn: seq<Tid>, n: nat)
    requires n < |drawn|
    ensures drawn[n..] != [] && drawn[n + 1..] == drawn[n..][1..]
  {}

  /** `arch_spin_is_locked` */
  predicate IsLocked(word: u32) { NextHalf(word) != OwnerHalf(word) }

  /** `arch_spin_is_contended`: `(s16)((val >> 16) - (val & 0xffff)) > 1` */
  predicate IsContended(word: u32) {
    var diff := U16(U32(NextHalf(word) - OwnerHalf(word)));
    (if diff < 0x8000 then diff else diff - 0x1_0000) > 1
  }

  /** The queries count outstanding tickets: `is_locked` is exact up to 2^16 - 1 of them,
      `is_contended` reports two or more only while there are fewer than 2^15. */
  lemma QueriesCountTickets(threads: set<Tid>, acts: seq<Action>)
    requires |threads| <= 0x1_0000
    ensures var s0 := Init(threads);
      var word, n := Exec(s0, acts).word, |Outstanding(History(s0, acts))|;
      && n <= 0x1_0000
      && (IsLocked(word) <==> 0 < n < 0x1_0000)
      && (IsContended(word) <==> 2 <= n < 0x8000)
  {
    RunInvariant(threads, acts);
    var s0 := Init(threads);
    var s, q := Exec(s0, acts), Outstanding(History(s0, acts));
    QueueFits(s, q);
    WordCounts(s.word, |q|);
  }

  lemma WordCounts(word: u32, n: nat)
    requires NextHalf(word) == Ticket(OwnerHalf(word), n) && n <= 0x1_0000
    ensures IsLocked(word) <==> 0 < n < 0x1_0000
    ensures IsContended(word) <==> 2 <= n < 0x8000
  {
    TicketValue(OwnerHalf(word), n);
    HalvesDifference(NextHalf(word), OwnerHalf(word), n);
    HalvesDiffer(NextHalf(word), OwnerHalf(word), n);
  }

  lemma HalvesDiffer(next: u16, owner: u16, n: nat)
    requires next == U16(owner + n) && n <= 0x1_0000
    ensures next != owner <==> 0 < n < 0x1_0000
  {}

  lemma HalvesDifference(next: u16, owner: u16, n: nat)
    requires next == U16(owner + n) && n <= 0x1_0000
    ensures U16(U32(next - owner)) == if n == 0x1_0000 then 0 else n
  {
    var wrapped := if next >= owner then next - owner else next - owner + 0x1_0000;
    assert U16(U32(next - owner)) == wrapped;
  }

  // ----- 2^16 threads is the exact limit

  function DrawAll(order: seq<Tid>): seq<Action> {
    seq(|order|, i requires 0 <= i < |order| => LockDraw(order[i]))
  }

  lemma {:induction false} AfterDraws(threads: set<Tid>, order: seq<Tid>)
    requires Collections.Distinct(order) && |order| <= 0x1_0000 && forall t :: t in order ==> t in threads
    ensures var s := Exec(Init(threads), DrawAll(order));
      && s.pc.Keys == threads && OwnerHalf(s.word) == 0 && NextHalf(s.word) == U16(|order|)
      && (forall t :: t in threads && t !in order ==> s.pc[t] == Idle)
      && (order != [] ==> s.pc[order[0]] == Holding)
    decreases |order|
  {
    if order != [] {
      var k := |order| - 1;
      assert DrawAll(order)[..k] == DrawAll(order[..k]);
      AfterDraws(threads, order[..k]);
      SuccValue(k);
      assert forall t :: t in order <==> t in order[..k] || t == order[k];
    }
  }

  lemma SuccValue(k: nat)
    ensures Succ(U16(k)) == U16(k + 1)
  {}

  /** Every number of outstanding tickets up to the number of threads occurs, so the answers that
      mislead do: with 2^16 tickets out the lock looks free, and from 2^15 on it looks
      uncontended. */
  lemma EveryCountOccurs(threads: set<Tid>, n: nat) returns (acts: seq<Action>)
    requires n <= |threads| <= 0x1_0000
    ensures |Outstanding(History(Init(threads), acts))| == n
    ensures n == 0x1_0000 ==> !IsLocked(Exec(Init(threads), acts).word)
    ensures n >= 0x8000 ==> !IsContended(Exec(Init(threads), acts).word)
  {
    var order := Collections.Choose(threads, n);
    acts := DrawAll(order);
    AfterDraws(threads, order);
    RunInvariant(threads, acts);
    QueueLength(Exec(Init(threads), acts), Outstanding(History(Init(threads), acts)), order);
    QueriesCountTickets(threads, acts);
  }

  /** The word, up to 2^16, and whether anybody is queued, give the length of the queue. */
  lemma QueueLength(s: State, q: seq<Tid>, order: seq<Tid>)
    requires Represents(s, q) && |s.pc| <= 0x1_0000 && |order| <= 0x1_0000
    requires OwnerHalf(s.word) == 0 && NextHalf(s.word) == U16(|order|)
    requires if order == [] then forall t :: t in s.pc ==> s.pc[t] == Idle
             else order[0] in s.pc && s.pc[order[0]] == Holding
    ensures |q| == |order|
  {
    if order != [] { assert order[0] in q; }
    assert q != [] ==> q[0] in q;
    TicketValue(0, |q|);
    QueueFits(s, q);
    SameCount(|q|, |order|);
  }

  lemma SameCount(a: nat, b: nat)
    requires U16(a) == U16(b) && a <= 0x1_0000 && b <= 0x1_0000 && (a == 0 <==> b == 0)
    ensures a == b
  {}

  /** With one thread more than 2^16 the ticket counter laps its owner and two threads
      enter: exclusion holds for a set of threads if and only if it has at most 2^16. */
  lemma ExclusionLimit(threads: set<Tid>)
    ensures (forall acts :: Exclusive(Exec(Init(threads), acts))) <==> |threads| <= 0x1_0000
  {
    if |threads| <= 0x1_0000 {
      forall acts
        ensures Exclusive(Exec(Init(threads), acts))
      {
        MutualExclusion(threads, acts);
      }
    } else {
      var order := Collections.Choose(threads, 0x1_0001);
      var first := order[..0x1_0000];
      AfterDraws(threads, first);
      var last := order[0x1_0000];
      var acts := DrawAll(first) + [LockDraw(last)];
      assert acts[..|acts| - 1] == DrawAll(first);
      assert last !in first;
      var s := Exec(Init(threads), acts);
      assert s.pc[last] == Holding && s.pc[order[0]] == Holding;
      assert !Exclusive(Exec(Init(threads), acts));
    }
  }
}
