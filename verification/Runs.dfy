/** Interleavings of a state machine: the state after a sequence of actions, and
    everything observed along the way. */
module Runs {

  function Exec<S, A>(next: (S, A) -> S, s: S, acts: seq<A>): S {
    if acts == [] then s
    else next(Exec(next, s, acts[..|acts| - 1]), acts[|acts| - 1])
  }

  function History<S, A, E>(next: (S, A) -> S, events: (S, A) -> seq<E>, s: S, acts: seq<A>): seq<E> {
    if acts == [] then []
    else
      var k := |acts| - 1;
      History(next, events, s, acts[..k]) + events(Exec(next, s, acts[..k]), acts[k])
  }

  lemma {:induction false} ExecAppend<S, A>(next: (S, A) -> S, s: S, acts: seq<A>, more: seq<A>)
    ensures Exec(next, s, acts + more) == Exec(next, Exec(next, s, acts), more)
    decreases |more|
  {
    if more == [] {
      assert acts + more == acts;
    } else {
      var n := |more| - 1;
      assert (acts + more)[..|acts + more| - 1] == acts + more[..n];
      ExecAppend(next, s, acts, more[..n]);
    }
  }

  lemma ExecCons<S, A>(next: (S, A) -> S, s: S, a: A, rest: seq<A>)
    ensures Exec(next, s, [a] + rest) == Exec(next, next(s, a), rest)
  {
    assert [a][..0] == [] && Exec(next, s, [a][..0]) == s;
    ExecAppend(next, s, [a], rest);
  }

  lemma {:induction false} HistoryAppend<S, A, E>(next: (S, A) -> S, events: (S, A) -> seq<E>,
                                                  s: S, acts: seq<A>, more: seq<A>)
    ensures History(next, events, s, acts + more)
         == History(next, events, s, acts) + History(next, events, Exec(next, s, acts), more)
    decreases |more|
  {
    if more == [] {
      assert acts + more == acts;
    } else {
      var n := |more| - 1;
      assert (acts + more)[..|acts + more| - 1] == acts + more[..n];
      HistoryAppend(next, events, s, acts, more[..n]);
      ExecAppend(next, s, acts, more[..n]);
    }
  }
}
