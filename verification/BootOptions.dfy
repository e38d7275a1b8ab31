/** Boot options handed to init as arguments and environment (init/main.c).
 */
module BootOptions {

  datatype Option<T> = None | Some(value: T)

  /** A `const char *` slot of `argv_init` or `envp_init`. */
  type Slot = Option<string>

  /** `panic_later` names the array that overflowed. */
  datatype Overflow = Init | Env

  /** Both arrays have max + 2 slots, where max is CONFIG_INIT_ENV_ARG_LIMIT. */
  datatype State = State(
    argv: seq<Slot>,
    envp: seq<Slot>,
    panicLater: Option<Overflow>,
    panicParam: string,
    executeCommand: Slot,
    ramdiskCommand: Slot
  )

  /** Code outside this file: `sysctl_is_alias`, and whether some `__setup` handler other than
      those of init= and rdinit= takes the option. */
  datatype Hooks = Hooks(isAlias: string -> bool, handled: string -> bool)

  /** One call of `unknown_bootoption`, or of `set_init_arg`. A value is there if the option
      had an '='. */
  datatype Event = Unknown(name: string, val: Slot) | InitArg(name: string, val: Slot)

  /** The whole option, after `repair_env_string`. */
  function Param(name: string, val: Slot): string {
    match val case None => name case Some(v) => name + "=" + v
  }

  predicate Valid(max: nat, s: State) {
    && |s.argv| == |s.envp| == max + 2 && s.argv[0].Some?
    && (s.panicLater.None? ==> s.argv[max + 1].None? && s.envp[max + 1].None?)
  }

  // ----- the scans

  /** The first free slot. */
  function FreeSlot(slots: seq<Slot>): (i: nat)
    ensures i <= |slots| && (forall j :: 0 <= j < i ==> slots[j].Some?)
    ensures i < |slots| ==> slots[i].None?
  {
    if slots == [] || slots[0].None? then 0 else 1 + FreeSlot(slots[1..])
  }

  /** `strncmp(param, slot, len + 1) == 0`, where key is the name with its '='. */
  predicate HasKey(slot: Slot, key: string) { slot.Some? && key <= slot.value }

  /** The first slot that is free or has the key. */
  function EnvSlot(slots: seq<Slot>, key: string): (i: nat)
    ensures i <= |slots| && (forall j :: 0 <= j < i ==> slots[j].Some? && !HasKey(slots[j], key))
    ensures i < |slots| ==> slots[i].None? || HasKey(slots[i], key)
  {
    if slots == [] || slots[0].None? || HasKey(slots[0], key) then 0 else 1 + EnvSlot(slots[1..], key)
  }

  // ----- the handlers, on values

  function Panic(s: State, which: Overflow, param: string): State {
    s.(panicLater := Some(which), panicParam := param)
  }

  /** `set_init_arg` */
  function SetInitArg(max: nat, s: State, param: string): State
    requires Valid(max, s)
  {
    if s.panicLater.Some? then s
    else if FreeSlot(s.argv) > max then Panic(s, Init, param)
    else s.(argv := s.argv[FreeSlot(s.argv) := Some(param)])
  }

  /** The last lines of `unknown_bootoption`, for an option without a value. It stores even
      when it panics. */
  function AddArg(max: nat, s: State, param: string): State
    requires Valid(max, s) && s.panicLater.None?
  {
    var i := FreeSlot(s.argv);
    var s' := s.(argv := s.argv[i := Some(param)]);
    if i > max then Panic(s', Init, param) else s'
  }

  /** The same for an option with a value. Reaching slot max while it is in use panics, even if
      that slot has the key. */
  function AddEnv(max: nat, s: State, key: string, param: string): State
    requires Valid(max, s) && s.panicLater.None?
  {
    var i := EnvSlot(s.envp, key);
    var s' := s.(envp := s.envp[i := Some(param)]);
    if i > max || (i == max && s.envp[i].Some?) then Panic(s', Env, param) else s'
  }

  /** `init_setup` and `rdinit_setup` clear these slots. */
  function ResetArgs(max: nat, argv: seq<Slot>): seq<Slot>
    requires |argv| == max + 2
  {
    seq(|argv|, i requires 0 <= i < |argv| => if 1 <= i < max then None else argv[i])
  }

  /** `obsolete_checksetup`: whether a handler took the option, and the state after it. */
  function CheckSetup(h: Hooks, max: nat, s: State, param: string): (bool, State)
    requires Valid(max, s)
  {
    if "init=" <= param then
      (true, s.(argv := ResetArgs(max, s.argv), executeCommand := Some(param[5..])))
    else if "rdinit=" <= param then
      (true, s.(argv := ResetArgs(max, s.argv), ramdiskCommand := Some(param[7..])))
    else (h.handled(param), s)
  }

  /** `unknown_bootoption` */
  function UnknownOption(h: Hooks, max: nat, s: State, name: string, val: Slot): (s': State)
    requires Valid(max, s)
    ensures Valid(max, s')
  {
    var param := Param(name, val);
    if h.isAlias(name) then s
    else
      var (taken, s') := CheckSetup(h, max, s, param);
      if taken || '.' in name || s'.panicLater.Some? then s'
      else if val.Some? then AddEnv(max, s', name + "=", param)
      else AddArg(max, s', param)
  }

  function Step(h: Hooks, max: nat, s: State, e: Event): (s': State)
    requires Valid(max, s)
    ensures Valid(max, s')
  {
    match e
    case Unknown(name, val) => UnknownOption(h, max, s, name, val)
    case InitArg(name, val) => SetInitArg(max, s, Param(name, val))
  }

  /** The state after a whole command line. */
  function Run(h: Hooks, max: nat, s: State, events: seq<Event>): (s': State)
    requires Valid(max, s)
    ensures Valid(max, s')
  {
    if events == [] then s
    else Step(h, max, Run(h, max, s, events[..|events| - 1]), events[|events| - 1])
  }

  /** The arrays as they are initialised. */
  function Boot(max: nat): (s: State)
    requires max >= 1
    ensures Valid(max, s)
  {
    State([Some("init")] + seq(max + 1, _ => None),
          [Some("HOME=/"), Some("TERM=linux")] + seq(max, _ => None),
          None, "", None, Some("/init"))
  }

  // ----- whole command lines

  lemma {:induction false} RunAppend(h: Hooks, max: nat, s: State, a: seq<Event>, b: seq<Event>)
    requires Valid(max, s)
    ensures Run(h, max, s, a + b) == Run(h, max, Run(h, max, s, a), b)
  {
    if b == [] {
      assert a + b == a;
    } else {
      var n := |b| - 1;
      assert (a + b)[..|a| + n] == a + b[..n];
      RunAppend(h, max, s, a, b[..n]);
    }
  }

  /** panic_later is never taken back. */
  lemma PanicStays(h: Hooks, max: nat, s: State, e: Event)
    requires Valid(max, s) && s.panicLater.Some?
    ensures var s' := Step(h, max, s, e);
      && s'.panicLater == s.panicLater && s'.panicParam == s.panicParam && s'.envp == s.envp
      && s'.argv == if Resets(h, e) then ResetArgs(max, s.argv) else s.argv
  {}

  /** Some handler behind `obsolete_checksetup` takes the option. */
  predicate Taken(h: Hooks, param: string) { "init=" <= param || "rdinit=" <= param || h.handled(param) }

  /** An unknown option that gets past every check. */
  predicate Passed(h: Hooks, e: Event) {
    e.Unknown? && !h.isAlias(e.name) && !Taken(h, Param(e.name, e.val)) && '.' !in e.name
  }

  // ----- the environment is a map

  datatype Binding = Binding(name: string, value: string)

  predicate SetsEnv(h: Hooks, e: Event) { Passed(h, e) && e.val.Some? }

  /** The parser splits an option at its first '='. */
  predicate Plain(name: string) { '=' !in name }

  predicate Parsed(events: seq<Event>) { forall i :: 0 <= i < |events| ==> Plain(events[i].name) }

  function Text(b: Binding): string { b.name + "=" + b.value }

  /** The slots hold the bindings in order, without holes and with one slot for a name. */
  predicate Encodes(envp: seq<Slot>, binds: seq<Binding>) {
    && |binds| <= |envp|
    && (forall i :: 0 <= i < |binds| ==> Plain(binds[i].name) && envp[i] == Some(Text(binds[i])))
    && (forall i :: |binds| <= i < |envp| ==> envp[i].None?)
    && (forall i, j :: 0 <= i < j < |binds| ==> binds[i].name != binds[j].name)
  }

  function Position(binds: seq<Binding>, name: string): (p: nat)
    ensures p <= |binds| && (p < |binds| ==> binds[p].name == name)
    ensures forall i :: 0 <= i < p ==> binds[i].name != name
  {
    if binds == [] || binds[0].name == name then 0 else 1 + Position(binds[1..], name)
  }

  /** A new value for a name that has one, or a new binding at the end. */
  function Put(binds: seq<Binding>, b: Binding): seq<Binding> {
    var p := Position(binds, b.name);
    if p < |binds| then binds[p := b] else binds + [b]
  }

  lemma KeyMatches(name: string, b: Binding)
    requires Plain(name) && Plain(b.name)
    ensures name + "=" <= Text(b) <==> name == b.name
  {
    var key, text := name + "=", Text(b);
    assert text[|b.name|] == '=' && key[|name|] == '=';
    assert forall i :: 0 <= i < |b.name| ==> text[i] == b.name[i] != '=';
    assert forall i :: 0 <= i < |name| ==> key[i] == name[i] != '=';
    if key <= text {
      assert forall i :: 0 <= i < |key| ==> key[i] == text[i];
      assert text[|name|] == '=';
      assert |b.name| <= |name|;
    }
  }

  lemma EnvSlotIsPosition(envp: seq<Slot>, binds: seq<Binding>, name: string)
    requires Encodes(envp, binds) && Plain(name)
    ensures EnvSlot(envp, name + "=") == Position(binds, name)
  {
    var p := Position(binds, name);
    forall i | 0 <= i < |binds|
      ensures HasKey(envp[i], name + "=") == (binds[i].name == name)
    {
      KeyMatches(name, binds[i]);
    }
    FirstEnvSlot(envp, name + "=", p);
  }

  lemma FirstEnvSlot(slots: seq<Slot>, key: string, i: nat)
    requires i <= |slots| && (i < |slots| ==> slots[i].None? || HasKey(slots[i], key))
    requires forall j :: 0 <= j < i ==> slots[j].Some? && !HasKey(slots[j], key)
    ensures EnvSlot(slots, key) == i
  {
    var k := EnvSlot(slots, key);
    assert k < |slots| ==> slots[k].None? || HasKey(slots[k], key);
  }

  /** One option: the slots follow the bindings, and the option panics exactly when all slots up
      to max are in use and no slot below max has the name. An update in slot max panics too. */
  lemma AddEnvBinds(max: nat, s: State, binds: seq<Binding>, name: string, value: string)
    requires Valid(max, s) && s.panicLater.None? && Encodes(s.envp, binds) && Plain(name)
    ensures Encodes(AddEnv(max, s, name + "=", Param(name, Some(value))).envp, Put(binds, Binding(name, value)))
    ensures AddEnv(max, s, name + "=", Param(name, Some(value))).panicLater ==
      if |binds| == max + 1 && Position(binds, name) >= max then Some(Env) else None
  {
    EnvSlotIsPosition(s.envp, binds, name);
    PutEncodes(s.envp, binds, Binding(name, value));
  }

  lemma PutEncodes(envp: seq<Slot>, binds: seq<Binding>, b: Binding)
    requires Encodes(envp, binds) && Plain(b.name) && Position(binds, b.name) < |envp|
    ensures Encodes(envp[Position(binds, b.name) := Some(Text(b))], Put(binds, b))
  {}

  function BindsOf(h: Hooks, events: seq<Event>): seq<Binding> {
    if events == [] then [Binding("HOME", "/"), Binding("TERM", "linux")]
    else
      var before, e := BindsOf(h, events[..|events| - 1]), events[|events| - 1];
      if SetsEnv(h, e) then Put(before, Binding(e.name, e.val.value)) else before
  }

  /** Only an environment option changes the environment. */
  lemma EnvStep(h: Hooks, max: nat, s: State, e: Event)
    requires Valid(max, s) && s.panicLater.None?
    ensures var s' := Step(h, max, s, e);
      if SetsEnv(h, e) then s' == AddEnv(max, s, e.name + "=", Param(e.name, e.val)) else s'.envp == s.envp
  {}

  lemma {:induction false} EnvRun(h: Hooks, max: nat, events: seq<Event>)
    requires max >= 1 && Parsed(events) && Run(h, max, Boot(max), events).panicLater.None?
    ensures Encodes(Run(h, max, Boot(max), events).envp, BindsOf(h, events))
  {
    if events == [] {
      InitialBinds(max);
    } else {
      var n := |events| - 1;
      var s, e := Run(h, max, Boot(max), events[..n]), events[n];
      if s.panicLater.Some? { PanicStays(h, max, s, e); }
      EnvRun(h, max, events[..n]);
      EnvStep(h, max, s, e);
      if SetsEnv(h, e) { AddEnvBinds(max, s, BindsOf(h, events[..n]), e.name, e.val.value); }
    }
  }

  lemma InitialBinds(max: nat)
    requires max >= 1
    ensures Encodes(Boot(max).envp, BindsOf(Hooks(_ => false, _ => false), []))
  {
    assert Text(Binding("HOME", "/")) == "HOME=/" && Text(Binding("TERM", "linux")) == "TERM=linux";
    assert "HOME" != "TERM";
  }

  /** The value the last option for a name gave it. */
  function LastValue(h: Hooks, events: seq<Event>, name: string): Slot {
    if events == [] then
      if name == "HOME" then Some("/") else if name == "TERM" then Some("linux") else None
    else
      var e := events[|events| - 1];
      if SetsEnv(h, e) && e.name == name then e.val else LastValue(h, events[..|events| - 1], name)
  }

  function Lookup(binds: seq<Binding>, name: string): Slot {
    var p := Position(binds, name);
    if p < |binds| then Some(binds[p].value) else None
  }

  lemma LookupPut(binds: seq<Binding>, b: Binding, name: string)
    ensures Lookup(Put(binds, b), name) == if name == b.name then Some(b.value) else Lookup(binds, name)
  {
    var p, q := Position(binds, b.name), Position(binds, name);
    if name == b.name {
      FirstPosition(Put(binds, b), name, p);
    } else {
      FirstPosition(Put(binds, b), name, if q < |binds| then q else |Put(binds, b)|);
    }
  }

  lemma FirstPosition(binds: seq<Binding>, name: string, p: nat)
    requires p <= |binds| && (p < |binds| ==> binds[p].name == name)
    requires forall i :: 0 <= i < p ==> binds[i].name != name
    ensures Position(binds, name) == p
  {
    var q := Position(binds, name);
    assert q < |binds| ==> binds[q].name == name;
  }

  lemma {:induction false} LookupLast(h: Hooks, events: seq<Event>, name: string)
    ensures Lookup(BindsOf(h, events), name) == LastValue(h, events, name)
  {
    if events == [] {
      LookupInitial(name);
    } else {
      var n := |events| - 1;
      LookupLast(h, events[..n], name);
      var e := events[n];
      if SetsEnv(h, e) { LookupPut(BindsOf(h, events[..n]), Binding(e.name, e.val.value), name); }
    }
  }

  lemma LookupInitial(name: string)
    ensures Lookup([Binding("HOME", "/"), Binding("TERM", "linux")], name) ==
      if name == "HOME" then Some("/") else if name == "TERM" then Some("linux") else None
  {
    var binds := [Binding("HOME", "/"), Binding("TERM", "linux")];
    assert binds[0].name == "HOME" && binds[1].name == "TERM";
  }

  /** Until panic_later is set, each name that was given a value has exactly one slot, which
      holds the last value, and no other name has a slot. */
  lemma EnvIsMap(h: Hooks, max: nat, events: seq<Event>, name: string)
    requires max >= 1 && Parsed(events) && Plain(name)
    requires Run(h, max, Boot(max), events).panicLater.None?
    ensures var envp, last := Run(h, max, Boot(max), events).envp, LastValue(h, events, name);
      && (last.Some? ==> exists i :: 0 <= i < |envp| && envp[i] == Some(name + "=" + last.value))
      && (forall i :: 0 <= i < |envp| && HasKey(envp[i], name + "=") ==>
            last.Some? && envp[i] == Some(name + "=" + last.value))
      && (forall i, j :: 0 <= i < j < |envp| ==> !HasKey(envp[i], name + "=") || !HasKey(envp[j], name + "="))
  {
    var envp, binds := Run(h, max, Boot(max), events).envp, BindsOf(h, events);
    EnvRun(h, max, events);
    LookupLast(h, events, name);
    var p := Position(binds, name);
    if p < |binds| { assert envp[p] == Some(Text(binds[p])); }
    forall i | 0 <= i < |envp| && HasKey(envp[i], name + "=")
      ensures i == p < |binds|
    {
      KeyMatches(name, binds[i]);
    }
  }

  // ----- the arguments, and what init= forgets

  predicate AddsArg(h: Hooks, e: Event) { e.InitArg? || (Passed(h, e) && e.val.None?) }

  predicate Resets(h: Hooks, e: Event) {
    && e.Unknown? && !h.isAlias(e.name)
    && ("init=" <= Param(e.name, e.val) || "rdinit=" <= Param(e.name, e.val))
  }

  /** The arguments since the last reset, and what the reset left in slot max. */
  datatype Args = Args(list: seq<string>, stale: Slot)

  predicate Shape(max: nat, argv: seq<Slot>, a: Args) {
    && |a.list| <= max && |argv| == max + 2 && argv[0].Some? && argv[max + 1].None?
    && (forall i :: 0 <= i < |a.list| ==> argv[1 + i] == Some(a.list[i]))
    && (forall i :: |a.list| < i < max ==> argv[i].None?)
    && (if |a.list| < max then argv[max] == a.stale else a.stale.None?)
  }

  function ArgsStep(h: Hooks, max: nat, a: Args, e: Event): Args {
    if Resets(h, e) then Args([], if |a.list| == max > 0 then Some(a.list[max - 1]) else a.stale)
    else if AddsArg(h, e) then Args(a.list + [Param(e.name, e.val)], if |a.list| + 1 == max then None else a.stale)
    else a
  }

  function ArgsOf(h: Hooks, max: nat, events: seq<Event>): Args {
    if events == [] then Args([], None)
    else ArgsStep(h, max, ArgsOf(h, max, events[..|events| - 1]), events[|events| - 1])
  }

  /** No slot is left for another argument. */
  predicate Full(max: nat, a: Args) { |a.list| == max || (|a.list| == max - 1 && a.stale.Some?) }

  lemma FreeArg(max: nat, argv: seq<Slot>, a: Args)
    requires max >= 1 && Shape(max, argv, a)
    ensures FreeSlot(argv) == if Full(max, a) then max + 1 else |a.list| + 1
  {
    forall j | 0 <= j <= |a.list|
      ensures argv[j].Some?
    {
      assert j > 0 ==> argv[1 + (j - 1)] == Some(a.list[j - 1]);
    }
    FirstFree(argv, if Full(max, a) then max + 1 else |a.list| + 1);
  }

  lemma FirstFree(slots: seq<Slot>, i: nat)
    requires i < |slots| && slots[i].None? && forall j :: 0 <= j < i ==> slots[j].Some?
    ensures FreeSlot(slots) == i
  {
    var k := FreeSlot(slots);
    assert k < |slots| ==> slots[k].None?;
  }

  /** One option. An argument panics exactly when no slot is left. */
  lemma ArgsStepShape(h: Hooks, max: nat, s: State, a: Args, e: Event)
    requires max >= 1 && Valid(max, s) && s.panicLater.None? && Shape(max, s.argv, a)
    ensures var s' := Step(h, max, s, e);
      && (AddsArg(h, e) ==> s'.panicLater == if Full(max, a) then Some(Init) else None)
      && (s'.panicLater.None? ==> Shape(max, s'.argv, ArgsStep(h, max, a, e)))
  {
    FreeArg(max, s.argv, a);
  }

  lemma {:induction false} ArgsRun(h: Hooks, max: nat, events: seq<Event>)
    requires max >= 1 && Run(h, max, Boot(max), events).panicLater.None?
    ensures Shape(max, Run(h, max, Boot(max), events).argv, ArgsOf(h, max, events))
  {
    if events != [] {
      var n := |events| - 1;
      var s, e := Run(h, max, Boot(max), events[..n]), events[n];
      if s.panicLater.Some? { PanicStays(h, max, s, e); }
      ArgsRun(h, max, events[..n]);
      ArgsStepShape(h, max, s, ArgsOf(h, max, events[..n]), e);
    }
  }

  /** The arguments init is started with. */
  function Visible(argv: seq<Slot>): seq<string>
    requires argv != [] && argv[0].Some?
  {
    seq(FreeSlot(argv) - 1, i requires 0 <= i < FreeSlot(argv) - 1 => argv[1 + i].value)
  }

  lemma VisibleArgs(max: nat, argv: seq<Slot>, a: Args)
    requires max >= 1 && Shape(max, argv, a)
    ensures Visible(argv) == if |a.list| == max - 1 && a.stale.Some? then a.list + [a.stale.value] else a.list
  {
    FreeArg(max, argv, a);
  }

  /** The arguments among the events. */
  function ArgTexts(h: Hooks, events: seq<Event>): seq<string> {
    if events == [] then []
    else
      var e := events[|events| - 1];
      ArgTexts(h, events[..|events| - 1]) + if AddsArg(h, e) then [Param(e.name, e.val)] else []
  }

  predicate NoReset(h: Hooks, events: seq<Event>) { forall i :: 0 <= i < |events| ==> !Resets(h, events[i]) }

  /** After a reset the arguments that follow are listed; what was in slot max stays there. */
  lemma {:induction false} ArgsFollowing(h: Hooks, max: nat, base: seq<Event>, post: seq<Event>)
    requires ArgsOf(h, max, base).list == [] && NoReset(h, post)
    ensures ArgsOf(h, max, base + post).list == ArgTexts(h, post)
    ensures |ArgTexts(h, post)| < max ==> ArgsOf(h, max, base + post).stale == ArgsOf(h, max, base).stale
  {
    if post == [] {
      assert base + post == base;
    } else {
      var all, n := base + post, |post| - 1;
      assert all[..|all| - 1] == base + post[..n] && all[|all| - 1] == post[n];
      ArgsFollowing(h, max, base, post[..n]);
    }
  }

  lemma {:induction false} PanicLasts(h: Hooks, max: nat, s: State, events: seq<Event>)
    requires Valid(max, s) && s.panicLater.Some?
    ensures Run(h, max, s, events).panicLater == s.panicLater
  {
    if events != [] {
      var n := |events| - 1;
      PanicLasts(h, max, s, events[..n]);
      PanicStays(h, max, Run(h, max, s, events[..n]), events[n]);
    }
  }

  lemma QuietBefore(h: Hooks, max: nat, s: State, a: seq<Event>, b: seq<Event>)
    requires Valid(max, s) && Run(h, max, s, a + b).panicLater.None?
    ensures Run(h, max, s, a).panicLater.None?
  {
    RunAppend(h, max, s, a, b);
    var s' := Run(h, max, s, a);
    if s'.panicLater.Some? { PanicLasts(h, max, s', b); }
  }

  lemma ArgsOfReset(h: Hooks, max: nat, pre: seq<Event>, reset: Event)
    requires max >= 1 && Resets(h, reset) && Shape(max, Run(h, max, Boot(max), pre).argv, ArgsOf(h, max, pre))
    ensures ArgsOf(h, max, pre + [reset]) == Args([], Run(h, max, Boot(max), pre).argv[max])
  {
    assert (pre + [reset])[..|pre|] == pre;
  }

  /** init= is meant to make init ignore all arguments before it. The loop of
      `init_setup` stops one slot short: with slot max in use, max - 1 later arguments bring the
      old one back, and one more panics. In every other case it is ignored. */
  lemma InitForgetsIff(h: Hooks, max: nat, pre: seq<Event>, reset: Event, post: seq<Event>)
    requires max >= 1 && Resets(h, reset) && NoReset(h, post)
    requires Run(h, max, Boot(max), pre + [reset] + post).panicLater.None?
    ensures Visible(Run(h, max, Boot(max), pre + [reset] + post).argv) == ArgTexts(h, post)
       <==> Run(h, max, Boot(max), pre).argv[max].None? || |ArgTexts(h, post)| != max - 1
  {
    var all := pre + [reset] + post;
    assert all == pre + ([reset] + post);
    QuietBefore(h, max, Boot(max), pre, [reset] + post);
    ArgsRun(h, max, pre);
    ArgsOfReset(h, max, pre, reset);
    ArgsFollowing(h, max, pre + [reset], post);
    ArgsRun(h, max, all);
    VisibleArgs(max, Run(h, max, Boot(max), all).argv, ArgsOf(h, max, all));
  }

  function NoHooks(): Hooks { Hooks(_ => false, _ => false) }

  /** The same word n times, without a value. */
  function Words(word: string, n: nat): seq<Event> { seq(n, _ => Unknown(word, None)) }

  function Repeat(word: string, n: nat): seq<string> { seq(n, _ => word) }

  predicate PlainWord(word: string) { AddsArg(NoHooks(), Unknown(word, None)) && !Resets(NoHooks(), Unknown(word, None)) }

  lemma AddWord(max: nat, s: State, a: Args, word: string)
    requires max >= 1 && Valid(max, s) && s.panicLater.None? && Shape(max, s.argv, a) && PlainWord(word)
    requires |a.list| < if a.stale.Some? then max - 1 else max
    ensures var s' := Step(NoHooks(), max, s, Unknown(word, None));
      s'.panicLater.None? && Shape(max, s'.argv, Args(a.list + [word], a.stale))
  {
    ArgsStepShape(NoHooks(), max, s, a, Unknown(word, None));
  }

  /** Words are listed one by one while there is room. */
  lemma {:induction false} AddWords(max: nat, s: State, a: Args, word: string, n: nat)
    requires max >= 1 && Valid(max, s) && s.panicLater.None? && Shape(max, s.argv, a) && PlainWord(word)
    requires |a.list| + n <= if a.stale.Some? then max - 1 else max
    ensures var s' := Run(NoHooks(), max, s, Words(word, n));
      s'.panicLater.None? && Shape(max, s'.argv, Args(a.list + Repeat(word, n), a.stale))
  {
    if n == 0 {
      assert a.list + Repeat(word, n) == a.list;
    } else {
      AddWords(max, s, a, word, n - 1);
      var list := a.list + Repeat(word, n - 1);
      AddWord(max, Run(NoHooks(), max, s, Words(word, n - 1)), Args(list, a.stale), word);
      assert Words(word, n)[..n - 1] == Words(word, n - 1);
      assert list + [word] == a.list + Repeat(word, n);
    }
  }

  lemma ResetWhenFull(max: nat, reset: Event)
    requires max >= 1 && reset == Unknown("init", Some("/x"))
    ensures var s := Run(NoHooks(), max, Boot(max), Words("a", max) + [reset]);
      s.panicLater.None? && Shape(max, s.argv, Args([], Some("a")))
  {
    var h := NoHooks();
    assert Param(reset.name, reset.val) == "init=/x";
    AddWords(max, Boot(max), Args([], None), "a", max);
    assert [] + Repeat("a", max) == Repeat("a", max);
    var s1 := Run(h, max, Boot(max), Words("a", max));
    assert (Words("a", max) + [reset])[..max] == Words("a", max);
    ArgsStepShape(h, max, s1, Args(Repeat("a", max), None), reset);
  }

  /** For every limit there is a command line on which init gets an argument from before
      init=: max words, init=/x, then max - 1 other words. */
  lemma ForgottenArgumentReturns(max: nat)
    requires max >= 1
    ensures var events := Words("a", max) + [Unknown("init", Some("/x"))] + Words("b", max - 1);
      var s := Run(NoHooks(), max, Boot(max), events);
      s.panicLater.None? && Visible(s.argv) == Repeat("b", max - 1) + ["a"]
  {
    var h, pre := NoHooks(), Words("a", max) + [Unknown("init", Some("/x"))];
    ResetWhenFull(max, Unknown("init", Some("/x")));
    var s := Run(h, max, Boot(max), pre);
    AddWords(max, s, Args([], Some("a")), "b", max - 1);
    RunAppend(h, max, Boot(max), pre, Words("b", max - 1));
    assert [] + Repeat("b", max - 1) == Repeat("b", max - 1);
    VisibleArgs(max, Run(h, max, s, Words("b", max - 1)).argv, Args(Repeat("b", max - 1), Some("a")));
  }

  // ----- which program is started

  /** The value of the last option of this name that no sysctl alias takes. */
  function LastSetting(h: Hooks, events: seq<Event>, name: string, default: Slot): Slot {
    if events == [] then default
    else
      var e := events[|events| - 1];
      if e.Unknown? && e.name == name && e.val.Some? && !h.isAlias(name) then e.val
      else LastSetting(h, events[..|events| - 1], name, default)
  }

  lemma PrefixIsName(name: string, val: Slot, option: string)
    requires Plain(name) && Plain(option)
    ensures option + "=" <= Param(name, val) <==> name == option && val.Some?
    ensures option + "=" <= Param(name, val) ==> Some(Param(name, val)[|option| + 1..]) == val
  {
    match val
    case Some(v) =>
      KeyMatches(option, Binding(name, v));
    case None =>
      if option + "=" <= name { PrefixHas(option + "=", name, |option|); }
  }

  lemma PrefixHas(key: string, text: string, i: nat)
    requires key <= text && i < |key|
    ensures key[i] in text
  {
    assert key[i] == text[i];
  }

  lemma CommandStep(h: Hooks, max: nat, s: State, e: Event)
    requires Valid(max, s) && Plain(e.name)
    ensures var s', sets := Step(h, max, s, e), e.Unknown? && e.val.Some? && !h.isAlias(e.name);
      && s'.executeCommand == (if sets && e.name == "init" then e.val else s.executeCommand)
      && s'.ramdiskCommand == (if sets && e.name == "rdinit" then e.val else s.ramdiskCommand)
      && s'.argv[0] == s.argv[0]
  {
    PrefixIsName(e.name, e.val, "init");
    PrefixIsName(e.name, e.val, "rdinit");
    assert "init" + "=" == "init=" && "rdinit" + "=" == "rdinit=";
  }

  /** After any command line the program to start is that of the last init= option, and the one in
      the ramdisk that of the last rdinit=, which is /init if there is none; the first argument
      stays as it was. */
  lemma {:induction false} LastCommandWins(h: Hooks, max: nat, events: seq<Event>)
    requires max >= 1 && Parsed(events)
    ensures var s := Run(h, max, Boot(max), events);
      && s.executeCommand == LastSetting(h, events, "init", None)
      && s.ramdiskCommand == LastSetting(h, events, "rdinit", Some("/init"))
      && s.argv[0] == Some("init")
  {
    if events != [] {
      var n := |events| - 1;
      LastCommandWins(h, max, events[..n]);
      CommandStep(h, max, Run(h, max, Boot(max), events[..n]), events[n]);
    }
  }

  // ----- when a command line panics

  /** Event k needs an environment slot beyond the limit: all slots are in use, and none below
      the last has the name. */
  predicate EnvOverflow(h: Hooks, max: nat, events: seq<Event>, k: nat)
    requires k < |events|
  {
    var binds := BindsOf(h, events[..k]);
    SetsEnv(h, events[k]) && |binds| == max + 1 && Position(binds, events[k].name) >= max
  }

  /** Event k is an argument for which no slot is left. */
  predicate ArgOverflow(h: Hooks, max: nat, events: seq<Event>, k: nat)
    requires k < |events|
  {
    AddsArg(h, events[k]) && Full(max, ArgsOf(h, max, events[..k]))
  }

  predicate Overflows(h: Hooks, max: nat, events: seq<Event>, k: nat)
    requires k < |events|
  {
    EnvOverflow(h, max, events, k) || ArgOverflow(h, max, events, k)
  }

  predicate FirstOverflow(h: Hooks, max: nat, events: seq<Event>, k: nat) {
    k < |events| && Overflows(h, max, events, k) && forall j: nat :: j < k ==> !Overflows(h, max, events, j)
  }

  /** An event panics exactly if it overflows. */
  lemma PanicStep(h: Hooks, max: nat, events: seq<Event>, n: nat)
    requires max >= 1 && Parsed(events) && n < |events|
    requires Run(h, max, Boot(max), events[..n]).panicLater.None?
    ensures Step(h, max, Run(h, max, Boot(max), events[..n]), events[n]).panicLater ==
      if EnvOverflow(h, max, events, n) then Some(Env) else if ArgOverflow(h, max, events, n) then Some(Init) else None
  {
    var s, e := Run(h, max, Boot(max), events[..n]), events[n];
    EnvRun(h, max, events[..n]);
    ArgsRun(h, max, events[..n]);
    if SetsEnv(h, e) {
      EnvStep(h, max, s, e);
      AddEnvBinds(max, s, BindsOf(h, events[..n]), e.name, e.val.value);
    } else if AddsArg(h, e) {
      ArgsStepShape(h, max, s, ArgsOf(h, max, events[..n]), e);
    } else {
      OtherStep(h, max, s, e);
    }
  }

  /** What the option that overflows leaves behind: an argument goes into the last slot, unless it
      came after the dashes, and a variable into the slot of its name or the last one. The panic
      message names the option. */
  lemma OverflowOutcome(h: Hooks, max: nat, events: seq<Event>, n: nat)
    requires max >= 1 && Parsed(events) && n < |events|
    requires Run(h, max, Boot(max), events[..n]).panicLater.None? && Overflows(h, max, events, n)
    ensures var s, e := Run(h, max, Boot(max), events[..n]), events[n];
      var s', text := Step(h, max, s, e), Param(e.name, e.val);
      && s'.panicParam == text
      && (ArgOverflow(h, max, events, n) ==>
            s'.envp == s.envp && s'.argv == if e.InitArg? then s.argv else s.argv[max + 1 := Some(text)])
      && (EnvOverflow(h, max, events, n) ==>
            && s'.argv == s.argv
            && s'.envp == s.envp[(if HasKey(s.envp[max], e.name + "=") then max else max + 1) := Some(text)])
  {
    var s, e := Run(h, max, Boot(max), events[..n]), events[n];
    EnvRun(h, max, events[..n]);
    ArgsRun(h, max, events[..n]);
    if SetsEnv(h, e) {
      var binds := BindsOf(h, events[..n]);
      EnvStep(h, max, s, e);
      EnvSlotIsPosition(s.envp, binds, e.name);
      KeyMatches(e.name, binds[max]);
      assert s.envp[max] == Some(Text(binds[max]));
    } else {
      FreeArg(max, s.argv, ArgsOf(h, max, events[..n]));
    }
  }

  lemma OtherStep(h: Hooks, max: nat, s: State, e: Event)
    requires Valid(max, s) && !SetsEnv(h, e) && !AddsArg(h, e)
    ensures Step(h, max, s, e).panicLater == s.panicLater
  {}

  /** The array of the first overflow. */
  function Verdict(h: Hooks, max: nat, events: seq<Event>, n: nat): Option<Overflow>
    requires n <= |events|
  {
    if n == 0 then None
    else if Verdict(h, max, events, n - 1).Some? then Verdict(h, max, events, n - 1)
    else if EnvOverflow(h, max, events, n - 1) then Some(Env)
    else if ArgOverflow(h, max, events, n - 1) then Some(Init)
    else None
  }

  lemma {:induction false} RunVerdict(h: Hooks, max: nat, events: seq<Event>, n: nat)
    requires max >= 1 && Parsed(events) && n <= |events|
    ensures Run(h, max, Boot(max), events[..n]).panicLater == Verdict(h, max, events, n)
  {
    if n > 0 {
      RunVerdict(h, max, events, n - 1);
      var s := Run(h, max, Boot(max), events[..n - 1]);
      RunStep(h, max, events, n);
      if s.panicLater.None? { PanicStep(h, max, events, n - 1); } else { PanicStays(h, max, s, events[n - 1]); }
    }
  }

  lemma RunStep(h: Hooks, max: nat, events: seq<Event>, n: nat)
    requires max >= 1 && 0 < n <= |events|
    ensures Run(h, max, Boot(max), events[..n]) == Step(h, max, Run(h, max, Boot(max), events[..n - 1]), events[n - 1])
  {
    assert events[..n][..n - 1] == events[..n - 1];
  }

  lemma {:induction false} VerdictNone(h: Hooks, max: nat, events: seq<Event>, n: nat)
    requires n <= |events|
    ensures Verdict(h, max, events, n).None? <==> forall k: nat :: k < n ==> !Overflows(h, max, events, k)
  {
    if n > 0 {
      VerdictNone(h, max, events, n - 1);
      var last := Overflows(h, max, events, n - 1);
      assert last == (EnvOverflow(h, max, events, n - 1) || ArgOverflow(h, max, events, n - 1));
    }
  }

  lemma {:induction false} VerdictFirst(h: Hooks, max: nat, events: seq<Event>, n: nat, k: nat)
    requires k < n <= |events| && FirstOverflow(h, max, events, k)
    ensures Verdict(h, max, events, n) == Some(if EnvOverflow(h, max, events, k) then Env else Init)
  {
    if n == k + 1 { VerdictNone(h, max, events, k); } else { VerdictFirst(h, max, events, n - 1, k); }
  }

  /** A command line sets panic_later if and only if some option overflows, and then to the array
      of the first that does. */
  lemma PanicExactly(h: Hooks, max: nat, events: seq<Event>)
    requires max >= 1 && Parsed(events)
    ensures Run(h, max, Boot(max), events).panicLater.None?
       <==> forall k: nat :: k < |events| ==> !Overflows(h, max, events, k)
    ensures forall k: nat :: FirstOverflow(h, max, events, k) ==>
      Run(h, max, Boot(max), events).panicLater == Some(if EnvOverflow(h, max, events, k) then Env else Init)
  {
    RunVerdict(h, max, events, |events|);
    assert events[..|events|] == events;
    VerdictNone(h, max, events, |events|);
    forall k: nat | FirstOverflow(h, max, events, k)
      ensures Verdict(h, max, events, |events|) == Some(if EnvOverflow(h, max, events, k) then Env else Init)
    {
      VerdictFirst(h, max, events, |events|, k);
    }
  }

  /** The environment is what panics if and only if the first overflow is one of its own. */
  lemma EnvPanicIff(h: Hooks, max: nat, events: seq<Event>)
    requires max >= 1 && Parsed(events)
    ensures Run(h, max, Boot(max), events).panicLater == Some(Env)
       <==> exists k: nat :: FirstOverflow(h, max, events, k) && EnvOverflow(h, max, events, k)
  {
    PanicExactly(h, max, events);
    if Run(h, max, Boot(max), events).panicLater == Some(Env) {
      var k: nat :| k < |events| && Overflows(h, max, events, k);
      var first := LeastOverflow(h, max, events, k);
      assert EnvOverflow(h, max, events, first);
    }
  }

  lemma LeastOverflow(h: Hooks, max: nat, events: seq<Event>, k: nat) returns (first: nat)
    requires k < |events| && Overflows(h, max, events, k)
    ensures FirstOverflow(h, max, events, first)
  {
    if j: nat :| j < k && Overflows(h, max, events, j) {
      first := LeastOverflow(h, max, events, j);
    } else {
      first := k;
    }
  }

  // ----- an update that panics

  /** The name x, xx, xxx and so on. */
  function Name(k: nat): string { seq(k, _ => 'x') }

  /** Options that set m new variables. */
  function Setters(m: nat): seq<Event> { seq(m, (i: nat) => Unknown(Name(i + 1), Some("1"))) }

  function SetBindings(m: nat): seq<Binding> { seq(m, (i: nat) => Binding(Name(i + 1), "1")) }

  function Defaults(): seq<Binding> { [Binding("HOME", "/"), Binding("TERM", "linux")] }

  lemma SetterSets(m: nat, v: string)
    requires m >= 1
    ensures SetsEnv(NoHooks(), Unknown(Name(m), Some(v))) && Plain(Name(m))
  {
    assert Param(Name(m), Some(v))[0] == 'x';
  }

  lemma SettersParsed(m: nat)
    ensures Parsed(Setters(m))
  {
    var events := Setters(m);
    forall i | 0 <= i < |events|
      ensures Plain(events[i].name)
    {
      SetterSets(i + 1, "1");
    }
  }

  lemma {:induction false} SettersBind(m: nat)
    ensures BindsOf(NoHooks(), Setters(m)) == Defaults() + SetBindings(m)
  {
    if m == 0 {
      assert Setters(0) == [] && SetBindings(0) == [];
    } else {
      SettersBind(m - 1);
      SetterSets(m, "1");
      assert Setters(m)[..m - 1] == Setters(m - 1);
      NewName(m - 1);
      PutNew(Defaults() + SetBindings(m - 1), Binding(Name(m), "1"));
      MoreBindings(m);
    }
  }

  lemma PutNew(binds: seq<Binding>, b: Binding)
    requires Position(binds, b.name) == |binds|
    ensures Put(binds, b) == binds + [b]
  {}

  lemma MoreBindings(m: nat)
    requires m >= 1
    ensures Defaults() + SetBindings(m - 1) + [Binding(Name(m), "1")] == Defaults() + SetBindings(m)
  {}

  lemma NewName(m: nat)
    ensures Position(Defaults() + SetBindings(m), Name(m + 1)) == m + 2
  {
    var binds := Defaults() + SetBindings(m);
    assert binds[0].name[0] == 'H' && binds[1].name[0] == 'T' && Name(m + 1)[0] == 'x';
    forall i | 2 <= i < |binds|
      ensures binds[i].name != Name(m + 1)
    {
      assert |binds[i].name| == i - 1;
    }
    FirstPosition(binds, Name(m + 1), m + 2);
  }

  /** The name in the last usable slot once the table is full. */
  function LastName(max: nat): string
    requires max >= 1
  {
    if max == 1 then "TERM" else Name(max - 1)
  }

  lemma LastPosition(max: nat)
    requires max >= 1
    ensures Position(Defaults() + SetBindings(max - 1), LastName(max)) == max
  {
    var binds := Defaults() + SetBindings(max - 1);
    assert binds[0].name[0] == 'H' && binds[1].name == "TERM";
    if max > 1 {
      assert LastName(max)[0] == 'x' && binds[1].name[0] == 'T';
      forall i | 2 <= i < max
        ensures binds[i].name != Name(max - 1)
      {
        assert |binds[i].name| == i - 1;
      }
    }
    FirstPosition(binds, LastName(max), max);
  }

  /** The options that fill the table, and one that updates its last variable. */
  function FillAndUpdate(max: nat): seq<Event>
    requires max >= 1
  {
    Setters(max - 1) + [Unknown(LastName(max), Some("2"))]
  }

  lemma FillAndUpdateOverflows(max: nat)
    requires max >= 1
    ensures Parsed(FillAndUpdate(max)) && FirstOverflow(NoHooks(), max, FillAndUpdate(max), max - 1)
    ensures EnvOverflow(NoHooks(), max, FillAndUpdate(max), max - 1)
  {
    var events := FillAndUpdate(max);
    SettersParsed(max - 1);
    LastSets(max);
    SettersBind(max - 1);
    LastPosition(max);
    assert events[..max - 1] == Setters(max - 1);
    forall j: nat | j < max - 1
      ensures !Overflows(NoHooks(), max, events, j)
    {
      FillingFits(max, events, j);
    }
  }

  lemma FillingFits(max: nat, events: seq<Event>, j: nat)
    requires max >= 1 && events == FillAndUpdate(max) && j < max - 1
    ensures !Overflows(NoHooks(), max, events, j)
  {
    SetterSets(j + 1, "1");
    SettersBind(j);
    assert events[..j] == Setters(j);
  }

  lemma LastSets(max: nat)
    requires max >= 1
    ensures SetsEnv(NoHooks(), Unknown(LastName(max), Some("2"))) && Plain(LastName(max))
  {
    if max == 1 {
      assert Param("TERM", Some("2"))[0] == 'T';
    } else {
      SetterSets(max - 1, "2");
    }
  }

  /** For every limit there is a command line that panics on the update of a variable: all slots
      up to the limit are in use and the last of them holds the name, so no slot is needed. */
  lemma UpdatePanics(max: nat)
    requires max >= 1
    ensures var before := Run(NoHooks(), max, Boot(max), Setters(max - 1));
      before.panicLater.None? && HasKey(before.envp[max], LastName(max) + "=")
    ensures Run(NoHooks(), max, Boot(max), FillAndUpdate(max)).panicLater == Some(Env)
  {
    var h, events := NoHooks(), FillAndUpdate(max);
    FillAndUpdateOverflows(max);
    PanicExactly(h, max, events);
    assert events[..max - 1] == Setters(max - 1);
    RunVerdict(h, max, events, max - 1);
    VerdictNone(h, max, events, max - 1);
    LastHolds(max);
  }

  lemma LastHolds(max: nat)
    requires max >= 1 && Run(NoHooks(), max, Boot(max), Setters(max - 1)).panicLater.None?
    ensures HasKey(Run(NoHooks(), max, Boot(max), Setters(max - 1)).envp[max], LastName(max) + "=")
  {
    SettersParsed(max - 1);
    EnvRun(NoHooks(), max, Setters(max - 1));
    SettersBind(max - 1);
    LastPosition(max);
    LastSets(max);
    KeyMatches(LastName(max), (Defaults() + SetBindings(max - 1))[max]);
  }
}
