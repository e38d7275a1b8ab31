/** The option handlers of init/main.c as they work on the arrays in place. Each method is
    proved equal to its specification in module BootOptions.
 */
module BootOptionsObject {
  import opened Spec = BootOptions

  /** `argv_init`, `envp_init`, `panic_later` and their companions. */
  class InitData {
    const max: nat
    const argv: array<Slot>
    const envp: array<Slot>
    var panicLater: Option<Overflow>
    var panicParam: string
    var executeCommand: Slot
    var ramdiskCommand: Slot

    ghost function View(): State
      reads this, argv, envp
    {
      State(argv[..], envp[..], panicLater, panicParam, executeCommand, ramdiskCommand)
    }

    ghost predicate Ready()
      reads this, argv, envp
    {
      argv != envp && Valid(max, View())
    }

    constructor (limit: nat)
      requires limit >= 1
      ensures max == limit && fresh(argv) && fresh(envp) && Ready() && View() == Boot(max)
    {
      max := limit;
      argv := new Slot[limit + 2](i => if i == 0 then Some("init") else None);
      envp := new Slot[limit + 2](i => if i == 0 then Some("HOME=/") else if i == 1 then Some("TERM=linux") else None);
      panicLater, panicParam := None, "";
      executeCommand, ramdiskCommand := None, Some("/init");
      new;
      assert argv[..] == Boot(max).argv;
      assert envp[..] == Boot(max).envp;
    }

    /** `set_init_arg` */
    method SetInitArg(param: string)
      requires Ready()
      modifies this, argv
      ensures Ready() && View() == Spec.SetInitArg(max, old(View()), param)
    {
      if panicLater.Some? {
        return;
      }
      var i := 0;
      while argv[i].Some?
        invariant i <= max && forall j :: 0 <= j < i ==> argv[j].Some?
        decreases max - i
      {
        if i == max {
          FirstFree(argv[..], max + 1);
          panicLater, panicParam := Some(Init), param;
          return;
        }
        i := i + 1;
      }
      FirstFree(argv[..], i);
      argv[i] := Some(param);
    }

    /** The last lines of `unknown_bootoption`, without a value. */
    method AddArg(param: string)
      requires Ready() && panicLater.None?
      modifies this, argv
      ensures Ready() && View() == Spec.AddArg(max, old(View()), param)
    {
      var i := 0;
      while argv[i].Some?
        invariant i <= max + 1 && argv[..] == old(argv[..]) && forall j :: 0 <= j < i ==> argv[j].Some?
        invariant executeCommand == old(executeCommand) && ramdiskCommand == old(ramdiskCommand)
        invariant if i <= max then panicLater == old(panicLater) && panicParam == old(panicParam)
                  else panicLater == Some(Init) && panicParam == param
        decreases max + 1 - i
      {
        if i == max {
          panicLater, panicParam := Some(Init), param;
        }
        i := i + 1;
      }
      FirstFree(argv[..], i);
      argv[i] := Some(param);
    }

    /** The last lines of `unknown_bootoption`, with a value. */
    method AddEnv(name: string, param: string)
      requires Ready() && panicLater.None?
      modifies this, envp
      ensures Ready() && View() == Spec.AddEnv(max, old(View()), name + "=", param)
    {
      var i, key := 0, name + "=";
      while envp[i].Some?
        invariant i <= max + 1 && envp[..] == old(envp[..])
        invariant forall j :: 0 <= j < i ==> envp[j].Some? && !HasKey(envp[j], key)
        invariant executeCommand == old(executeCommand) && ramdiskCommand == old(ramdiskCommand)
        invariant if i <= max then panicLater == old(panicLater) && panicParam == old(panicParam)
                  else panicLater == Some(Env) && panicParam == param
        decreases max + 1 - i
      {
        if i == max {
          panicLater, panicParam := Some(Env), param;
        }
        if HasKey(envp[i], key) {
          break;
        }
        i := i + 1;
      }
      FirstEnvSlot(envp[..], key, i);
      envp[i] := Some(param);
    }

    /** The loop of `init_setup` and `rdinit_setup`. */
    method ClearArgs()
      requires argv.Length == max + 2
      modifies argv
      ensures argv[..] == ResetArgs(max, old(argv[..]))
    {
      var i := 1;
      while i < max
        invariant i >= 1 && forall j :: 0 <= j < argv.Length ==>
          argv[j] == if 1 <= j < i && j < max then None else old(argv[j])
      {
        argv[i] := None;
        i := i + 1;
      }
    }

    /** `obsolete_checksetup` */
    method CheckSetup(h: Hooks, param: string) returns (taken: bool)
      requires Ready()
      modifies this, argv
      ensures Ready() && (taken, View()) == Spec.CheckSetup(h, max, old(View()), param)
    {
      if "init=" <= param {
        executeCommand := Some(param[5..]);
        ClearArgs();
        return true;
      }
      if "rdinit=" <= param {
        ramdiskCommand := Some(param[7..]);
        ClearArgs();
        return true;
      }
      return h.handled(param);
    }

    /** `unknown_bootoption` */
    method UnknownBootOption(h: Hooks, name: string, val: Slot)
      requires Ready()
      modifies this, argv, envp
      ensures Ready() && View() == UnknownOption(h, max, old(View()), name, val)
    {
      if h.isAlias(name) {
        return;
      }
      var param := Param(name, val);
      var taken := CheckSetup(h, param);
      if taken || '.' in name || panicLater.Some? {
        return;
      }
      if val.Some? {
        AddEnv(name, param);
      } else {
        AddArg(param);
      }
    }

    /** Option by option through a command line. */
    method Process(h: Hooks, events: seq<Event>)
      requires Ready()
      modifies this, argv, envp
      ensures Ready() && View() == Run(h, max, old(View()), events)
    {
      var i := 0;
      while i < |events|
        invariant 0 <= i <= |events| && Ready() && View() == Run(h, max, old(View()), events[..i])
      {
        match events[i] {
          case Unknown(name, val) => UnknownBootOption(h, name, val);
          case InitArg(name, val) => SetInitArg(Param(name, val));
        }
        assert events[..i + 1][..i] == events[..i];
        i := i + 1;
      }
      assert events[..i] == events;
    }
  }

  // ----- putting the '=' back

  /** The NUL-terminated string at this place of the buffer. */
  ghost predicate StringAt(buffer: seq<char>, at: nat, text: string) {
    && at + |text| < |buffer| && buffer[at..at + |text|] == text && buffer[at + |text|] == '\0'
    && forall i :: 0 <= i < |text| ==> text[i] != '\0'
  }

  method StrLen(buffer: array<char>, at: nat, ghost text: string) returns (n: nat)
    requires StringAt(buffer[..], at, text)
    ensures n == |text|
  {
    n := 0;
    while buffer[at + n] != '\0'
      invariant n <= |text|
      decreases |text| - n
    {
      assert buffer[..][at..at + |text|][n] == text[n];
      n := n + 1;
    }
  }

  /** `memmove(val - 1, val, strlen(val) + 1)` */
  method MoveDown(buffer: array<char>, val: nat, n: nat)
    requires 1 <= val && val + n <= buffer.Length
    modifies buffer
    ensures forall i :: 0 <= i < buffer.Length ==>
      buffer[i] == if val - 1 <= i < val - 1 + n then old(buffer[i + 1]) else old(buffer[i])
  {
    var i := 0;
    while i < n
      invariant 0 <= i <= n
      invariant forall j :: 0 <= j < buffer.Length ==>
        buffer[j] == if val - 1 <= j < val - 1 + i then old(buffer[j + 1]) else old(buffer[j])
    {
      buffer[val - 1 + i] := buffer[val + i];
      i := i + 1;
    }
  }

  /** The buffer holds the name, then '=', then the value, which was at val. */
  lemma Joined(before: seq<char>, after: seq<char>, param: nat, name: string, at: nat, val: nat, value: string)
    requires StringAt(before, param, name) && StringAt(before, val, value) && |after| == |before|
    requires at == param + |name| < val && after[at] == '='
    requires forall i :: param <= i < at ==> after[i] == before[i]
    requires forall i :: at < i <= at + 1 + |value| ==> after[i] == before[i + (val - at - 1)]
    ensures StringAt(after, param, name + "=" + value)
  {
    var text := name + "=" + value;
    forall i | 0 <= i < |text|
      ensures after[param + i] == text[i] != '\0'
    {
      if i < |name| {
        assert before[param..at][i] == before[param + i];
      } else if i > |name| {
        assert before[val..val + |value|][i - |name| - 1] == before[val + (i - |name| - 1)];
      }
    }
    assert after[param..param + |text|] == text;
  }

  /** param=val: the value follows the name's NUL. */
  method JoinUnquoted(buffer: array<char>, param: nat, v: nat, ghost name: string, ghost value: string)
    requires StringAt(buffer[..], param, name) && StringAt(buffer[..], v, value) && v == param + |name| + 1
    modifies buffer
    ensures StringAt(buffer[..], param, name + "=" + value)
    ensures forall i :: 0 <= i < buffer.Length && i != v - 1 ==> buffer[i] == old(buffer[i])
  {
    ghost var before := buffer[..];
    buffer[v - 1] := '=';
    Joined(before, buffer[..], param, name, v - 1, v, value);
  }

  /** The value moves one place down, with its NUL. */
  method CloseGap(buffer: array<char>, v: nat, ghost value: string)
    requires v >= 1 && StringAt(buffer[..], v, value)
    modifies buffer
    ensures forall i :: 0 <= i < buffer.Length ==>
      buffer[i] == if v - 1 <= i < v + |value| then old(buffer[i + 1]) else old(buffer[i])
  {
    var m := StrLen(buffer, v, value);
    MoveDown(buffer, v, m + 1);
  }

  /** param="val": there is a quote between them. */
  method JoinQuoted(buffer: array<char>, param: nat, v: nat, ghost name: string, ghost value: string)
    requires StringAt(buffer[..], param, name) && StringAt(buffer[..], v, value) && v == param + |name| + 2
    modifies buffer
    ensures StringAt(buffer[..], param, name + "=" + value)
    ensures forall i :: 0 <= i < buffer.Length && !(v - 2 <= i < v + |value|) ==> buffer[i] == old(buffer[i])
  {
    ghost var before := buffer[..];
    buffer[v - 2] := '=';
    assert buffer[v..v + |value|] == before[v..v + |value|];
    CloseGap(buffer, v, value);
    Joined(before, buffer[..], param, name, v - 2, v, value);
  }

  /** `repair_env_string`. The parser ended the name with a NUL and left the value right behind
      it, or behind an opening quote; the result is the whole option again. Any other place of
      the value is a BUG(). */
  method RepairEnvString(buffer: array<char>, param: nat, val: Option<nat>, ghost name: string, ghost value: string)
      returns (bug: bool)
    requires StringAt(buffer[..], param, name)
    requires val.Some? ==> StringAt(buffer[..], val.value, value)
    modifies buffer
    ensures bug <==> val.Some? && val.value != param + |name| + 1 && val.value != param + |name| + 2
    ensures !bug ==> StringAt(buffer[..], param, Param(name, if val.Some? then Some(value) else None))
    ensures bug || val.None? ==> buffer[..] == old(buffer[..])
    ensures val.Some? ==> forall i :: 0 <= i < buffer.Length && !(param + |name| <= i <= val.value + |value|) ==>
      buffer[i] == old(buffer[i])
  {
    bug := false;
    if val.Some? {
      var v := val.value;
      var n := StrLen(buffer, param, name);
      if v == param + n + 1 {
        JoinUnquoted(buffer, param, v, name, value);
      } else if v == param + n + 2 {
        JoinQuoted(buffer, param, v, name, value);
      } else {
        bug := true;
      }
    }
  }
}
