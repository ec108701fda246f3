/**
 * What the modelled commands do when run: `EchoCommand`, `CdCommand` and `AliasCommand`.
 *
 * For each command there is a specification on values (`Run`, over the registry map that
 * the shell state holds, the two directories and the host) and the imperative `Execute`,
 * which updates a `ShellState` in place and is proved to follow it. An alias looks its
 * target up in the shell state's registry on every run and has no cycle guard; the model
 * bounds the nesting of alias calls by `fuel`, and running out of it is the stack overflow
 * the source would hit.
 */
module Handlers {
  import opened Strings
  import opened PathNormalizer
  import opened Commands
  import opened Registry
  import opened Shell
  import opened Files

  // ---------------------------------------------------------------------------
  // echo

  /** `EchoCommand.Execute`: nothing for no arguments, else the arguments joined by single
      spaces. */
  function EchoText(args: seq<string>): (r: string)
    ensures args == [] ==> r == ""
    ensures |args| == 1 ==> r == args[0]
  {
    if |args| == 0 then "" else Join(args, " ")
  }

  /** With no space inside any argument, splitting the output at spaces gives the arguments
      back. */
  lemma EchoSplit(args: seq<string>)
    requires |args| >= 1
    requires forall k :: 0 <= k < |args| ==> Omits(args[k], ' ')
    ensures Split(EchoText(args), ' ') == args
  {
    SplitJoin(args, ' ');
  }

  // ---------------------------------------------------------------------------
  // alias

  /** `AliasCommand.Description`. */
  function AliasDescription(target: string): string {
    "Alias for '" + target + "'."
  }

  /** The target can be read back from the description. */
  lemma AliasDescriptionTarget(target: string)
    ensures var d := AliasDescription(target);
      |d| == |target| + 13 && d[11..|d| - 2] == target
  {
    var d := AliasDescription(target);
    assert d == "Alias for '" + (target + "'.");
    assert (target + "'.")[..|target|] == target;
  }

  /** The message of an alias whose target is not registered. */
  function TargetNotFound(target: string): string {
    "alias: target command not found: " + target
  }

  // ---------------------------------------------------------------------------
  // cd

  /** The directory `cd` moves to before it is resolved: the home directory with no
      arguments, the previous directory for `-`, else the first argument. */
  function CdTarget(args: seq<string>, dirs: Dirs, host: Host): string {
    if |args| == 0 then host.home else if args[0] == "-" then dirs.previous else args[0]
  }

  /** The target resolved against the current directory when it is not rooted. Its
      normalised form is computed and dropped by the source, so the raw text is resolved. */
  function CdResolved(args: seq<string>, dirs: Dirs, host: Host): string {
    var target := CdTarget(args, dirs, host);
    if host.isRooted(target) then target else host.fullPath(host.combine(dirs.current, target))
  }

  /** What a command run gives: the outcome and the directories afterwards. */
  datatype Effect = Effect(outcome: Outcome, dirs: Dirs)

  /** `CdCommand.Execute` on values. A missing directory is reported with `args[0]`, which the
      source reads even when there are no arguments: then the index error escapes. */
  function CdEffect(args: seq<string>, dirs: Dirs, host: Host): (e: Effect)
    ensures e.outcome == Output("") <==> host.dirExists(CdResolved(args, dirs, host))
    ensures e.outcome == Output("") ==> e.dirs == Dirs(Normalize(CdResolved(args, dirs, host)), Normalize(dirs.current))
    ensures e.outcome != Output("") ==> e.dirs == dirs
    ensures e.outcome.Crash? <==> args == [] && !host.dirExists(CdResolved(args, dirs, host))
  {
    var target := CdResolved(args, dirs, host);
    if !host.dirExists(target) then
      if |args| == 0 then Effect(Crash(IndexOutOfRange), dirs)
      else Effect(Output("cd: no such file or directory: " + args[0]), dirs)
    else Effect(Output(""), Dirs(Normalize(target), Normalize(dirs.current)))
  }

  // ---------------------------------------------------------------------------
  // Running a command

  /** `ICommand.Execute` on values, with `registry` the shell state's registry and `fuel`
      the alias calls that may still be nested. */
  function Run(cmd: Command, registry: map<string, Command>, dirs: Dirs, files: FileStore, args: seq<string>, host: Host, fuel: nat): Effect
    decreases fuel
  {
    match cmd
    case Echo => Effect(Output(EchoText(args)), dirs)
    case Cd => CdEffect(args, dirs, host)
    case Other(name) => Effect(Output(host.external(name, args, dirs.current, files)), dirs)
    case Alias(_, target) =>
      if fuel == 0 then Effect(Crash(StackOverflow), dirs)
      else if target !in registry then Effect(Output(TargetNotFound(target)), dirs)
      else Run(registry[target], registry, dirs, files, args, host, fuel - 1)
  }

  /** `CdCommand.Execute`. */
  method ExecuteCd(state: ShellState, args: seq<string>, host: Host) returns (out: Outcome)
    modifies state
    ensures Effect(out, state.Directories()) == CdEffect(args, old(state.Directories()), host)
    ensures state.mode == old(state.mode)
    ensures old(state.Valid()) ==> state.Valid()
  {
    var target: string;
    if |args| == 0 {
      target := host.home;
    } else if args[0] == "-" {
      target := state.previousDirectory;
    } else {
      target := args[0];
    }
    if !host.isRooted(target) {
      target := host.fullPath(host.combine(state.currentDirectory, target));
    }
    if !host.dirExists(target) {
      if |args| == 0 {
        return Crash(IndexOutOfRange);
      }
      return Output("cd: no such file or directory: " + args[0]);
    }
    state.SetPreviousDirectory(state.currentDirectory);
    state.SetCurrentDirectory(target);
    return Output("");
  }

  /** `ICommand.Execute` for the modelled commands; an alias delegates to the command its
      target names in the state's registry, with the same arguments. */
  method Execute(cmd: Command, state: ShellState, fs: FileSystem, args: seq<string>, host: Host, fuel: nat) returns (out: Outcome)
    modifies state
    decreases fuel
    ensures Effect(out, state.Directories()) == Run(cmd, state.registry.commands, old(state.Directories()), fs.store, args, host, fuel)
    ensures state.mode == old(state.mode)
    ensures old(state.Valid()) ==> state.Valid()
  {
    match cmd {
      case Echo =>
        out := Output(EchoText(args));
      case Cd =>
        out := ExecuteCd(state, args, host);
      case Other(name) =>
        out := Output(host.external(name, args, state.currentDirectory, fs.store));
      case Alias(_, target) =>
        if fuel == 0 {
          return Crash(StackOverflow);
        }
        var registry := state.registry;
        var found := registry.Resolve(target);
        if found.None? {
          return Output(TargetNotFound(target));
        }
        out := Execute(found.value, state, fs, args, host, fuel - 1);
    }
  }

  // ---------------------------------------------------------------------------
  // Properties

  /** Only an alias loop can exhaust the fuel: a run that does not overflow gives the same
      effect with any larger fuel. */
  lemma {:induction false} RunFuel(cmd: Command, registry: map<string, Command>, dirs: Dirs, files: FileStore, args: seq<string>, host: Host, fuel: nat, more: nat)
    requires Run(cmd, registry, dirs, files, args, host, fuel).outcome != Crash(StackOverflow)
    requires fuel <= more
    ensures Run(cmd, registry, dirs, files, args, host, more) == Run(cmd, registry, dirs, files, args, host, fuel)
    decreases fuel
  {
    match cmd {
      case Alias(_, target) =>
        if target in registry {
          RunFuel(registry[target], registry, dirs, files, args, host, fuel - 1, more - 1);
        }
      case _ =>
    }
  }

  /** An alias registered under its own target name overflows the stack whatever the fuel. */
  lemma {:induction false} AliasLoop(name: string, registry: map<string, Command>, dirs: Dirs, files: FileStore, args: seq<string>, host: Host, fuel: nat)
    requires name in registry && registry[name] == Alias(name, name)
    ensures Run(Alias(name, name), registry, dirs, files, args, host, fuel) == Effect(Crash(StackOverflow), dirs)
    decreases fuel
  {
    if fuel > 0 {
      AliasLoop(name, registry, dirs, files, args, host, fuel - 1);
    }
  }

  /** Two aliases that name each other overflow the stack whatever the fuel, starting from
      either of them. */
  lemma {:induction false} AliasCycle(a: string, b: string, registry: map<string, Command>, dirs: Dirs, files: FileStore, args: seq<string>, host: Host, fuel: nat)
    requires a in registry && registry[a] == Alias(a, b)
    requires b in registry && registry[b] == Alias(b, a)
    ensures Run(Alias(a, b), registry, dirs, files, args, host, fuel) == Effect(Crash(StackOverflow), dirs)
    ensures Run(Alias(b, a), registry, dirs, files, args, host, fuel) == Effect(Crash(StackOverflow), dirs)
    decreases fuel
  {
    if fuel > 0 {
      AliasCycle(a, b, registry, dirs, files, args, host, fuel - 1);
    }
  }

  /** An alias run is the run of whatever its target names in the registry at that moment,
      with the identical arguments; re-registering the target changes what the alias does. */
  lemma AliasDelegates(name: string, target: string, registry: map<string, Command>, dirs: Dirs, files: FileStore, args: seq<string>, host: Host, fuel: nat)
    requires fuel > 0
    ensures Run(Alias(name, target), registry, dirs, files, args, host, fuel)
         == if target in registry then Run(registry[target], registry, dirs, files, args, host, fuel - 1)
            else Effect(Output(TargetNotFound(target)), dirs)
  {
  }

  /** Changing into a directory and then running `cd -` from there comes back: the current
      directory is restored and the previous one is the directory left. */
  lemma CdThenBack(path: string, dirs: Dirs, host: Host)
    requires Normalize(dirs.current) == dirs.current
    requires CdEffect([path], dirs, host).outcome == Output("")
    requires host.isRooted(dirs.current) && host.dirExists(dirs.current)
    ensures var there := CdEffect([path], dirs, host).dirs;
      var back := CdEffect(["-"], there, host);
      back.outcome == Output("") && back.dirs == Dirs(dirs.current, there.current)
  {
    var there := CdEffect([path], dirs, host).dirs;
    assert there.previous == dirs.current;
    NormalizeIdempotent(CdResolved([path], dirs, host));
  }

  /** Echo neither reads nor changes the shell state's directories. */
  lemma EchoKeepsState(registry: map<string, Command>, dirs: Dirs, files: FileStore, args: seq<string>, host: Host, fuel: nat)
    ensures Run(Echo, registry, dirs, files, args, host, fuel) == Effect(Output(EchoText(args)), dirs)
  {
  }
}
