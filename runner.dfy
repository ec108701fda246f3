/**
 * `CommandRunner.Run`: the legacy path from a typed line to a command. The line is split by
 * the legacy `Parse` (so `|`, `>`, `<` and `;` are ordinary words), the first word is looked
 * up in the runner's own registry, and the command runs with the remaining words. The
 * structured parser and the executor are not involved.
 */
module Runner {
  import opened Strings
  import opened Commands
  import opened Registry
  import opened Shell
  import opened ParsedCommands
  import opened LegacyParser
  import opened Files
  import Handlers

  function UnknownCommand(name: string): string {
    "Unknown command: " + name
  }

  /** `Run` on values: `commands` is the runner's registry map and `stateCommands` the shell
      state's, which aliases consult. */
  function RunLine(commands: map<string, Command>, stateCommands: map<string, Command>, dirs: Shell.Dirs,
                   files: FileStore, input: string, host: Host, fuel: nat): Handlers.Effect
  {
    var parsed := LegacyParse(input);
    if parsed.command !in commands then Handlers.Effect(Output(UnknownCommand(parsed.command)), dirs)
    else Handlers.Run(commands[parsed.command], stateCommands, dirs, files, parsed.arguments, host, fuel)
  }

  class CommandRunner {
    const registry: CommandRegistry

    constructor(registry: CommandRegistry)
      ensures this.registry == registry
    {
      this.registry := registry;
    }

    /** `CommandRunner.Run`. The registries are not changed; the shell state changes only as
        the command that runs changes it. */
    method Run(state: ShellState, fs: FileSystem, input: string, host: Host, fuel: nat) returns (out: Outcome)
      modifies state
      ensures Handlers.Effect(out, state.Directories())
              == RunLine(registry.commands, state.registry.commands, old(state.Directories()), fs.store, input, host, fuel)
      ensures state.mode == old(state.mode)
      ensures old(state.Valid()) ==> state.Valid()
    {
      var parsed := Parse(input);
      var cmd := registry.Resolve(parsed.command);
      if cmd.None? {
        return Output(UnknownCommand(parsed.command));
      }
      out := Handlers.Execute(cmd.value, state, fs, parsed.arguments, host, fuel);
    }
  }

  // ---------------------------------------------------------------------------
  // Properties

  /** A first word that is not registered gives the unknown-command message and leaves the
      directories alone. */
  lemma UnknownLeavesState(commands: map<string, Command>, stateCommands: map<string, Command>, dirs: Shell.Dirs,
                           files: FileStore, input: string, host: Host, fuel: nat)
    requires LegacyParse(input).command !in commands
    ensures RunLine(commands, stateCommands, dirs, files, input, host, fuel)
            == Handlers.Effect(Output(UnknownCommand(LegacyParse(input).command)), dirs)
  {
  }

  /** A blank line looks up the empty name: unless that is registered, the message names
      no command. */
  lemma BlankLine(commands: map<string, Command>, stateCommands: map<string, Command>, dirs: Shell.Dirs,
                  files: FileStore, input: string, host: Host, fuel: nat)
    requires IsBlank(input) && "" !in commands
    ensures RunLine(commands, stateCommands, dirs, files, input, host, fuel) == Handlers.Effect(Output("Unknown command: "), dirs)
  {
    ParseBlank(input);
    assert UnknownCommand("") == "Unknown command: ";
  }

  /** Words separated by single spaces reach the command as they are: the first names the
      command, the rest are its arguments, operators included. */
  lemma WordsReachCommand(commands: map<string, Command>, stateCommands: map<string, Command>, dirs: Shell.Dirs,
                          files: FileStore, ws: seq<string>, host: Host, fuel: nat)
    requires |ws| >= 1 && forall k :: 0 <= k < |ws| ==> IsWord(ws[k])
    requires ws[0] in commands
    ensures RunLine(commands, stateCommands, dirs, files, Join(ws, " "), host, fuel)
            == Handlers.Run(commands[ws[0]], stateCommands, dirs, files, ws[1..], host, fuel)
  {
    ParseJoin(ws);
  }

  /** `echo a | b` prints `a | b`: the pipe is an argument like any other. */
  lemma EchoKeepsPipe(commands: map<string, Command>, stateCommands: map<string, Command>, dirs: Shell.Dirs,
                      files: FileStore, a: string, b: string, host: Host, fuel: nat)
    requires IsWord(a) && IsWord(b)
    requires "echo" in commands && commands["echo"] == Echo
    ensures RunLine(commands, stateCommands, dirs, files, "echo " + a + " | " + b, host, fuel)
            == Handlers.Effect(Output(a + " | " + b), dirs)
  {
    var args := [a, "|", b];
    JoinThree(a, "|", b);
    var ws := ["echo"] + args;
    assert IsWord("echo") && IsWord("|");
    assert forall k :: 0 <= k < |ws| ==> IsWord(ws[k]) by {
      assert ws == ["echo", a, "|", b];
    }
    JoinCons("echo", args);
    Spaced(a, b);
    WordsReachCommand(commands, stateCommands, dirs, files, ws, host, fuel);
    assert ws[1..] == args;
    assert Handlers.EchoText(args) == a + " | " + b;
  }

  lemma Spaced(a: string, b: string)
    ensures a + " | " + b == a + " " + "|" + " " + b
    ensures "echo " + a + " | " + b == "echo" + " " + (a + " " + "|" + " " + b)
  {
    assert " | " == " " + "|" + " ";
    assert "echo " == "echo" + " ";
  }

  lemma JoinThree(a: string, b: string, c: string)
    ensures Join([a, b, c], " ") == a + " " + b + " " + c
  {
    assert [a, b, c][1..] == [b, c];
    assert [b, c][1..] == [c];
  }

  lemma JoinCons(w: string, rest: seq<string>)
    requires rest != []
    ensures Join([w] + rest, " ") == w + " " + Join(rest, " ")
  {
    assert ([w] + rest)[1..] == rest;
  }
}
