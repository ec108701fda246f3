/**
 * `CommandExecutor`: runs a parsed `Sequence` pipeline by pipeline and a `Pipeline` stage by
 * stage. Each stage's shown output is appended to the next stage's arguments, the text of a
 * redirect's file is appended after that, and an output redirect writes the stage's output to
 * its file and shows nothing.
 *
 * The specification is on values: a `World` (the shell's directories and the file store) is
 * threaded through `NodeRun`, `PipeFrom` and `SeqRun`. The methods of `CommandExecutor` update
 * a `ShellState` and a `FileSystem` in place and are proved to follow it. An exception that a
 * command lets escape (`Crash`) ends the whole run, as it does in the source.
 */
module Executor {
  import opened Wrappers
  import opened Strings
  import opened Ast
  import opened Commands
  import opened Registry
  import opened Shell
  import opened Handlers
  import opened Files

  /** What a run sees and does not change: the executor's registry map, the shell state's
      registry map (which aliases consult), the host and the bound on alias nesting. */
  datatype Context = Context(commands: map<string, Command>, stateCommands: map<string, Command>, host: Host, fuel: nat)

  /** What a run changes: the shell's directories and the files. */
  datatype World = World(dirs: Dirs, files: FileStore)

  /** The outcome of a run and the world after it. */
  datatype Ran = Ran(outcome: Outcome, world: World)

  function NotFound(name: string): string {
    "cssh: command not found: " + name
  }

  function ReadFailed(path: string, message: string): string {
    "[cssh: failed to read '" + path + "': " + message + "]"
  }

  function RedirectFailed(message: string): string {
    "cssh: redirect failed: " + message
  }

  /** The redirect names a file: the path is present and not blank. The redirect's type
      plays no part. */
  predicate HasPath(redirect: RedirectInfo) {
    redirect.filePath.Some? && !IsBlank(redirect.filePath.value)
  }

  /** The argument a redirect's file contributes: its text, or a failure notice. */
  function InputText(redirect: RedirectInfo, files: FileStore): string
    requires HasPath(redirect)
  {
    var path := redirect.filePath.value;
    match ReadText(files, path)
    case Ok(text) => text
    case Err(message) => ReadFailed(path, message)
  }

  // ---------------------------------------------------------------------------
  // Specification

  /** `BuildArgumentsWithInput` on values: the parsed arguments, then the piped input unless
      it is empty, then the text of the redirect's file whenever the redirect names one. */
  function Arguments(node: CommandNode, piped: string, files: FileStore): (r: seq<string>)
    ensures |r| == |node.args| + (if piped == "" then 0 else 1) + (if HasPath(node.redirect) then 1 else 0)
    ensures r[..|node.args|] == node.args
    ensures piped != "" ==> r[|node.args|] == piped
    ensures HasPath(node.redirect) ==> r[|r| - 1] == InputText(node.redirect, files)
  {
    node.args + (if piped == "" then [] else [piped])
              + (if HasPath(node.redirect) then [InputText(node.redirect, files)] else [])
  }

  /** What a redirect leaves shown, and the files afterwards. */
  datatype Redirected = Redirected(shown: string, files: FileStore)

  /** `ApplyOutputRedirects` on values. With a path, `OutputAppend` appends and every other
      type (including `Input`) overwrites the file. */
  function Redirect(output: string, redirect: RedirectInfo, files: FileStore): (r: Redirected)
    ensures !HasPath(redirect) ==> r == Redirected(output, files)
    ensures HasPath(redirect) && redirect.filePath.value in files.writeFaults
            ==> r == Redirected(RedirectFailed(files.writeFaults[redirect.filePath.value]), files)
    ensures HasPath(redirect) && redirect.filePath.value !in files.writeFaults
            ==> r.shown == "" && r.files.readFaults == files.readFaults && r.files.writeFaults == files.writeFaults
                && redirect.filePath.value in r.files.contents
                && ContentsOrEmpty(r.files, redirect.filePath.value)
                   == (if redirect.redirectType == OutputAppend
                         then ContentsOrEmpty(files, redirect.filePath.value) + output else output)
  {
    if !HasPath(redirect) then Redirected(output, files)
    else
      var path := redirect.filePath.value;
      var written := if redirect.redirectType == OutputAppend then AppendText(files, path, output)
                     else WriteText(files, path, output);
      match written
      case Ok(after) => Redirected("", after)
      case Err(message) => Redirected(RedirectFailed(message), files)
  }

  /** `ExecuteCommandNode` on values. */
  function NodeRun(ctx: Context, node: CommandNode, piped: string, w: World): Ran {
    if node.name !in ctx.commands then Ran(Output(NotFound(node.name)), w)
    else
      var e := Run(ctx.commands[node.name], ctx.stateCommands, w.dirs, w.files, Arguments(node, piped, w.files), ctx.host, ctx.fuel);
      match e.outcome
      case Crash(_) => Ran(e.outcome, World(e.dirs, w.files))
      case Output(raw) =>
        var r := Redirect(raw, node.redirect, w.files);
        Ran(Output(r.shown), World(e.dirs, r.files))
  }

  /** The stages `nodes` run in order, the first receiving `piped`: each stage's output is
      the next one's piped input, and the last output is the result (`piped` for no stages). */
  function PipeFrom(ctx: Context, nodes: seq<CommandNode>, piped: string, w: World): Ran
    decreases |nodes|
  {
    if nodes == [] then Ran(Output(piped), w)
    else
      var r := PipeFrom(ctx, nodes[..|nodes| - 1], piped, w);
      if r.outcome.Crash? then r else NodeRun(ctx, nodes[|nodes| - 1], r.outcome.text, r.world)
  }

  /** `ExecutePipeline` on values: there is no piped input before the first stage. */
  function PipeRun(ctx: Context, p: Pipeline, w: World): Ran {
    PipeFrom(ctx, p.commands, "", w)
  }

  /** `ExecuteSequence` on values: the pipelines run in order and the last one's output is the
      result (`""` for none). */
  function SeqRun(ctx: Context, ps: seq<Pipeline>, w: World): Ran
    decreases |ps|
  {
    if ps == [] then Ran(Output(""), w)
    else
      var r := SeqRun(ctx, ps[..|ps| - 1], w);
      if r.outcome.Crash? then r else PipeRun(ctx, ps[|ps| - 1], r.world)
  }

  // ---------------------------------------------------------------------------
  // The executor

  class CommandExecutor {
    const registry: CommandRegistry

    constructor(registry: CommandRegistry)
      ensures this.registry == registry
    {
      this.registry := registry;
    }

    /** The world a shell state and a file system stand for. */
    static function WorldOf(state: ShellState, fs: FileSystem): World
      reads state, fs
    {
      World(state.Directories(), fs.store)
    }

    /** The context of a run with this executor over a shell state whose registry is
        `stateRegistry`. */
    function ContextOf(stateRegistry: CommandRegistry, host: Host, fuel: nat): Context
      reads registry, stateRegistry
    {
      Context(registry.commands, stateRegistry.commands, host, fuel)
    }

    /** `BuildArgumentsWithInput`; an empty `piped` stands for a missing piped input. */
    static method BuildArgumentsWithInput(node: CommandNode, piped: string, fs: FileSystem) returns (args: seq<string>)
      ensures args == Arguments(node, piped, fs.store)
    {
      args := node.args;
      if piped != "" {
        args := args + [piped];
      }
      if HasPath(node.redirect) {
        var path := node.redirect.filePath.value;
        var read := fs.ReadAllText(path);
        match read {
          case Ok(text) => args := args + [text];
          case Err(message) => args := args + [ReadFailed(path, message)];
        }
      }
    }

    /** `ApplyOutputRedirects`. */
    static method ApplyOutputRedirects(output: string, redirect: RedirectInfo, fs: FileSystem) returns (shown: string)
      modifies fs
      ensures Redirected(shown, fs.store) == Redirect(output, redirect, old(fs.store))
    {
      if !HasPath(redirect) {
        return output;
      }
      var path := redirect.filePath.value;
      var error: Option<string>;
      if redirect.redirectType == OutputAppend {
        error := fs.AppendAllText(path, output);
      } else {
        error := fs.WriteAllText(path, output);
      }
      match error {
        case None => shown := "";
        case Some(message) => shown := RedirectFailed(message);
      }
    }

    /** `ExecuteCommandNode`. */
    method ExecuteCommandNode(state: ShellState, node: CommandNode, piped: string, fs: FileSystem, host: Host, fuel: nat)
      returns (out: Outcome)
      modifies state, fs
      ensures Ran(out, WorldOf(state, fs)) == NodeRun(ContextOf(state.registry, host, fuel), node, piped, old(WorldOf(state, fs)))
      ensures state.mode == old(state.mode)
      ensures old(state.Valid()) ==> state.Valid()
    {
      var found := registry.Resolve(node.name);
      if found.None? {
        return Output(NotFound(node.name));
      }
      var args := BuildArgumentsWithInput(node, piped, fs);
      var raw := Execute(found.value, state, fs, args, host, fuel);
      if raw.Crash? {
        return raw;
      }
      var shown := ApplyOutputRedirects(raw.text, node.redirect, fs);
      out := Output(shown);
    }

    /** `ExecutePipeline`; a run ends at a stage whose command crashes. */
    method ExecutePipeline(state: ShellState, pipeline: Pipeline, fs: FileSystem, host: Host, fuel: nat)
      returns (out: Outcome)
      modifies state, fs
      ensures Ran(out, WorldOf(state, fs)) == PipeRun(ContextOf(state.registry, host, fuel), pipeline, old(WorldOf(state, fs)))
      ensures state.mode == old(state.mode)
      ensures old(state.Valid()) ==> state.Valid()
    {
      ghost var w0 := WorldOf(state, fs);
      ghost var ctx := ContextOf(state.registry, host, fuel);
      var nodes := pipeline.commands;
      var pipedInput := "";
      var lastOutput := "";
      for k := 0 to |nodes|
        invariant pipedInput == lastOutput
        invariant Ran(Output(lastOutput), WorldOf(state, fs)) == PipeFrom(ctx, nodes[..k], "", w0)
        invariant state.mode == old(state.mode)
        invariant old(state.Valid()) ==> state.Valid()
      {
        ghost var before := PipeFrom(ctx, nodes[..k], "", w0);
        assert nodes[..k + 1][..k] == nodes[..k];
        assert PipeFrom(ctx, nodes[..k + 1], "", w0) == NodeRun(ctx, nodes[k], before.outcome.text, before.world);
        var o := ExecuteCommandNode(state, nodes[k], pipedInput, fs, host, fuel);
        if o.Crash? {
          PipeCrashStays(ctx, nodes[..k + 1], nodes, "", w0);
          assert nodes[..|nodes|] == nodes;
          return o;
        }
        lastOutput := o.text;
        pipedInput := lastOutput;
      }
      assert nodes[..|nodes|] == nodes;
      out := Output(lastOutput);
    }

    /** `ExecuteSequence`: the output of the last pipeline. */
    method ExecuteSequence(state: ShellState, sequence: Sequence, fs: FileSystem, host: Host, fuel: nat)
      returns (out: Outcome)
      modifies state, fs
      ensures Ran(out, WorldOf(state, fs)) == SeqRun(ContextOf(state.registry, host, fuel), sequence.pipelines, old(WorldOf(state, fs)))
      ensures state.mode == old(state.mode)
      ensures old(state.Valid()) ==> state.Valid()
    {
      ghost var w0 := WorldOf(state, fs);
      ghost var ctx := ContextOf(state.registry, host, fuel);
      var ps := sequence.pipelines;
      var lastOutput := "";
      for k := 0 to |ps|
        invariant Ran(Output(lastOutput), WorldOf(state, fs)) == SeqRun(ctx, ps[..k], w0)
        invariant state.mode == old(state.mode)
        invariant old(state.Valid()) ==> state.Valid()
      {
        ghost var before := SeqRun(ctx, ps[..k], w0);
        assert ps[..k + 1][..k] == ps[..k];
        assert SeqRun(ctx, ps[..k + 1], w0) == PipeRun(ctx, ps[k], before.world);
        var o := ExecutePipeline(state, ps[k], fs, host, fuel);
        if o.Crash? {
          SeqCrashStays(ctx, ps[..k + 1], ps, w0);
          assert ps[..|ps|] == ps;
          return o;
        }
        lastOutput := o.text;
      }
      assert ps[..|ps|] == ps;
      out := Output(lastOutput);
    }
  }

  // ---------------------------------------------------------------------------
  // Properties

  /** Once some stages crash, the later stages do not run. */
  lemma {:induction false} PipeCrashStays(ctx: Context, nodes: seq<CommandNode>, longer: seq<CommandNode>, piped: string, w: World)
    requires nodes <= longer
    requires PipeFrom(ctx, nodes, piped, w).outcome.Crash?
    ensures PipeFrom(ctx, longer, piped, w) == PipeFrom(ctx, nodes, piped, w)
    decreases |longer|
  {
    if |longer| > |nodes| {
      assert longer[..|longer| - 1][..|nodes|] == nodes;
      PipeCrashStays(ctx, nodes, longer[..|longer| - 1], piped, w);
    } else {
      assert longer == nodes;
    }
  }

  /** Once some pipelines crash, the later pipelines do not run. */
  lemma {:induction false} SeqCrashStays(ctx: Context, ps: seq<Pipeline>, longer: seq<Pipeline>, w: World)
    requires ps <= longer
    requires SeqRun(ctx, ps, w).outcome.Crash?
    ensures SeqRun(ctx, longer, w) == SeqRun(ctx, ps, w)
    decreases |longer|
  {
    if |longer| > |ps| {
      assert longer[..|longer| - 1][..|ps|] == ps;
      SeqCrashStays(ctx, ps, longer[..|longer| - 1], w);
    } else {
      assert longer == ps;
    }
  }

  /** Running stages in two parts: the second part starts from the first part's output and
      world, unless the first part crashed. */
  lemma {:induction false} PipeAppend(ctx: Context, xs: seq<CommandNode>, ys: seq<CommandNode>, piped: string, w: World)
    ensures var r := PipeFrom(ctx, xs, piped, w);
      PipeFrom(ctx, xs + ys, piped, w) == if r.outcome.Crash? then r else PipeFrom(ctx, ys, r.outcome.text, r.world)
    decreases |ys|
  {
    if ys == [] {
      assert xs + ys == xs;
    } else {
      var init := ys[..|ys| - 1];
      assert (xs + ys)[..|xs + ys| - 1] == xs + init;
      assert (xs + ys)[|xs + ys| - 1] == ys[|ys| - 1];
      PipeAppend(ctx, xs, init, piped, w);
    }
  }

  /** Running pipelines in two parts: the second part starts from the world the first part
      leaves, and the first part's output is discarded, unless it crashed. */
  lemma {:induction false} SeqAppend(ctx: Context, ps: seq<Pipeline>, qs: seq<Pipeline>, w: World)
    requires qs != []
    ensures var r := SeqRun(ctx, ps, w);
      SeqRun(ctx, ps + qs, w) == if r.outcome.Crash? then r else SeqRun(ctx, qs, r.world)
    decreases |qs|
  {
    var init := qs[..|qs| - 1];
    assert (ps + qs)[..|ps + qs| - 1] == ps + init;
    assert (ps + qs)[|ps + qs| - 1] == qs[|qs| - 1];
    if init == [] {
      assert ps + init == ps;
    } else {
      SeqAppend(ctx, ps, init, w);
    }
  }

  /** The result of a sequence is the output of its last pipeline, run in the world the
      earlier ones leave; whatever those showed is lost. */
  lemma LastOutputOnly(ctx: Context, ps: seq<Pipeline>, last: Pipeline, w: World)
    requires !SeqRun(ctx, ps, w).outcome.Crash?
    ensures SeqRun(ctx, ps + [last], w) == PipeRun(ctx, last, SeqRun(ctx, ps, w).world)
  {
    SeqAppend(ctx, ps, [last], w);
    assert [last][..0] == [];
  }

  /** An unregistered stage shows the not-found message, changes nothing, and the message is
      the next stage's piped input. */
  lemma NotFoundPipedOn(ctx: Context, first: CommandNode, second: CommandNode, piped: string, w: World)
    requires first.name !in ctx.commands
    ensures NodeRun(ctx, first, piped, w) == Ran(Output(NotFound(first.name)), w)
    ensures PipeFrom(ctx, [first, second], piped, w) == NodeRun(ctx, second, NotFound(first.name), w)
  {
    assert [first, second][..1] == [first];
    assert [first][..0] == [];
    assert PipeFrom(ctx, [first], piped, w) == NodeRun(ctx, first, piped, w);
  }

  /** A stage whose redirect writes its output successfully shows nothing, so the next stage
      gets no piped input: its arguments are only its own and its redirect's file. */
  lemma RedirectedStagePipesNothing(ctx: Context, first: CommandNode, second: CommandNode, piped: string, w: World)
    requires first.name in ctx.commands && HasPath(first.redirect)
    requires first.redirect.filePath.value !in w.files.writeFaults
    requires !NodeRun(ctx, first, piped, w).outcome.Crash?
    ensures NodeRun(ctx, first, piped, w).outcome == Output("")
    ensures PipeFrom(ctx, [first, second], piped, w) == NodeRun(ctx, second, "", NodeRun(ctx, first, piped, w).world)
  {
    assert [first, second][..1] == [first];
    assert [first][..0] == [];
    assert PipeFrom(ctx, [first], piped, w) == NodeRun(ctx, first, piped, w);
  }

  /** Piped input is added even when the stage has its own arguments: `echo xs | echo ys`
      echoes `ys` followed by the first echo's output. */
  lemma EchoPipe(ctx: Context, xs: seq<string>, ys: seq<string>, w: World)
    requires "echo" in ctx.commands && ctx.commands["echo"] == Echo
    requires EchoText(xs) != ""
    ensures PipeRun(ctx, Pipeline([CommandNode("echo", xs, NoRedirect), CommandNode("echo", ys, NoRedirect)]), w)
         == Ran(Output(EchoText(ys + [EchoText(xs)])), w)
  {
    var first := CommandNode("echo", xs, NoRedirect);
    var second := CommandNode("echo", ys, NoRedirect);
    assert [first, second][..1] == [first];
    assert [first][..0] == [];
    assert Arguments(first, "", w.files) == xs;
    assert PipeFrom(ctx, [first], "", w) == Ran(Output(EchoText(xs)), w);
    assert Arguments(second, EchoText(xs), w.files) == ys + [EchoText(xs)];
  }

  /** The file of any redirect is read as an extra argument before the command runs and, for
      every type but `OutputAppend`, is then overwritten with the output: `echo ys < f` (or
      `> f`) replaces the text of `f` by `ys` followed by that text. */
  lemma EchoRedirectReadsTarget(ctx: Context, ys: seq<string>, kind: RedirectType, path: string, w: World)
    requires "echo" in ctx.commands && ctx.commands["echo"] == Echo
    requires !IsBlank(path) && kind != OutputAppend
    requires path in w.files.contents && path !in w.files.readFaults && path !in w.files.writeFaults
    ensures var r := NodeRun(ctx, CommandNode("echo", ys, RedirectInfo(kind, Some(path))), "", w);
      r.outcome == Output("") && r.world.dirs == w.dirs
      && ReadText(r.world.files, path) == Ok(EchoText(ys + [w.files.contents[path]]))
  {
    var node := CommandNode("echo", ys, RedirectInfo(kind, Some(path)));
    assert Arguments(node, "", w.files) == ys + [w.files.contents[path]];
  }

  /** An input redirect from a file that can be read but not written: the command gets the
      file's text as its last argument, then writing its output back fails, so the file is
      unchanged and the stage shows only the redirect failure. */
  lemma ReadOnlyInput(ctx: Context, name: string, ys: seq<string>, path: string, w: World)
    requires name in ctx.commands && !IsBlank(path)
    requires path in w.files.contents && path !in w.files.readFaults && path in w.files.writeFaults
    requires !Run(ctx.commands[name], ctx.stateCommands, w.dirs, w.files, ys + [w.files.contents[path]], ctx.host, ctx.fuel).outcome.Crash?
    ensures var node := CommandNode(name, ys, RedirectInfo(Input, Some(path)));
      var e := Run(ctx.commands[name], ctx.stateCommands, w.dirs, w.files, ys + [w.files.contents[path]], ctx.host, ctx.fuel);
      NodeRun(ctx, node, "", w) == Ran(Output(RedirectFailed(w.files.writeFaults[path])), World(e.dirs, w.files))
  {
    var node := CommandNode(name, ys, RedirectInfo(Input, Some(path)));
    assert Arguments(node, "", w.files) == ys + [w.files.contents[path]];
  }

  /** Appending puts the output right after the old text, without a line break, and touches
      no other file; overwriting leaves exactly the output. */
  lemma RedirectReadBack(output: string, redirect: RedirectInfo, files: FileStore, other: string)
    requires HasPath(redirect) && redirect.filePath.value !in files.writeFaults
    ensures var r := Redirect(output, redirect, files);
      && |ContentsOrEmpty(r.files, redirect.filePath.value)|
         == (if redirect.redirectType == OutputAppend then |ContentsOrEmpty(files, redirect.filePath.value)| else 0) + |output|
      && (other != redirect.filePath.value ==> ReadText(r.files, other) == ReadText(files, other))
  {
    var path := redirect.filePath.value;
    if redirect.redirectType == OutputAppend {
      AppendThenRead(files, path, output, other);
    } else {
      WriteThenRead(files, path, output, other);
    }
  }
}
