/** `ParsedCommand`: a command name with its arguments, as the legacy `Parse` returns it. */
module ParsedCommands {
  import opened Strings

  datatype ParsedCommand = ParsedCommand(command: string, arguments: seq<string>)

  /** An argument that is an option group (it starts with `-`) holding `opt`. */
  predicate IsOptionWith(arg: string, opt: string) {
    IsPrefix("-", arg) && Contains(arg, opt)
  }

  /** The `foreach` of `HasOption` from argument `i` on: arguments that do not start with `-`
      are skipped, and the first one that holds `opt` answers true. */
  function HasOptionFrom(args: seq<string>, i: nat, opt: string): bool
    requires i <= |args|
    decreases |args| - i
  {
    if i == |args| then false
    else if !IsPrefix("-", args[i]) then HasOptionFrom(args, i + 1, opt)
    else if Contains(args[i], opt) then true
    else HasOptionFrom(args, i + 1, opt)
  }

  /** `ParsedCommand.HasOption`. */
  function HasOption(pc: ParsedCommand, opt: string): bool {
    HasOptionFrom(pc.arguments, 0, opt)
  }

  lemma {:induction false} HasOptionFromExists(args: seq<string>, i: nat, opt: string)
    requires i <= |args|
    ensures HasOptionFrom(args, i, opt) <==> exists k :: i <= k < |args| && IsOptionWith(args[k], opt)
    decreases |args| - i
  {
    if i < |args| {
      HasOptionFromExists(args, i + 1, opt);
      if IsOptionWith(args[i], opt) {
        assert exists k :: i <= k < |args| && IsOptionWith(args[k], opt);
      }
    }
  }

  /** `HasOption` is true exactly when some argument starts with `-` and holds `opt`. */
  lemma HasOptionExists(pc: ParsedCommand, opt: string)
    ensures HasOption(pc, opt) <==> exists k :: 0 <= k < |pc.arguments| && IsOptionWith(pc.arguments[k], opt)
  {
    HasOptionFromExists(pc.arguments, 0, opt);
  }

  /** No arguments, no option. */
  lemma HasOptionEmpty(command: string, opt: string)
    ensures !HasOption(ParsedCommand(command, []), opt)
  {
  }

  /** More arguments never turn a found option into a missing one. */
  lemma HasOptionMonotone(pc: ParsedCommand, more: seq<string>, opt: string)
    requires HasOption(pc, opt)
    ensures HasOption(ParsedCommand(pc.command, pc.arguments + more), opt)
  {
    var args := pc.arguments + more;
    HasOptionExists(pc, opt);
    HasOptionExists(ParsedCommand(pc.command, args), opt);
    var k :| 0 <= k < |pc.arguments| && IsOptionWith(pc.arguments[k], opt);
    assert args[k] == pc.arguments[k];
  }

  /** An argument that does not start with `-` plays no part, wherever it stands. */
  lemma HasOptionIgnoresPlain(command: string, before: seq<string>, arg: string, after: seq<string>, opt: string)
    requires !IsPrefix("-", arg)
    ensures HasOption(ParsedCommand(command, before + [arg] + after), opt)
            == HasOption(ParsedCommand(command, before + after), opt)
  {
    var with := before + [arg] + after;
    var without := before + after;
    HasOptionExists(ParsedCommand(command, with), opt);
    HasOptionExists(ParsedCommand(command, without), opt);
    if exists k :: 0 <= k < |with| && IsOptionWith(with[k], opt) {
      var k :| 0 <= k < |with| && IsOptionWith(with[k], opt);
      if k < |before| {
        assert without[k] == with[k];
      } else {
        assert k != |before|;
        assert without[k - 1] == with[k];
      }
    }
    if exists k :: 0 <= k < |without| && IsOptionWith(without[k], opt) {
      var k :| 0 <= k < |without| && IsOptionWith(without[k], opt);
      if k < |before| {
        assert with[k] == without[k];
      } else {
        assert with[k + 1] == without[k];
      }
    }
  }

  /** Combined flags match each of their letters: `-la` has both `l` and `a`. */
  lemma CombinedFlags(command: string, flags: string, k: nat)
    requires k < |flags|
    ensures HasOption(ParsedCommand(command, ["-" + flags]), [flags[k]])
  {
    var arg := "-" + flags;
    assert arg[..1] == "-";
    assert arg[k + 1..k + 2] == [flags[k]];
    assert OccursAt(arg, [flags[k]], k + 1);
    ContainsAt(arg, [flags[k]]);
    assert IsOptionWith(arg, [flags[k]]);
  }
}
