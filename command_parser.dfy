/**
 * `CommandParser.ParsePipeline` and `CommandParser.ParseSequence`: from tokens to the
 * Sequence / Pipeline / CommandNode tree.
 *
 * A stage collects tokens up to the next `|` or redirect operator; a redirect operator takes
 * the token after it as its file path and ends the stage, so the tokens after a redirect
 * target start a new command without any `|`. A redirect operator that is the last token
 * drops the stage it ends and everything after it. A stage with no tokens adds no command.
 */
module CommandParser {
  import opened Wrappers
  import opened Strings
  import opened Ast
  import opened Tokenizer
  import opened Splitter

  /** The `switch` of `ParsePipeline` on the operator text; `<<` (and anything else) gives
      kind None. */
  function RedirectTypeOf(op: string): (r: RedirectType)
    ensures IsRedirectOperator(op) ==> OperatorFor(r) == op
    ensures r != RedirectType.None ==> op == OperatorFor(r)
  {
    if op == ">" then OutputTruncate
    else if op == ">>" then OutputAppend
    else if op == "<" then Input
    else RedirectType.None
  }

  /** The operator that gives each kind: the inverse of `RedirectTypeOf` on the four
      redirect operators. */
  function OperatorFor(r: RedirectType): string {
    match r
    case None => "<<"
    case OutputTruncate => ">"
    case OutputAppend => ">>"
    case Input => "<"
  }

  /** A token that may stand in a command's name or arguments. */
  predicate IsWordToken(t: string) {
    t != "|" && !IsRedirectOperator(t)
  }

  /** The end of the run of word tokens that starts at `i`. */
  function ArgEnd(t: seq<string>, i: nat): (j: nat)
    requires i <= |t|
    ensures i <= j <= |t|
    ensures forall k :: i <= k < j ==> IsWordToken(t[k])
    ensures j < |t| ==> !IsWordToken(t[j])
    decreases |t| - i
  {
    if i < |t| && IsWordToken(t[i]) then ArgEnd(t, i + 1) else i
  }

  /** The command a stage's collected tokens give: none when there are no tokens. */
  function NodeOf(args: seq<string>, redirect: RedirectInfo): seq<CommandNode> {
    if |args| > 0 then [CommandNode(args[0], args[1..], redirect)] else []
  }

  /** What one stage of `ParsePipeline` gives: the index after it, its command (if any), and
      whether it ended the pipeline (a redirect operator with no token after it). */
  datatype StageStep = StageStep(next: nat, nodes: seq<CommandNode>, stop: bool)

  /** The stage that starts at index `i`, which does not hold `|`. */
  function StageAt(t: seq<string>, i: nat): (st: StageStep)
    requires i < |t| && t[i] != "|"
    ensures i < st.next <= |t|
  {
    var j := ArgEnd(t, i);
    if j < |t| && IsRedirectOperator(t[j]) then
      if j + 1 == |t| then StageStep(|t|, [], true)
      else StageStep(j + 2, NodeOf(t[i..j], RedirectInfo(RedirectTypeOf(t[j]), Some(t[j + 1]))), false)
    else StageStep(j, NodeOf(t[i..j], NoRedirect), false)
  }

  /** The commands `ParsePipeline` builds from the tokens `t`, from index `i` on. */
  function Stages(t: seq<string>, i: nat): seq<CommandNode>
    requires i <= |t|
    decreases |t| - i
  {
    if i == |t| then []
    else if t[i] == "|" then Stages(t, i + 1)
    else
      var st := StageAt(t, i);
      if st.stop then [] else st.nodes + Stages(t, st.next)
  }

  /** The commands of one `;`-part. */
  function PipelineOf(part: string, env: Environment, isLetterOrDigit: char -> bool): seq<CommandNode> {
    Stages(Tokenize(part, env, isLetterOrDigit), 0)
  }

  /** The body of the outer loop of `ParsePipeline` for a stage that starts at `i`: collects
      the arguments up to the next `|` or redirect operator, then the redirect. */
  method ParseStage(tokens: seq<string>, i: nat)
    returns (next: nat, args: seq<string>, redirect: RedirectInfo, stop: bool)
    requires i < |tokens| && tokens[i] != "|"
    ensures var st := StageAt(tokens, i);
      stop == st.stop && (!stop ==> next == st.next && NodeOf(args, redirect) == st.nodes)
  {
    next := i;
    args := [];
    redirect := NoRedirect;
    stop := false;
    while next < |tokens| && tokens[next] != "|" && !IsRedirectOperator(tokens[next])
      invariant i <= next <= |tokens|
      invariant args == tokens[i..next]
      invariant ArgEnd(tokens, i) == ArgEnd(tokens, next)
      decreases |tokens| - next
    {
      args := args + [tokens[next]];
      next := next + 1;
    }
    if next < |tokens| && IsRedirectOperator(tokens[next]) {
      var op := tokens[next];
      next := next + 1;
      if next >= |tokens| {
        stop := true;
        return;
      }
      var filePath := tokens[next];
      var redirectType :=
        if op == ">" then OutputTruncate
        else if op == ">>" then OutputAppend
        else if op == "<" then Input
        else RedirectType.None;
      redirect := RedirectInfo(redirectType, Some(filePath));
      next := next + 1;
    }
  }

  lemma StagesAtPipe(t: seq<string>, i: nat)
    requires i < |t| && t[i] == "|"
    ensures Stages(t, i) == Stages(t, i + 1)
  {
  }

  lemma StagesAtStage(t: seq<string>, i: nat)
    requires i < |t| && t[i] != "|"
    ensures var st := StageAt(t, i);
      Stages(t, i) == if st.stop then [] else st.nodes + Stages(t, st.next)
  {
  }

  lemma AppendAssoc(a: seq<CommandNode>, b: seq<CommandNode>, c: seq<CommandNode>)
    ensures a + (b + c) == a + b + c
  {
  }

  /** `CommandParser.ParsePipeline`. */
  method ParsePipeline(input: string, env: Environment, isLetterOrDigit: char -> bool)
    returns (commands: seq<CommandNode>)
    ensures commands == PipelineOf(input, env, isLetterOrDigit)
  {
    var tokens := TokenizeWithRedirects(input, env, isLetterOrDigit);
    commands := [];
    ghost var all := Stages(tokens, 0);
    var i := 0;
    while i < |tokens|
      invariant i <= |tokens|
      invariant commands + Stages(tokens, i) == all
      decreases |tokens| - i
    {
      if tokens[i] == "|" {
        StagesAtPipe(tokens, i);
        i := i + 1;
        continue;
      }
      StagesAtStage(tokens, i);
      var next, args, redirect, stop := ParseStage(tokens, i);
      if stop {
        assert Stages(tokens, i) == [];
        assert commands + [] == commands;
        break;
      }
      assert Stages(tokens, i) == NodeOf(args, redirect) + Stages(tokens, next);
      AppendAssoc(commands, NodeOf(args, redirect), Stages(tokens, next));
      ghost var before := commands;
      if |args| > 0 {
        commands := commands + [CommandNode(args[0], args[1..], redirect)];
      }
      assert commands == before + NodeOf(args, redirect);
      i := next;
    }
  }

  /** The pipelines of the `;`-parts that give at least one command, in order. */
  function Pipelines(parts: seq<string>, env: Environment, isLetterOrDigit: char -> bool): seq<Pipeline> {
    if parts == [] then []
    else
      var commands := PipelineOf(parts[|parts| - 1], env, isLetterOrDigit);
      Pipelines(parts[..|parts| - 1], env, isLetterOrDigit) + (if |commands| > 0 then [Pipeline(commands)] else [])
  }

  /** What `ParseSequence` returns: the pipelines of the parts, or one empty pipeline when no
      part gives a command. */
  function SequenceOf(input: string, env: Environment, isLetterOrDigit: char -> bool): Sequence {
    var pipelines := Pipelines(SplitOutside(input, ';'), env, isLetterOrDigit);
    Sequence(if |pipelines| > 0 then pipelines else [Pipeline([])])
  }

  /** `CommandParser.ParseSequence`. */
  method ParseSequence(input: string, env: Environment, isLetterOrDigit: char -> bool) returns (sq: Sequence)
    ensures sq == SequenceOf(input, env, isLetterOrDigit)
  {
    var pipelines: seq<Pipeline> := [];
    var parts := SplitBySemicolons(input);
    for k := 0 to |parts|
      invariant pipelines == Pipelines(parts[..k], env, isLetterOrDigit)
    {
      var commands := ParsePipeline(parts[k], env, isLetterOrDigit);
      assert parts[..k + 1][..k] == parts[..k];
      if |commands| > 0 {
        pipelines := pipelines + [Pipeline(commands)];
      }
    }
    assert parts[..|parts|] == parts;
    sq := Sequence(if |pipelines| > 0 then pipelines else [Pipeline([])]);
  }

  // ---------------------------------------------------------------------------
  // The shape of a parsed sequence

  lemma PipelinesSnoc(parts: seq<string>, env: Environment, isLetterOrDigit: char -> bool)
    requires parts != []
    ensures var commands := PipelineOf(parts[|parts| - 1], env, isLetterOrDigit);
      Pipelines(parts, env, isLetterOrDigit)
      == Pipelines(parts[..|parts| - 1], env, isLetterOrDigit) + (if |commands| > 0 then [Pipeline(commands)] else [])
  {
  }

  /** Every pipeline that `Pipelines` keeps has a command. */
  lemma {:induction false} PipelinesNonEmpty(parts: seq<string>, env: Environment, isLetterOrDigit: char -> bool)
    ensures forall k :: 0 <= k < |Pipelines(parts, env, isLetterOrDigit)| ==> Pipelines(parts, env, isLetterOrDigit)[k].commands != []
    decreases |parts|
  {
    if parts != [] {
      PipelinesNonEmpty(parts[..|parts| - 1], env, isLetterOrDigit);
      PipelinesSnoc(parts, env, isLetterOrDigit);
    }
  }

  /** `Pipelines` keeps nothing exactly when no part gives a command. */
  lemma {:induction false} PipelinesNone(parts: seq<string>, env: Environment, isLetterOrDigit: char -> bool)
    ensures Pipelines(parts, env, isLetterOrDigit) == [] <==> forall k :: 0 <= k < |parts| ==> PipelineOf(parts[k], env, isLetterOrDigit) == []
    decreases |parts|
  {
    if parts != [] {
      var init := parts[..|parts| - 1];
      PipelinesNone(init, env, isLetterOrDigit);
      PipelinesSnoc(parts, env, isLetterOrDigit);
      assert forall k :: 0 <= k < |init| ==> init[k] == parts[k];
      var last := PipelineOf(parts[|parts| - 1], env, isLetterOrDigit);
      if |last| > 0 {
        assert Pipelines(parts, env, isLetterOrDigit) != [];
      }
    }
  }

  /** A parsed sequence is never empty: it is the single empty pipeline exactly when no
      `;`-part gives a command, and otherwise every pipeline has at least one command. */
  lemma SequenceShape(input: string, env: Environment, isLetterOrDigit: char -> bool)
    ensures var sq := SequenceOf(input, env, isLetterOrDigit);
      var parts := SplitOutside(input, ';');
      && |sq.pipelines| >= 1
      && (sq.pipelines == [Pipeline([])] <==> forall k :: 0 <= k < |parts| ==> PipelineOf(parts[k], env, isLetterOrDigit) == [])
      && (sq.pipelines != [Pipeline([])] ==> forall k :: 0 <= k < |sq.pipelines| ==> sq.pipelines[k].commands != [])
  {
    var parts := SplitOutside(input, ';');
    var ps := Pipelines(parts, env, isLetterOrDigit);
    PipelinesNonEmpty(parts, env, isLetterOrDigit);
    PipelinesNone(parts, env, isLetterOrDigit);
    if ps != [] {
      assert ps[0].commands != [];
      assert ps != [Pipeline([])];
    }
  }

  // ---------------------------------------------------------------------------
  // Names and arguments are never operators

  /** A node as the parser builds it: name and arguments are word tokens, the name is not
      empty, and a redirect other than `RedirectInfo.None()` carries a file path. */
  predicate WordNode(n: CommandNode) {
    && n.name != "" && IsWordToken(n.name)
    && (forall a :: 0 <= a < |n.args| ==> IsWordToken(n.args[a]))
    && (n.redirect == NoRedirect || n.redirect.filePath.Some?)
  }

  predicate AllWordNodes(ns: seq<CommandNode>) {
    forall k :: 0 <= k < |ns| ==> WordNode(ns[k])
  }

  lemma StageWordNodes(t: seq<string>, i: nat)
    requires i < |t| && t[i] != "|" && AllNonEmpty(t)
    ensures AllWordNodes(StageAt(t, i).nodes)
  {
    var j := ArgEnd(t, i);
    var args := t[i..j];
    assert forall a :: 0 <= a < |args| ==> args[a] == t[i + a];
  }

  lemma {:induction false} StagesWordNodes(t: seq<string>, i: nat)
    requires i <= |t| && AllNonEmpty(t)
    ensures AllWordNodes(Stages(t, i))
    decreases |t| - i
  {
    if i < |t| {
      if t[i] == "|" {
        StagesWordNodes(t, i + 1);
      } else {
        var st := StageAt(t, i);
        StageWordNodes(t, i);
        if !st.stop {
          StagesWordNodes(t, st.next);
        }
      }
    }
  }

  /** Every command of a parsed pipeline has a non-empty name, no name or argument is `|`,
      `>`, `>>`, `<` or `<<`, and every redirect that is set carries its file path. */
  lemma PipelineWordNodes(part: string, env: Environment, isLetterOrDigit: char -> bool)
    ensures AllWordNodes(PipelineOf(part, env, isLetterOrDigit))
  {
    TokenizeNonEmpty(part, env, isLetterOrDigit);
    StagesWordNodes(Tokenize(part, env, isLetterOrDigit), 0);
  }

  // ---------------------------------------------------------------------------
  // Stages only look ahead

  lemma {:induction false} ArgEndShift(p: seq<string>, r: seq<string>, k: nat)
    requires k <= |r|
    ensures ArgEnd(p + r, |p| + k) == |p| + ArgEnd(r, k)
    decreases |r| - k
  {
    if k < |r| {
      assert (p + r)[|p| + k] == r[k];
      ArgEndShift(p, r, k + 1);
    }
  }

  lemma TokenSliceShift(p: seq<string>, r: seq<string>, a: nat, b: nat)
    requires a <= b <= |r|
    ensures (p + r)[|p| + a..|p| + b] == r[a..b]
  {
  }

  lemma StageAtShift(p: seq<string>, r: seq<string>, k: nat)
    requires k < |r| && r[k] != "|"
    ensures (p + r)[|p| + k] == r[k]
    ensures var st := StageAt(r, k);
      StageAt(p + r, |p| + k) == StageStep(|p| + st.next, st.nodes, st.stop)
  {
    var t := p + r;
    assert t[|p| + k] == r[k];
    var j := ArgEnd(r, k);
    ArgEndShift(p, r, k);
    TokenSliceShift(p, r, k, j);
    if j < |r| {
      assert t[|p| + j] == r[j];
      if j + 1 < |r| {
        assert t[|p| + j + 1] == r[j + 1];
      }
    }
  }

  /** The commands built from index `k` of `r` do not depend on the tokens before it. */
  lemma StageShiftStep(p: seq<string>, r: seq<string>, k: nat)
    requires k < |r| && r[k] != "|"
    requires var st := StageAt(r, k); !st.stop ==> Stages(p + r, |p| + st.next) == Stages(r, st.next)
    ensures Stages(p + r, |p| + k) == Stages(r, k)
  {
    var t := p + r;
    StageAtShift(p, r, k);
    StagesAtStage(r, k);
    StagesAtStage(t, |p| + k);
  }

  lemma {:induction false} StagesShift(p: seq<string>, r: seq<string>, k: nat)
    requires k <= |r|
    ensures Stages(p + r, |p| + k) == Stages(r, k)
    decreases |r| - k
  {
    if k < |r| {
      assert (p + r)[|p| + k] == r[k];
      if r[k] == "|" {
        StagesAtPipe(r, k);
        StagesAtPipe(p + r, |p| + k);
        StagesShift(p, r, k + 1);
      } else {
        var st := StageAt(r, k);
        if !st.stop {
          StagesShift(p, r, st.next);
        }
        StageShiftStep(p, r, k);
      }
    }
  }

  // ---------------------------------------------------------------------------
  // How a token list is cut into commands

  /** Tokens that may all stand in a command. */
  predicate AllWords(args: seq<string>) {
    forall k :: 0 <= k < |args| ==> IsWordToken(args[k])
  }

  lemma ArgEndOfWords(args: seq<string>, rest: seq<string>)
    requires AllWords(args) && (rest == [] || !IsWordToken(rest[0]))
    ensures ArgEnd(args + rest, 0) == |args|
    ensures (args + rest)[..|args|] == args
  {
    var t := args + rest;
    assert forall k :: 0 <= k < |args| ==> t[k] == args[k];
    if rest != [] {
      assert t[|args|] == rest[0];
    }
    ArgEndRun(t, 0, |args|);
  }

  lemma {:induction false} ArgEndRun(t: seq<string>, i: nat, m: nat)
    requires i <= m <= |t|
    requires forall k :: i <= k < m ==> IsWordToken(t[k])
    requires m == |t| || !IsWordToken(t[m])
    ensures ArgEnd(t, i) == m
    decreases m - i
  {
    if i < m {
      ArgEndRun(t, i + 1, m);
    }
  }

  /** Word tokens alone give one command without a redirect (none if there are none). */
  lemma StagesOfWords(args: seq<string>)
    requires AllWords(args)
    ensures Stages(args, 0) == NodeOf(args, NoRedirect)
  {
    ArgEndOfWords(args, []);
    assert args + [] == args;
  }

  /** A `|` ends the command before it. */
  lemma StagesPipe(args: seq<string>, rest: seq<string>)
    requires AllWords(args)
    ensures Stages(args + ["|"] + rest, 0) == NodeOf(args, NoRedirect) + Stages(rest, 0)
  {
    var t := args + ["|"] + rest;
    assert t == args + (["|"] + rest);
    ArgEndOfWords(args, ["|"] + rest);
    assert t[|args|] == "|";
    StagesShift(args + ["|"], rest, 0);
    if args == [] {
      assert Stages(t, 0) == Stages(t, 1);
    } else {
      assert StageAt(t, 0) == StageStep(|args|, NodeOf(args, NoRedirect), false);
      assert Stages(t, |args|) == Stages(t, |args| + 1);
    }
  }

  /** A redirect operator takes the next token as its file path and ends the command; the
      tokens after the path start a new command even without a `|`. */
  lemma StagesRedirect(args: seq<string>, op: string, path: string, rest: seq<string>)
    requires AllWords(args) && IsRedirectOperator(op)
    ensures Stages(args + [op, path] + rest, 0)
            == NodeOf(args, RedirectInfo(RedirectTypeOf(op), Some(path))) + Stages(rest, 0)
  {
    var t := args + [op, path] + rest;
    assert t == args + ([op, path] + rest);
    ArgEndOfWords(args, [op, path] + rest);
    assert t[|args|] == op && t[|args| + 1] == path;
    StagesShift(args + [op, path], rest, 0);
    assert StageAt(t, 0) == StageStep(|args| + 2, NodeOf(args, RedirectInfo(RedirectTypeOf(op), Some(path))), false);
  }

  /** A redirect operator with no token after it drops the command it ends and stops the
      pipeline. */
  lemma StagesDangling(args: seq<string>, op: string)
    requires AllWords(args) && IsRedirectOperator(op)
    ensures Stages(args + [op], 0) == []
  {
    var t := args + [op];
    ArgEndOfWords(args, [op]);
    assert t[|args|] == op;
    assert StageAt(t, 0).stop;
  }

  // ---------------------------------------------------------------------------
  // Writing commands out as tokens and parsing them back

  /** A command that can be written as tokens: word tokens for the name and arguments, and a
      file path whenever a redirect is set. */
  predicate Printable(n: CommandNode) {
    IsWordToken(n.name) && AllWords(n.args) && (n.redirect == NoRedirect || n.redirect.filePath.Some?)
  }

  /** The tokens of one command: name, arguments, then the redirect operator and path. */
  function NodeTokens(n: CommandNode): seq<string> {
    [n.name] + n.args
    + (if n.redirect.filePath.Some? then [OperatorFor(n.redirect.redirectType), n.redirect.filePath.value] else [])
  }

  /** The tokens of a pipeline: its commands' tokens joined by `|`. */
  function PipelineTokens(ns: seq<CommandNode>): seq<string> {
    if ns == [] then []
    else if |ns| == 1 then NodeTokens(ns[0])
    else NodeTokens(ns[0]) + ["|"] + PipelineTokens(ns[1..])
  }

  /** The tokens of a printable command, followed by `rest` where `rest` is empty or starts
      with `|`, parse back to that command and then what `rest` gives. */
  lemma NodeTokensParse(n: CommandNode, rest: seq<string>)
    requires Printable(n) && (rest == [] || rest[0] == "|")
    ensures Stages(NodeTokens(n) + rest, 0) == [n] + Stages(rest, 0)
  {
    var words := [n.name] + n.args;
    assert AllWords(words) by {
      assert forall k :: 1 <= k < |words| ==> words[k] == n.args[k - 1];
    }
    assert words[0] == n.name && words[1..] == n.args;
    var r := n.redirect;
    if r.filePath.Some? {
      var op := OperatorFor(r.redirectType);
      assert RedirectTypeOf(op) == r.redirectType;
      assert NodeTokens(n) + rest == words + [op, r.filePath.value] + rest;
      StagesRedirect(words, op, r.filePath.value, rest);
    } else {
      assert NodeTokens(n) == words;
      if rest == [] {
        assert NodeTokens(n) + rest == words;
        StagesOfWords(words);
      } else {
        assert NodeTokens(n) + rest == words + ["|"] + rest[1..];
        StagesPipe(words, rest[1..]);
        StagesLeadingPipe(rest[1..]);
        assert ["|"] + rest[1..] == rest;
      }
    }
  }

  lemma StagesLeadingPipe(more: seq<string>)
    ensures Stages(["|"] + more, 0) == Stages(more, 0)
  {
    StagesShift(["|"], more, 0);
  }

  /** Parsing the tokens of printable commands gives those commands back. */
  lemma {:induction false} PipelineRoundTrip(ns: seq<CommandNode>)
    requires forall k :: 0 <= k < |ns| ==> Printable(ns[k])
    ensures Stages(PipelineTokens(ns), 0) == ns
    decreases |ns|
  {
    if |ns| == 1 {
      NodeTokensParse(ns[0], []);
      assert NodeTokens(ns[0]) + [] == NodeTokens(ns[0]);
    } else if |ns| > 1 {
      var more := PipelineTokens(ns[1..]);
      PipelineRoundTrip(ns[1..]);
      NodeTokensParse(ns[0], ["|"] + more);
      StagesLeadingPipe(more);
      assert PipelineTokens(ns) == NodeTokens(ns[0]) + (["|"] + more);
      assert ns == [ns[0]] + ns[1..];
    }
  }
}
