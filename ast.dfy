/**
 * The parsed form of one input line: a Sequence of Pipelines of CommandNodes.
 * All of them are immutable values that store what they are built from, with no validation:
 * a redirect of any kind may come with or without a file path.
 */
module Ast {
  import opened Wrappers

  /** Kind of redirect attached to a command node. */
  datatype RedirectType = None | OutputTruncate | OutputAppend | Input

  /** A redirect: its kind and the file path (absent stands for `null`). */
  datatype RedirectInfo = RedirectInfo(redirectType: RedirectType, filePath: Option<string>)

  /** `RedirectInfo.None()`: kind None and no file path. */
  const NoRedirect: RedirectInfo := RedirectInfo(RedirectType.None, Option.None)

  /** One command of a pipeline: its name, its arguments and its redirect. */
  datatype CommandNode = CommandNode(name: string, args: seq<string>, redirect: RedirectInfo)

  /** Commands connected by `|`, run left to right. */
  datatype Pipeline = Pipeline(commands: seq<CommandNode>)

  /** Pipelines separated by `;`, run one after another. */
  datatype Sequence = Sequence(pipelines: seq<Pipeline>)
}
