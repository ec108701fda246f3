/**
 * The commands the shell can register (`ICommand`), what a command run gives back, and the
 * host services that commands and the executor consult but that are not part of the shell.
 */
module Commands {
  import opened Files

  /** The registrable commands. `echo`, `cd` and aliases are modelled; every other built-in
      is `Other`, whose output the host computes (see `Host.external`). */
  datatype Command =
    | Echo
    | Cd
    | Alias(aliasName: string, target: string)
    | Other(otherName: string)

  /** `ICommand.Name`. */
  function Name(c: Command): string {
    match c
    case Echo => "echo"
    case Cd => "cd"
    case Alias(n, _) => n
    case Other(n) => n
  }

  /** What running a command gives: its output text, or an exception that escapes. The
      shell catches neither `cd`'s index error nor an alias loop's stack overflow. */
  datatype Outcome = Output(text: string) | Crash(exception: string)

  const IndexOutOfRange: string := "IndexOutOfRangeException"
  const StackOverflow: string := "StackOverflowException"

  /** Host services, given as functions:
      the user-profile directory, `Path.IsPathRooted`, `Path.Combine`, `Path.GetFullPath`,
      `Directory.Exists`, and the output of the built-ins that are not modelled, from their
      name, arguments, the shell's current directory and the files. */
  datatype Host = Host(
    home: string,
    isRooted: string -> bool,
    combine: (string, string) -> string,
    fullPath: string -> string,
    dirExists: string -> bool,
    external: (string, seq<string>, string, FileStore) -> string)
}
