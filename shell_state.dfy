/**
 * `ShellState`: the current and previous directory, the mode and the registry that commands
 * see. Both directory setters store the normalised path. The working directory the process
 * starts in is a constructor parameter.
 */
module Shell {
  import opened Strings
  import opened PathNormalizer
  import opened Registry

  /** The shell's modes (the source names `Normal` and `Edit`). */
  datatype ShellMode = Normal | Edit

  /** The two directories as a value, for the specifications of the commands. */
  datatype Dirs = Dirs(current: string, previous: string)

  class ShellState {
    var currentDirectory: string
    var previousDirectory: string
    var mode: ShellMode
    const registry: CommandRegistry

    /** The current directory is always stored normalised. */
    ghost predicate Valid()
      reads this
    {
      Normalize(currentDirectory) == currentDirectory
    }

    /** The two directories as a value. */
    function Directories(): Dirs
      reads this
    {
      Dirs(currentDirectory, previousDirectory)
    }

    /** `new ShellState(registry)` in a process whose working directory is `cwd`: the
        previous directory keeps the raw `cwd` of its field initialiser, the current one goes
        through the setter. */
    constructor(registry: CommandRegistry, cwd: string)
      ensures Valid()
      ensures this.registry == registry
      ensures currentDirectory == Normalize(cwd) && previousDirectory == cwd
      ensures mode == Normal
    {
      this.registry := registry;
      currentDirectory := cwd;
      previousDirectory := cwd;
      mode := Normal;
      new;
      SetCurrentDirectory(cwd);
    }

    /** The `CurrentDirectory` setter. */
    method SetCurrentDirectory(value: string)
      modifies this
      ensures Valid()
      ensures currentDirectory == Normalize(value)
      ensures previousDirectory == old(previousDirectory) && mode == old(mode)
    {
      NormalizeIdempotent(value);
      currentDirectory := Normalize(value);
    }

    /** The `PreviousDirectory` setter. */
    method SetPreviousDirectory(value: string)
      modifies this
      ensures previousDirectory == Normalize(value)
      ensures currentDirectory == old(currentDirectory) && mode == old(mode)
      ensures old(Valid()) ==> Valid()
    {
      previousDirectory := Normalize(value);
    }
  }
}
