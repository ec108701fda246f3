/**
 * The parts of the script runtime `ScriptStd` that are logic rather than I/O: the stored
 * command-line arguments with `SetArgs`, `argc` and `args`, and the rewrite of a C-style
 * `printf` format into a .NET composite format.
 */
module ScriptStd {
  import opened Wrappers
  import opened Strings

  /** The runtime's argument store (a static field in the source; one object here). */
  class ScriptArgs {
    var argv: seq<string>

    /** The store starts empty. */
    constructor()
      ensures argv == []
    {
      argv := [];
    }

    /** `SetArgs`: a missing (null) list stores no arguments; otherwise the list replaces
        the old one completely. */
    method SetArgs(args: Option<seq<string>>)
      modifies this
      ensures argv == if args.None? then [] else args.value
      ensures Argc() == if args.None? then 0 else |args.value|
      ensures forall i :: 0 <= i < Argc() ==> Arg(i) == Some(argv[i])
    {
      argv := if args.None? then [] else args.value;
    }

    /** `argc()`: how many arguments are stored. */
    function Argc(): (n: nat)
      reads this
      ensures n == 0 <==> argv == []
    {
      |argv|
    }

    /** `args(index)`: the stored argument at `index`, or nothing (null) outside the list,
        negative indices included. */
    function Arg(index: int): (r: Option<string>)
      reads this
      ensures r.Some? <==> 0 <= index < Argc()
      ensures r.Some? ==> r.value == argv[index]
    {
      if index < 0 || index >= |argv| then None else Some(argv[index])
    }
  }

  /** The rewrite `printf` applies before `string.Format`: every `%d` becomes `{0}`, then
      every `%s` becomes `{1}`, then every `%f` becomes `{2}`. The placeholder numbers depend
      on the letter, not on the position, so `"%s"` asks for the second argument. */
  function RewriteFormat(format: string): (r: string)
    ensures !HasPair(r, '%', 'd') && !HasPair(r, '%', 's') && !HasPair(r, '%', 'f')
  {
    var d := Replace(format, "%d", "{0}");
    var s := Replace(d, "%s", "{1}");
    var f := Replace(s, "%f", "{2}");
    ReplaceKeepsAbsent(format, '%', 'd', "{0}", '%', 'd');
    ReplaceKeepsAbsent(d, '%', 's', "{1}", '%', 'd');
    ReplaceKeepsAbsent(d, '%', 's', "{1}", '%', 's');
    ReplaceKeepsAbsent(s, '%', 'f', "{2}", '%', 'd');
    ReplaceKeepsAbsent(s, '%', 'f', "{2}", '%', 's');
    ReplaceKeepsAbsent(s, '%', 'f', "{2}", '%', 'f');
    f
  }

  /** A format without the three C-style specifiers is passed on unchanged, other `%` signs
      included. */
  lemma RewriteUntouched(format: string)
    requires !HasPair(format, '%', 'd') && !HasPair(format, '%', 's') && !HasPair(format, '%', 'f')
    ensures RewriteFormat(format) == format
  {
    ReplaceAbsent(format, '%', 'd', "{0}");
    ReplaceAbsent(format, '%', 's', "{1}");
    ReplaceAbsent(format, '%', 'f', "{2}");
  }

  /** The placeholder follows the letter: `%d` alone asks for argument 0, `%s` alone for
      argument 1 and `%f` alone for argument 2. */
  lemma RewriteByLetter()
    ensures RewriteFormat("%d") == "{0}"
    ensures RewriteFormat("%s") == "{1}"
    ensures RewriteFormat("%f") == "{2}"
  {
    assert Replace("%d", "%d", "{0}") == "{0}";
    assert !HasPair("{0}", '%', 's') && !HasPair("{0}", '%', 'f');
    ReplaceAbsent("{0}", '%', 's', "{1}");
    ReplaceAbsent("{0}", '%', 'f', "{2}");
    assert !HasPair("%s", '%', 'd') && !HasPair("%f", '%', 'd') && !HasPair("%f", '%', 's');
    ReplaceAbsent("%s", '%', 'd', "{0}");
    ReplaceAbsent("%f", '%', 'd', "{0}");
    ReplaceAbsent("%f", '%', 's', "{1}");
    assert Replace("%s", "%s", "{1}") == "{1}";
    assert Replace("%f", "%f", "{2}") == "{2}";
    assert !HasPair("{1}", '%', 'f');
    ReplaceAbsent("{1}", '%', 'f', "{2}");
  }

  /** The rewrite works piece by piece around a middle piece whose ends, at every step, can
      complete no specifier with their neighbours. */
  lemma RewriteAround(x: string, m: string, y: string)
    requires m != [] && m[0] != 'd' && m[|m| - 1] != '%'
    requires var m1 := Replace(m, "%d", "{0}"); m1 != [] && m1[0] != 's' && m1[|m1| - 1] != '%'
    requires var m2 := Replace(Replace(m, "%d", "{0}"), "%s", "{1}");
      m2 != [] && m2[0] != 'f' && m2[|m2| - 1] != '%'
    ensures RewriteFormat(x + m + y) == RewriteFormat(x) + RewriteFormat(m) + RewriteFormat(y)
  {
    var x1, m1, y1 := Replace(x, "%d", "{0}"), Replace(m, "%d", "{0}"), Replace(y, "%d", "{0}");
    ReplaceAround(x, m, y, '%', 'd', "{0}");
    var x2, m2, y2 := Replace(x1, "%s", "{1}"), Replace(m1, "%s", "{1}"), Replace(y1, "%s", "{1}");
    ReplaceAround(x1, m1, y1, '%', 's', "{1}");
    ReplaceAround(x2, m2, y2, '%', 'f', "{2}");
  }

  /** Each specifier is rewritten where it stands, and the text on either side of it is
      rewritten as if it were alone: the rewrite of a format is the rewrite of its pieces. */
  lemma RewriteSplit(x: string, y: string)
    ensures RewriteFormat(x + "%d" + y) == RewriteFormat(x) + "{0}" + RewriteFormat(y)
    ensures RewriteFormat(x + "%s" + y) == RewriteFormat(x) + "{1}" + RewriteFormat(y)
    ensures RewriteFormat(x + "%f" + y) == RewriteFormat(x) + "{2}" + RewriteFormat(y)
  {
    RewriteByLetter();
    assert !HasPair("%s", '%', 'd') && !HasPair("%f", '%', 'd') && !HasPair("%f", '%', 's');
    ReplaceAbsent("%s", '%', 'd', "{0}");
    ReplaceAbsent("%f", '%', 'd', "{0}");
    ReplaceAbsent("%f", '%', 's', "{1}");
    assert Replace("%d", "%d", "{0}") == "{0}";
    assert Replace("{0}", "%s", "{1}") == "{0}" by { ReplaceAbsent("{0}", '%', 's', "{1}"); }
    assert Replace("%s", "%s", "{1}") == "{1}";
    RewriteAround(x, "%d", y);
    RewriteAround(x, "%s", y);
    RewriteAround(x, "%f", y);
  }
}
