/**
 * `CommandParser.SplitBySemicolons` and `CommandParser.SplitByPipes`: cut a line at every
 * separator character that stands outside quotes. The two methods of the source differ
 * only in the separator (`;` and `|`), so both are one scanner over a separator `sep`.
 * Quote characters switch quoting on and off and are kept in the pieces; empty pieces are
 * dropped.
 */
module Splitter {
  import opened Strings

  /** The splitter's state: the pieces so far, the pending text and the two quote flags. */
  datatype Splitting = Splitting(parts: seq<string>, current: string, inDouble: bool, inSingle: bool)

  /** The state before the first character. */
  const Begin: Splitting := Splitting([], "", false, false)

  /** The effect of the character at index `i`. */
  function SplitStep(s: string, i: nat, sep: char, sp: Splitting): Splitting
    requires i < |s|
  {
    var c := s[i];
    if c == '"' && !sp.inSingle then sp.(inDouble := !sp.inDouble, current := sp.current + [c])
    else if c == '\'' && !sp.inDouble then sp.(inSingle := !sp.inSingle, current := sp.current + [c])
    else if c == sep && !sp.inDouble && !sp.inSingle then sp.(parts := Flush(sp.parts, sp.current), current := "")
    else sp.(current := sp.current + [c])
  }

  /** The pieces the splitter emits for `s` from index `i` on, starting in state `sp`. */
  function SplitFrom(s: string, i: nat, sep: char, sp: Splitting): seq<string>
    requires i <= |s|
    decreases |s| - i
  {
    if i == |s| then Flush(sp.parts, sp.current)
    else SplitFrom(s, i + 1, sep, SplitStep(s, i, sep, sp))
  }

  /** The pieces of a whole line. */
  function SplitOutside(input: string, sep: char): seq<string> {
    SplitFrom(input, 0, sep, Begin)
  }

  /** The common loop of `SplitBySemicolons` and `SplitByPipes`. */
  method SplitOutsideQuotes(input: string, sep: char) returns (parts: seq<string>)
    ensures parts == SplitOutside(input, sep)
  {
    parts := [];
    var current: string := "";
    var inDoubleQuotes, inSingleQuotes := false, false;
    for i := 0 to |input|
      invariant SplitFrom(input, i, sep, Splitting(parts, current, inDoubleQuotes, inSingleQuotes))
                == SplitOutside(input, sep)
    {
      var c := input[i];
      if c == '"' && !inSingleQuotes {
        inDoubleQuotes := !inDoubleQuotes;
        current := current + [c];
      } else if c == '\'' && !inDoubleQuotes {
        inSingleQuotes := !inSingleQuotes;
        current := current + [c];
      } else if c == sep && !inDoubleQuotes && !inSingleQuotes {
        if |current| > 0 {
          parts := parts + [current];
        }
        current := "";
      } else {
        current := current + [c];
      }
    }
    if |current| > 0 {
      parts := parts + [current];
    }
  }

  /** `CommandParser.SplitBySemicolons`. */
  method SplitBySemicolons(input: string) returns (parts: seq<string>)
    ensures parts == SplitOutside(input, ';')
  {
    parts := SplitOutsideQuotes(input, ';');
  }

  /** `CommandParser.SplitByPipes` (the source never calls it). */
  method SplitByPipes(input: string) returns (parts: seq<string>)
    ensures parts == SplitOutside(input, '|')
  {
    parts := SplitOutsideQuotes(input, '|');
  }

  // ---------------------------------------------------------------------------
  // No empty piece

  lemma {:induction false} SplitFromNonEmpty(s: string, i: nat, sep: char, sp: Splitting)
    requires i <= |s| && AllNonEmpty(sp.parts)
    ensures AllNonEmpty(SplitFrom(s, i, sep, sp))
    decreases |s| - i
  {
    if i < |s| {
      SplitFromNonEmpty(s, i + 1, sep, SplitStep(s, i, sep, sp));
    }
  }

  /** No piece is empty. */
  lemma SplitNonEmpty(input: string, sep: char)
    ensures AllNonEmpty(SplitOutside(input, sep))
  {
    SplitFromNonEmpty(input, 0, sep, Begin);
  }

  // ---------------------------------------------------------------------------
  // The pieces run together are the line without its unquoted separators

  /** `s` from index `i` on with every separator that stands outside quotes deleted, given
      the quote state at `i`. */
  function Unseparated(s: string, i: nat, sep: char, inDouble: bool, inSingle: bool): string
    requires i <= |s|
    decreases |s| - i
  {
    if i == |s| then ""
    else
      var c := s[i];
      if c == '"' && !inSingle then [c] + Unseparated(s, i + 1, sep, !inDouble, inSingle)
      else if c == '\'' && !inDouble then [c] + Unseparated(s, i + 1, sep, inDouble, !inSingle)
      else if c == sep && !inDouble && !inSingle then Unseparated(s, i + 1, sep, inDouble, inSingle)
      else [c] + Unseparated(s, i + 1, sep, inDouble, inSingle)
  }

  lemma StepUnseparated(s: string, i: nat, sep: char, sp: Splitting)
    requires i < |s|
    ensures var n := SplitStep(s, i, sep, sp);
      Concat(sp.parts) + sp.current + Unseparated(s, i, sep, sp.inDouble, sp.inSingle)
      == Concat(n.parts) + n.current + Unseparated(s, i + 1, sep, n.inDouble, n.inSingle)
  {
    var c := s[i];
    var n := SplitStep(s, i, sep, sp);
    var after := Unseparated(s, i + 1, sep, n.inDouble, n.inSingle);
    if c == sep && !sp.inDouble && !sp.inSingle && !(c == '"' || c == '\'') {
      ConcatFlush(sp.parts, sp.current);
    } else {
      Associate(Concat(sp.parts) + sp.current, [c], after);
    }
  }

  lemma {:induction false} SplitFromKept(s: string, i: nat, sep: char, sp: Splitting)
    requires i <= |s|
    ensures Concat(SplitFrom(s, i, sep, sp)) == Concat(sp.parts) + sp.current + Unseparated(s, i, sep, sp.inDouble, sp.inSingle)
    decreases |s| - i
  {
    if i == |s| {
      ConcatFlush(sp.parts, sp.current);
    } else {
      StepUnseparated(s, i, sep, sp);
      SplitFromKept(s, i + 1, sep, SplitStep(s, i, sep, sp));
    }
  }

  /** Concatenating the pieces gives the line with every unquoted separator deleted. */
  lemma SplitKept(input: string, sep: char)
    ensures Concat(SplitOutside(input, sep)) == Unseparated(input, 0, sep, false, false)
  {
    SplitFromKept(input, 0, sep, Begin);
  }

  /** How often `c` occurs in `s` from index `i` on. */
  function CountFrom(s: string, i: nat, c: char): nat
    requires i <= |s|
    decreases |s| - i
  {
    if i == |s| then 0 else (if s[i] == c then 1 else 0) + CountFrom(s, i + 1, c)
  }

  /** How often `c` occurs in `s`. */
  function Count(s: string, c: char): nat {
    CountFrom(s, 0, c)
  }

  lemma CountCons(x: char, t: string, c: char)
    ensures Count([x] + t, c) == (if x == c then 1 else 0) + Count(t, c)
  {
    CountShift([x], t, 0, c);
  }

  lemma {:induction false} CountShift(p: string, t: string, k: nat, c: char)
    requires k <= |t|
    ensures CountFrom(p + t, |p| + k, c) == CountFrom(t, k, c)
    decreases |t| - k
  {
    if k < |t| {
      assert (p + t)[|p| + k] == t[k];
      CountShift(p, t, k + 1, c);
    }
  }

  lemma {:induction false} UnseparatedCount(s: string, i: nat, sep: char, inDouble: bool, inSingle: bool, c: char)
    requires i <= |s| && c != sep
    ensures Count(Unseparated(s, i, sep, inDouble, inSingle), c) == CountFrom(s, i, c)
    decreases |s| - i
  {
    if i < |s| {
      var x := s[i];
      if x == '"' && !inSingle {
        UnseparatedCount(s, i + 1, sep, !inDouble, inSingle, c);
        CountCons(x, Unseparated(s, i + 1, sep, !inDouble, inSingle), c);
      } else if x == '\'' && !inDouble {
        UnseparatedCount(s, i + 1, sep, inDouble, !inSingle, c);
        CountCons(x, Unseparated(s, i + 1, sep, inDouble, !inSingle), c);
      } else {
        UnseparatedCount(s, i + 1, sep, inDouble, inSingle, c);
        if !(x == sep && !inDouble && !inSingle) {
          CountCons(x, Unseparated(s, i + 1, sep, inDouble, inSingle), c);
        }
      }
    }
  }

  /** Every character other than the separator, the quote characters included, reaches
      the pieces as often as it occurs in the line. */
  lemma SplitKeepsOthers(input: string, sep: char, c: char)
    requires c != sep
    ensures Count(Concat(SplitOutside(input, sep)), c) == Count(input, c)
  {
    SplitKept(input, sep);
    UnseparatedCount(input, 0, sep, false, false, c);
  }

  /** Outside quotes, the separator never reaches a piece: with no quote character in the
      line, no piece holds the separator. */
  lemma {:induction false} SplitFromSeparatorFree(s: string, i: nat, sep: char, sp: Splitting)
    requires i <= |s| && sep != '"' && sep != '\''
    requires forall k :: i <= k < |s| ==> s[k] != '"' && s[k] != '\''
    requires !sp.inDouble && !sp.inSingle
    requires forall k :: 0 <= k < |sp.parts| ==> sep !in sp.parts[k]
    requires sep !in sp.current
    ensures forall k :: 0 <= k < |SplitFrom(s, i, sep, sp)| ==> sep !in SplitFrom(s, i, sep, sp)[k]
    decreases |s| - i
  {
    if i < |s| {
      SplitFromSeparatorFree(s, i + 1, sep, SplitStep(s, i, sep, sp));
    }
  }

  lemma SplitSeparatorFree(input: string, sep: char)
    requires sep != '"' && sep != '\''
    requires forall k :: 0 <= k < |input| ==> input[k] != '"' && input[k] != '\''
    ensures forall k :: 0 <= k < |SplitOutside(input, sep)| ==> sep !in SplitOutside(input, sep)[k]
  {
    SplitFromSeparatorFree(input, 0, sep, Begin);
  }
}
