/**
 * `CommandParser.Parse`, the legacy parser that `CommandRunner` uses: the trimmed input is
 * cut at white space outside quotes and the quote characters that switch quoting are
 * dropped. Nothing else is special: `|`, `>`, `<`, `;` and `$` are ordinary characters.
 * The first word is the command and the rest are its arguments.
 */
module LegacyParser {
  import opened Strings
  import opened Tokenizer
  import opened ParsedCommands

  /** The effect of the character at index `i` (the state is the tokenizer's: words so far,
      pending text, quote flags). */
  function WordStep(s: string, i: nat, lx: Lexer): Lexer
    requires i < |s|
  {
    var c := s[i];
    if c == '"' && !lx.inSingle then lx.(inDouble := !lx.inDouble)
    else if c == '\'' && !lx.inDouble then lx.(inSingle := !lx.inSingle)
    else if IsWhiteSpace(c) && !lx.inDouble && !lx.inSingle then lx.(tokens := Flush(lx.tokens, lx.current), current := "")
    else lx.(current := lx.current + [c])
  }

  /** The words of `s` from index `i` on, starting in state `lx`. */
  function WordsFrom(s: string, i: nat, lx: Lexer): seq<string>
    requires i <= |s|
    decreases |s| - i
  {
    if i == |s| then Flush(lx.tokens, lx.current)
    else WordsFrom(s, i + 1, WordStep(s, i, lx))
  }

  /** The words of an input line. */
  function Words(input: string): seq<string> {
    WordsFrom(Trim(input), 0, Start)
  }

  /** What `Parse` returns: the first word as the command (`""` when there is none) and
      the other words as the arguments. */
  function LegacyParse(input: string): ParsedCommand {
    var words := Words(input);
    if |words| > 0 then ParsedCommand(words[0], words[1..]) else ParsedCommand("", [])
  }

  /** `CommandParser.Parse`. */
  method Parse(input: string) returns (pc: ParsedCommand)
    ensures pc == LegacyParse(input)
  {
    var args: seq<string> := [];
    var current: string := "";
    var inDoubleQuotes, inSingleQuotes := false, false;
    var trimmed := Trim(input);
    for i := 0 to |trimmed|
      invariant WordsFrom(trimmed, i, Lexer(args, current, inDoubleQuotes, inSingleQuotes)) == Words(input)
    {
      var c := trimmed[i];
      if c == '"' && !inSingleQuotes {
        inDoubleQuotes := !inDoubleQuotes;
      } else if c == '\'' && !inDoubleQuotes {
        inSingleQuotes := !inSingleQuotes;
      } else if IsWhiteSpace(c) && !inDoubleQuotes && !inSingleQuotes {
        if |current| > 0 {
          args := args + [current];
          current := "";
        }
      } else {
        current := current + [c];
      }
    }
    if |current| > 0 {
      args := args + [current];
    }
    var command := if |args| > 0 then args[0] else "";
    var commandArgs := if |args| > 0 then args[1..] else [];
    pc := ParsedCommand(command, commandArgs);
  }

  // ---------------------------------------------------------------------------
  // No empty word

  lemma {:induction false} WordsFromNonEmpty(s: string, i: nat, lx: Lexer)
    requires i <= |s| && AllNonEmpty(lx.tokens)
    ensures AllNonEmpty(WordsFrom(s, i, lx))
    decreases |s| - i
  {
    if i < |s| {
      WordsFromNonEmpty(s, i + 1, WordStep(s, i, lx));
    }
  }

  /** No word is empty: the command is `""` only when there are no words at all, and no
      argument is ever empty. */
  lemma ParseNonEmpty(input: string)
    ensures AllNonEmpty(Words(input))
    ensures LegacyParse(input).command == "" <==> Words(input) == []
    ensures AllNonEmpty(LegacyParse(input).arguments)
  {
    WordsFromNonEmpty(Trim(input), 0, Start);
    var w := Words(input);
    if |w| > 0 {
      assert w[0] != "";
      assert forall k :: 0 <= k < |w| - 1 ==> w[1..][k] == w[k + 1];
    }
  }

  /** An input of white space only parses to the empty command with no arguments. */
  lemma ParseBlank(input: string)
    requires IsBlank(input)
    ensures LegacyParse(input) == ParsedCommand("", [])
  {
    assert Trim(input) == [];
  }

  // ---------------------------------------------------------------------------
  // The words run together are the trimmed input without the quote characters that
  // switch quoting and without unquoted white space

  /** `s` from index `i` on without the characters `Parse` drops, given the quote state. */
  function Dropped(s: string, i: nat, inDouble: bool, inSingle: bool): string
    requires i <= |s|
    decreases |s| - i
  {
    if i == |s| then ""
    else
      var c := s[i];
      if c == '"' && !inSingle then Dropped(s, i + 1, !inDouble, inSingle)
      else if c == '\'' && !inDouble then Dropped(s, i + 1, inDouble, !inSingle)
      else if IsWhiteSpace(c) && !inDouble && !inSingle then Dropped(s, i + 1, inDouble, inSingle)
      else [c] + Dropped(s, i + 1, inDouble, inSingle)
  }

  lemma WordStepKept(s: string, i: nat, lx: Lexer)
    requires i < |s|
    ensures var n := WordStep(s, i, lx);
      Concat(lx.tokens) + lx.current + Dropped(s, i, lx.inDouble, lx.inSingle)
      == Concat(n.tokens) + n.current + Dropped(s, i + 1, n.inDouble, n.inSingle)
  {
    var c := s[i];
    var n := WordStep(s, i, lx);
    if (c == '"' && !lx.inSingle) || (c == '\'' && !lx.inDouble) {
    } else if IsWhiteSpace(c) && !lx.inDouble && !lx.inSingle {
      ConcatFlush(lx.tokens, lx.current);
    } else {
      Associate(Concat(lx.tokens) + lx.current, [c], Dropped(s, i + 1, n.inDouble, n.inSingle));
    }
  }

  lemma {:induction false} WordsFromKept(s: string, i: nat, lx: Lexer)
    requires i <= |s|
    ensures Concat(WordsFrom(s, i, lx)) == Concat(lx.tokens) + lx.current + Dropped(s, i, lx.inDouble, lx.inSingle)
    decreases |s| - i
  {
    if i == |s| {
      ConcatFlush(lx.tokens, lx.current);
    } else {
      WordStepKept(s, i, lx);
      WordsFromKept(s, i + 1, WordStep(s, i, lx));
    }
  }

  /** The words, run together, are the trimmed input with the quote characters that switch
      quoting and the unquoted white space deleted. */
  lemma ParseKept(input: string)
    ensures Concat(Words(input)) == Dropped(Trim(input), 0, false, false)
  {
    WordsFromKept(Trim(input), 0, Start);
  }

  // ---------------------------------------------------------------------------
  // Words joined by spaces parse back to the same words

  /** A character that stands for itself anywhere in a word: not white space, not a quote. */
  predicate IsWordChar(c: char) {
    !IsWhiteSpace(c) && c != '"' && c != '\''
  }

  /** A non-empty word of word characters (operators and `$` included). */
  predicate IsWord(w: string) {
    w != [] && forall k :: 0 <= k < |w| ==> IsWordChar(w[k])
  }

  lemma AppendSlice(cur: string, s: string, i: nat, m: nat)
    requires i < m <= |s|
    ensures cur + [s[i]] + s[i + 1..m] == cur + s[i..m]
  {
    assert s[i..m] == [s[i]] + s[i + 1..m];
  }

  /** A run of word characters outside quotes goes into the pending text. */
  lemma {:induction false} WordRun(s: string, i: nat, m: nat, lx: Lexer)
    requires i <= m <= |s| && !lx.inDouble && !lx.inSingle
    requires forall k :: i <= k < m ==> IsWordChar(s[k])
    ensures WordsFrom(s, i, lx) == WordsFrom(s, m, lx.(current := lx.current + s[i..m]))
    decreases m - i
  {
    if i < m {
      var n := WordStep(s, i, lx);
      assert n == lx.(current := lx.current + [s[i]]);
      WordRun(s, i + 1, m, n);
      AppendSlice(lx.current, s, i, m);
    } else {
      assert lx.current + s[i..m] == lx.current;
    }
  }

  lemma {:induction false} WordsFromShift(p: string, r: string, k: nat, lx: Lexer)
    requires k <= |r|
    ensures WordsFrom(p + r, |p| + k, lx) == WordsFrom(r, k, lx)
    decreases |r| - k
  {
    if k < |r| {
      assert (p + r)[|p| + k] == r[k];
      WordsFromShift(p, r, k + 1, WordStep(r, k, lx));
    }
  }

  /** One word, then either nothing or a space and more text. */
  lemma WordThen(w: string, tail: string, acc: seq<string>)
    requires IsWord(w)
    ensures WordsFrom(w, 0, Lexer(acc, "", false, false)) == acc + [w]
    ensures WordsFrom(w + " " + tail, 0, Lexer(acc, "", false, false)) == WordsFrom(tail, 0, Lexer(acc + [w], "", false, false))
  {
    WordRun(w, 0, |w|, Lexer(acc, "", false, false));
    assert "" + w[0..|w|] == w;
    var s := w + " " + tail;
    assert forall k :: 0 <= k < |w| ==> s[k] == w[k];
    WordRun(s, 0, |w|, Lexer(acc, "", false, false));
    assert "" + s[0..|w|] == w;
    assert s[|w|] == ' ';
    assert WordStep(s, |w|, Lexer(acc, w, false, false)) == Lexer(acc + [w], "", false, false);
    assert s == (w + " ") + tail;
    WordsFromShift(w + " ", tail, 0, Lexer(acc + [w], "", false, false));
  }

  /** Joining words with single spaces and scanning gives the words back. */
  lemma {:induction false} WordsOfJoin(ws: seq<string>, acc: seq<string>)
    requires |ws| >= 1 && forall k :: 0 <= k < |ws| ==> IsWord(ws[k])
    ensures WordsFrom(Join(ws, " "), 0, Lexer(acc, "", false, false)) == acc + ws
    decreases |ws|
  {
    WordThen(ws[0], if |ws| == 1 then "" else Join(ws[1..], " "), acc);
    if |ws| > 1 {
      WordsOfJoin(ws[1..], acc + [ws[0]]);
      assert acc + [ws[0]] + ws[1..] == acc + ws;
    }
  }

  lemma {:induction false} JoinEnds(ws: seq<string>)
    requires |ws| >= 1 && forall k :: 0 <= k < |ws| ==> IsWord(ws[k])
    requires ws[0] != [] && ws[|ws| - 1] != []
    ensures |Join(ws, " ")| > 0
    ensures Join(ws, " ")[0] == ws[0][0]
    ensures Join(ws, " ")[|Join(ws, " ")| - 1] == ws[|ws| - 1][|ws[|ws| - 1]| - 1]
    decreases |ws|
  {
    if |ws| > 1 {
      assert IsWord(ws[1..][0]) && ws[1..][|ws| - 2] == ws[|ws| - 1];
      JoinEnds(ws[1..]);
    }
  }

  /** Words joined by single spaces parse to the first word and the others as arguments:
      operator characters and `;` reach the command as plain text. */
  lemma ParseJoin(ws: seq<string>)
    requires |ws| >= 1 && forall k :: 0 <= k < |ws| ==> IsWord(ws[k])
    ensures LegacyParse(Join(ws, " ")) == ParsedCommand(ws[0], ws[1..])
  {
    var s := Join(ws, " ");
    assert IsWord(ws[0]) && IsWord(ws[|ws| - 1]);
    JoinEnds(ws);
    TrimUnchanged(s);
    WordsOfJoin(ws, []);
    assert [] + ws == ws;
    assert Words(s) == ws;
  }
}
