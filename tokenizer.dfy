/**
 * `CommandParser.TokenizeWithRedirects`: turns the text of one pipeline into tokens.
 * Double and single quotes switch quoting on and off and are dropped; outside quotes,
 * white space separates tokens and `|`, `>`, `>>`, `<`, `<<` are tokens of their own;
 * outside single quotes, `$NAME` is replaced by the variable's value.
 *
 * `char.IsLetterOrDigit` is a parameter (`isLetterOrDigit`), and the process environment is
 * a map from variable names to values.
 */
module Tokenizer {
  import opened Strings

  /** The environment variables visible to the shell. */
  type Environment = map<string, string>

  /** The scanner's state: the tokens so far, the pending text and the two quote flags. */
  datatype Lexer = Lexer(tokens: seq<string>, current: string, inDouble: bool, inSingle: bool)

  /** The scanner's state before the first character. */
  const Start: Lexer := Lexer([], "", false, false)

  /** `CommandParser.IsRedirectChar`. */
  predicate IsRedirectChar(c: char) {
    c == '>' || c == '<'
  }

  /** `CommandParser.IsRedirectOperator`. */
  predicate IsRedirectOperator(t: string) {
    t == ">" || t == ">>" || t == "<" || t == "<<"
  }

  /** The tokens the scanner emits on its own: the pipe and the redirect operators. */
  predicate IsOperatorToken(t: string) {
    t == "|" || IsRedirectOperator(t)
  }

  /** A character that may follow `$` in a variable name. */
  predicate IsNameChar(c: char, isLetterOrDigit: char -> bool) {
    isLetterOrDigit(c) || c == '_'
  }

  /** The end of the longest run of name characters in `s` that starts at `j`. */
  function NameEnd(s: string, j: nat, isLetterOrDigit: char -> bool): (e: nat)
    requires j <= |s|
    ensures j <= e <= |s|
    ensures forall k :: j <= k < e ==> IsNameChar(s[k], isLetterOrDigit)
    ensures e < |s| ==> !IsNameChar(s[e], isLetterOrDigit)
    decreases |s| - j
  {
    if j < |s| && IsNameChar(s[j], isLetterOrDigit) then NameEnd(s, j + 1, isLetterOrDigit) else j
  }

  /** `Environment.GetEnvironmentVariable(name) ?? ""`. */
  function Lookup(env: Environment, name: string): string {
    if name in env then env[name] else ""
  }

  /** One scanner step: the index of the next character to scan and the state there. */
  datatype Move = Move(next: nat, state: Lexer)

  /** The step the scanner takes at index `i` of `s`. */
  function Step(s: string, i: nat, env: Environment, isLetterOrDigit: char -> bool, lx: Lexer): (m: Move)
    requires i < |s|
    ensures i < m.next <= |s|
  {
    var c := s[i];
    var quoted := lx.inDouble || lx.inSingle;
    if c == '"' && !lx.inSingle then Move(i + 1, lx.(inDouble := !lx.inDouble))
    else if c == '\'' && !lx.inDouble then Move(i + 1, lx.(inSingle := !lx.inSingle))
    else if !quoted && IsRedirectChar(c) then
      var op := if i + 1 < |s| && s[i + 1] == c then [c, c] else [c];
      Move(i + |op|, lx.(tokens := Flush(lx.tokens, lx.current) + [op], current := ""))
    else if !quoted && c == '|' then
      Move(i + 1, lx.(tokens := Flush(lx.tokens, lx.current) + ["|"], current := ""))
    else if IsWhiteSpace(c) && !quoted then
      Move(i + 1, lx.(tokens := Flush(lx.tokens, lx.current), current := ""))
    else if c == '$' && !lx.inSingle && NameEnd(s, i + 1, isLetterOrDigit) > i + 1 then
      var e := NameEnd(s, i + 1, isLetterOrDigit);
      Move(e, lx.(current := lx.current + Lookup(env, s[i + 1..e])))
    else
      Move(i + 1, lx.(current := lx.current + [c]))
  }

  /** The tokens the scanner emits for `s` from index `i` on, starting in state `lx`. */
  function Lex(s: string, i: nat, env: Environment, isLetterOrDigit: char -> bool, lx: Lexer): seq<string>
    requires i <= |s|
    decreases |s| - i
  {
    if i == |s| then Flush(lx.tokens, lx.current)
    else
      var m := Step(s, i, env, isLetterOrDigit, lx);
      Lex(s, m.next, env, isLetterOrDigit, m.state)
  }

  /** The tokens of a whole input. */
  function Tokenize(input: string, env: Environment, isLetterOrDigit: char -> bool): seq<string> {
    Lex(input, 0, env, isLetterOrDigit, Start)
  }

  /** The inner loop of `TokenizeWithRedirects` after a `$`: the end of the run of name
      characters starting at `from`. */
  method ScanName(input: string, from: nat, isLetterOrDigit: char -> bool) returns (j: nat)
    requires from <= |input|
    ensures j == NameEnd(input, from, isLetterOrDigit)
  {
    j := from;
    while j < |input| && (isLetterOrDigit(input[j]) || input[j] == '_')
      invariant from <= j <= |input|
      invariant NameEnd(input, from, isLetterOrDigit) == NameEnd(input, j, isLetterOrDigit)
      decreases |input| - j
    {
      j := j + 1;
    }
  }

  /** One pass of the loop body of `CommandParser.TokenizeWithRedirects`: scans the character
      at `i` (and the characters after it that belong to the same operator or variable name)
      and returns the index of the next character to scan. */
  method ScanAt(input: string, i: nat, env: Environment, isLetterOrDigit: char -> bool,
                tokens0: seq<string>, current0: string, inDouble0: bool, inSingle0: bool)
    returns (next: nat, tokens: seq<string>, current: string, inDoubleQuotes: bool, inSingleQuotes: bool)
    requires i < |input|
    ensures var m := Step(input, i, env, isLetterOrDigit, Lexer(tokens0, current0, inDouble0, inSingle0));
      next == m.next && Lexer(tokens, current, inDoubleQuotes, inSingleQuotes) == m.state
  {
    tokens, current, inDoubleQuotes, inSingleQuotes := tokens0, current0, inDouble0, inSingle0;
    var c := input[i];
    next := i + 1;
    if c == '"' && !inSingleQuotes {
      inDoubleQuotes := !inDoubleQuotes;
    } else if c == '\'' && !inDoubleQuotes {
      inSingleQuotes := !inSingleQuotes;
    } else if !inDoubleQuotes && !inSingleQuotes && IsRedirectChar(c) {
      if |current| > 0 {
        tokens := tokens + [current];
        current := "";
      }
      if c == '>' && i + 1 < |input| && input[i + 1] == '>' {
        tokens := tokens + [">>"];
        next := i + 2;
      } else if c == '<' && i + 1 < |input| && input[i + 1] == '<' {
        tokens := tokens + ["<<"];
        next := i + 2;
      } else {
        tokens := tokens + [[c]];
      }
    } else if !inDoubleQuotes && !inSingleQuotes && c == '|' {
      if |current| > 0 {
        tokens := tokens + [current];
        current := "";
      }
      tokens := tokens + ["|"];
    } else if IsWhiteSpace(c) && !inDoubleQuotes && !inSingleQuotes {
      if |current| > 0 {
        tokens := tokens + [current];
        current := "";
      }
    } else if c == '$' && !inSingleQuotes {
      var j := ScanName(input, i + 1, isLetterOrDigit);
      if j > i + 1 {
        var name := input[i + 1..j];
        current := current + Lookup(env, name);
        next := j;
      } else {
        current := current + [c];
      }
    } else {
      current := current + [c];
    }
  }

  /** `CommandParser.TokenizeWithRedirects`. */
  method TokenizeWithRedirects(input: string, env: Environment, isLetterOrDigit: char -> bool)
    returns (tokens: seq<string>)
    ensures tokens == Tokenize(input, env, isLetterOrDigit)
  {
    tokens := [];
    var current: string := "";
    var inDoubleQuotes, inSingleQuotes := false, false;
    var i := 0;
    while i < |input|
      invariant 0 <= i <= |input|
      invariant Lex(input, i, env, isLetterOrDigit, Lexer(tokens, current, inDoubleQuotes, inSingleQuotes))
                == Tokenize(input, env, isLetterOrDigit)
      decreases |input| - i
    {
      i, tokens, current, inDoubleQuotes, inSingleQuotes :=
        ScanAt(input, i, env, isLetterOrDigit, tokens, current, inDoubleQuotes, inSingleQuotes);
    }
    if |current| > 0 {
      tokens := tokens + [current];
    }
  }

  // ---------------------------------------------------------------------------
  // The scanner only looks ahead: what precedes index `i` does not matter

  lemma {:induction false} NameEndShift(p: string, r: string, j: nat, isLetterOrDigit: char -> bool)
    requires j <= |r|
    ensures NameEnd(p + r, |p| + j, isLetterOrDigit) == |p| + NameEnd(r, j, isLetterOrDigit)
    decreases |r| - j
  {
    if j < |r| {
      assert (p + r)[|p| + j] == r[j];
      NameEndShift(p, r, j + 1, isLetterOrDigit);
    }
  }

  lemma SliceShift(p: string, r: string, a: nat, b: nat)
    requires a <= b <= |r|
    ensures (p + r)[|p| + a..|p| + b] == r[a..b]
  {
  }

  lemma StepShift(p: string, r: string, k: nat, env: Environment, isLetterOrDigit: char -> bool, lx: Lexer)
    requires k < |r|
    ensures Step(p + r, |p| + k, env, isLetterOrDigit, lx).next == |p| + Step(r, k, env, isLetterOrDigit, lx).next
    ensures Step(p + r, |p| + k, env, isLetterOrDigit, lx).state == Step(r, k, env, isLetterOrDigit, lx).state
  {
    var s := p + r;
    var c := r[k];
    var quoted := lx.inDouble || lx.inSingle;
    assert s[|p| + k] == c;
    if c == '"' && !lx.inSingle {
    } else if c == '\'' && !lx.inDouble {
    } else if !quoted && IsRedirectChar(c) {
      if k + 1 < |r| {
        assert s[|p| + k + 1] == r[k + 1];
      }
    } else if !quoted && c == '|' {
    } else if IsWhiteSpace(c) && !quoted {
    } else if c == '$' && !lx.inSingle {
      NameEndShift(p, r, k + 1, isLetterOrDigit);
      SliceShift(p, r, k + 1, NameEnd(r, k + 1, isLetterOrDigit));
    }
  }

  /** Scanning `r` from index `k` gives the same tokens whatever text is put in front of it. */
  lemma {:induction false} LexShift(p: string, r: string, k: nat, env: Environment, isLetterOrDigit: char -> bool, lx: Lexer)
    requires k <= |r|
    ensures Lex(p + r, |p| + k, env, isLetterOrDigit, lx) == Lex(r, k, env, isLetterOrDigit, lx)
    decreases |r| - k
  {
    if k < |r| {
      StepShift(p, r, k, env, isLetterOrDigit, lx);
      var m := Step(r, k, env, isLetterOrDigit, lx);
      LexShift(p, r, m.next, env, isLetterOrDigit, m.state);
    }
  }

  // ---------------------------------------------------------------------------
  // No empty tokens

  /** The scanner never emits an empty token. */
  lemma {:induction false} LexNonEmpty(s: string, i: nat, env: Environment, isLetterOrDigit: char -> bool, lx: Lexer)
    requires i <= |s|
    requires AllNonEmpty(lx.tokens)
    ensures AllNonEmpty(Lex(s, i, env, isLetterOrDigit, lx))
    decreases |s| - i
  {
    if i < |s| {
      var m := Step(s, i, env, isLetterOrDigit, lx);
      assert AllNonEmpty(Flush(lx.tokens, lx.current));
      LexNonEmpty(s, m.next, env, isLetterOrDigit, m.state);
    }
  }

  /** No token of any input is empty. */
  lemma TokenizeNonEmpty(input: string, env: Environment, isLetterOrDigit: char -> bool)
    ensures AllNonEmpty(Tokenize(input, env, isLetterOrDigit))
  {
    LexNonEmpty(input, 0, env, isLetterOrDigit, Start);
  }

  // ---------------------------------------------------------------------------
  // What survives: the tokens, run together, are the input without the quote characters
  // that switch quoting and without unquoted white space, with `$NAME` expanded

  /** The characters of `s`, from index `i` on, that reach some token, given the quote state
      at `i`. */
  function Kept(s: string, i: nat, env: Environment, isLetterOrDigit: char -> bool, inDouble: bool, inSingle: bool): string
    requires i <= |s|
    decreases |s| - i
  {
    if i == |s| then ""
    else
      var c := s[i];
      var quoted := inDouble || inSingle;
      if c == '"' && !inSingle then Kept(s, i + 1, env, isLetterOrDigit, !inDouble, inSingle)
      else if c == '\'' && !inDouble then Kept(s, i + 1, env, isLetterOrDigit, inDouble, !inSingle)
      else if IsWhiteSpace(c) && !quoted then Kept(s, i + 1, env, isLetterOrDigit, inDouble, inSingle)
      else if !quoted && IsRedirectChar(c) && i + 1 < |s| && s[i + 1] == c then
        [c, c] + Kept(s, i + 2, env, isLetterOrDigit, inDouble, inSingle)
      else if c == '$' && !inSingle && NameEnd(s, i + 1, isLetterOrDigit) > i + 1 then
        var e := NameEnd(s, i + 1, isLetterOrDigit);
        Lookup(env, s[i + 1..e]) + Kept(s, e, env, isLetterOrDigit, inDouble, inSingle)
      else [c] + Kept(s, i + 1, env, isLetterOrDigit, inDouble, inSingle)
  }

  /** The text one scanner step adds to the tokens and the pending text. */
  function Gain(s: string, i: nat, env: Environment, isLetterOrDigit: char -> bool, lx: Lexer): string
    requires i < |s|
  {
    var c := s[i];
    var quoted := lx.inDouble || lx.inSingle;
    if (c == '"' && !lx.inSingle) || (c == '\'' && !lx.inDouble) then ""
    else if !quoted && IsRedirectChar(c) then (if i + 1 < |s| && s[i + 1] == c then [c, c] else [c])
    else if IsWhiteSpace(c) && !quoted then ""
    else if c == '$' && !lx.inSingle && NameEnd(s, i + 1, isLetterOrDigit) > i + 1 then
      Lookup(env, s[i + 1..NameEnd(s, i + 1, isLetterOrDigit)])
    else [c]
  }

  lemma StepGain(s: string, i: nat, env: Environment, isLetterOrDigit: char -> bool, lx: Lexer)
    requires i < |s|
    ensures var m := Step(s, i, env, isLetterOrDigit, lx);
      Concat(m.state.tokens) + m.state.current == Concat(lx.tokens) + lx.current + Gain(s, i, env, isLetterOrDigit, lx)
  {
    var c := s[i];
    var quoted := lx.inDouble || lx.inSingle;
    var m := Step(s, i, env, isLetterOrDigit, lx);
    var g := Gain(s, i, env, isLetterOrDigit, lx);
    var flushed := Flush(lx.tokens, lx.current);
    if (c == '"' && !lx.inSingle) || (c == '\'' && !lx.inDouble) {
      assert m.state.tokens == lx.tokens && m.state.current == lx.current && g == "";
    } else if !quoted && (IsRedirectChar(c) || c == '|') {
      assert m.state.tokens == flushed + [g] && m.state.current == "";
      ConcatFlush(lx.tokens, lx.current);
      ConcatSnoc(flushed, g);
    } else if IsWhiteSpace(c) && !quoted {
      assert m.state.tokens == flushed && m.state.current == "" && g == "";
      ConcatFlush(lx.tokens, lx.current);
    } else {
      assert m.state.tokens == lx.tokens && m.state.current == lx.current + g;
    }
  }

  lemma KeptGain(s: string, i: nat, env: Environment, isLetterOrDigit: char -> bool, lx: Lexer)
    requires i < |s|
    ensures var m := Step(s, i, env, isLetterOrDigit, lx);
      Kept(s, i, env, isLetterOrDigit, lx.inDouble, lx.inSingle)
      == Gain(s, i, env, isLetterOrDigit, lx) + Kept(s, m.next, env, isLetterOrDigit, m.state.inDouble, m.state.inSingle)
  {
  }

  /** Running the tokens together gives the kept characters, in input order. */
  lemma {:induction false} LexKept(s: string, i: nat, env: Environment, isLetterOrDigit: char -> bool, lx: Lexer)
    requires i <= |s|
    ensures Concat(Lex(s, i, env, isLetterOrDigit, lx))
            == Concat(lx.tokens) + lx.current + Kept(s, i, env, isLetterOrDigit, lx.inDouble, lx.inSingle)
    decreases |s| - i
  {
    var ld := isLetterOrDigit;
    if i == |s| {
      ConcatFlush(lx.tokens, lx.current);
    } else {
      var m := Step(s, i, env, ld, lx);
      LexKept(s, m.next, env, ld, m.state);
      StepGain(s, i, env, ld, lx);
      KeptGain(s, i, env, ld, lx);
      var g := Gain(s, i, env, ld, lx);
      var after := Kept(s, m.next, env, ld, m.state.inDouble, m.state.inSingle);
      Associate(Concat(lx.tokens) + lx.current, g, after);
    }
  }

  /** For a whole input: the tokens run together are exactly the kept characters. */
  lemma TokenizeKept(input: string, env: Environment, isLetterOrDigit: char -> bool)
    ensures Concat(Tokenize(input, env, isLetterOrDigit)) == Kept(input, 0, env, isLetterOrDigit, false, false)
  {
    LexKept(input, 0, env, isLetterOrDigit, Start);
  }

  // ---------------------------------------------------------------------------
  // Outside quotes, white space and operators never end up inside a token

  /** A character that ends pending text when it is not quoted. */
  predicate IsSeparator(c: char) {
    IsWhiteSpace(c) || c == '|' || IsRedirectChar(c)
  }

  /** Text that holds no separator character. */
  predicate Clean(s: string) {
    forall k :: 0 <= k < |s| ==> !IsSeparator(s[k])
  }

  /** Every token is an operator or holds no separator. */
  predicate Classified(ts: seq<string>) {
    forall k :: 0 <= k < |ts| ==> IsOperatorToken(ts[k]) || Clean(ts[k])
  }

  /** `s` has no quote character from index `i` on. */
  predicate NoQuotesFrom(s: string, i: nat) {
    forall k :: i <= k < |s| ==> s[k] != '"' && s[k] != '\''
  }

  /** Variables whose values hold no separator. */
  predicate CleanValues(env: Environment) {
    forall name :: name in env ==> Clean(env[name])
  }

  /** Without quotes in the input (and separator-free variable values), every token is
      either a lone operator or free of white space and operator characters. */
  lemma {:induction false} LexQuoteFree(s: string, i: nat, env: Environment, isLetterOrDigit: char -> bool, lx: Lexer)
    requires i <= |s| && NoQuotesFrom(s, i) && !lx.inDouble && !lx.inSingle
    requires Classified(lx.tokens) && Clean(lx.current) && CleanValues(env)
    ensures Classified(Lex(s, i, env, isLetterOrDigit, lx))
    decreases |s| - i
  {
    var ld := isLetterOrDigit;
    if i < |s| {
      var m := Step(s, i, env, ld, lx);
      var c := s[i];
      assert Classified(Flush(lx.tokens, lx.current));
      if IsRedirectChar(c) {
        assert IsOperatorToken(m.state.tokens[|m.state.tokens| - 1]);
      } else if c == '|' {
      } else if IsWhiteSpace(c) {
      } else if c == '$' && NameEnd(s, i + 1, ld) > i + 1 {
        var v := Lookup(env, s[i + 1..NameEnd(s, i + 1, ld)]);
        assert Clean(v);
        assert Clean(lx.current + v);
      } else {
        assert Clean(lx.current + [c]);
      }
      LexQuoteFree(s, m.next, env, ld, m.state);
    }
  }

  /** For a whole quote-free input. */
  lemma TokenizeQuoteFree(input: string, env: Environment, isLetterOrDigit: char -> bool)
    requires NoQuotesFrom(input, 0) && CleanValues(env)
    ensures Classified(Tokenize(input, env, isLetterOrDigit))
  {
    LexQuoteFree(input, 0, env, isLetterOrDigit, Start);
  }

  // ---------------------------------------------------------------------------
  // `$NAME` expansion

  /** `NameEnd` from `j` is `m` when `[j, m)` is a run of name characters that `m` ends. */
  lemma {:induction false} NameEndRun(s: string, j: nat, m: nat, isLetterOrDigit: char -> bool)
    requires j <= m <= |s|
    requires forall k :: j <= k < m ==> IsNameChar(s[k], isLetterOrDigit)
    requires m == |s| || !IsNameChar(s[m], isLetterOrDigit)
    ensures NameEnd(s, j, isLetterOrDigit) == m
    decreases m - j
  {
    if j < m {
      NameEndRun(s, j + 1, m, isLetterOrDigit);
    }
  }

  lemma NameEndOf(name: string, rest: string, isLetterOrDigit: char -> bool)
    requires forall k :: 0 <= k < |name| ==> IsNameChar(name[k], isLetterOrDigit)
    requires rest == [] || !IsNameChar(rest[0], isLetterOrDigit)
    ensures NameEnd("$" + name + rest, 1, isLetterOrDigit) == 1 + |name|
  {
    var s := "$" + name + rest;
    assert forall k :: 1 <= k < 1 + |name| ==> s[k] == name[k - 1];
    if rest != [] {
      assert s[1 + |name|] == rest[0];
    }
    NameEndRun(s, 1, 1 + |name|, isLetterOrDigit);
  }

  /** Outside single quotes (inside double quotes too), `$NAME` adds the variable's value
      (empty when unset) to the pending text; the value is not scanned again, so white space
      or operators in it never split the token. */
  lemma LexExpands(name: string, rest: string, env: Environment, isLetterOrDigit: char -> bool, lx: Lexer)
    requires !lx.inSingle
    requires name != [] && forall k :: 0 <= k < |name| ==> IsNameChar(name[k], isLetterOrDigit)
    requires rest == [] || !IsNameChar(rest[0], isLetterOrDigit)
    ensures Lex("$" + name + rest, 0, env, isLetterOrDigit, lx)
            == Lex(rest, 0, env, isLetterOrDigit, lx.(current := lx.current + Lookup(env, name)))
  {
    var s := "$" + name + rest;
    NameEndOf(name, rest, isLetterOrDigit);
    assert s[1..1 + |name|] == name;
    assert s == ("$" + name) + rest;
    LexShift("$" + name, rest, 0, env, isLetterOrDigit, lx.(current := lx.current + Lookup(env, name)));
  }

  /** A `$` not followed by a name character is kept as it is. */
  lemma LexDollarLiteral(rest: string, env: Environment, isLetterOrDigit: char -> bool, lx: Lexer)
    requires rest == [] || !IsNameChar(rest[0], isLetterOrDigit)
    ensures Lex("$" + rest, 0, env, isLetterOrDigit, lx)
            == Lex(rest, 0, env, isLetterOrDigit, lx.(current := lx.current + "$"))
  {
    var s := "$" + rest;
    if rest != [] {
      assert s[1] == rest[0];
    }
    assert NameEnd(s, 1, isLetterOrDigit) == 1;
    LexShift("$", rest, 0, env, isLetterOrDigit, lx.(current := lx.current + "$"));
  }

  /** Inside single quotes `$` is an ordinary character. */
  lemma LexDollarQuoted(rest: string, env: Environment, isLetterOrDigit: char -> bool, lx: Lexer)
    requires lx.inSingle
    ensures Lex("$" + rest, 0, env, isLetterOrDigit, lx)
            == Lex(rest, 0, env, isLetterOrDigit, lx.(current := lx.current + "$"))
  {
    LexShift("$", rest, 0, env, isLetterOrDigit, lx.(current := lx.current + "$"));
  }

  /** A line that is one variable reference gives its value as one token (none if empty). */
  lemma TokenizeVariable(name: string, env: Environment, isLetterOrDigit: char -> bool)
    requires name != [] && forall k :: 0 <= k < |name| ==> IsNameChar(name[k], isLetterOrDigit)
    ensures Tokenize("$" + name, env, isLetterOrDigit)
            == if Lookup(env, name) == "" then [] else [Lookup(env, name)]
  {
    LexExpands(name, "", env, isLetterOrDigit, Start);
    assert "$" + name + "" == "$" + name;
    assert "" + Lookup(env, name) == Lookup(env, name);
  }

  // ---------------------------------------------------------------------------
  // Round trip: rendering words, quoted texts and operators with single spaces and
  // tokenizing the result gives them back

  /** A character with no meaning to the scanner outside quotes. */
  predicate IsPlainChar(c: char) {
    !IsSeparator(c) && c != '"' && c != '\'' && c != '$'
  }

  /** One unit of input text as a user would type it. */
  datatype Lexeme =
    | Word(text: string)            // unquoted text
    | Operator(text: string)        // `|`, `>`, `>>`, `<` or `<<`
    | SingleQuoted(text: string)    // '...'
    | DoubleQuoted(text: string)    // "..." without variable references

  predicate WellFormed(l: Lexeme) {
    match l
    case Word(t) => t != [] && forall k :: 0 <= k < |t| ==> IsPlainChar(t[k])
    case Operator(t) => IsOperatorToken(t)
    case SingleQuoted(t) => t != [] && forall k :: 0 <= k < |t| ==> t[k] != '\''
    case DoubleQuoted(t) => t != [] && forall k :: 0 <= k < |t| ==> t[k] != '"' && t[k] != '$'
  }

  function Render(l: Lexeme): string {
    match l
    case Word(t) => t
    case Operator(t) => t
    case SingleQuoted(t) => "'" + t + "'"
    case DoubleQuoted(t) => "\"" + t + "\""
  }

  /** The lexemes rendered and separated by single spaces. */
  function RenderAll(ls: seq<Lexeme>): string {
    if |ls| == 0 then "" else if |ls| == 1 then Render(ls[0]) else Render(ls[0]) + " " + RenderAll(ls[1..])
  }

  function Texts(ls: seq<Lexeme>): seq<string> {
    if ls == [] then [] else [ls[0].text] + Texts(ls[1..])
  }

  /** A run of plain characters outside quotes joins the pending text. */
  lemma {:induction false} LexPlainRun(s: string, i: nat, j: nat, env: Environment, isLetterOrDigit: char -> bool, lx: Lexer)
    requires i <= j <= |s| && !lx.inDouble && !lx.inSingle
    requires forall k :: i <= k < j ==> IsPlainChar(s[k])
    ensures Lex(s, i, env, isLetterOrDigit, lx) == Lex(s, j, env, isLetterOrDigit, lx.(current := lx.current + s[i..j]))
    decreases j - i
  {
    if i == j {
      assert lx.current + s[i..j] == lx.current;
    } else {
      LexPlainRun(s, i + 1, j, env, isLetterOrDigit, lx.(current := lx.current + [s[i]]));
      assert lx.current + [s[i]] + s[i + 1..j] == lx.current + s[i..j];
    }
  }

  /** Inside single quotes every character but `'` joins the pending text. */
  lemma {:induction false} LexSingleRun(s: string, i: nat, j: nat, env: Environment, isLetterOrDigit: char -> bool, lx: Lexer)
    requires i <= j <= |s| && !lx.inDouble && lx.inSingle
    requires forall k :: i <= k < j ==> s[k] != '\''
    ensures Lex(s, i, env, isLetterOrDigit, lx) == Lex(s, j, env, isLetterOrDigit, lx.(current := lx.current + s[i..j]))
    decreases j - i
  {
    if i == j {
      assert lx.current + s[i..j] == lx.current;
    } else {
      LexSingleRun(s, i + 1, j, env, isLetterOrDigit, lx.(current := lx.current + [s[i]]));
      assert lx.current + [s[i]] + s[i + 1..j] == lx.current + s[i..j];
    }
  }

  /** Inside double quotes every character but `"` and `$` joins the pending text. */
  lemma {:induction false} LexDoubleRun(s: string, i: nat, j: nat, env: Environment, isLetterOrDigit: char -> bool, lx: Lexer)
    requires i <= j <= |s| && lx.inDouble && !lx.inSingle
    requires forall k :: i <= k < j ==> s[k] != '"' && s[k] != '$'
    ensures Lex(s, i, env, isLetterOrDigit, lx) == Lex(s, j, env, isLetterOrDigit, lx.(current := lx.current + s[i..j]))
    decreases j - i
  {
    if i == j {
      assert lx.current + s[i..j] == lx.current;
    } else {
      LexDoubleRun(s, i + 1, j, env, isLetterOrDigit, lx.(current := lx.current + [s[i]]));
      assert lx.current + [s[i]] + s[i + 1..j] == lx.current + s[i..j];
    }
  }

  /** The state after one rendered lexeme has been scanned from an empty pending text. */
  function After(l: Lexeme, acc: seq<string>): Lexer {
    if l.Operator? then Lexer(acc + [l.text], "", false, false) else Lexer(acc, l.text, false, false)
  }

  lemma LexWord(t: string, rest: string, env: Environment, isLetterOrDigit: char -> bool, acc: seq<string>)
    requires forall k :: 0 <= k < |t| ==> IsPlainChar(t[k])
    ensures Lex(t + rest, 0, env, isLetterOrDigit, Lexer(acc, "", false, false))
            == Lex(t + rest, |t|, env, isLetterOrDigit, Lexer(acc, t, false, false))
  {
    var s := t + rest;
    assert forall k :: 0 <= k < |t| ==> s[k] == t[k];
    LexPlainRun(s, 0, |t|, env, isLetterOrDigit, Lexer(acc, "", false, false));
    assert s[0..|t|] == t;
    assert "" + t == t;
  }

  lemma LexOperator(t: string, rest: string, env: Environment, isLetterOrDigit: char -> bool, acc: seq<string>)
    requires IsOperatorToken(t)
    requires rest == [] || rest[0] == ' '
    ensures Lex(t + rest, 0, env, isLetterOrDigit, Lexer(acc, "", false, false))
            == Lex(t + rest, |t|, env, isLetterOrDigit, Lexer(acc + [t], "", false, false))
  {
    var s := t + rest;
    assert s[0] == t[0];
    if |t| == 2 {
      assert s[1] == t[1];
      assert [t[0], t[0]] == t;
    } else if rest != [] {
      assert s[1] == rest[0];
    }
    assert Step(s, 0, env, isLetterOrDigit, Lexer(acc, "", false, false)) == Move(|t|, Lexer(acc + [t], "", false, false));
  }

  lemma LexSingleQuoted(t: string, rest: string, env: Environment, isLetterOrDigit: char -> bool, acc: seq<string>)
    requires forall k :: 0 <= k < |t| ==> t[k] != '\''
    ensures Lex("'" + t + "'" + rest, 0, env, isLetterOrDigit, Lexer(acc, "", false, false))
            == Lex("'" + t + "'" + rest, 2 + |t|, env, isLetterOrDigit, Lexer(acc, t, false, false))
  {
    var s := "'" + t + "'" + rest;
    assert s[0] == '\'' && s[1 + |t|] == '\'';
    assert forall k :: 1 <= k < 1 + |t| ==> s[k] == t[k - 1];
    assert Lex(s, 0, env, isLetterOrDigit, Lexer(acc, "", false, false))
           == Lex(s, 1, env, isLetterOrDigit, Lexer(acc, "", false, true));
    LexSingleRun(s, 1, 1 + |t|, env, isLetterOrDigit, Lexer(acc, "", false, true));
    assert s[1..1 + |t|] == t;
    assert "" + t == t;
  }

  lemma LexDoubleQuoted(t: string, rest: string, env: Environment, isLetterOrDigit: char -> bool, acc: seq<string>)
    requires forall k :: 0 <= k < |t| ==> t[k] != '"' && t[k] != '$'
    ensures Lex("\"" + t + "\"" + rest, 0, env, isLetterOrDigit, Lexer(acc, "", false, false))
            == Lex("\"" + t + "\"" + rest, 2 + |t|, env, isLetterOrDigit, Lexer(acc, t, false, false))
  {
    var s := "\"" + t + "\"" + rest;
    assert s[0] == '"' && s[1 + |t|] == '"';
    assert forall k :: 1 <= k < 1 + |t| ==> s[k] == t[k - 1];
    assert Lex(s, 0, env, isLetterOrDigit, Lexer(acc, "", false, false))
           == Lex(s, 1, env, isLetterOrDigit, Lexer(acc, "", true, false));
    LexDoubleRun(s, 1, 1 + |t|, env, isLetterOrDigit, Lexer(acc, "", true, false));
    assert s[1..1 + |t|] == t;
    assert "" + t == t;
  }

  /** One rendered lexeme, followed by nothing or by a space, becomes exactly one token. */
  lemma LexLexeme(l: Lexeme, rest: string, env: Environment, isLetterOrDigit: char -> bool, acc: seq<string>)
    requires WellFormed(l)
    requires rest == [] || rest[0] == ' '
    ensures |Render(l)| <= |Render(l) + rest|
    ensures Lex(Render(l) + rest, 0, env, isLetterOrDigit, Lexer(acc, "", false, false))
            == Lex(Render(l) + rest, |Render(l)|, env, isLetterOrDigit, After(l, acc))
  {
    match l
    case Word(t) => LexWord(t, rest, env, isLetterOrDigit, acc);
    case Operator(t) => LexOperator(t, rest, env, isLetterOrDigit, acc);
    case SingleQuoted(t) => LexSingleQuoted(t, rest, env, isLetterOrDigit, acc);
    case DoubleQuoted(t) => LexDoubleQuoted(t, rest, env, isLetterOrDigit, acc);
  }

  /** A rendered lexeme and the space after it leave one more token and an empty pending text. */
  lemma LexLexemeSpace(l: Lexeme, tail: string, env: Environment, isLetterOrDigit: char -> bool, acc: seq<string>)
    requires WellFormed(l)
    ensures Lex(Render(l) + (" " + tail), 0, env, isLetterOrDigit, Lexer(acc, "", false, false))
            == Lex(tail, 0, env, isLetterOrDigit, Lexer(acc + [l.text], "", false, false))
  {
    var s := Render(l) + (" " + tail);
    var n := |Render(l)|;
    var next := Lexer(acc + [l.text], "", false, false);
    LexLexeme(l, " " + tail, env, isLetterOrDigit, acc);
    assert s[n] == ' ';
    assert Flush(After(l, acc).tokens, After(l, acc).current) == acc + [l.text];
    assert Step(s, n, env, isLetterOrDigit, After(l, acc)) == Move(n + 1, next);
    assert s == (Render(l) + " ") + tail;
    LexShift(Render(l) + " ", tail, 0, env, isLetterOrDigit, next);
  }

  lemma {:induction false} LexRendered(ls: seq<Lexeme>, env: Environment, isLetterOrDigit: char -> bool, acc: seq<string>)
    requires forall k :: 0 <= k < |ls| ==> WellFormed(ls[k])
    ensures Lex(RenderAll(ls), 0, env, isLetterOrDigit, Lexer(acc, "", false, false)) == acc + Texts(ls)
    decreases |ls|
  {
    if |ls| > 0 {
      var l := ls[0];
      var acc' := acc + [l.text];
      assert Texts(ls) == [l.text] + Texts(ls[1..]);
      assert acc' + Texts(ls[1..]) == acc + Texts(ls);
      if |ls| == 1 {
        LexLexeme(l, "", env, isLetterOrDigit, acc);
        assert Render(l) + "" == Render(l);
        assert Flush(After(l, acc).tokens, After(l, acc).current) == acc';
        assert Texts(ls[1..]) == [];
      } else {
        assert RenderAll(ls) == Render(l) + (" " + RenderAll(ls[1..]));
        LexLexemeSpace(l, RenderAll(ls[1..]), env, isLetterOrDigit, acc);
        LexRendered(ls[1..], env, isLetterOrDigit, acc');
      }
    }
  }

  /** Tokenizing well-formed lexemes separated by single spaces yields their texts, one
      token each: outside quotes operators stand alone, and inside quotes white space,
      operators, the other quote character and (in single quotes) `$` are ordinary text. */
  lemma TokenizeRendered(ls: seq<Lexeme>, env: Environment, isLetterOrDigit: char -> bool)
    requires forall k :: 0 <= k < |ls| ==> WellFormed(ls[k])
    ensures Tokenize(RenderAll(ls), env, isLetterOrDigit) == Texts(ls)
  {
    LexRendered(ls, env, isLetterOrDigit, []);
  }
}
