/**
 * `CSPlus.Translate`: the line-by-line rewriter from the CS+ script dialect to C#.
 *
 * The source is split at `\n`; each line is trimmed; blank lines and `#` comments produce
 * nothing; every other line produces one C# statement followed by the platform line
 * separator (`newline`). A line is tried against `def NAME = expr`, then `println(expr)`, then
 * `expr => $target`, and otherwise taken as an expression. The three anchored regular
 * expressions of the source and the two in `TransformExpr` are written out as functions on
 * strings; `\s` is `IsWhiteSpace` and `\w` is taken to be the ASCII letters, digits and `_`.
 */
module CSPlus {
  import opened Wrappers
  import opened Strings

  // ---------------------------------------------------------------------------
  // Character classes and scanning helpers

  predicate IsAsciiLetter(c: char) {
    'A' <= c <= 'Z' || 'a' <= c <= 'z'
  }

  /** `[A-Za-z_]`. */
  predicate IsNameStart(c: char) {
    IsAsciiLetter(c) || c == '_'
  }

  /** `\w`, over ASCII. */
  predicate IsRegexWordChar(c: char) {
    IsNameStart(c) || '0' <= c <= '9'
  }

  /** The end of the run of white space starting at `i`. */
  function WhiteEnd(s: string, i: nat): (j: nat)
    requires i <= |s|
    ensures i <= j <= |s|
    ensures forall k :: i <= k < j ==> IsWhiteSpace(s[k])
    ensures j == |s| || !IsWhiteSpace(s[j])
    decreases |s| - i
  {
    if i < |s| && IsWhiteSpace(s[i]) then WhiteEnd(s, i + 1) else i
  }

  /** The end of the run of word characters starting at `i`. */
  function WordEnd(s: string, i: nat): (j: nat)
    requires i <= |s|
    ensures i <= j <= |s|
    ensures forall k :: i <= k < j ==> IsRegexWordChar(s[k])
    ensures j == |s| || !IsRegexWordChar(s[j])
    decreases |s| - i
  {
    if i < |s| && IsRegexWordChar(s[i]) then WordEnd(s, i + 1) else i
  }

  /** The last position of `c` in `s[..n]`, or -1. */
  function LastIndex(s: string, n: nat, c: char): (r: int)
    requires n <= |s|
    ensures -1 <= r < n
    ensures r >= 0 ==> s[r] == c
    ensures forall j :: r < j < n ==> s[j] != c
  {
    if n == 0 then -1 else if s[n - 1] == c then n - 1 else LastIndex(s, n - 1, c)
  }

  /** `=>` stands at position `j` of `s`. */
  predicate ArrowAt(s: string, j: int) {
    0 <= j && j + 1 < |s| && s[j] == '=' && s[j + 1] == '>'
  }

  /** The last position of `=>` that starts before `n`, or -1. */
  function LastArrow(s: string, n: nat): (r: int)
    requires n <= |s|
    ensures -1 <= r < n
    ensures r >= 0 ==> ArrowAt(s, r)
    ensures forall j :: r < j < n ==> !ArrowAt(s, j)
  {
    if n == 0 then -1 else if ArrowAt(s, n - 1) then n - 1 else LastArrow(s, n - 1)
  }

  // ---------------------------------------------------------------------------
  // The three statement forms. They are applied to single lines, which never hold `\n`
  // (so `.` in the patterns, which does not match `\n`, matches any character here).

  /** Where the parts of a `def NAME = expr` line lie: the name is `line[nameStart..nameEnd]`
      and the expression follows the `=` at `equals`. */
  datatype DefForm = DefForm(nameStart: nat, nameEnd: nat, equals: nat)

  /** `^def\s+([A-Za-z_]\w*)\s*=\s*(.+)$`: `def`, white space, a name, optional white space,
      `=` and at least one more character. */
  function DefMatch(line: string): (r: Option<DefForm>)
    ensures r.Some? ==> var d := r.value;
      && IsPrefix("def", line) && 3 < d.nameStart < d.nameEnd <= d.equals < |line| - 1
      && (forall k :: 3 <= k < d.nameStart ==> IsWhiteSpace(line[k]))
      && IsNameStart(line[d.nameStart])
      && (forall k :: d.nameStart < k < d.nameEnd ==> IsRegexWordChar(line[k]))
      && (forall k :: d.nameEnd <= k < d.equals ==> IsWhiteSpace(line[k]))
      && line[d.equals] == '='
  {
    if !IsPrefix("def", line) then None
    else
      var a := WhiteEnd(line, 3);
      if a == 3 || a == |line| || !IsNameStart(line[a]) then None
      else
        var b := WordEnd(line, a + 1);
        var c := WhiteEnd(line, b);
        if c == |line| || line[c] != '=' || c + 1 == |line| then None
        else Some(DefForm(a, b, c))
  }

  /** The name and the trimmed expression of a `def` line. */
  function DefName(line: string, d: DefForm): string
    requires d.nameStart <= d.nameEnd <= d.equals < |line|
  {
    Trim(line[d.nameStart..d.nameEnd])
  }

  function DefExpr(line: string, d: DefForm): string
    requires d.equals < |line|
  {
    Trim(line[d.equals + 1..])
  }

  /** Where the parts of a `println(expr)` line lie: the parenthesis that opens and the
      last `)`. */
  datatype PrintlnForm = PrintlnForm(open: nat, close: nat)

  /** `^println\s*\((.*)\)\s*$`: `println`, optional white space, `(`, then the text up to
      the last `)`, which only white space may follow. */
  function PrintlnMatch(line: string): (r: Option<PrintlnForm>)
    ensures r.Some? ==> var p := r.value;
      && IsPrefix("println", line) && 7 <= p.open < p.close < |line|
      && (forall k :: 7 <= k < p.open ==> IsWhiteSpace(line[k]))
      && line[p.open] == '(' && line[p.close] == ')' && IsBlank(line[p.close + 1..])
  {
    if !IsPrefix("println", line) then None
    else
      var a := WhiteEnd(line, 7);
      if a == |line| || line[a] != '(' then None
      else
        var k := LastIndex(line, |line|, ')');
        if k <= a || !IsBlank(line[k + 1..]) then None
        else Some(PrintlnForm(a, k))
  }

  function PrintlnExpr(line: string, p: PrintlnForm): string
    requires p.open < p.close <= |line|
  {
    Trim(line[p.open + 1..p.close])
  }

  /** Where the parts of an `expr => $target` line lie: the last `=>` and the target
      `$name`. */
  datatype RouteForm = RouteForm(arrow: nat, targetStart: nat, targetEnd: nat)

  /** `^(.*)=>\s*(\$\w+)\s*$`: the text before the last `=>`, optional white space, `$`
      and at least one word character, then only white space. */
  function RouteMatch(line: string): (r: Option<RouteForm>)
    ensures r.Some? ==> var t := r.value;
      && ArrowAt(line, t.arrow) && (forall j :: t.arrow < j < |line| ==> !ArrowAt(line, j))
      && t.arrow + 2 <= t.targetStart < t.targetEnd <= |line|
      && (forall k :: t.arrow + 2 <= k < t.targetStart ==> IsWhiteSpace(line[k]))
      && line[t.targetStart] == '$' && t.targetStart + 1 < t.targetEnd
      && (forall k :: t.targetStart < k < t.targetEnd ==> IsRegexWordChar(line[k]))
      && IsBlank(line[t.targetEnd..])
  {
    var p := LastArrow(line, |line|);
    if p < 0 then None
    else
      var a := WhiteEnd(line, p + 2);
      if a == |line| || line[a] != '$' then None
      else
        var b := WordEnd(line, a + 1);
        if b == a + 1 || !IsBlank(line[b..]) then None
        else Some(RouteForm(p, a, b))
  }

  function RouteExpr(line: string, t: RouteForm): string
    requires t.arrow <= |line|
  {
    Trim(line[0..t.arrow])
  }

  function RouteTarget(line: string, t: RouteForm): string
    requires t.targetStart <= t.targetEnd <= |line|
  {
    line[t.targetStart..t.targetEnd]
  }

  // ---------------------------------------------------------------------------
  // Expression and target rewriting

  /** `TransformTarget`: the three special streams become their `Console` properties;
      anything else is kept. */
  function TransformTarget(target: string): (r: string)
    ensures target == "$stdout" ==> r == "Console.Out"
    ensures target == "$stderr" ==> r == "Console.Error"
    ensures target == "$stdin" ==> r == "Console.In"
    ensures r == target <==> target !in {"$stdout", "$stderr", "$stdin"}
  {
    if target == "$stdout" then "Console.Out"
    else if target == "$stderr" then "Console.Error"
    else if target == "$stdin" then "Console.In"
    else target
  }

  /** The first step of `TransformExpr`: the three special variables, in this order. */
  function SpecialVariables(expr: string): string {
    Replace(Replace(Replace(expr, "$stdout", "Console.Out"), "$stderr", "Console.Error"), "$stdin", "Console.In")
  }

  /** `\bcos\s*\(` matches at `i`: the word `cos` (no word character before it), then
      optional white space and `(`. */
  predicate CosAt(s: string, i: nat) {
    i + 3 <= |s| && s[i..i + 3] == "cos" && (i == 0 || !IsRegexWordChar(s[i - 1]))
    && WhiteEnd(s, i + 3) < |s| && s[WhiteEnd(s, i + 3)] == '('
  }

  /** `Regex.Replace(s, @"\bcos\s*\(", "Math.Cos(")` from position `i`: matches are taken from
      the left, without overlap, and the boundary looks at the original text. */
  function CosFrom(s: string, i: nat): string
    requires i <= |s|
    decreases |s| - i
  {
    if i == |s| then ""
    else if CosAt(s, i) then "Math.Cos(" + CosFrom(s, WhiteEnd(s, i + 3) + 1)
    else [s[i]] + CosFrom(s, i + 1)
  }

  /** `\bPI\b` matches at `i`. */
  predicate PiAt(s: string, i: nat) {
    i + 2 <= |s| && s[i..i + 2] == "PI" && (i == 0 || !IsRegexWordChar(s[i - 1]))
    && (i + 2 == |s| || !IsRegexWordChar(s[i + 2]))
  }

  /** `Regex.Replace(s, @"\bPI\b", "Math.PI")` from position `i`. */
  function PiFrom(s: string, i: nat): string
    requires i <= |s|
    decreases |s| - i
  {
    if i == |s| then ""
    else if PiAt(s, i) then "Math.PI" + PiFrom(s, i + 2)
    else [s[i]] + PiFrom(s, i + 1)
  }

  /** `TransformExpr`: the special variables, then `cos(`, then `PI`. */
  function TransformExpr(expr: string): string {
    var specials := SpecialVariables(expr);
    var cos := CosFrom(specials, 0);
    PiFrom(cos, 0)
  }

  // ---------------------------------------------------------------------------
  // Lines

  /** A trimmed line that produces nothing: blank, or a `#` comment. */
  predicate Skipped(line: string) {
    line == "" || IsPrefix("#", line)
  }

  /** The statement for `def name = expr`. */
  function DefStatement(name: string, expr: string): string {
    "dynamic " + name + " = " + TransformExpr(expr) + ";"
  }

  /** The statement for `println(expr)`. */
  function PrintlnStatement(expr: string): string {
    "Console.Out.WriteLine(" + TransformExpr(expr) + ");"
  }

  /** The statement for `expr => target`. */
  function RouteStatement(expr: string, target: string): string {
    TransformTarget(target) + ".Write(" + TransformExpr(expr) + ");"
  }

  /** The statement for a line of no other form: the line as an expression. */
  function ExprStatement(line: string): string {
    TransformExpr(line) + ";"
  }

  /** The statement a trimmed line becomes, without the line separator. */
  function Emit(line: string): (r: string)
  {
    match DefMatch(line)
    case Some(d) => DefStatement(DefName(line, d), DefExpr(line, d))
    case None =>
      match PrintlnMatch(line)
      case Some(p) => PrintlnStatement(PrintlnExpr(line, p))
      case None =>
        match RouteMatch(line)
        case Some(t) => RouteStatement(RouteExpr(line, t), RouteTarget(line, t))
        case None => ExprStatement(line)
  }

  /** A `def` line becomes a declaration of its name. */
  lemma EmitDef(line: string, d: DefForm)
    requires DefMatch(line) == Some(d)
    ensures Emit(line) == DefStatement(DefName(line, d), DefExpr(line, d))
  {
  }

  /** A `println` line that is not a `def` becomes a call of `Console.Out.WriteLine`. */
  lemma EmitPrintln(line: string, p: PrintlnForm)
    requires DefMatch(line).None? && PrintlnMatch(line) == Some(p)
    ensures Emit(line) == PrintlnStatement(PrintlnExpr(line, p))
  {
  }

  /** A route line of neither earlier form becomes a `Write` on its target. */
  lemma EmitRoute(line: string, t: RouteForm)
    requires DefMatch(line).None? && PrintlnMatch(line).None? && RouteMatch(line) == Some(t)
    ensures Emit(line) == RouteStatement(RouteExpr(line, t), RouteTarget(line, t))
  {
  }

  /** Any other line is taken as an expression statement. */
  lemma EmitExpr(line: string)
    requires DefMatch(line).None? && PrintlnMatch(line).None? && RouteMatch(line).None?
    ensures Emit(line) == ExprStatement(line)
  {
  }

  // ---------------------------------------------------------------------------
  // Which lines have which form

  lemma {:induction false} WhiteEndRun(s: string, i: nat, m: nat)
    requires i <= m <= |s|
    requires forall k :: i <= k < m ==> IsWhiteSpace(s[k])
    requires m == |s| || !IsWhiteSpace(s[m])
    ensures WhiteEnd(s, i) == m
    decreases m - i
  {
    if i < m {
      WhiteEndRun(s, i + 1, m);
    }
  }

  lemma {:induction false} WordEndRun(s: string, i: nat, m: nat)
    requires i <= m <= |s|
    requires forall k :: i <= k < m ==> IsRegexWordChar(s[k])
    requires m == |s| || !IsRegexWordChar(s[m])
    ensures WordEnd(s, i) == m
    decreases m - i
  {
    if i < m {
      WordEndRun(s, i + 1, m);
    }
  }

  lemma {:induction false} LastIndexRun(s: string, n: nat, c: char, m: nat)
    requires m < n <= |s| && s[m] == c
    requires forall j :: m < j < n ==> s[j] != c
    ensures LastIndex(s, n, c) == m
    decreases n
  {
    if n - 1 != m {
      LastIndexRun(s, n - 1, c, m);
    }
  }

  lemma {:induction false} LastArrowRun(s: string, n: nat, m: nat)
    requires m < n <= |s| && ArrowAt(s, m)
    requires forall j :: m < j < n ==> !ArrowAt(s, j)
    ensures LastArrow(s, n) == m
    decreases n
  {
    if n - 1 != m {
      LastArrowRun(s, n - 1, m);
    }
  }

  /** Converse of `DefMatch`'s contract: a line with the parts of the `def` form at `d`
      matches there. */
  lemma DefAt(line: string, d: DefForm)
    requires IsPrefix("def", line) && 3 < d.nameStart < d.nameEnd <= d.equals < |line| - 1
    requires forall k :: 3 <= k < d.nameStart ==> IsWhiteSpace(line[k])
    requires IsNameStart(line[d.nameStart])
    requires forall k :: d.nameStart < k < d.nameEnd ==> IsRegexWordChar(line[k])
    requires forall k :: d.nameEnd <= k < d.equals ==> IsWhiteSpace(line[k])
    requires line[d.equals] == '='
    ensures DefMatch(line) == Some(d)
  {
    WhiteEndRun(line, 3, d.nameStart);
    WordEndRun(line, d.nameStart + 1, d.nameEnd);
    WhiteEndRun(line, d.nameEnd, d.equals);
  }

  /** Converse of `PrintlnMatch`'s contract. */
  lemma PrintlnAt(line: string, p: PrintlnForm)
    requires IsPrefix("println", line) && 7 <= p.open < p.close < |line|
    requires forall k :: 7 <= k < p.open ==> IsWhiteSpace(line[k])
    requires line[p.open] == '(' && line[p.close] == ')' && IsBlank(line[p.close + 1..])
    ensures PrintlnMatch(line) == Some(p)
  {
    WhiteEndRun(line, 7, p.open);
    assert forall j :: p.close < j < |line| ==> line[j] == line[p.close + 1..][j - p.close - 1];
    LastIndexRun(line, |line|, ')', p.close);
  }

  /** Converse of `RouteMatch`'s contract. */
  lemma RouteAt(line: string, t: RouteForm)
    requires ArrowAt(line, t.arrow) && forall j :: t.arrow < j < |line| ==> !ArrowAt(line, j)
    requires t.arrow + 2 <= t.targetStart < t.targetEnd <= |line|
    requires forall k :: t.arrow + 2 <= k < t.targetStart ==> IsWhiteSpace(line[k])
    requires line[t.targetStart] == '$' && t.targetStart + 1 < t.targetEnd
    requires forall k :: t.targetStart < k < t.targetEnd ==> IsRegexWordChar(line[k])
    requires IsBlank(line[t.targetEnd..])
    ensures RouteMatch(line) == Some(t)
  {
    LastArrowRun(line, |line|, t.arrow);
    WhiteEndRun(line, t.arrow + 2, t.targetStart);
    if t.targetEnd < |line| {
      assert line[t.targetEnd] == line[t.targetEnd..][0];
    }
    WordEndRun(line, t.targetStart + 1, t.targetEnd);
  }

  /** A name of the `def` form: a letter or `_`, then word characters. */
  predicate IsName(name: string) {
    name != [] && IsNameStart(name[0]) && forall k :: 0 <= k < |name| ==> IsRegexWordChar(name[k])
  }

  /** The `def` line with the given parts. */
  function DefLineOf(ws1: string, name: string, ws2: string, rest: string): string {
    "def" + ws1 + name + ws2 + "=" + rest
  }

  /** Every `def NAME = expr` line matches, with the name as the whole word run. */
  lemma DefShape(ws1: string, name: string, ws2: string, rest: string)
    requires ws1 != [] && IsBlank(ws1) && IsBlank(ws2) && IsName(name) && rest != []
    ensures var line := DefLineOf(ws1, name, ws2, rest);
      var a := 3 + |ws1|;
      && DefMatch(line) == Some(DefForm(a, a + |name|, a + |name| + |ws2|))
      && line[a..a + |name|] == name && line[a + |name| + |ws2| + 1..] == rest
  {
    var line := DefLineOf(ws1, name, ws2, rest);
    var a := 3 + |ws1|;
    var b := a + |name|;
    var c := b + |ws2|;
    assert line[..3] == "def";
    assert forall k :: 3 <= k < a ==> line[k] == ws1[k - 3];
    assert forall k :: a <= k < b ==> line[k] == name[k - a];
    assert forall k :: b <= k < c ==> line[k] == ws2[k - b];
    assert line[c] == '=';
    assert line[a..b] == name;
    assert line[c + 1..] == rest;
    DefAt(line, DefForm(a, b, c));
  }

  /** The name and expression of a `def` form whose name slice is `name`, which has no
      white space at either end, and whose text after `=` is `rest`. */
  lemma DefPartsAt(line: string, d: DefForm, name: string, rest: string)
    requires d.nameStart <= d.nameEnd <= d.equals < |line|
    requires line[d.nameStart..d.nameEnd] == name && line[d.equals + 1..] == rest
    requires IsName(name)
    ensures DefName(line, d) == name && DefExpr(line, d) == Trim(rest)
  {
    TrimUnchanged(name);
  }

  /** A `def` line whose name slice is `name` and whose text after `=` is `rest` becomes the
      declaration of `name` with the trimmed `rest`. */
  lemma DefEmitAt(line: string, d: DefForm, name: string, rest: string)
    requires DefMatch(line) == Some(d)
    requires line[d.nameStart..d.nameEnd] == name && line[d.equals + 1..] == rest
    requires IsName(name)
    ensures Emit(line) == DefStatement(name, Trim(rest))
  {
    DefPartsAt(line, d, name, rest);
    EmitDef(line, d);
  }

  /** A `def NAME = expr` line becomes the declaration of that name with the trimmed
      expression. */
  lemma DefLine(ws1: string, name: string, ws2: string, rest: string)
    requires ws1 != [] && IsBlank(ws1) && IsBlank(ws2) && IsName(name) && rest != []
    ensures Emit(DefLineOf(ws1, name, ws2, rest)) == DefStatement(name, Trim(rest))
  {
    var line := DefLineOf(ws1, name, ws2, rest);
    var a := 3 + |ws1|;
    var d := DefForm(a, a + |name|, a + |name| + |ws2|);
    DefShape(ws1, name, ws2, rest);
    DefEmitAt(line, d, name, rest);
  }

  /** The `println` line with the given parts. */
  function PrintlnLineOf(ws: string, body: string, tail: string): string {
    "println" + ws + "(" + body + ")" + tail
  }

  /** Every `println(body)` line with only white space after the last `)` matches, whatever
      parentheses the body holds, and no such line is a `def` line. */
  lemma PrintlnShape(ws: string, body: string, tail: string)
    requires IsBlank(ws) && IsBlank(tail)
    ensures var line := PrintlnLineOf(ws, body, tail);
      var open := 7 + |ws|;
      && DefMatch(line).None?
      && PrintlnMatch(line) == Some(PrintlnForm(open, open + 1 + |body|))
      && line[open + 1..open + 1 + |body|] == body
  {
    var line := PrintlnLineOf(ws, body, tail);
    var open := 7 + |ws|;
    var close := open + 1 + |body|;
    assert line[..7] == "println";
    assert !IsPrefix("def", line) by {
      assert line[..3][0] == line[0] == 'p';
    }
    assert forall k :: 7 <= k < open ==> line[k] == ws[k - 7];
    assert line[open] == '(' && line[close] == ')';
    assert line[close + 1..] == tail;
    assert line[open + 1..close] == body;
    PrintlnAt(line, PrintlnForm(open, close));
  }

  /** A `println(body)` line becomes a `WriteLine` of the trimmed body. */
  lemma PrintlnLine(ws: string, body: string, tail: string)
    requires IsBlank(ws) && IsBlank(tail)
    ensures Emit(PrintlnLineOf(ws, body, tail)) == PrintlnStatement(Trim(body))
  {
    var line := PrintlnLineOf(ws, body, tail);
    var open := 7 + |ws|;
    PrintlnShape(ws, body, tail);
    PrintlnEmitAt(line, PrintlnForm(open, open + 1 + |body|), body);
  }

  /** What a `println` line that is not a `def` line becomes, from its argument. */
  lemma PrintlnEmitAt(line: string, p: PrintlnForm, body: string)
    requires DefMatch(line).None? && PrintlnMatch(line) == Some(p)
    requires line[p.open + 1..p.close] == body
    ensures Emit(line) == PrintlnStatement(Trim(body))
  {
    EmitPrintln(line, p);
  }

  /** The route line with the given parts. */
  function RouteLineOf(expr: string, ws: string, word: string, tail: string): string {
    expr + "=>" + ws + "$" + word + tail
  }

  /** Where the parts of a route line sit: `=>` at `|expr|`, then the white space, `$` and
      the word, and after the arrow neither `=` nor `)`. */
  lemma RouteLineParts(expr: string, ws: string, word: string, tail: string)
    requires IsBlank(ws) && IsBlank(tail)
    requires word != [] && forall k :: 0 <= k < |word| ==> IsRegexWordChar(word[k])
    ensures var line := RouteLineOf(expr, ws, word, tail);
      var p := |expr|;
      var a := p + 2 + |ws|;
      var b := a + 1 + |word|;
      && b <= |line| && line[p] == '=' && line[p + 1] == '>'
      && (forall k :: p + 2 <= k < a ==> IsWhiteSpace(line[k]))
      && line[a] == '$' && (forall k :: a < k < b ==> IsRegexWordChar(line[k]))
      && IsBlank(line[b..]) && line[0..p] == expr && line[a..b] == "$" + word
      && (forall j :: p < j < |line| ==> line[j] != '=' && line[j] != ')')
  {
    var line := RouteLineOf(expr, ws, word, tail);
    var p := |expr|;
    var a := p + 2 + |ws|;
    var b := a + 1 + |word|;
    assert forall k :: p + 2 <= k < a ==> line[k] == ws[k - p - 2];
    assert forall k :: a + 1 <= k < b ==> line[k] == word[k - a - 1];
    assert line[b..] == tail;
  }

  /** A line with `=>` at `p`, no `=` and no `)` after it, and a `$word` target between `a`
      and `b` followed by white space is a route line and not a `println` line. */
  lemma RouteFormAt(line: string, p: nat, a: nat, b: nat)
    requires p + 2 <= a < b <= |line| && line[p] == '=' && line[p + 1] == '>'
    requires forall k :: p + 2 <= k < a ==> IsWhiteSpace(line[k])
    requires line[a] == '$' && a + 1 < b && forall k :: a < k < b ==> IsRegexWordChar(line[k])
    requires IsBlank(line[b..])
    requires forall j :: p < j < |line| ==> line[j] != '=' && line[j] != ')'
    ensures RouteMatch(line) == Some(RouteForm(p, a, b)) && PrintlnMatch(line).None?
  {
    assert ArrowAt(line, p);
    RouteAt(line, RouteForm(p, a, b));
    RouteNotPrintln(line, p);
  }

  /** Every `expr => $word` line matches at its last `=>` (earlier arrows stay in the
      expression), and no such line is a `println` line. */
  lemma RouteShape(expr: string, ws: string, word: string, tail: string)
    requires IsBlank(ws) && IsBlank(tail)
    requires word != [] && forall k :: 0 <= k < |word| ==> IsRegexWordChar(word[k])
    ensures var line := RouteLineOf(expr, ws, word, tail);
      var a := |expr| + 2 + |ws|;
      && RouteMatch(line) == Some(RouteForm(|expr|, a, a + 1 + |word|))
      && PrintlnMatch(line).None?
      && line[0..|expr|] == expr && line[a..a + 1 + |word|] == "$" + word
  {
    var line := RouteLineOf(expr, ws, word, tail);
    var a := |expr| + 2 + |ws|;
    RouteLineParts(expr, ws, word, tail);
    RouteFormAt(line, |expr|, a, a + 1 + |word|);
  }

  /** A line whose last `=` is followed by no `)` is not a `println` line. */
  lemma RouteNotPrintln(line: string, p: nat)
    requires p < |line| && line[p] == '='
    requires forall j :: p < j < |line| ==> line[j] != ')'
    ensures PrintlnMatch(line).None?
  {
  }

  /** What a route line that is not a `def` line becomes, from its parts. */
  lemma RouteEmitAt(line: string, t: RouteForm, expr: string, target: string)
    requires DefMatch(line).None? && PrintlnMatch(line).None? && RouteMatch(line) == Some(t)
    requires line[0..t.arrow] == expr && line[t.targetStart..t.targetEnd] == target
    ensures Emit(line) == RouteStatement(Trim(expr), target)
  {
    EmitRoute(line, t);
  }

  /** A route line that is not a `def` line becomes a `Write` on its target. */
  lemma RouteLine(expr: string, ws: string, word: string, tail: string)
    requires IsBlank(ws) && IsBlank(tail)
    requires word != [] && forall k :: 0 <= k < |word| ==> IsRegexWordChar(word[k])
    ensures var line := RouteLineOf(expr, ws, word, tail);
      DefMatch(line).None? ==> Emit(line) == RouteStatement(Trim(expr), "$" + word)
  {
    var line := RouteLineOf(expr, ws, word, tail);
    var a := |expr| + 2 + |ws|;
    RouteShape(expr, ws, word, tail);
    if DefMatch(line).None? {
      RouteEmitAt(line, RouteForm(|expr|, a, a + 1 + |word|), expr, "$" + word);
    }
  }

  /** A line without `=` that does not start with `println` is an expression statement. */
  lemma PlainLine(line: string)
    requires '=' !in line && !IsPrefix("println", line)
    ensures Emit(line) == ExprStatement(line)
  {
  }

  /** No piece of a list holds `\n`. */
  predicate NoNewlines(lines: seq<string>) {
    forall k :: 0 <= k < |lines| ==> '\n' !in lines[k]
  }

  /** The statements for `lines[i..]`: one for each line that is not skipped once trimmed,
      in order. */
  function Statements(lines: seq<string>, i: nat): seq<string>
    requires i <= |lines|
    decreases |lines| - i
  {
    if i == |lines| then []
    else
      var line := Trim(lines[i]);
      (if Skipped(line) then [] else [Emit(line)]) + Statements(lines, i + 1)
  }

  /** Each statement followed by the line separator. */
  function Lines(statements: seq<string>, newline: string): string {
    if statements == [] then "" else statements[0] + newline + Lines(statements[1..], newline)
  }

  /** What `Translate` returns for `source`. */
  function Translation(source: string, newline: string): string {
    Lines(Statements(Split(source, '\n'), 0), newline)
  }

  /** `CSPlus.Translate`, appending to a builder line by line. */
  method Translate(source: string, newline: string) returns (r: string)
    ensures r == Translation(source, newline)
  {
    var lines := Split(source, '\n');
    r := "";
    for i := 0 to |lines|
      invariant r + Lines(Statements(lines, i), newline) == Translation(source, newline)
    {
      var statement := LineStatement(lines, i, newline);
      if statement.None? {
        continue;
      }
      TranslateStep(lines, i, newline, r, statement.value);
      r := r + statement.value + newline;
    }
    assert Statements(lines, |lines|) == [];
  }

  /** The statement line `i` contributes once trimmed: none for a blank line or a comment,
      otherwise the first of the four forms that matches it, in the order they are tried. */
  method LineStatement(lines: seq<string>, i: nat, newline: string) returns (statement: Option<string>)
    requires i < |lines|
    ensures statement.None? <==> Skipped(Trim(lines[i]))
    ensures statement.None? ==> Statements(lines, i) == Statements(lines, i + 1)
    ensures statement.Some? ==> Statements(lines, i) == [statement.value] + Statements(lines, i + 1)
    ensures statement.Some? ==> Lines(Statements(lines, i), newline)
                                == statement.value + newline + Lines(Statements(lines, i + 1), newline)
  {
    var line := Trim(lines[i]);
    StatementsCons(lines, i);
    if Skipped(line) {
      return None;
    }
    var s := Emit(line);
    LinesCons(s, Statements(lines, i + 1), newline);
    return Some(s);
  }

  /** The loop invariant of `Translate` across a line that yields `statement`. */
  lemma TranslateStep(lines: seq<string>, i: nat, newline: string, r: string, statement: string)
    requires i < |lines|
    requires Lines(Statements(lines, i), newline) == statement + newline + Lines(Statements(lines, i + 1), newline)
    ensures r + Lines(Statements(lines, i), newline) == r + statement + newline + Lines(Statements(lines, i + 1), newline)
  {
  }

  lemma LinesCons(first: string, rest: seq<string>, newline: string)
    ensures Lines([first] + rest, newline) == first + newline + Lines(rest, newline)
  {
    assert ([first] + rest)[1..] == rest;
  }

  // ---------------------------------------------------------------------------
  // Properties

  /** With `\n` as the separator, the output is the statements joined by `\n` and ending in
      one, unless there are none. */
  lemma {:induction false} LinesJoin(statements: seq<string>)
    ensures Lines(statements, "\n") == Join(statements + [""], "\n")
    decreases |statements|
  {
    if statements != [] {
      LinesJoin(statements[1..]);
      assert (statements + [""])[1..] == statements[1..] + [""];
    }
  }

  /** Trimming takes characters away and adds none. */
  lemma TrimFree(s: string, c: char)
    requires c !in s
    ensures c !in Trim(s)
  {
    var t := TrimStart(s);
    TrimStartParts(s);
    var r := TrimEnd(t);
    TrimEndParts(t);
  }

  /** The output's lines, for `\n` as the separator, are the statements of the lines that
      are not skipped, in input order, followed by the empty text after the last separator. */
  lemma TranslationLines(source: string)
    ensures Split(Translation(source, "\n"), '\n') == Statements(Split(source, '\n'), 0) + [""]
  {
    var lines := Split(source, '\n');
    forall k | 0 <= k < |lines|
      ensures '\n' !in lines[k]
    {
      OmitsAbsent(lines[k], '\n');
    }
    var statements := Statements(lines, 0);
    LinesJoin(statements);
    StatementsFree(lines, 0);
    var parts := statements + [""];
    forall k | 0 <= k < |parts|
      ensures Omits(parts[k], '\n')
    {
      AbsentOmits(parts[k], '\n');
    }
    SplitJoin(parts, '\n');
  }

  lemma OmitsAbsent(s: string, c: char)
    requires Omits(s, c)
    ensures c !in s
  {
  }

  lemma AbsentOmits(s: string, c: char)
    requires c !in s
    ensures Omits(s, c)
  {
  }

  /** No statement holds `\n` when no line does. */
  lemma {:induction false} StatementsFree(lines: seq<string>, i: nat)
    requires i <= |lines| && NoNewlines(lines)
    ensures NoNewlines(Statements(lines, i) + [""])
    decreases |lines| - i
  {
    if i == |lines| {
      assert Statements(lines, i) + [""] == [""];
    } else {
      StatementsFree(lines, i + 1);
      FreeStep(lines, i);
    }
  }

  lemma FreeStep(lines: seq<string>, i: nat)
    requires i < |lines| && '\n' !in lines[i] && NoNewlines(Statements(lines, i + 1) + [""])
    ensures NoNewlines(Statements(lines, i) + [""])
  {
    StatementsCons(lines, i);
    if !Skipped(Trim(lines[i])) {
      TrimFree(lines[i], '\n');
      EmitFree(Trim(lines[i]));
      ConsFree(Emit(Trim(lines[i])), Statements(lines, i + 1));
    }
  }

  lemma ConsFree(x: string, rest: seq<string>)
    requires '\n' !in x && NoNewlines(rest + [""])
    ensures NoNewlines([x] + rest + [""])
  {
    assert forall k :: 1 <= k < |rest| + 2 ==> ([x] + rest + [""])[k] == (rest + [""])[k - 1];
  }

  /** A statement holds no `\n` when its line holds none. */
  lemma EmitFree(line: string)
    requires '\n' !in line
    ensures '\n' !in Emit(line)
  {
    if DefMatch(line).Some? {
      DefLineFree(line, DefMatch(line).value);
    } else if PrintlnMatch(line).Some? {
      PrintlnLineFree(line, PrintlnMatch(line).value);
    } else if RouteMatch(line).Some? {
      RouteLineFree(line, RouteMatch(line).value);
    } else {
      ExprLineFree(line);
    }
  }

  lemma DefLineFree(line: string, d: DefForm)
    requires '\n' !in line && DefMatch(line) == Some(d)
    ensures '\n' !in Emit(line)
  {
    EmitDef(line, d);
    DefPiecesFree(line, d);
    DefFree(DefName(line, d), DefExpr(line, d));
  }

  lemma DefPiecesFree(line: string, d: DefForm)
    requires '\n' !in line && d.nameStart <= d.nameEnd <= d.equals < |line|
    ensures '\n' !in DefName(line, d) && '\n' !in DefExpr(line, d)
  {
    TrimFree(line[d.nameStart..d.nameEnd], '\n');
    TrimFree(line[d.equals + 1..], '\n');
  }

  lemma DefFree(name: string, expr: string)
    requires '\n' !in name && '\n' !in expr
    ensures '\n' !in DefStatement(name, expr)
  {
    TransformFree(expr);
  }

  lemma PrintlnLineFree(line: string, p: PrintlnForm)
    requires '\n' !in line && DefMatch(line).None? && PrintlnMatch(line) == Some(p)
    ensures '\n' !in Emit(line)
  {
    EmitPrintln(line, p);
    PrintlnPiecesFree(line, p);
    PrintlnFree(PrintlnExpr(line, p));
  }

  lemma PrintlnPiecesFree(line: string, p: PrintlnForm)
    requires '\n' !in line && p.open < p.close <= |line|
    ensures '\n' !in PrintlnExpr(line, p)
  {
    TrimFree(line[p.open + 1..p.close], '\n');
  }

  lemma PrintlnFree(expr: string)
    requires '\n' !in expr
    ensures '\n' !in PrintlnStatement(expr)
  {
    TransformFree(expr);
  }

  lemma RouteLineFree(line: string, t: RouteForm)
    requires '\n' !in line && DefMatch(line).None? && PrintlnMatch(line).None? && RouteMatch(line) == Some(t)
    ensures '\n' !in Emit(line)
  {
    EmitRoute(line, t);
    RoutePiecesFree(line, t);
    RouteFree(RouteExpr(line, t), RouteTarget(line, t));
  }

  lemma RoutePiecesFree(line: string, t: RouteForm)
    requires '\n' !in line && t.arrow <= |line| && t.targetStart <= t.targetEnd <= |line|
    ensures '\n' !in RouteExpr(line, t) && '\n' !in RouteTarget(line, t)
  {
    TrimFree(line[0..t.arrow], '\n');
  }

  lemma RouteFree(expr: string, target: string)
    requires '\n' !in expr && '\n' !in target
    ensures '\n' !in RouteStatement(expr, target)
  {
    TransformFree(expr);
  }

  lemma ExprLineFree(line: string)
    requires '\n' !in line && DefMatch(line).None? && PrintlnMatch(line).None? && RouteMatch(line).None?
    ensures '\n' !in Emit(line)
  {
    EmitExpr(line);
    TransformFree(line);
  }

  /** The expression rewrite adds no `\n`. */
  lemma TransformFree(expr: string)
    requires '\n' !in expr
    ensures '\n' !in TransformExpr(expr)
  {
    ReplaceFree(expr, "$stdout", "Console.Out", '\n');
    var a := Replace(expr, "$stdout", "Console.Out");
    ReplaceFree(a, "$stderr", "Console.Error", '\n');
    var b := Replace(a, "$stderr", "Console.Error");
    ReplaceFree(b, "$stdin", "Console.In", '\n');
    var specials := SpecialVariables(expr);
    CosFree(specials, 0, '\n');
    PiFree(CosFrom(specials, 0), 0, '\n');
  }

  lemma {:induction false} ReplaceFree(s: string, pat: string, rep: string, c: char)
    requires pat != [] && c !in s && c !in rep
    ensures c !in Replace(s, pat, rep)
    decreases |s|
  {
    if |s| >= |pat| {
      if s[..|pat|] == pat {
        assert s[|pat|..] == s[|pat|..|s|];
        ReplaceFree(s[|pat|..], pat, rep, c);
      } else {
        ReplaceFree(s[1..], pat, rep, c);
      }
    }
  }

  lemma {:induction false} CosFree(s: string, i: nat, c: char)
    requires i <= |s| && c !in s && c !in "Math.Cos("
    ensures c !in CosFrom(s, i)
    decreases |s| - i
  {
    if i < |s| {
      if CosAt(s, i) {
        CosFree(s, WhiteEnd(s, i + 3) + 1, c);
      } else {
        CosFree(s, i + 1, c);
      }
    }
  }

  lemma {:induction false} PiFree(s: string, i: nat, c: char)
    requires i <= |s| && c !in s && c !in "Math.PI"
    ensures c !in PiFrom(s, i)
    decreases |s| - i
  {
    if i < |s| {
      if PiAt(s, i) {
        PiFree(s, i + 2, c);
      } else {
        PiFree(s, i + 1, c);
      }
    }
  }

  /** A blank line or a comment adds no statement; any other line adds exactly one. */
  lemma StatementsCons(lines: seq<string>, i: nat)
    requires i < |lines|
    ensures Skipped(Trim(lines[i])) ==> Statements(lines, i) == Statements(lines, i + 1)
    ensures !Skipped(Trim(lines[i])) ==> Statements(lines, i) == [Emit(Trim(lines[i]))] + Statements(lines, i + 1)
  {
  }

  /** After the first step of `TransformExpr` none of the three special variables is left. */
  lemma SpecialVariablesCleared(expr: string)
    ensures var r := SpecialVariables(expr);
      !Contains(r, "$stdout") && !Contains(r, "$stderr") && !Contains(r, "$stdin")
  {
    var e1 := Replace(expr, "$stdout", "Console.Out");
    var e2 := Replace(e1, "$stderr", "Console.Error");
    ReplaceNoNew(expr, "$stdout", "Console.Out", "$stdout");
    ReplaceNoNew(e1, "$stderr", "Console.Error", "$stdout");
    ReplaceNoNew(e1, "$stderr", "Console.Error", "$stderr");
    ReplaceNoNew(e2, "$stdin", "Console.In", "$stdout");
    ReplaceNoNew(e2, "$stdin", "Console.In", "$stderr");
    ReplaceNoNew(e2, "$stdin", "Console.In", "$stdin");
  }

  /** A text ending in `;`. */
  predicate EndsWithSemicolon(s: string) {
    s != [] && s[|s| - 1] == ';'
  }

  /** Every statement ends with `;`. */
  lemma EmitSemicolon(line: string)
    ensures EndsWithSemicolon(Emit(line))
  {
  }

  /** Every text of `lines + [""]` but the last ends with `;`. */
  predicate SemicolonLines(lines: seq<string>) {
    forall k :: 0 <= k < |lines| ==> EndsWithSemicolon((lines + [""])[k])
  }

  /** Every statement ends with `;`. */
  lemma {:induction false} StatementsSemicolon(lines: seq<string>, i: nat)
    requires i <= |lines|
    ensures SemicolonLines(Statements(lines, i))
    decreases |lines| - i
  {
    if i < |lines| {
      StatementsSemicolon(lines, i + 1);
      SemicolonStep(lines, i);
    }
  }

  lemma SemicolonStep(lines: seq<string>, i: nat)
    requires i < |lines| && SemicolonLines(Statements(lines, i + 1))
    ensures SemicolonLines(Statements(lines, i))
  {
    StatementsCons(lines, i);
    if !Skipped(Trim(lines[i])) {
      EmitSemicolon(Trim(lines[i]));
      ConsSemicolon(Emit(Trim(lines[i])), Statements(lines, i + 1));
    }
  }

  lemma ConsSemicolon(x: string, rest: seq<string>)
    requires EndsWithSemicolon(x) && SemicolonLines(rest)
    ensures SemicolonLines([x] + rest)
  {
    assert forall k :: 1 <= k < |rest| + 2 ==> ([x] + rest + [""])[k] == (rest + [""])[k - 1];
  }

  /** With `\n` as the separator, every line of the output ends with `;`, except the empty
      text after the last separator. */
  lemma TranslationSemicolons(source: string)
    ensures var out := Split(Translation(source, "\n"), '\n');
      out[|out| - 1] == "" && forall k :: 0 <= k < |out| - 1 ==> EndsWithSemicolon(out[k])
  {
    TranslationLines(source);
    StatementsSemicolon(Split(source, '\n'), 0);
  }
}
