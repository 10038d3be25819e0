/** pkg/validator/expression_processor.go: inlining of named expressions.

    A rule may refer to an entry of the named-expression table as `${name}` or
    `${name(arg, ...)}`. Expansion replaces every reference by the entry's body in
    parentheses, with the positional placeholders `$0`, `$1`, ... of the body replaced by
    the arguments, and repeats passes until no `${` is left or the pass budget is spent. */
module ExpressionProcessor {
  import opened Wrappers
  import opened GoStrings
  import opened Models

  // ---------------------------------------------------------------------------------
  // Scanning for references (findExpressionReferences)
  // ---------------------------------------------------------------------------------

  /** A reference found by the scanner: its full text, the name, the argument span
      including its parentheses ("" when there is none), and where the text starts. */
  datatype Match = Match(fullMatch: string, name: string, args: string, start: nat)

  /** The characters a reference name is made of. */
  predicate IsNameChar(c: char) {
    c == '_' || ('a' <= c <= 'z') || ('A' <= c <= 'Z') || ('0' <= c <= '9')
  }

  predicate IsName(s: string) {
    forall k | 0 <= k < |s| :: IsNameChar(s[k])
  }

  /** The end of the longest run of name characters starting at `i`. */
  function NameEnd(s: string, i: nat): (j: nat)
    requires i <= |s|
    ensures i <= j <= |s|
    ensures IsName(s[i..j])
    ensures j == |s| || !IsNameChar(s[j])
    decreases |s| - i
  {
    if i < |s| && IsNameChar(s[i]) then
      var j := NameEnd(s, i + 1);
      assert s[i..j] == [s[i]] + s[i + 1..j];
      j
    else i
  }

  /** The depth-counting scan for the closing parenthesis: from `i`, with `depth`
      parentheses open, the position just after the `)` that brings the depth back to
      zero, or None when the text ends first. */
  function CloseFrom(s: string, i: nat, depth: int): (r: Option<nat>)
    requires i <= |s|
    ensures r.Some? ==> i < r.value <= |s| && s[r.value - 1] == ')'
    decreases |s| - i
  {
    if i == |s| then None
    else if s[i] == '(' then CloseFrom(s, i + 1, depth + 1)
    else if s[i] == ')' then
      if depth - 1 == 0 then Some(i + 1) else CloseFrom(s, i + 1, depth - 1)
    else CloseFrom(s, i + 1, depth)
  }

  /** Where the scanner stands after the optional argument span that may follow the name
      ending at `n`: after its closing parenthesis, at the end of the text when it is never
      closed, or at `n` when no `(` follows. */
  function ArgsEnd(s: string, n: nat): (e: nat)
    requires n <= |s|
    ensures n <= e <= |s|
  {
    if n < |s| && s[n] == '(' then
      match CloseFrom(s, n, 0)
      case Some(e) => e
      case None => |s|
    else n
  }

  /** The reference the scanner reads at a `${` at position `i`: where scanning resumes,
      and the match when the name and argument span are followed by `}`. Otherwise
      scanning resumes one character past the place where it stopped. */
  function ReferenceAt(s: string, i: nat): (r: (nat, Option<Match>))
    requires i + 2 <= |s|
    ensures i < r.0 <= |s| + 1
  {
    var n := NameEnd(s, i + 2);
    var e := ArgsEnd(s, n);
    if e < |s| && s[e] == '}' then (e + 1, Some(Match(s[i..e + 1], s[i + 2..n], s[n..e], i)))
    else (e + 1, None)
  }

  /** `${` starts at position `i`. */
  predicate OpensAt(s: string, i: nat) {
    i + 1 < |s| && s[i] == '$' && s[i + 1] == '{'
  }

  /** The references the scanner records from position `i` on. */
  function ScanFrom(s: string, i: nat): seq<Match>
    requires i <= |s| + 1
    decreases |s| + 1 - i
  {
    if i >= |s| then []
    else if OpensAt(s, i) then
      var (next, m) := ReferenceAt(s, i);
      (if m.Some? then [m.value] else []) + ScanFrom(s, next)
    else
      ScanFrom(s, i + 1)
  }

  /** All references of `s`, left to right. */
  function References(s: string): seq<Match> {
    ScanFrom(s, 0)
  }

  /** findExpressionReferences: the index-cursor scan. */
  method FindExpressionReferences(expr: string) returns (matches: seq<Match>)
    ensures matches == References(expr)
  {
    matches := [];
    var i := 0;
    while i < |expr|
      invariant 0 <= i <= |expr| + 1
      invariant matches + ScanFrom(expr, i) == References(expr)
      decreases |expr| + 1 - i
    {
      if i < |expr| - 1 && expr[i] == '$' && expr[i + 1] == '{' {
        var next, m := ReadReference(expr, i);
        if m.Some? {
          matches := matches + [m.value];
        }
        i := next;
      } else {
        i := i + 1;
      }
    }
  }

  /** The body of the scan at a `${`: the name loop, the depth loop and the `}` check. */
  method ReadReference(expr: string, start: nat) returns (next: nat, m: Option<Match>)
    requires OpensAt(expr, start)
    ensures (next, m) == ReferenceAt(expr, start)
  {
    var nameStart := start + 2;
    var i := ReadName(expr, nameStart);
    var nameEnd := i;
    var name := expr[nameStart..i];
    var args := "";
    if i < |expr| && expr[i] == '(' {
      i, args := ReadArgs(expr, i);
    }
    assert i == ArgsEnd(expr, nameEnd) && (i < |expr| ==> args == expr[nameEnd..i]);
    if i < |expr| && expr[i] == '}' {
      i := i + 1;
      next, m := i, Some(Match(expr[start..i], name, args, start));
    } else {
      next, m := i + 1, None;
    }
  }

  /** The name loop: it stops at the first character that is not a name character. */
  method ReadName(expr: string, nameStart: nat) returns (i: nat)
    requires nameStart <= |expr|
    ensures i == NameEnd(expr, nameStart)
  {
    i := nameStart;
    while i < |expr| && IsNameChar(expr[i])
      invariant nameStart <= i <= |expr|
      invariant NameEnd(expr, i) == NameEnd(expr, nameStart)
    {
      i := i + 1;
    }
  }

  /** The depth loop over an argument span that opens at `argsStart`. */
  method ReadArgs(expr: string, argsStart: nat) returns (next: nat, args: string)
    requires argsStart < |expr| && expr[argsStart] == '('
    ensures next == ArgsEnd(expr, argsStart)
    ensures next < |expr| ==> args == expr[argsStart..next]
  {
    var i := argsStart;
    var depth := 0;
    args := "";
    while i < |expr|
      invariant argsStart <= i <= |expr|
      invariant CloseFrom(expr, i, depth) == CloseFrom(expr, argsStart, 0)
      decreases |expr| - i
    {
      if expr[i] == '(' {
        depth := depth + 1;
      } else if expr[i] == ')' {
        depth := depth - 1;
        if depth == 0 {
          i := i + 1;
          args := expr[argsStart..i];
          break;
        }
      }
      i := i + 1;
    }
    next := i;
  }

  /** The contribution of one character to the parenthesis depth. */
  function Delta(c: char): int {
    if c == '(' then 1 else if c == ')' then -1 else 0
  }

  /** Open minus closed parentheses of `t`. */
  function Depth(t: string): int
    decreases |t|
  {
    if t == [] then 0 else Delta(t[0]) + Depth(t[1..])
  }

  /** `a` opens with `(` and its last character is the `)` that closes it: the depth is
      positive on every proper prefix and zero on the whole. */
  predicate Balanced(a: string) {
    |a| >= 2 && a[0] == '(' && a[|a| - 1] == ')' && Depth(a) == 0
    && forall p | 0 < p < |a| :: Depth(a[..p]) > 0
  }

  /** A recorded reference: it is the text of `s` at its start, made of `${`, a name, an
      optional balanced argument span and `}`. */
  predicate WellFormed(s: string, m: Match) {
    OccursAt(s, m.fullMatch, m.start)
    && m.fullMatch == "${" + m.name + m.args + "}"
    && IsName(m.name)
    && (m.args == "" || Balanced(m.args))
  }

  /** Matches in increasing position, none overlapping the next. */
  predicate Ordered(ms: seq<Match>) {
    forall k | 0 <= k < |ms| - 1 :: ms[k].start + |ms[k].fullMatch| <= ms[k + 1].start
  }

  /** The depth scan stops at the parenthesis matching the ones already open. */
  lemma {:induction false} CloseFromDepth(s: string, i: nat, depth: int, e: nat)
    requires i <= |s| && depth >= 1 && CloseFrom(s, i, depth) == Some(e)
    ensures depth + Depth(s[i..e]) == 0
    ensures forall p | i <= p < e :: depth + Depth(s[i..p]) > 0
    decreases |s| - i
  {
    assert s[i..e][1..] == s[i + 1..e];
    var d := depth + Delta(s[i]);
    if !(s[i] == ')' && depth - 1 == 0) {
      CloseFromDepth(s, i + 1, d, e);
      forall p | i < p < e ensures depth + Depth(s[i..p]) > 0 {
        assert s[i..p][1..] == s[i + 1..p];
      }
    }
  }

  /** A closed argument span is balanced. */
  lemma ArgsBalanced(s: string, n: nat)
    requires n < |s| && s[n] == '(' && CloseFrom(s, n, 0).Some?
    ensures Balanced(s[n..CloseFrom(s, n, 0).value])
  {
    var e := CloseFrom(s, n, 0).value;
    var a := s[n..e];
    CloseFromDepth(s, n + 1, 1, e);
    assert a[1..] == s[n + 1..e];
    forall p | 0 < p < |a| ensures Depth(a[..p]) > 0 {
      assert a[..p][1..] == s[n + 1..n + p];
    }
  }

  /** A `${` at `i`, a name up to `n`, an empty or balanced span up to `e` and a `}` at
      `e` make a well-formed reference. */
  lemma ClosedReferenceWellFormed(s: string, i: nat, n: nat, e: nat)
    requires OpensAt(s, i) && i + 2 <= n <= e < |s| && s[e] == '}'
    requires IsName(s[i + 2..n]) && (n == e || Balanced(s[n..e]))
    ensures WellFormed(s, Match(s[i..e + 1], s[i + 2..n], s[n..e], i))
  {
    SliceSplit(s, i, i + 2, n);
    SliceSplit(s, i, n, e);
    SliceSplit(s, i, e, e + 1);
    assert s[i..i + 2] == "${";
    assert s[e..e + 1] == "}";
  }

  /** What ReferenceAt records is well formed, starts at `i`, and scanning resumes just
      after it. */
  lemma ReferenceAtWellFormed(s: string, i: nat)
    requires OpensAt(s, i) && ReferenceAt(s, i).1.Some?
    ensures WellFormed(s, ReferenceAt(s, i).1.value)
    ensures ReferenceAt(s, i).1.value.start == i
    ensures ReferenceAt(s, i).0 == i + |ReferenceAt(s, i).1.value.fullMatch|
  {
    var n := NameEnd(s, i + 2);
    var e := ArgsEnd(s, n);
    if n < |s| && s[n] == '(' {
      ArgsBalanced(s, n);
    }
    ClosedReferenceWellFormed(s, i, n, e);
  }

  /** Every match the scan records from `i` on is well formed and starts at or after `i`,
      and the matches come left to right without overlapping. */
  lemma {:induction false} ScanWellFormed(s: string, i: nat)
    requires i <= |s| + 1
    ensures forall k | 0 <= k < |ScanFrom(s, i)| :: WellFormed(s, ScanFrom(s, i)[k]) && ScanFrom(s, i)[k].start >= i
    ensures Ordered(ScanFrom(s, i))
    decreases |s| + 1 - i
  {
    if i < |s| {
      if OpensAt(s, i) {
        var (next, m) := ReferenceAt(s, i);
        ScanWellFormed(s, next);
        if m.Some? {
          ReferenceAtWellFormed(s, i);
        }
      } else {
        ScanWellFormed(s, i + 1);
      }
    }
  }

  /** Text without `${` has no references. */
  lemma NoOpenNoReferences(s: string)
    ensures !Contains(s, "${") ==> References(s) == []
  {
    ScanWellFormed(s, 0);
    var ms := References(s);
    if ms != [] {
      var m := ms[0];
      assert s[m.start..m.start + 2] == m.fullMatch[..2] == "${";
      ContainsAt(s, "${", m.start);
    }
  }

  // ---------------------------------------------------------------------------------
  // Splitting the argument list (parseArguments)
  // ---------------------------------------------------------------------------------

  /** The bookkeeping of the argument splitter: parenthesis and bracket depths and the
      quote flags. */
  datatype Nesting = Nesting(parens: int, brackets: int, inSingle: bool, inDouble: bool)
  {
    predicate Quoted() {
      inSingle || inDouble
    }

    /** A comma here separates two arguments. */
    predicate AtTopLevel() {
      parens == 0 && brackets == 0 && !Quoted()
    }

    /** The bookkeeping for a character other than a separating comma or a backslash. */
    function Track(c: char): Nesting {
      if c == '(' && !Quoted() then this.(parens := parens + 1)
      else if c == ')' && !Quoted() then this.(parens := parens - 1)
      else if c == '[' && !Quoted() then this.(brackets := brackets + 1)
      else if c == ']' && !Quoted() then this.(brackets := brackets - 1)
      else if c == '\'' && !inDouble then this.(inSingle := !inSingle)
      else if c == '"' && !inSingle then this.(inDouble := !inDouble)
      else this
    }
  }

  /** The state of the argument splitter: the pieces cut so far (before trimming), the
      piece being read, and the bookkeeping. */
  datatype Splitter = Splitter(pieces: seq<string>, current: string, nesting: Nesting)

  const StartSplitter := Splitter([], "", Nesting(0, 0, false, false))

  /** The splitter run over `a` from position `i`. A backslash copies itself and the next
      character without looking at it; a comma at top level ends the current piece; every
      other character is copied and tracked. */
  function SplitFrom(a: string, i: nat, st: Splitter): Splitter
    requires i <= |a|
    decreases |a| - i
  {
    if i == |a| then st
    else if a[i] == '\\' then
      if i + 1 < |a| then SplitFrom(a, i + 2, st.(current := st.current + a[i..i + 2]))
      else SplitFrom(a, i + 1, st.(current := st.current + [a[i]]))
    else if a[i] == ',' && st.nesting.AtTopLevel() then
      SplitFrom(a, i + 1, st.(pieces := st.pieces + [st.current], current := ""))
    else
      SplitFrom(a, i + 1, st.(current := st.current + [a[i]], nesting := st.nesting.Track(a[i])))
  }

  /** The text between the outer parentheses, trimmed. */
  function Inner(argsWithParens: string): string {
    TrimSpace(TrimSuffix(TrimPrefix(argsWithParens, "("), ")"))
  }

  /** Every piece, trimmed. */
  function TrimAll(pieces: seq<string>): (r: seq<string>)
    ensures |r| == |pieces|
    ensures forall k | 0 <= k < |pieces| :: r[k] == TrimSpace(pieces[k])
  {
    seq(|pieces|, k requires 0 <= k < |pieces| => TrimSpace(pieces[k]))
  }

  /** Trimming a piece more appends its trimmed form. */
  lemma TrimAllAppend(pieces: seq<string>, piece: string)
    ensures TrimAll(pieces + [piece]) == TrimAll(pieces) + [TrimSpace(piece)]
  {
  }

  /** The untrimmed pieces of a non-empty inner text, the last one included even when it
      is empty. */
  function RawPieces(a: string): seq<string> {
    var st := SplitFrom(a, 0, StartSplitter);
    st.pieces + [st.current]
  }

  /** parseArguments: the arguments of an argument span. The last piece is kept only when
      something was read after the last separating comma. */
  function Arguments(argsWithParens: string): seq<string> {
    var a := Inner(argsWithParens);
    if a == "" then [] else SplitArguments(a)
  }

  /** The arguments of a non-empty inner text. */
  function SplitArguments(a: string): seq<string> {
    var st := SplitFrom(a, 0, StartSplitter);
    TrimAll(st.pieces + (if |st.current| > 0 then [st.current] else []))
  }

  /** Every argument is trimmed: empty, or without white space at either end. */
  lemma ArgumentsTrimmed(argsWithParens: string)
    ensures forall k | 0 <= k < |Arguments(argsWithParens)| :: var arg := Arguments(argsWithParens)[k];
      arg == [] || (!IsSpace(arg[0]) && !IsSpace(arg[|arg| - 1]))
  {
  }

  /** parseArguments: strips the outer parentheses, then splits character by character.
      The Go function's error result is always nil, so it is not modelled. */
  method ParseArguments(argsWithParens: string) returns (args: seq<string>)
    ensures args == Arguments(argsWithParens)
  {
    var argsStr := TrimPrefix(argsWithParens, "(");
    argsStr := TrimSuffix(argsStr, ")");
    argsStr := TrimSpace(argsStr);
    if argsStr == "" {
      return [];
    }
    args := SplitLoop(argsStr);
  }

  /** The character loop of parseArguments and the final piece. */
  method SplitLoop(argsStr: string) returns (args: seq<string>)
    ensures args == SplitArguments(argsStr)
  {
    args := [];
    ghost var st := StartSplitter;
    var current := "";
    var parenDepth, bracketDepth := 0, 0;
    var inSingleQuote, inDoubleQuote := false, false;
    var i := 0;
    while i < |argsStr|
      invariant 0 <= i <= |argsStr|
      invariant st == Splitter(st.pieces, current, Nesting(parenDepth, bracketDepth, inSingleQuote, inDoubleQuote))
      invariant args == TrimAll(st.pieces)
      invariant SplitFrom(argsStr, i, st) == SplitFrom(argsStr, 0, StartSplitter)
      decreases |argsStr| - i
    {
      var ch := argsStr[i];
      if ch == ',' && parenDepth == 0 && bracketDepth == 0 && !inSingleQuote && !inDoubleQuote {
        SplitCommaStep(argsStr, i, st);
        TrimAllAppend(st.pieces, current);
        args := args + [TrimSpace(current)];
        st := st.(pieces := st.pieces + [current], current := "");
        current := "";
      } else if ch == '\\' {
        SplitEscapeStep(argsStr, i, st);
        current := current + [ch];
        if i + 1 < |argsStr| {
          i := i + 1;
          current := current + [argsStr[i]];
        }
        st := st.(current := current);
      } else {
        SplitOtherStep(argsStr, i, st);
        parenDepth, bracketDepth, inSingleQuote, inDoubleQuote :=
          TrackChar(ch, parenDepth, bracketDepth, inSingleQuote, inDoubleQuote);
        current := current + [ch];
        st := st.(current := current, nesting := Nesting(parenDepth, bracketDepth, inSingleQuote, inDoubleQuote));
      }
      i := i + 1;
    }
    assert st == SplitFrom(argsStr, 0, StartSplitter);
    if |current| > 0 {
      TrimAllAppend(st.pieces, current);
      args := args + [TrimSpace(current)];
    } else {
      assert st.pieces + [] == st.pieces;
    }
  }

  /** The cases of parseArguments' switch that copy the character and keep the depth and
      quote bookkeeping (a comma inside brackets, parentheses or quotes included). */
  method TrackChar(ch: char, parenDepth: int, bracketDepth: int, inSingleQuote: bool, inDoubleQuote: bool)
    returns (parens: int, brackets: int, inSingle: bool, inDouble: bool)
    ensures Nesting(parens, brackets, inSingle, inDouble)
      == Nesting(parenDepth, bracketDepth, inSingleQuote, inDoubleQuote).Track(ch)
  {
    parens, brackets, inSingle, inDouble := parenDepth, bracketDepth, inSingleQuote, inDoubleQuote;
    match ch {
      case '(' =>
        if !inSingleQuote && !inDoubleQuote {
          parens := parenDepth + 1;
        }
      case ')' =>
        if !inSingleQuote && !inDoubleQuote {
          parens := parenDepth - 1;
        }
      case '[' =>
        if !inSingleQuote && !inDoubleQuote {
          brackets := bracketDepth + 1;
        }
      case ']' =>
        if !inSingleQuote && !inDoubleQuote {
          brackets := bracketDepth - 1;
        }
      case '\'' =>
        if !inDoubleQuote {
          inSingle := !inSingleQuote;
        }
      case '"' =>
        if !inSingleQuote {
          inDouble := !inDoubleQuote;
        }
      case _ =>
    }
  }

  lemma SplitCommaStep(a: string, i: nat, st: Splitter)
    requires i < |a| && a[i] == ',' && st.nesting.AtTopLevel()
    ensures SplitFrom(a, i, st) == SplitFrom(a, i + 1, st.(pieces := st.pieces + [st.current], current := ""))
  {
  }

  lemma SplitEscapeStep(a: string, i: nat, st: Splitter)
    requires i < |a| && a[i] == '\\'
    ensures i + 1 < |a| ==> SplitFrom(a, i, st) == SplitFrom(a, i + 2, st.(current := st.current + [a[i]] + [a[i + 1]]))
    ensures i + 1 == |a| ==> SplitFrom(a, i, st) == SplitFrom(a, i + 1, st.(current := st.current + [a[i]]))
  {
    if i + 1 < |a| {
      assert st.current + a[i..i + 2] == st.current + [a[i]] + [a[i + 1]];
    }
  }

  lemma SplitOtherStep(a: string, i: nat, st: Splitter)
    requires i < |a| && a[i] != '\\' && !(a[i] == ',' && st.nesting.AtTopLevel())
    ensures SplitFrom(a, i, st) == SplitFrom(a, i + 1, st.(current := st.current + [a[i]], nesting := st.nesting.Track(a[i])))
  {
  }

  // The splitter on arguments of simple shapes: where the commas fall.

  /** The bookkeeping outside every group. */
  const TopLevel := Nesting(0, 0, false, false)

  /** A character the splitter copies and does not track: no comma, escape, parenthesis,
      bracket or quote. */
  predicate Plain(c: char) {
    c != ',' && c != '\\' && c != '(' && c != ')' && c != '[' && c != ']' && c != '\'' && c != '"'
  }

  predicate PlainText(s: string) {
    forall k | 0 <= k < |s| :: Plain(s[k])
  }

  /** The inside of a parenthesis or bracket group: commas allowed, but no further
      group, quote or escape. */
  predicate GroupText(s: string) {
    forall k | 0 <= k < |s| :: Plain(s[k]) || s[k] == ','
  }

  /** The inside of a single-quoted string: anything but a single quote or an escape. */
  predicate QuotedText(s: string) {
    forall k | 0 <= k < |s| :: s[k] != '\'' && s[k] != '\\'
  }

  /** The shapes of argument this part of the model describes: a plain word, or a plain
      word followed by one call `(…)`, list `[…]` or single-quoted string `'…'` whose
      commas belong to the argument. */
  datatype ArgShape = Word(w: string) | Call(w: string, x: string) | List(w: string, x: string) | Quoted(w: string, x: string)
  {
    function Text(): string {
      match this
      case Word(w) => w
      case Call(w, x) => w + "(" + x + ")"
      case List(w, x) => w + "[" + x + "]"
      case Quoted(w, x) => w + "'" + x + "'"
    }

    predicate Valid() {
      PlainText(w) && (if Quoted? then QuotedText(x) else !Word? ==> GroupText(x))
    }

    /** The same shape with `lead` before its word. */
    function Prefixed(lead: string): ArgShape {
      this.(w := lead + w)
    }
  }

  /** One character that leaves the bookkeeping as it is is copied, and the piece goes on. */
  lemma {:induction false} CopiedRun(a: string, i: nat, j: nat, st: Splitter)
    requires i <= j <= |a|
    requires forall k | i <= k < j ::
      a[k] != '\\' && !(a[k] == ',' && st.nesting.AtTopLevel()) && st.nesting.Track(a[k]) == st.nesting
    ensures SplitFrom(a, i, st) == SplitFrom(a, j, st.(current := st.current + a[i..j]))
    decreases j - i
  {
    if i < j {
      SplitOtherStep(a, i, st);
      var next := st.(current := st.current + [a[i]]);
      CopiedRun(a, i + 1, j, next);
      assert st.current + [a[i]] + a[i + 1..j] == st.current + a[i..j];
    } else {
      assert st.current + a[i..j] == st.current;
    }
  }

  /** A plain word at position `i` of `a` is copied into the current piece at top level. */
  lemma WordCopiedAt(a: string, i: nat, w: string, st: Splitter)
    requires i + |w| <= |a| && a[i..i + |w|] == w
    requires PlainText(w) && st.nesting == TopLevel
    ensures SplitFrom(a, i, st) == SplitFrom(a, i + |w|, st.(current := st.current + w))
  {
    assert forall k | i <= k < i + |w| :: a[k] == w[k - i];
    CopiedRun(a, i, i + |w|, st);
  }

  /** A group `open` + `x` + `close` at top level is copied whole when the opening
      character leads to bookkeeping `inner`, not at top level, that the inside leaves
      alone and the closing character brings back to top level. */
  lemma GroupCopiedWith(a: string, i: nat, e: nat, st: Splitter, inner: Nesting)
    requires i < e < |a| && st.nesting == TopLevel
    requires a[i] != '\\' && a[e] != '\\' && a[i] != ',' && a[e] != ','
    requires TopLevel.Track(a[i]) == inner && inner.Track(a[e]) == TopLevel && !inner.AtTopLevel()
    requires forall k | i < k < e :: a[k] != '\\' && inner.Track(a[k]) == inner
    ensures SplitFrom(a, i, st) == SplitFrom(a, e + 1, st.(current := st.current + a[i..e + 1]))
  {
    var st1 := Splitter(st.pieces, st.current + [a[i]], inner);
    var st2 := Splitter(st.pieces, st1.current + a[i + 1..e], inner);
    var st3 := Splitter(st.pieces, st2.current + [a[e]], TopLevel);
    assert SplitFrom(a, i, st) == SplitFrom(a, i + 1, st1) by {
      SplitOtherStep(a, i, st);
    }
    assert SplitFrom(a, i + 1, st1) == SplitFrom(a, e, st2) by {
      CopiedRun(a, i + 1, e, st1);
    }
    assert SplitFrom(a, e, st2) == SplitFrom(a, e + 1, st3) by {
      SplitOtherStep(a, e, st2);
    }
    SliceAround(a, i, e, st.current);
  }

  /** A slice split at both ends. */
  lemma SliceAround(a: string, i: nat, e: nat, c: string)
    requires i < e < |a|
    ensures c + [a[i]] + a[i + 1..e] + [a[e]] == c + a[i..e + 1]
  {
    assert a[i..e + 1] == [a[i]] + a[i + 1..e] + [a[e]];
  }

  /** The inside of a call, a list or a quoted string leaves its bookkeeping alone. */
  lemma GroupInside(x: string, inner: Nesting, quoted: bool)
    requires inner == (if quoted then Nesting(0, 0, true, false) else inner)
    requires !quoted ==> inner == Nesting(1, 0, false, false) || inner == Nesting(0, 1, false, false)
    requires if quoted then QuotedText(x) else GroupText(x)
    ensures forall k | 0 <= k < |x| :: x[k] != '\\' && inner.Track(x[k]) == inner
  {
  }

  /** A group at top level, at position `i` of `a`, is copied whole. */
  lemma GroupCopiedAt(a: string, i: nat, open: char, x: string, close: char, st: Splitter)
    requires i + |x| + 1 < |a| && a[i] == open && a[i + |x| + 1] == close && a[i + 1..i + 1 + |x|] == x
    requires st.nesting == TopLevel
    requires (open == '(' && close == ')') || (open == '[' && close == ']') || (open == '\'' && close == '\'')
    requires if open == '\'' then QuotedText(x) else GroupText(x)
    ensures SplitFrom(a, i, st) == SplitFrom(a, i + |x| + 2, st.(current := st.current + [open] + x + [close]))
  {
    var inner := TopLevel.Track(open);
    var e := i + |x| + 1;
    GroupInside(x, inner, open == '\'');
    assert forall k | i < k < e :: a[k] == x[k - i - 1];
    GroupCopiedWith(a, i, e, st, inner);
    SliceAround(a, i, e, st.current);
  }

  /** Where the word and the group of a shape lie in a text that holds the shape at
      position `i`. */
  lemma ShapeLayout(a: string, i: nat, w: string, open: char, x: string, close: char)
    requires i + |w| + |x| + 2 <= |a| && a[i..i + |w| + |x| + 2] == w + [open] + x + [close]
    ensures var j := i + |w|;
      a[i..j] == w && a[j] == open && a[j + |x| + 1] == close && a[j + 1..j + 1 + |x|] == x
  {
    var j := i + |w|;
    var t := w + [open] + x + [close];
    assert forall k | 0 <= k < |t| :: a[i + k] == t[k];
    assert forall k | 0 <= k < |w| :: t[k] == w[k];
    assert forall k | 0 <= k < |x| :: t[|w| + 1 + k] == x[k];
    assert a[j] == t[|w|] && a[j + |x| + 1] == t[|w| + |x| + 1];
  }

  /** A plain word followed by a group, at position `i` of `a`, is copied whole. */
  lemma WordGroupCopiedAt(a: string, i: nat, w: string, open: char, x: string, close: char, st: Splitter)
    requires i + |w| + |x| + 2 <= |a| && a[i..i + |w| + |x| + 2] == w + [open] + x + [close]
    requires PlainText(w) && st.nesting == TopLevel
    requires (open == '(' && close == ')') || (open == '[' && close == ']') || (open == '\'' && close == '\'')
    requires if open == '\'' then QuotedText(x) else GroupText(x)
    ensures SplitFrom(a, i, st) == SplitFrom(a, i + |w| + |x| + 2, st.(current := st.current + (w + [open] + x + [close])))
  {
    var j := i + |w|;
    ShapeLayout(a, i, w, open, x, close);
    var st1 := st.(current := st.current + w);
    WordCopiedAt(a, i, w, st);
    GroupCopiedAt(a, j, open, x, close, st1);
    assert st1.current + [open] + x + [close] == st.current + (w + [open] + x + [close]);
  }

  /** An argument of a simple shape at position `i` of `a` is copied whole into the
      current piece, and the bookkeeping is back at top level after it. */
  lemma ShapeCopiedAt(a: string, i: nat, sh: ArgShape, st: Splitter)
    requires sh.Valid() && st.nesting == TopLevel
    requires i + |sh.Text()| <= |a| && a[i..i + |sh.Text()|] == sh.Text()
    ensures SplitFrom(a, i, st) == SplitFrom(a, i + |sh.Text()|, st.(current := st.current + sh.Text()))
  {
    match sh
    case Word(w) => WordCopiedAt(a, i, w, st);
    case Call(w, x) => WordGroupCopiedAt(a, i, w, '(', x, ')', st);
    case List(w, x) => WordGroupCopiedAt(a, i, w, '[', x, ']', st);
    case Quoted(w, x) => WordGroupCopiedAt(a, i, w, '\'', x, '\'', st);
  }

  /** The splitter started at a later position of a longer text is the splitter on the
      rest of the text. */
  lemma {:induction false} SplitShift(x: string, b: string, k: nat, st: Splitter)
    requires k <= |b|
    ensures SplitFrom(x + b, |x| + k, st) == SplitFrom(b, k, st)
    decreases |b| - k
  {
    var s := x + b;
    if k < |b| {
      assert s[|x| + k] == b[k];
      if b[k] == '\\' && k + 1 < |b| {
        assert s[|x| + k..|x| + k + 2] == b[k..k + 2];
        SplitShift(x, b, k + 2, st.(current := st.current + b[k..k + 2]));
      } else if b[k] == '\\' {
        SplitShift(x, b, k + 1, st.(current := st.current + [b[k]]));
      } else if b[k] == ',' && st.nesting.AtTopLevel() {
        SplitShift(x, b, k + 1, st.(pieces := st.pieces + [st.current], current := ""));
      } else {
        SplitShift(x, b, k + 1, st.(current := st.current + [b[k]], nesting := st.nesting.Track(b[k])));
      }
    }
  }

  /** A first piece of a simple shape, a comma, and the rest: the piece is cut off and
      the splitter goes on with the rest at top level. */
  lemma FirstPieceCut(p: string, sh: ArgShape, r: string, ps: seq<string>)
    requires sh.Valid() && p == sh.Text()
    ensures SplitFrom(p + "," + r, 0, Splitter(ps, "", TopLevel)) == SplitFrom(r, 0, Splitter(ps + [p], "", TopLevel))
  {
    var s := p + "," + r;
    var st := Splitter(ps, "", TopLevel);
    assert s[0..|p|] == p;
    ShapeCopiedAt(s, 0, sh, st);
    assert s[|p|] == ',';
    SplitCommaStep(s, |p|, st.(current := "" + p));
    assert "" + p == p;
    assert s == (p + ",") + r;
    SplitShift(p + ",", r, 0, Splitter(ps + [p], "", TopLevel));
  }

  /** A lone piece of a simple shape is read whole, and nothing is cut. */
  lemma LonePiece(p: string, sh: ArgShape, ps: seq<string>)
    requires sh.Valid() && p == sh.Text()
    ensures SplitFrom(p, 0, Splitter(ps, "", TopLevel)) == Splitter(ps, p, TopLevel)
  {
    var st := Splitter(ps, "", TopLevel);
    assert p[0..|p|] == p;
    ShapeCopiedAt(p, 0, sh, st);
    assert "" + p == p;
  }

  /** Pieces of simple shapes joined by commas: the splitter cuts at exactly those
      commas, and the last piece is the current one. */
  lemma {:induction false} SplitPieces(pieces: seq<string>, shapes: seq<ArgShape>, ps: seq<string>)
    requires |pieces| >= 1 && |shapes| == |pieces|
    requires forall k | 0 <= k < |pieces| :: shapes[k].Valid() && pieces[k] == shapes[k].Text()
    ensures SplitFrom(Join(pieces, ","), 0, Splitter(ps, "", TopLevel))
         == Splitter(ps + pieces[..|pieces| - 1], pieces[|pieces| - 1], TopLevel)
    decreases |pieces|
  {
    if |pieces| == 1 {
      LastPiece(pieces, shapes[0], ps);
    } else {
      SplitPieces(pieces[1..], shapes[1..], ps + [pieces[0]]);
      SplitCons(pieces, shapes[0], ps);
    }
  }

  /** The base case of the above: one piece. */
  lemma LastPiece(pieces: seq<string>, sh: ArgShape, ps: seq<string>)
    requires |pieces| == 1 && sh.Valid() && pieces[0] == sh.Text()
    ensures SplitFrom(Join(pieces, ","), 0, Splitter(ps, "", TopLevel))
         == Splitter(ps + pieces[..|pieces| - 1], pieces[|pieces| - 1], TopLevel)
  {
    assert Join(pieces, ",") == pieces[0];
    LonePiece(pieces[0], sh, ps);
    assert ps + pieces[..0] == ps;
  }

  /** One step of the above: a first piece of simple shape in front of pieces already
      read. */
  lemma SplitCons(pieces: seq<string>, sh: ArgShape, ps: seq<string>)
    requires |pieces| >= 2 && sh.Valid() && pieces[0] == sh.Text()
    requires var rest := pieces[1..];
      SplitFrom(Join(rest, ","), 0, Splitter(ps + [pieces[0]], "", TopLevel))
      == Splitter(ps + [pieces[0]] + rest[..|rest| - 1], rest[|rest| - 1], TopLevel)
    ensures SplitFrom(Join(pieces, ","), 0, Splitter(ps, "", TopLevel))
         == Splitter(ps + pieces[..|pieces| - 1], pieces[|pieces| - 1], TopLevel)
  {
    var p, rest := pieces[0], pieces[1..];
    var j := Join(rest, ",");
    assert Join(pieces, ",") == p + "," + j by {
      assert pieces == [p] + rest;
      JoinCons(p, rest, ",");
    }
    FirstPieceCut(p, sh, j, ps);
    ConsInit(ps, pieces);
  }

  /** Dropping the last element after the first is dropping the last. */
  lemma ConsInit<T>(ps: seq<T>, xs: seq<T>)
    requires |xs| >= 2
    ensures ps + [xs[0]] + xs[1..][..|xs| - 2] == ps + xs[..|xs| - 1]
    ensures xs[1..][|xs| - 2] == xs[|xs| - 1]
  {
    assert [xs[0]] + xs[1..][..|xs| - 2] == xs[..|xs| - 1];
  }

  /** The arguments after the first, each with the space that follows the comma. */
  function Spaced(args: seq<string>): (r: seq<string>)
    requires |args| >= 1
    ensures |r| == |args| && r[0] == args[0]
    ensures forall k | 1 <= k < |args| :: r[k] == " " + args[k]
  {
    [args[0]] + seq(|args| - 1, k requires 0 <= k < |args| - 1 => " " + args[k + 1])
  }

  /** Joining with ", " is joining the spaced arguments with ",". */
  lemma {:induction false} JoinSpaced(args: seq<string>)
    requires |args| >= 1
    ensures Join(args, ", ") == Join(Spaced(args), ",")
    decreases |args|
  {
    if |args| >= 2 {
      var init := args[..|args| - 1];
      JoinSpaced(init);
      assert Spaced(args)[..|args| - 1] == Spaced(init);
    }
  }

  /** A joined text begins with the first part's first character and ends with the last
      part's last character. */
  lemma {:induction false} JoinEnds(parts: seq<string>, sep: string)
    requires |parts| >= 1 && parts[0] != [] && parts[|parts| - 1] != []
    ensures var j := Join(parts, sep); j != [] && j[0] == parts[0][0] && j[|j| - 1] == parts[|parts| - 1][|parts[|parts| - 1]| - 1]
  {
    if |parts| >= 2 {
      assert parts == [parts[0]] + parts[1..];
      JoinCons(parts[0], parts[1..], sep);
      var last := parts[|parts| - 1];
      var j := Join(parts[..|parts| - 1], sep) + sep + last;
      assert Join(parts, sep) == j;
      assert j[|j| - 1] == last[|last| - 1];
    }
  }

  /** A text that is already trimmed, with or without one space before it. */
  lemma TrimmedText(s: string)
    requires s != [] && !IsSpace(s[0]) && !IsSpace(s[|s| - 1])
    ensures TrimSpace(s) == s && TrimSpace(" " + s) == s
  {
    assert (" " + s)[1..] == s;
  }

  /** An argument of a simple shape with no space at either end. */
  predicate SimpleArgument(arg: string, shape: ArgShape) {
    shape.Valid() && arg == shape.Text() && arg != [] && !IsSpace(arg[0]) && !IsSpace(arg[|arg| - 1])
  }

  /** The inside of `(` + `j` + `)` for a trimmed `j` is `j`. */
  lemma InnerOf(j: string)
    requires j != [] && !IsSpace(j[0]) && !IsSpace(j[|j| - 1])
    ensures Inner("(" + j + ")") == j
  {
    var s := "(" + j + ")";
    assert s[..1] == "(" && s[1..] == j + ")";
    assert TrimPrefix(s, "(") == j + ")";
    assert (j + ")")[|j|..] == ")" && (j + ")")[..|j|] == j;
    assert TrimSuffix(j + ")", ")") == j;
    TrimmedText(j);
  }

  /** The shapes of the spaced arguments: a space is one more plain character in front
      of the word. */
  lemma SpacedShapes(args: seq<string>, shapes: seq<ArgShape>) returns (spShapes: seq<ArgShape>)
    requires |args| >= 1 && |shapes| == |args|
    requires forall k | 0 <= k < |args| :: SimpleArgument(args[k], shapes[k])
    ensures |spShapes| == |args|
    ensures forall k | 0 <= k < |args| :: spShapes[k].Valid() && Spaced(args)[k] == spShapes[k].Text()
  {
    spShapes := seq(|args|, k requires 0 <= k < |args| => if k == 0 then shapes[0] else shapes[k].Prefixed(" "));
    forall k | 1 <= k < |args| ensures spShapes[k].Valid() && Spaced(args)[k] == spShapes[k].Text() {
      SpacedShape(shapes[k]);
    }
  }

  /** A space in front of a simple shape is one more plain character of its word. */
  lemma SpacedShape(shape: ArgShape)
    requires shape.Valid()
    ensures shape.Prefixed(" ").Valid() && shape.Prefixed(" ").Text() == " " + shape.Text()
  {
    var w := shape.w;
    assert forall i | 1 <= i < |w| + 1 :: (" " + w)[i] == w[i - 1];
    assert PlainText(" " + w);
  }

  /** The splitter is the inverse of writing the arguments out: arguments that are plain
      words, calls, lists or single-quoted strings, written as `(a, b, …)`, are read
      back as they were, the commas inside `(…)`, `[…]` and `'…'` staying part of their
      argument. */
  lemma ArgumentsJoin(args: seq<string>, shapes: seq<ArgShape>)
    requires |args| >= 1 && |shapes| == |args|
    requires forall k | 0 <= k < |args| :: SimpleArgument(args[k], shapes[k])
    ensures Arguments("(" + Join(args, ", ") + ")") == args
  {
    var j := Join(args, ", ");
    assert j != [] && Inner("(" + j + ")") == j by {
      assert SimpleArgument(args[0], shapes[0]) && SimpleArgument(args[|args| - 1], shapes[|args| - 1]);
      ArgumentsInner(args);
    }
    ArgumentsPieces(args, shapes);
    ArgumentsOfInner("(" + j + ")", args);
  }

  /** An argument span whose inside is not empty and splits into pieces that trim to
      `r`, the last piece not empty, has arguments `r`. */
  lemma ArgumentsOfInner(argsWithParens: string, r: seq<string>)
    requires Inner(argsWithParens) != []
    requires var st := SplitFrom(Inner(argsWithParens), 0, StartSplitter);
      st.current != [] && TrimAll(st.pieces + [st.current]) == r
    ensures Arguments(argsWithParens) == r
  {
  }

  /** Commas inside a call, a list or a quoted string do not split. */
  lemma ArgumentsExample()
    ensures Arguments("(f(a, b), [c, d], 'e,f')") == ["f(a, b)", "[c, d]", "'e,f'"]
  {
    var args := ["f(a, b)", "[c, d]", "'e,f'"];
    var shapes := [Call("f", "a, b"), List("", "c, d"), Quoted("", "e,f")];
    ExampleShapes(args, shapes);
    ArgumentsJoin(args, shapes);
    ExampleJoin(args);
  }

  /** The arguments of the example have simple shapes. */
  lemma ExampleShapes(args: seq<string>, shapes: seq<ArgShape>)
    requires args == ["f(a, b)", "[c, d]", "'e,f'"]
    requires shapes == [Call("f", "a, b"), List("", "c, d"), Quoted("", "e,f")]
    ensures |shapes| == |args| && forall k | 0 <= k < |args| :: SimpleArgument(args[k], shapes[k])
  {
    forall k | 0 <= k < |args| ensures SimpleArgument(args[k], shapes[k]) {
      if k == 0 {
        GroupExample("a, b", 'a', 'b');
      } else if k == 1 {
        GroupExample("c, d", 'c', 'd');
      }
    }
  }

  /** Two plain letters around `, ` make group text. */
  lemma GroupExample(x: string, c: char, d: char)
    requires x == [c, ',', ' ', d] && Plain(c) && Plain(d)
    ensures GroupText(x)
  {
  }

  /** The argument list of the example, written out. */
  lemma ExampleJoin(args: seq<string>)
    requires args == ["f(a, b)", "[c, d]", "'e,f'"]
    ensures "(" + Join(args, ", ") + ")" == "(f(a, b), [c, d], 'e,f')"
  {
    assert args[..2][..1] == ["f(a, b)"] && args[..2] == ["f(a, b)", "[c, d]"];
    assert Join(args[..2], ", ") == "f(a, b)" + ", " + "[c, d]";
    assert Join(args, ", ") == "f(a, b)" + ", " + "[c, d]" + ", " + "'e,f'";
  }

  /** The pieces the splitter cuts from the written-out arguments, trimmed, are the
      arguments, and the last piece is not empty. */
  lemma ArgumentsPieces(args: seq<string>, shapes: seq<ArgShape>)
    requires |args| >= 1 && |shapes| == |args|
    requires forall k | 0 <= k < |args| :: SimpleArgument(args[k], shapes[k])
    ensures var st := SplitFrom(Join(args, ", "), 0, StartSplitter);
      st.current != [] && TrimAll(st.pieces + [st.current]) == args
  {
    var sp := Spaced(args);
    assert sp[..|sp| - 1] + [sp[|sp| - 1]] == sp by {
      InitLast(sp);
    }
    ArgumentsSplit(args, shapes);
    ArgumentsTrim(args, shapes);
  }

  /** A non-empty sequence is its front followed by its last element. */
  lemma InitLast<T>(s: seq<T>)
    requires |s| >= 1
    ensures s[..|s| - 1] + [s[|s| - 1]] == s
  {
  }

  /** The written-out arguments are the inside of their parentheses when the first
      begins and the last ends with a character other than white space. */
  lemma ArgumentsInner(args: seq<string>)
    requires |args| >= 1 && args[0] != [] && args[|args| - 1] != []
    requires !IsSpace(args[0][0]) && !IsSpace(args[|args| - 1][|args[|args| - 1]| - 1])
    ensures Join(args, ", ") != [] && Inner("(" + Join(args, ", ") + ")") == Join(args, ", ")
  {
    JoinEnds(args, ", ");
    InnerOf(Join(args, ", "));
  }

  /** The splitter cuts the written-out arguments at the commas between them. */
  lemma ArgumentsSplit(args: seq<string>, shapes: seq<ArgShape>)
    requires |args| >= 1 && |shapes| == |args|
    requires forall k | 0 <= k < |args| :: SimpleArgument(args[k], shapes[k])
    ensures var sp := Spaced(args);
      SplitFrom(Join(args, ", "), 0, StartSplitter) == Splitter(sp[..|sp| - 1], sp[|sp| - 1], TopLevel)
  {
    JoinSpaced(args);
    var spShapes := SpacedShapes(args, shapes);
    SplitPieces(Spaced(args), spShapes, []);
  }

  /** Trimming the spaced arguments gives the arguments back. */
  lemma ArgumentsTrim(args: seq<string>, shapes: seq<ArgShape>)
    requires |args| >= 1 && |shapes| == |args|
    requires forall k | 0 <= k < |args| :: SimpleArgument(args[k], shapes[k])
    ensures Spaced(args)[|args| - 1] != [] && TrimAll(Spaced(args)) == args
  {
    var sp := Spaced(args);
    forall k | 0 <= k < |args| ensures TrimSpace(sp[k]) == args[k] {
      var arg := args[k];
      assert arg != [] && !IsSpace(arg[0]) && !IsSpace(arg[|arg| - 1]) by {
        assert SimpleArgument(arg, shapes[k]);
      }
      assert sp[k] == (if k == 0 then arg else " " + arg);
      TrimmedText(arg);
    }
    TrimAllEach(sp, args);
  }

  /** Trimming every piece gives `r` when trimming each piece gives its element of `r`. */
  lemma TrimAllEach(pieces: seq<string>, r: seq<string>)
    requires |pieces| == |r| && forall k | 0 <= k < |r| :: TrimSpace(pieces[k]) == r[k]
    ensures TrimAll(pieces) == r
  {
  }

  // ---------------------------------------------------------------------------------
  // Positional parameters (replaceParameters)
  // ---------------------------------------------------------------------------------

  const NoArgumentsError := "expression requires parameters but none were provided"
  const TooFewArgumentsError := "not enough arguments provided for parameters"

  /** The pattern `\$(\d+)` matches at position `k`. */
  predicate PlaceholderAt(s: string, k: int) {
    0 <= k && k + 1 < |s| && s[k] == '$' && IsDigit(s[k + 1])
  }

  /** The pattern `\$(\d+)` matches somewhere in `s`. */
  function HasPlaceholder(s: string): (b: bool)
    ensures b <==> exists k :: PlaceholderAt(s, k)
    decreases |s|
  {
    if |s| < 2 then false
    else if s[0] == '$' && IsDigit(s[1]) then
      assert PlaceholderAt(s, 0);
      true
    else if HasPlaceholder(s[1..]) then
      var k :| PlaceholderAt(s[1..], k);
      assert PlaceholderAt(s, k + 1);
      true
    else
      assert forall k | 1 <= k :: PlaceholderAt(s, k) ==> PlaceholderAt(s[1..], k - 1);
      false
  }

  /** The placeholder for argument `i`: `$` and the decimal digits of `i`. */
  function Placeholder(i: nat): (p: string)
    ensures |p| >= 2 && p[0] == '$' && IsDigit(p[1])
  {
    "$" + Itoa(i)
  }

  /** The body after the loop of replaceParameters over `args`: each `$i`, for i
      ascending, replaced everywhere by the i-th argument. */
  function Substituted(body: string, args: seq<string>): string
    decreases |args|
  {
    if args == [] then body
    else
      var i := |args| - 1;
      ReplaceAll(Substituted(body, args[..i]), Placeholder(i), args[i])
  }

  /** replaceParameters: the body with its placeholders replaced by the arguments. */
  function Substitution(body: string, args: seq<string>): (r: Result<string>)
    ensures r.Ok? ==> !HasPlaceholder(r.value)
    ensures r == Err(NoArgumentsError) <==> HasPlaceholder(body) && args == []
    ensures r.Err? ==> r.msg == NoArgumentsError || r.msg == TooFewArgumentsError
  {
    if HasPlaceholder(body) && |args| == 0 then Err(NoArgumentsError)
    else
      var t := Substituted(body, args);
      if HasPlaceholder(t) then Err(TooFewArgumentsError) else Ok(t)
  }

  /** replaceParameters, step by step. */
  method ReplaceParameters(expr: string, args: seq<string>) returns (r: Result<string>)
    ensures r == Substitution(expr, args)
  {
    var result := expr;
    if HasPlaceholder(expr) && |args| == 0 {
      return Err(NoArgumentsError);
    }
    for i := 0 to |args|
      invariant result == Substituted(expr, args[..i])
    {
      assert args[..i + 1][..i] == args[..i];
      result := ReplaceAll(result, Placeholder(i), args[i]);
    }
    assert args[..|args|] == args;
    if HasPlaceholder(result) {
      return Err(TooFewArgumentsError);
    }
    return Ok(result);
  }

  /** A string without placeholders contains no `$i`. */
  lemma NoPlaceholderNoSlot(s: string, i: nat)
    requires !HasPlaceholder(s)
    ensures !Contains(s, Placeholder(i))
  {
    var p := Placeholder(i);
    forall j | 0 <= j ensures !OccursAt(s, p, j) {
      if j + |p| <= |s| {
        assert s[j..j + |p|][0] == s[j] && s[j..j + |p|][1] == s[j + 1];
        assert !PlaceholderAt(s, j);
      }
    }
  }

  /** A body without placeholders is used as it is, whatever the arguments. */
  lemma {:induction false} PlaceholderFreeBody(body: string, args: seq<string>)
    requires !HasPlaceholder(body)
    ensures Substituted(body, args) == body
    ensures Substitution(body, args) == Ok(body)
    decreases |args|
  {
    if args != [] {
      var i := |args| - 1;
      PlaceholderFreeBody(body, args[..i]);
      NoPlaceholderNoSlot(body, i);
    }
  }

  // What the loop of replaceParameters does to a body made of literal text and
  // placeholders.

  /** A part of a parameterised body: literal text, or the placeholder `$index`. */
  datatype Piece = Literal(text: string) | Param(index: nat)

  /** A body written as pieces. */
  function Render(tpl: seq<Piece>): string
    decreases |tpl|
  {
    if tpl == [] then ""
    else (match tpl[0] case Literal(t) => t case Param(i) => Placeholder(i)) + Render(tpl[1..])
  }

  /** A piece once the first `n` arguments are in: a placeholder below `n` has become
      its argument, the others are still there. */
  function Chunk(piece: Piece, args: seq<string>, n: nat): string
    requires n <= |args|
  {
    match piece
    case Literal(t) => t
    case Param(i) => if i < n then args[i] else Placeholder(i)
  }

  /** The body once the first `n` arguments are in. */
  function Instantiated(tpl: seq<Piece>, args: seq<string>, n: nat): string
    requires n <= |args|
    decreases |tpl|
  {
    if tpl == [] then "" else Chunk(tpl[0], args, n) + Instantiated(tpl[1..], args, n)
  }

  /** Literal text without `$`, and placeholders of one digit. */
  predicate SimpleTemplate(tpl: seq<Piece>) {
    forall k | 0 <= k < |tpl| :: match tpl[k] case Literal(t) => '$' !in t case Param(i) => i < 10
  }

  /** Arguments without `$`. */
  predicate SimpleValues(args: seq<string>) {
    forall k | 0 <= k < |args| :: '$' !in args[k]
  }

  /** With no argument in, the body is as written. */
  lemma {:induction false} RenderUninstantiated(tpl: seq<Piece>, args: seq<string>)
    ensures Instantiated(tpl, args, 0) == Render(tpl)
    decreases |tpl|
  {
    if tpl != [] {
      RenderUninstantiated(tpl[1..], args);
    }
  }

  /** A placeholder of one digit other than `$n` passes through the replacement of `$n`. */
  lemma OtherPlaceholder(i: nat, n: nat, t: string, r: string)
    requires i < 10 && n < 10 && i != n
    ensures ReplaceAll(Placeholder(i) + t, Placeholder(n), r) == Placeholder(i) + ReplaceAll(t, Placeholder(n), r)
  {
    assert Placeholder(i) == ['$', DigitChar(i)] && Placeholder(n) == ['$', DigitChar(n)];
    DollarDigitPass(DigitChar(i), t, Placeholder(n), r);
  }

  /** `$` and a character other than the pattern's second one pass through the
      replacement of a two-character pattern. */
  lemma DollarDigitPass(d: char, t: string, pattern: string, r: string)
    requires |pattern| == 2 && pattern[0] == '$' && pattern[1] != d && d != '$'
    ensures ReplaceAll(['$', d] + t, pattern, r) == ['$', d] + ReplaceAll(t, pattern, r)
  {
    var u := ['$', d] + t;
    assert u[..2] != pattern by {
      assert u[..2][1] == d;
    }
    assert ReplaceAll(u, pattern, r) == [u[0]] + ReplaceAll(u[1..], pattern, r);
    assert u[1..] == [d] + t;
    ReplaceAllFreePrefix([d], t, pattern, r);
    var x := ReplaceAll(t, pattern, r);
    assert [u[0]] + ([d] + x) == ['$', d] + x;
  }

  /** One round of the loop puts the n-th argument in place of `$n`, and nothing else
      moves. */
  lemma {:induction false} InstantiateStep(tpl: seq<Piece>, args: seq<string>, n: nat)
    requires n < |args| && n < 10 && SimpleTemplate(tpl) && SimpleValues(args)
    ensures ReplaceAll(Instantiated(tpl, args, n), Placeholder(n), args[n]) == Instantiated(tpl, args, n + 1)
    decreases |tpl|
  {
    if tpl != [] {
      var p := Placeholder(n);
      var rest := Instantiated(tpl[1..], args, n);
      assert SimpleTemplate(tpl[1..]) by {
        assert forall k | 0 <= k < |tpl| - 1 :: tpl[1..][k] == tpl[k + 1];
      }
      InstantiateStep(tpl[1..], args, n);
      assert tpl[0] == tpl[..1][0];
      match tpl[0]
      case Literal(t) =>
        assert '$' !in t;
        ReplaceAllFreePrefix(t, rest, p, args[n]);
      case Param(i) =>
        if i < n {
          assert '$' !in args[i];
          ReplaceAllFreePrefix(args[i], rest, p, args[n]);
        } else if i == n {
          ReplaceAllHead(rest, p, args[n]);
        } else {
          OtherPlaceholder(i, n, rest, args[n]);
        }
    }
  }

  /** After the first `n` rounds of the loop, the first `n` arguments are in. */
  lemma {:induction false} SubstitutedTemplate(tpl: seq<Piece>, args: seq<string>, n: nat)
    requires n <= |args| && |args| <= 10 && SimpleTemplate(tpl) && SimpleValues(args)
    ensures Substituted(Render(tpl), args[..n]) == Instantiated(tpl, args, n)
    decreases n
  {
    if n == 0 {
      RenderUninstantiated(tpl, args);
    } else {
      assert args[..n][..n - 1] == args[..n - 1];
      SubstitutedTemplate(tpl, args, n - 1);
      InstantiateStep(tpl, args, n - 1);
    }
  }

  /** A body whose placeholders are all filled has no `$` left. */
  lemma {:induction false} FilledTemplate(tpl: seq<Piece>, args: seq<string>, n: nat)
    requires n <= |args| && SimpleTemplate(tpl) && SimpleValues(args)
    requires forall k | 0 <= k < |tpl| :: tpl[k].Param? ==> tpl[k].index < n
    ensures '$' !in Instantiated(tpl, args, n)
    decreases |tpl|
  {
    if tpl != [] {
      assert forall k | 0 <= k < |tpl| - 1 :: tpl[1..][k] == tpl[k + 1];
      FilledTemplate(tpl[1..], args, n);
      assert tpl[0] == tpl[..1][0];
      assert '$' !in Chunk(tpl[0], args, n);
    }
  }

  /** A body with a placeholder not yet filled still holds a placeholder. */
  lemma {:induction false} UnfilledTemplate(tpl: seq<Piece>, args: seq<string>, n: nat, k: nat)
    requires n <= |args| && k < |tpl| && tpl[k].Param? && tpl[k].index >= n
    ensures HasPlaceholder(Instantiated(tpl, args, n))
    decreases k
  {
    var c := Chunk(tpl[0], args, n);
    var rest := Instantiated(tpl[1..], args, n);
    if k == 0 {
      assert PlaceholderAt(c + rest, 0);
    } else {
      UnfilledTemplate(tpl[1..], args, n, k - 1);
      var j :| PlaceholderAt(rest, j);
      assert (c + rest)[|c| + j] == rest[j] && (c + rest)[|c| + j + 1] == rest[j + 1];
      assert PlaceholderAt(c + rest, |c| + j);
    }
  }

  /** A text without `$` has no placeholder. */
  lemma DollarFreeText(s: string)
    requires '$' !in s
    ensures !HasPlaceholder(s)
  {
    forall k: int | 0 <= k < |s| ensures s[k] != '$' {
      assert s[k] in s;
    }
  }

  /** replaceParameters on a body of literal text and placeholders `$0` … `$9`, given
      an argument for every placeholder: each `$i` becomes the i-th argument. */
  lemma SubstituteTemplate(tpl: seq<Piece>, args: seq<string>)
    requires |args| <= 10 && SimpleTemplate(tpl) && SimpleValues(args)
    requires forall k | 0 <= k < |tpl| :: tpl[k].Param? ==> tpl[k].index < |args|
    ensures Substitution(Render(tpl), args) == Ok(Instantiated(tpl, args, |args|))
  {
    assert args[..|args|] == args;
    SubstitutedTemplate(tpl, args, |args|);
    FilledTemplate(tpl, args, |args|);
    DollarFreeText(Instantiated(tpl, args, |args|));
    if args == [] {
      RenderUninstantiated(tpl, args);
    }
  }

  /** replaceParameters with a placeholder past the last argument: no argument at all is
      one error, too few is the other. */
  lemma MissingArgument(tpl: seq<Piece>, args: seq<string>, k: nat)
    requires |args| <= 10 && SimpleTemplate(tpl) && SimpleValues(args)
    requires k < |tpl| && tpl[k].Param? && tpl[k].index >= |args|
    ensures Substitution(Render(tpl), args) == Err(if args == [] then NoArgumentsError else TooFewArgumentsError)
  {
    assert args[..|args|] == args;
    SubstitutedTemplate(tpl, args, |args|);
    UnfilledTemplate(tpl, args, |args|, k);
    if args == [] {
      RenderUninstantiated(tpl, args);
    }
  }

  // ---------------------------------------------------------------------------------
  // Expansion (expandExpression)
  // ---------------------------------------------------------------------------------

  const UndefinedPrefix := "undefined reference in expression: "
  const CircularPrefix := "circular reference detected in expression: "
  const ReplaceFailurePrefix := "failed to replace parameters in "

  /** The text that replaces one reference, before it is put in parentheses. */
  function ReferenceBody(m: Match, table: map<string, string>): Result<string>
  {
    if m.name !in table then Err(UndefinedPrefix + m.fullMatch)
    else if m.args != "" then
      match Substitution(table[m.name], Arguments(m.args))
      case Err(e) => Err(ReplaceFailurePrefix + m.name + ": " + e)
      case Ok(t) => Ok(t)
    else Ok(table[m.name])
  }

  /** A missing name is an undefined reference; a reference without arguments stands for
      the named expression as it is; one with arguments for the named expression with all
      its placeholders replaced, or fails with the reason. */
  lemma ReferenceBodyCases(m: Match, table: map<string, string>)
    ensures m.name !in table ==> ReferenceBody(m, table) == Err(UndefinedPrefix + m.fullMatch)
    ensures m.name in table && m.args == "" ==> ReferenceBody(m, table) == Ok(table[m.name])
    ensures ReferenceBody(m, table).Ok? && m.args != "" ==> !HasPlaceholder(ReferenceBody(m, table).value)
    ensures ReferenceBody(m, table).Err? && m.name in table ==>
      m.args != "" &&
      (ReferenceBody(m, table).msg == ReplaceFailurePrefix + m.name + ": " + NoArgumentsError ||
       ReferenceBody(m, table).msg == ReplaceFailurePrefix + m.name + ": " + TooFewArgumentsError)
  {
  }

  /** One pass: each match in turn replaces the first occurrence of its text by its
      body in parentheses; the first failing match stops the pass. */
  function ApplyMatches(result: string, ms: seq<Match>, table: map<string, string>): Result<string>
    decreases |ms|
  {
    if ms == [] then Ok(result)
    else
      match ReferenceBody(ms[0], table)
      case Err(e) => Err(e)
      case Ok(t) => ApplyMatches(ReplaceFirst(result, ms[0].fullMatch, "(" + t + ")"), ms[1..], table)
  }

  /** The error texts the expansion of `expr` can end in. */
  predicate ExpansionError(expr: string, msg: string) {
    msg == CircularPrefix + expr || HasPrefix(msg, UndefinedPrefix) || HasPrefix(msg, ReplaceFailurePrefix)
  }

  /** A match whose body fails fails as undefined or as a failed replacement. */
  lemma ReferenceBodyError(m: Match, table: map<string, string>)
    ensures ReferenceBody(m, table).Err? ==>
      HasPrefix(ReferenceBody(m, table).msg, UndefinedPrefix) || HasPrefix(ReferenceBody(m, table).msg, ReplaceFailurePrefix)
  {
    if ReferenceBody(m, table).Err? {
      var e := ReferenceBody(m, table).msg;
      if m.name !in table {
        assert e == UndefinedPrefix + m.fullMatch;
      } else {
        assert e[..|ReplaceFailurePrefix|] == ReplaceFailurePrefix;
      }
    }
  }

  /** A pass that fails fails with a reference error. */
  lemma {:induction false} ApplyMatchesError(expr: string, result: string, ms: seq<Match>, table: map<string, string>)
    ensures ApplyMatches(result, ms, table).Err? ==> ExpansionError(expr, ApplyMatches(result, ms, table).msg)
    decreases |ms|
  {
    if ms != [] {
      ReferenceBodyError(ms[0], table);
      var b := ReferenceBody(ms[0], table);
      if b.Ok? {
        ApplyMatchesError(expr, ReplaceFirst(result, ms[0].fullMatch, "(" + b.value + ")"), ms[1..], table);
      }
    }
  }

  /** One pass of the expansion loop over `result`: the text it leaves, or the error
      that ends the expansion of `expr` (a failing match, no match at all, or a pass
      that changes nothing). */
  function Pass(expr: string, result: string, table: map<string, string>): Result<string> {
    var ms := References(result);
    match ApplyMatches(result, ms, table)
    case Err(e) => Err(e)
    case Ok(next) =>
      if ms == [] then Err(UndefinedPrefix + expr)
      else if next == result then Err(CircularPrefix + expr)
      else Ok(next)
  }

  /** A pass either changes the text or fails with one of the expansion errors. */
  lemma PassOutcome(expr: string, result: string, table: map<string, string>)
    ensures Pass(expr, result, table).Ok? ==> Pass(expr, result, table).value != result
    ensures Pass(expr, result, table).Err? ==> ExpansionError(expr, Pass(expr, result, table).msg)
  {
    ApplyMatchesError(expr, result, References(result), table);
  }

  /** The expansion loop from the text `result`, with `fuel` passes left: it runs
      while `${` is left. */
  function ExpandFrom(expr: string, result: string, table: map<string, string>, fuel: nat): Result<string>
    decreases fuel, 2
  {
    if !Contains(result, "${") then Ok(result) else Iteration(expr, result, table, fuel)
  }

  /** One iteration of the loop on a text that still holds `${`: it fails as circular
      once the passes are used up. */
  function Iteration(expr: string, result: string, table: map<string, string>, fuel: nat): Result<string>
    decreases fuel, 1
  {
    if fuel == 0 then Err(CircularPrefix + expr) else AfterPass(expr, result, table, fuel)
  }

  /** One pass over `result`, then the rest of the loop on the text it leaves. */
  function AfterPass(expr: string, result: string, table: map<string, string>, fuel: nat): Result<string>
    requires fuel > 0
    decreases fuel, 0
  {
    match Pass(expr, result, table)
    case Err(e) => Err(e)
    case Ok(next) => ExpandFrom(expr, next, table, fuel - 1)
  }

  /** The loop ends with a text free of `${`, returned as it is when it had none to
      begin with, or with one of the expansion errors. */
  lemma {:induction false} ExpandFromOutcome(expr: string, result: string, table: map<string, string>, fuel: nat)
    ensures ExpandFrom(expr, result, table, fuel).Ok? ==> !Contains(ExpandFrom(expr, result, table, fuel).value, "${")
    ensures !Contains(result, "${") ==> ExpandFrom(expr, result, table, fuel) == Ok(result)
    ensures ExpandFrom(expr, result, table, fuel).Err? ==> ExpansionError(expr, ExpandFrom(expr, result, table, fuel).msg)
    decreases fuel
  {
    if Contains(result, "${") && fuel > 0 {
      var next := PassStep(expr, result, table, fuel);
      if next.Some? {
        ExpandFromOutcome(expr, next.value, table, fuel - 1);
      }
    }
  }

  /** A pass of the loop either ends it with one of the expansion errors, or hands it the
      text to go on from. */
  lemma PassStep(expr: string, result: string, table: map<string, string>, fuel: nat) returns (next: Option<string>)
    requires Contains(result, "${") && fuel > 0
    ensures next.None? ==>
      ExpandFrom(expr, result, table, fuel).Err? && ExpansionError(expr, ExpandFrom(expr, result, table, fuel).msg)
    ensures next.Some? ==> ExpandFrom(expr, result, table, fuel) == ExpandFrom(expr, next.value, table, fuel - 1)
  {
    PassOutcome(expr, result, table);
    ExpandStep(expr, result, table, fuel);
    next := if Pass(expr, result, table).Ok? then Some(Pass(expr, result, table).value) else None;
  }

  /** While `${` is left and passes remain, the expansion is the outcome of one pass
      followed by the expansion of the text it leaves. */
  lemma ExpandStep(expr: string, result: string, table: map<string, string>, fuel: nat)
    requires Contains(result, "${") && fuel > 0
    ensures Pass(expr, result, table).Err? ==> ExpandFrom(expr, result, table, fuel) == Pass(expr, result, table)
    ensures Pass(expr, result, table).Ok? ==>
      ExpandFrom(expr, result, table, fuel) == ExpandFrom(expr, Pass(expr, result, table).value, table, fuel - 1)
  {
    assert ExpandFrom(expr, result, table, fuel) == AfterPass(expr, result, table, fuel);
  }

  /** expandExpression: at most one pass more than there are named expressions. */
  function Expansion(expr: string, table: map<string, string>): Result<string> {
    ExpandFrom(expr, expr, table, |table| + 1)
  }

  /** An expansion leaves no `${`, leaves text without references alone, and fails only
      with an undefined or circular reference or a parameter failure. */
  lemma ExpansionOutcome(expr: string, table: map<string, string>)
    ensures Expansion(expr, table).Ok? ==> !Contains(Expansion(expr, table).value, "${")
    ensures !Contains(expr, "${") ==> Expansion(expr, table) == Ok(expr)
    ensures Expansion(expr, table).Err? ==> ExpansionError(expr, Expansion(expr, table).msg)
  {
    ExpandFromOutcome(expr, expr, table, |table| + 1);
  }

  /** The scan passes over text without `$`. */
  lemma {:induction false} ScanSkip(s: string, i: nat, j: nat)
    requires i <= j <= |s|
    requires forall k | i <= k < j :: s[k] != '$'
    ensures ScanFrom(s, i) == ScanFrom(s, j)
    decreases j - i
  {
    if i < j {
      ScanSkip(s, i + 1, j);
    }
  }

  /** The same, for a slice without `$`. */
  lemma ScanSkipSlice(s: string, i: nat, j: nat)
    requires i <= j <= |s| && '$' !in s[i..j]
    ensures ScanFrom(s, i) == ScanFrom(s, j)
  {
    forall k | i <= k < j ensures s[k] != '$' {
      assert s[k] == s[i..j][k - i];
      assert s[i..j][k - i] in s[i..j];
    }
    ScanSkip(s, i, j);
  }

  /** The name run ends at the first character that is not a name character. */
  lemma {:induction false} NameEndAt(s: string, i: nat, p: nat)
    requires i <= p < |s| && !IsNameChar(s[p])
    requires forall k | i <= k < p :: IsNameChar(s[k])
    ensures NameEnd(s, i) == p
    decreases p - i
  {
    if i < p {
      NameEndAt(s, i + 1, p);
    }
  }

  /** At a `${` whose name runs up to a `}` at `p`, the reader records the reference
      without arguments and resumes after the `}`. */
  lemma ReadClosed(s: string, i: nat, p: nat)
    requires OpensAt(s, i) && i + 2 <= p < |s| && s[p] == '}'
    requires forall k | i + 2 <= k < p :: IsNameChar(s[k])
    ensures ReferenceAt(s, i) == (p + 1, Some(Match(s[i..p + 1], s[i + 2..p], "", i)))
  {
    NameEndAt(s, i + 2, p);
    assert ArgsEnd(s, p) == p;
    assert s[p..p] == "";
  }

  /** The reader at a `${n}` reference records it whole, and scanning resumes after it. */
  lemma ReadLone(left: string, n: string, right: string)
    requires IsName(n)
    ensures OpensAt(left + "${" + n + "}" + right, |left|)
    ensures ReferenceAt(left + "${" + n + "}" + right, |left|)
         == (|left| + 3 + |n|, Some(Match("${" + n + "}", n, "", |left|)))
  {
    var s := left + "${" + n + "}" + right;
    var i := |left|;
    var p := i + 2 + |n|;
    assert s[i] == '$' && s[i + 1] == '{' && s[p] == '}';
    assert forall k | i + 2 <= k < p :: s[k] == n[k - i - 2];
    assert s[i..p + 1] == "${" + n + "}" && s[i + 2..p] == n;
    ReadClosed(s, i, p);
  }

  /** A reference `${n}` between two texts without `$` is the only one found. */
  lemma LoneReference(left: string, n: string, right: string)
    requires '$' !in left && '$' !in right && IsName(n)
    ensures References(left + "${" + n + "}" + right) == [Match("${" + n + "}", n, "", |left|)]
  {
    var s := left + "${" + n + "}" + right;
    var i := |left|;
    var p := i + 2 + |n|;
    assert forall k | 0 <= k < i :: s[k] == left[k];
    ScanSkip(s, 0, i);
    ReadLone(left, n, right);
    assert forall k | p + 1 <= k < |s| :: s[k] == right[k - p - 1];
    ScanSkip(s, p + 1, |s|);
    assert ScanFrom(s, i) == [Match("${" + n + "}", n, "", i)] + ScanFrom(s, p + 1);
  }

  /** One pass over a lone reference to a defined name without arguments puts the
      entry's body, untouched and in parentheses, in its place. */
  lemma LoneReferencePass(expr: string, left: string, n: string, right: string, table: map<string, string>)
    requires '$' !in left && '$' !in right && IsName(n) && n in table
    ensures Pass(expr, left + "${" + n + "}" + right, table) == Ok(left + "(" + table[n] + ")" + right)
  {
    var m := "${" + n + "}";
    var s := left + "${" + n + "}" + right;
    var t := left + "(" + table[n] + ")" + right;
    assert s == left + m + right;
    LoneReference(left, n, right);
    assert OccursAt(s, m, |left|);
    forall j | 0 <= j < |left| ensures !OccursAt(s, m, j) {
      assert s[j] == left[j];
    }
    assert Index(s, m) == |left|;
    assert s[..|left|] == left && s[|left| + |m|..] == right;
    assert ReplaceFirst(s, m, "(" + table[n] + ")") == t;
    var ms := [Match(m, n, "", |left|)];
    assert ReferenceBody(ms[0], table) == Ok(table[n]);
    assert ApplyMatches(t, ms[1..], table) == Ok(t);
    assert ApplyMatches(s, ms, table) == Ok(t);
    assert s[|left|] != t[|left|];
  }

  /** `${` cannot occur across the parentheses around a text free of it. */
  lemma NoOpenAround(left: string, body: string, right: string)
    requires '$' !in left && '$' !in right && !Contains(body, "${")
    ensures !Contains(left + "(" + body + ")" + right, "${")
  {
    var w := left + "(" + body + ")" + right;
    var b := |left| + 1;
    forall j | 0 <= j ensures !OccursAt(w, "${", j) {
      if j + 2 <= |w| {
        assert w[j..j + 2][0] == w[j] && w[j..j + 2][1] == w[j + 1];
        if j < |left| {
          assert w[j] == left[j];
        } else if j == |left| {
          assert w[j] == '(';
        } else if j + 1 < b + |body| {
          assert w[j..j + 2] == body[j - b..j - b + 2];
          assert !OccursAt(body, "${", j - b);
        } else if j + 1 == b + |body| {
          assert w[j + 1] == ')';
        } else if j == b + |body| {
          assert w[j] == ')';
        } else {
          assert w[j] == right[j - b - |body| - 1];
        }
      }
    }
  }

  /** The pass over a lone reference, at the level of the loop: with a pass to spend,
      the loop goes on from the text with the body in place of the reference. */
  lemma LoneReferenceStep(expr: string, left: string, n: string, right: string, table: map<string, string>, fuel: nat)
    requires '$' !in left && '$' !in right && IsName(n) && n in table && fuel > 0
    ensures ExpandFrom(expr, left + "${" + n + "}" + right, table, fuel)
         == ExpandFrom(expr, left + "(" + table[n] + ")" + right, table, fuel - 1)
  {
    var s := left + "${" + n + "}" + right;
    assert s[|left|..|left| + 2] == "${";
    assert OccursAt(s, "${", |left|);
    LoneReferencePass(expr, left, n, right, table);
    ExpandStep(expr, s, table, fuel);
  }

  /** A bare reference to a defined name whose body has no `${` expands to that body in
      parentheses: its placeholders `$0`, `$1`, ... are left as they are. */
  lemma BareReference(left: string, n: string, right: string, table: map<string, string>)
    requires '$' !in left && '$' !in right && IsName(n) && n in table && !Contains(table[n], "${")
    ensures Expansion(left + "${" + n + "}" + right, table) == Ok(left + "(" + table[n] + ")" + right)
  {
    var s := left + "${" + n + "}" + right;
    LoneReferenceStep(s, left, n, right, table, |table| + 1);
    NoOpenAround(left, table[n], right);
  }

  /** A ring of names: each is defined as a bare reference to the next, and the last as
      a reference to the first. */
  predicate Ring(ns: seq<string>, table: map<string, string>) {
    |ns| >= 1 && forall j | 0 <= j < |ns| ::
      IsName(ns[j]) && ns[j] in table && table[ns[j]] == "${" + ns[(j + 1) % |ns|] + "}"
  }

  /** A reference to a name of a ring, alone in a text `s` with no other `$`, keeps a
      reference alive through every pass, whatever the budget. */
  lemma {:induction false} CycleFrom(expr: string, s: string, left: string, ns: seq<string>, i: nat, right: string,
                                     table: map<string, string>, fuel: nat)
    requires '$' !in left && '$' !in right && Ring(ns, table) && i < |ns|
    requires s == left + "${" + ns[i] + "}" + right
    ensures ExpandFrom(expr, s, table, fuel) == Err(CircularPrefix + expr)
    decreases fuel
  {
    var k := (i + 1) % |ns|;
    RingNext(ns, table, i);
    if fuel > 0 {
      CycleStep(expr, left, ns[i], ns[k], right, table, fuel);
      CycleFrom(expr, (left + "(") + "${" + ns[k] + "}" + (")" + right), left + "(", ns, k, ")" + right, table, fuel - 1);
    } else {
      BudgetSpent(expr, left, ns[i], right, table);
    }
  }

  /** With no pass left, a text holding `${` fails as circular. */
  lemma BudgetSpent(expr: string, left: string, a: string, right: string, table: map<string, string>)
    ensures ExpandFrom(expr, left + "${" + a + "}" + right, table, 0) == Err(CircularPrefix + expr)
  {
    var s := left + "${" + a + "}" + right;
    assert s[|left|..|left| + 2] == "${";
    assert OccursAt(s, "${", |left|);
  }

  /** The `i`-th name of a ring is defined as a reference to the next one. */
  lemma RingNext(ns: seq<string>, table: map<string, string>, i: nat)
    requires Ring(ns, table) && i < |ns|
    ensures (i + 1) % |ns| < |ns| && IsName(ns[i]) && IsName(ns[(i + 1) % |ns|])
    ensures ns[i] in table && table[ns[i]] == "${" + ns[(i + 1) % |ns|] + "}"
  {
    assert (i + 1) % |ns| < |ns|;
  }

  /** A pass over a lone reference to `a`, defined as a reference to `b`, leaves a lone
      reference to `b`. */
  lemma CycleStep(expr: string, left: string, a: string, b: string, right: string, table: map<string, string>, fuel: nat)
    requires '$' !in left && '$' !in right && IsName(a) && IsName(b) && fuel > 0
    requires a in table && table[a] == "${" + b + "}"
    ensures ExpandFrom(expr, left + "${" + a + "}" + right, table, fuel)
         == ExpandFrom(expr, (left + "(") + "${" + b + "}" + (")" + right), table, fuel - 1)
  {
    var s := left + "${" + a + "}" + right;
    assert s[|left|..|left| + 2] == "${";
    assert OccursAt(s, "${", |left|);
    LoneReferenceStep(expr, left, a, right, table, fuel);
    assert left + "(" + table[a] + ")" + right == (left + "(") + "${" + b + "}" + (")" + right);
  }

  /** A direct or indirect cycle (a ring of any length, one name referring to itself
      included) fails as a circular reference naming the expression. */
  lemma Cycle(ns: seq<string>, table: map<string, string>)
    requires Ring(ns, table)
    ensures Expansion("${" + ns[0] + "}", table) == Err(CircularPrefix + "${" + ns[0] + "}")
  {
    RingExpansion("${" + ns[0] + "}", ns, table);
  }

  /** `Cycle` for a text `e` given as a parameter, so that its shape stays folded. */
  lemma RingExpansion(e: string, ns: seq<string>, table: map<string, string>)
    requires Ring(ns, table) && e == "${" + ns[0] + "}"
    ensures Expansion(e, table) == Err(CircularPrefix + e)
  {
    assert e == "" + "${" + ns[0] + "}" + "";
    CycleFrom(e, e, "", ns, 0, "", table, |table| + 1);
  }

  /** The direct cycle of the expansion examples: `a` referring to itself. */
  lemma SelfCycleExample()
    ensures Expansion("${a}", map["a" := "${a}"]) == Err(CircularPrefix + "${a}")
  {
    assert Ring(["a"], map["a" := "${a}"]) by {
      assert IsName("a");
    }
    Cycle(["a"], map["a" := "${a}"]);
  }

  /** The indirect cycle of the expansion examples: `a` to `b` to `c` and back to `a`. */
  lemma ThreeCycleExample()
    ensures Expansion("${a}", map["a" := "${b}", "b" := "${c}", "c" := "${a}"]) == Err(CircularPrefix + "${a}")
  {
    var ns, table := ["a", "b", "c"], map["a" := "${b}", "b" := "${c}", "c" := "${a}"];
    forall j | 0 <= j < |ns| ensures IsName(ns[j]) && ns[j] in table && table[ns[j]] == "${" + ns[(j + 1) % |ns|] + "}" {
      assert IsName("a") && IsName("b") && IsName("c");
      if j == 0 {
        assert table["a"] == "${" + "b" + "}";
      } else if j == 1 {
        assert table["b"] == "${" + "c" + "}";
      } else {
        assert table["c"] == "${" + "a" + "}";
      }
    }
    Cycle(ns, table);
  }

  /** A text with `${` but no complete reference (an unclosed `${`, say) fails on the
      first pass with the undefined-reference error naming the whole expression. */
  lemma NoMatchUndefined(expr: string, table: map<string, string>)
    requires Contains(expr, "${") && References(expr) == []
    ensures Expansion(expr, table) == Err(UndefinedPrefix + expr)
  {
    ExpandStep(expr, expr, table, |table| + 1);
  }

  /** A first reference to a name missing from the table fails with the undefined-reference
      error naming that reference. */
  lemma MissingNameUndefined(expr: string, table: map<string, string>)
    requires References(expr) != [] && References(expr)[0].name !in table
    ensures Expansion(expr, table) == Err(UndefinedPrefix + References(expr)[0].fullMatch)
  {
    NoOpenNoReferences(expr);
    ExpandStep(expr, expr, table, |table| + 1);
  }

  /** A reference with arguments: `${n(j)}`. */
  function ParamRef(n: string, j: string): string {
    "${" + n + "(" + j + ")}"
  }

  /** The depth-counting scan passes over text without parentheses. */
  lemma {:induction false} CloseSkip(s: string, i: nat, j: nat, depth: int)
    requires i <= j <= |s|
    requires forall k | i <= k < j :: s[k] != '(' && s[k] != ')'
    ensures CloseFrom(s, i, depth) == CloseFrom(s, j, depth)
    decreases j - i
  {
    if i < j {
      CloseSkip(s, i + 1, j, depth);
    }
  }

  /** The name run from `i` ends at `p` when the text between is a name and the
      character at `p` is not a name character. */
  lemma NameEndSlice(s: string, i: nat, p: nat)
    requires i <= p < |s| && IsName(s[i..p]) && !IsNameChar(s[p])
    ensures NameEnd(s, i) == p
  {
    assert forall k | i <= k < p :: s[k] == s[i..p][k - i];
    NameEndAt(s, i, p);
  }

  /** The depth-counting scan passes over a slice without parentheses. */
  lemma CloseSkipSlice(s: string, i: nat, j: nat, depth: int)
    requires i <= j <= |s| && '(' !in s[i..j] && ')' !in s[i..j]
    ensures CloseFrom(s, i, depth) == CloseFrom(s, j, depth)
  {
    forall k | i <= k < j ensures s[k] != '(' && s[k] != ')' {
      assert s[k] == s[i..j][k - i];
      assert s[i..j][k - i] in s[i..j];
    }
    CloseSkip(s, i, j, depth);
  }

  /** Where the parts of `${n(j)}` lie in the text around it. */
  lemma ParamLayout(left: string, n: string, j: string, right: string)
    ensures var s := left + ParamRef(n, j) + right;
      var i := |left|;
      var p := i + 2 + |n|;
      var e := p + |j| + 2;
      e < |s| && e + 1 == i + |ParamRef(n, j)| && s[i] == '$' && s[i + 1] == '{' && s[p] == '(' && s[e - 1] == ')' && s[e] == '}'
      && s[i..e + 1] == ParamRef(n, j) && s[i + 2..p] == n && s[p..e] == "(" + j + ")" && s[p + 1..e - 1] == j
      && s[..i] == left && s[e + 1..] == right
  {
    var s := left + ParamRef(n, j) + right;
    var i := |left|;
    var p := i + 2 + |n|;
    var e := p + |j| + 2;
    assert s == left + "${" + n + "(" + j + ")}" + right;
    assert s[i..e + 1] == ParamRef(n, j);
    assert s[i + 2..p] == n;
    assert s[p..e] == "(" + j + ")";
    assert s[p + 1..e - 1] == j;
  }

  /** The reader at a `${` whose name ends at `p`, followed by a parenthesised span
      whose `)` at `e - 1` is the one the depth count stops at and a `}`, records the
      reference with its arguments and resumes after the `}`. */
  lemma ReadParamAt(s: string, i: nat, p: nat, e: nat, m: Match)
    requires i + 2 <= p && p + 2 <= e < |s| && s[i] == '$' && s[i + 1] == '{' && s[e] == '}'
    requires NameEnd(s, i + 2) == p && ArgsEnd(s, p) == e
    requires m == Match(s[i..e + 1], s[i + 2..p], s[p..e], i)
    ensures ReferenceAt(s, i) == (e + 1, Some(m))
  {
  }

  /** The argument span opened at `p` closes at the `)` at `e - 1` when the depth count
      from inside the span first stops there. */
  lemma ArgsEndAt(s: string, p: nat, e: nat)
    requires p + 2 <= e <= |s| && s[p] == '(' && s[e - 1] == ')'
    requires CloseFrom(s, p + 1, 1) == CloseFrom(s, e - 1, 1)
    ensures ArgsEnd(s, p) == e
  {
    assert CloseFrom(s, p, 0) == CloseFrom(s, p + 1, 1);
    assert CloseFrom(s, e - 1, 1) == Some(e);
  }

  /** A reference `${n(j)}`, with arguments free of parentheses, between two texts
      without `$` is the only one found. */
  lemma ParamReferences(left: string, n: string, j: string, right: string)
    requires '$' !in left && '$' !in right && IsName(n) && '(' !in j && ')' !in j
    ensures References(left + ParamRef(n, j) + right) == [Match(ParamRef(n, j), n, "(" + j + ")", |left|)]
  {
    ParamLayout(left, n, j, right);
    ReferenceBetween(left + ParamRef(n, j) + right, |left|, n, j);
  }

  /** The same, on a text `s` that holds `${n(j)}` at position `i`. */
  lemma ReferenceBetween(s: string, i: nat, n: string, j: string)
    requires IsName(n) && '(' !in j && ')' !in j
    requires var p := i + 2 + |n|; var e := p + |j| + 2;
      e < |s| && e + 1 == i + |ParamRef(n, j)| && s[i] == '$' && s[i + 1] == '{' && s[p] == '(' && s[e - 1] == ')' && s[e] == '}'
      && s[i..e + 1] == ParamRef(n, j) && s[i + 2..p] == n && s[p..e] == "(" + j + ")" && s[p + 1..e - 1] == j
      && '$' !in s[..i] && '$' !in s[e + 1..]
    ensures References(s) == [Match(ParamRef(n, j), n, "(" + j + ")", i)]
  {
    var mt := Match(ParamRef(n, j), n, "(" + j + ")", i);
    ParamReadAt(s, i, n, j);
    ScanAround(s, i, i + 3 + |n| + |j| + 1, mt);
  }

  /** The reference read at `i` of a text holding `${n(j)}` there. */
  lemma ParamReadAt(s: string, i: nat, n: string, j: string)
    requires IsName(n) && '(' !in j && ')' !in j
    requires var p := i + 2 + |n|; var e := p + |j| + 2;
      e < |s| && e + 1 == i + |ParamRef(n, j)| && s[i] == '$' && s[i + 1] == '{' && s[p] == '(' && s[e - 1] == ')' && s[e] == '}'
      && s[i..e + 1] == ParamRef(n, j) && s[i + 2..p] == n && s[p..e] == "(" + j + ")" && s[p + 1..e - 1] == j
    ensures ReferenceAt(s, i) == (i + |n| + |j| + 5, Some(Match(ParamRef(n, j), n, "(" + j + ")", i)))
  {
    var p := i + 2 + |n|;
    var e := p + |j| + 2;
    NameEndSlice(s, i + 2, p);
    CloseSkipSlice(s, p + 1, e - 1, 1);
    ArgsEndAt(s, p, e);
    ReadParamAt(s, i, p, e, Match(ParamRef(n, j), n, "(" + j + ")", i));
  }

  /** A reference at `i`, read up to `e`, with no `$` before or after it, is the only one
      the scan records. */
  lemma ScanAround(s: string, i: nat, e: nat, m: Match)
    requires i < e < |s| && s[i] == '$' && s[i + 1] == '{' && '$' !in s[..i] && '$' !in s[e + 1..]
    requires ReferenceAt(s, i) == (e + 1, Some(m))
    ensures References(s) == [m]
  {
    assert s[0..i] == s[..i] && s[e + 1..|s|] == s[e + 1..];
    ScanSkipSlice(s, 0, i);
    ScanSkipSlice(s, e + 1, |s|);
    ScanOne(s, i, e, m);
  }

  /** A scan that opens a reference at `i` and finds nothing after it records just that
      reference. */
  lemma ScanOne(s: string, i: nat, e: nat, m: Match)
    requires i < e < |s| && s[i] == '$' && s[i + 1] == '{'
    requires ReferenceAt(s, i) == (e + 1, Some(m)) && ScanFrom(s, e + 1) == []
    ensures ScanFrom(s, i) == [m]
  {
    assert OpensAt(s, i);
  }

  /** The first occurrence of a text starting with `$` after a prefix without `$` is
      right after the prefix, and replacing it puts the replacement there. */
  lemma ReplaceAfterFree(left: string, m: string, right: string, t: string)
    requires '$' !in left && m != [] && m[0] == '$'
    ensures ReplaceFirst(left + m + right, m, t) == left + t + right
  {
    var s := left + m + right;
    assert s[|left|..|left| + |m|] == m;
    assert OccursAt(s, m, |left|);
    forall k | 0 <= k < |left| ensures !OccursAt(s, m, k) {
      assert s[k] == left[k];
      assert left[k] in left;
      if k + |m| <= |s| {
        assert s[k..k + |m|][0] == s[k];
      }
    }
    assert Index(s, m) == |left|;
    assert s[..|left|] == left && s[|left| + |m|..] == right;
  }

  /** One pass over a text whose only reference `m`, after a prefix without `$`, stands
      for `b`: the reference is replaced by `b` in parentheses. */
  lemma OnlyReferencePass(expr: string, left: string, m: string, right: string, mt: Match,
                          table: map<string, string>, b: string)
    requires '$' !in left && m != [] && m[0] == '$'
    requires References(left + m + right) == [mt] && mt.fullMatch == m && ReferenceBody(mt, table) == Ok(b)
    ensures Pass(expr, left + m + right, table) == Ok(left + "(" + b + ")" + right)
  {
    var s := left + m + right;
    var next := left + "(" + b + ")" + right;
    ReplaceAfterFree(left, m, right, "(" + b + ")");
    Parenthesized(left, b, right);
    assert ApplyMatches(next, [mt][1..], table) == Ok(next);
    assert ApplyMatches(s, [mt], table) == Ok(next);
    assert s[|left|] != next[|left|];
  }

  /** A body in parentheses between two texts, however grouped. */
  lemma Parenthesized(left: string, b: string, right: string)
    ensures left + ("(" + b + ")") + right == left + "(" + b + ")" + right
  {
  }

  /** The expansion of a text whose only reference, `${n(j)}` between two texts without
      `$`, stands for a body `b` without `$`: that body in parentheses. */
  lemma ParamExpansion(left: string, n: string, j: string, right: string, table: map<string, string>, b: string)
    requires '$' !in left && '$' !in right && IsName(n) && '(' !in j && ')' !in j && '$' !in b
    requires ReferenceBody(Match(ParamRef(n, j), n, "(" + j + ")", |left|), table) == Ok(b)
    ensures Expansion(left + ParamRef(n, j) + right, table) == Ok(left + "(" + b + ")" + right)
  {
    var s := left + ParamRef(n, j) + right;
    ParamReferences(left, n, j, right);
    OnlyReferencePass(s, left, ParamRef(n, j), right, Match(ParamRef(n, j), n, "(" + j + ")", |left|), table, b);
    ParamOpens(left, n, j, right);
    ExpandStep(s, s, table, |table| + 1);
    DollarFreeNoOpen(b);
    NoOpenAround(left, b, right);
  }

  /** A text holding `${n(j)}` contains `${`. */
  lemma ParamOpens(left: string, n: string, j: string, right: string)
    ensures Contains(left + ParamRef(n, j) + right, "${")
  {
    var s := left + ParamRef(n, j) + right;
    assert s == left + ("${" + n + "(" + j + ")}" + right);
    assert s[|left|..|left| + 2] == "${";
    assert OccursAt(s, "${", |left|);
  }

  /** A text without `$` contains no `${`. */
  lemma DollarFreeNoOpen(b: string)
    requires '$' !in b
    ensures !Contains(b, "${")
  {
    forall k | 0 <= k ensures !OccursAt(b, "${", k) {
      if k + 2 <= |b| {
        assert b[k..k + 2][0] == b[k];
        assert b[k] in b;
      }
    }
  }

  /** A defined reference with arguments stands for the named body with the arguments
      substituted. */
  lemma ParamBody(m: Match, table: map<string, string>, args: seq<string>, b: string)
    requires m.name in table && m.args != "" && Arguments(m.args) == args
    requires Substitution(table[m.name], args) == Ok(b)
    ensures ReferenceBody(m, table) == Ok(b)
  {
  }

  /** Arguments without parentheses, written out, have none. */
  lemma ParenFreeJoin(args: seq<string>)
    requires forall k | 0 <= k < |args| :: '(' !in args[k] && ')' !in args[k]
    ensures '(' !in Join(args, ", ") && ')' !in Join(args, ", ")
  {
    JoinAbsent(args, ", ", '(');
    JoinAbsent(args, ", ", ')');
  }

  /** A reference `${n(a, b, …)}` to a named expression of literal text and placeholders
      `$0` … `$9`, with an argument for each of them, expands to that expression with
      each `$i` replaced by the i-th argument, in parentheses. */
  lemma ParamReference(left: string, n: string, args: seq<string>, shapes: seq<ArgShape>, right: string,
                       table: map<string, string>, tpl: seq<Piece>)
    requires '$' !in left && '$' !in right && IsName(n) && n in table && table[n] == Render(tpl)
    requires 1 <= |args| <= 10 && |shapes| == |args| && SimpleTemplate(tpl) && SimpleValues(args)
    requires forall k | 0 <= k < |args| :: SimpleArgument(args[k], shapes[k])
    requires forall k | 0 <= k < |args| :: '(' !in args[k] && ')' !in args[k]
    requires forall k | 0 <= k < |tpl| :: tpl[k].Param? ==> tpl[k].index < |args|
    ensures Expansion(left + ParamRef(n, Join(args, ", ")) + right, table)
         == Ok(left + "(" + Instantiated(tpl, args, |args|) + ")" + right)
  {
    var j := Join(args, ", ");
    var b := Instantiated(tpl, args, |args|);
    assert '(' !in j && ')' !in j by {
      ParenFreeJoin(args);
    }
    assert Arguments("(" + j + ")") == args by {
      ArgumentsJoin(args, shapes);
    }
    assert Substitution(table[n], args) == Ok(b) by {
      SubstituteTemplate(tpl, args);
    }
    assert '$' !in b by {
      FilledTemplate(tpl, args, |args|);
    }
    ParamBody(Match(ParamRef(n, j), n, "(" + j + ")", |left|), table, args, b);
    ParamExpansion(left, n, j, right, table, b);
  }

  /** expandExpression, step by step: the pass loop. */
  method ExpandExpression(expr: string, expressions: map<string, string>) returns (r: Result<string>)
    ensures r == Expansion(expr, expressions)
  {
    var result := expr;
    var maxIterations := |expressions| + 1;
    var iteration := 0;
    ghost var fuel: nat := maxIterations;
    while Contains(result, "${") && iteration < maxIterations
      invariant 0 <= iteration <= maxIterations && fuel == maxIterations - iteration
      invariant ExpandFrom(expr, result, expressions, fuel) == Expansion(expr, expressions)
      decreases fuel
    {
      iteration := iteration + 1;
      var pass := ExpandPass(expr, result, expressions, fuel);
      if pass.Err? {
        return Err(pass.msg);
      }
      result, fuel := pass.value, fuel - 1;
    }
    if Contains(result, "${") {
      assert fuel == 0;
      return Err(CircularPrefix + expr);
    }
    return Ok(result);
  }

  /** The body of the pass loop. */
  method ExpandPass(expr: string, result: string, expressions: map<string, string>, ghost fuel: nat) returns (r: Result<string>)
    requires Contains(result, "${") && fuel > 0
    ensures r.Err? ==> ExpandFrom(expr, result, expressions, fuel) == r
    ensures r.Ok? ==> ExpandFrom(expr, result, expressions, fuel) == ExpandFrom(expr, r.value, expressions, fuel - 1)
  {
    ExpandStep(expr, result, expressions, fuel);
    var previousResult := result;
    var matches := FindExpressionReferences(result);
    var applied := ApplyReferences(result, matches, expressions);
    if applied.Err? {
      return Err(applied.msg);
    }
    // Every match either fails the pass or counts as a replacement.
    var foundReplacement := |matches| > 0;
    if !foundReplacement {
      return Err(UndefinedPrefix + expr);
    }
    if applied.value == previousResult {
      return Err(CircularPrefix + expr);
    }
    return Ok(applied.value);
  }

  /** The loop over the matches of one pass. */
  method ApplyReferences(start: string, matches: seq<Match>, expressions: map<string, string>) returns (r: Result<string>)
    ensures r == ApplyMatches(start, matches, expressions)
  {
    var result := start;
    for i := 0 to |matches|
      invariant ApplyMatches(result, matches[i..], expressions) == ApplyMatches(start, matches, expressions)
    {
      assert matches[i..][0] == matches[i] && matches[i..][1..] == matches[i + 1..];
      var body := ExpandReference(matches[i], expressions);
      if body.Err? {
        return Err(body.msg);
      }
      result := ReplaceFirst(result, matches[i].fullMatch, "(" + body.value + ")");
    }
    return Ok(result);
  }

  /** The text for one match: the named expression, with its placeholders replaced by
      the arguments when the reference has an argument list. */
  method ExpandReference(m: Match, expressions: map<string, string>) returns (r: Result<string>)
    ensures r == ReferenceBody(m, expressions)
  {
    if m.name !in expressions {
      return Err(UndefinedPrefix + m.fullMatch);
    }
    var namedExpr := expressions[m.name];
    if m.args != "" {
      var args := ParseArguments(m.args);
      var replaced := ReplaceParameters(namedExpr, args);
      if replaced.Err? {
        return Err(ReplaceFailurePrefix + m.name + ": " + replaced.msg);
      }
      return Ok(replaced.value);
    }
    return Ok(namedExpr);
  }

  // ---------------------------------------------------------------------------------
  // Preparing a rules file (PrepareNamedExpressions)
  // ---------------------------------------------------------------------------------

  /** The error PrepareNamedExpressions returns for the rule described by `desc`. */
  function ExpandRuleError(desc: string, msg: string): string {
    "failed to expand rule '" + desc + "': " + msg
  }

  /** The expansion of rule texts against one named-expression table. */
  function Expander(table: map<string, string>): string -> Result<string> {
    expr => Expansion(expr, table)
  }

  /** The rules after preparation against `table`, and its outcome. */
  function Prepared(rules: seq<Rule>, table: map<string, string>): (seq<Rule>, Outcome) {
    PreparedFrom(rules, 0, Expander(table))
  }

  /** Preparation from rule `i` on with the expansion `expand`: the rules it leaves from
      `i` on, and its outcome. Rules are rewritten front to back; the first failing rule
      stops the loop, so the rules before it are expanded and it and the ones after it
      keep their text. */
  function PreparedFrom(rules: seq<Rule>, i: nat, expand: string -> Result<string>): (seq<Rule>, Outcome)
    requires i <= |rules|
    decreases |rules| - i
  {
    if i == |rules| then ([], Success)
    else
      match expand(rules[i].expr)
      case Err(e) => (rules[i..], Failure(ExpandRuleError(rules[i].desc, e)))
      case Ok(x) =>
        var rest := PreparedFrom(rules, i + 1, expand);
        ([rules[i].(expr := x)] + rest.0, rest.1)
  }

  /** Preparation keeps the number, order, descriptions and severities of the rules. */
  lemma {:induction false} PreparedShape(rules: seq<Rule>, i: nat, expand: string -> Result<string>)
    requires i <= |rules|
    ensures |PreparedFrom(rules, i, expand).0| == |rules| - i
    ensures forall j | 0 <= j < |rules| - i ::
      && PreparedFrom(rules, i, expand).0[j].desc == rules[i + j].desc
      && PreparedFrom(rules, i, expand).0[j].severity == rules[i + j].severity
    decreases |rules| - i
  {
    if i < |rules| && expand(rules[i].expr).Ok? {
      PreparedShape(rules, i + 1, expand);
    }
  }

  /** A successful preparation replaces each rule's text by its expansion. */
  lemma {:induction false} PreparedSuccess(rules: seq<Rule>, i: nat, expand: string -> Result<string>)
    requires i <= |rules| && PreparedFrom(rules, i, expand).1 == Success
    ensures |PreparedFrom(rules, i, expand).0| == |rules| - i
    ensures forall j | 0 <= j < |rules| - i :: expand(rules[i + j].expr) == Ok(PreparedFrom(rules, i, expand).0[j].expr)
    decreases |rules| - i
  {
    if i < |rules| {
      PreparedSuccess(rules, i + 1, expand);
    }
  }

  /** After a successful preparation no rule text holds `${`. */
  lemma PreparedClean(rules: seq<Rule>, table: map<string, string>)
    requires Prepared(rules, table).1 == Success
    ensures forall j | 0 <= j < |Prepared(rules, table).0| :: !Contains(Prepared(rules, table).0[j].expr, "${")
  {
    PreparedSuccess(rules, 0, Expander(table));
    forall j | 0 <= j < |Prepared(rules, table).0|
      ensures !Contains(Prepared(rules, table).0[j].expr, "${")
    {
      ExpansionOutcome(rules[j].expr, table);
    }
  }

  /** A failed preparation names the first rule `f` whose expansion fails: the rules
      before it are expanded, it and the rest are untouched. */
  lemma {:induction false} PreparedFailure(rules: seq<Rule>, i: nat, expand: string -> Result<string>) returns (f: nat)
    requires i <= |rules| && PreparedFrom(rules, i, expand).1.Failure?
    ensures i <= f < |rules| && |PreparedFrom(rules, i, expand).0| == |rules| - i
    ensures expand(rules[f].expr).Err?
    ensures PreparedFrom(rules, i, expand).1.msg == ExpandRuleError(rules[f].desc, expand(rules[f].expr).msg)
    ensures PreparedFrom(rules, i, expand).0[f - i..] == rules[f..]
    ensures forall j | 0 <= j < f - i :: expand(rules[i + j].expr) == Ok(PreparedFrom(rules, i, expand).0[j].expr)
    decreases |rules| - i
  {
    if expand(rules[i].expr).Err? {
      f := i;
    } else {
      f := PreparedFailure(rules, i + 1, expand);
      var out := PreparedFrom(rules, i, expand).0;
      assert out[f - i..] == PreparedFrom(rules, i + 1, expand).0[f - i - 1..];
    }
  }

  /** Rules whose texts the expansion leaves as they are come out of preparation as
      they went in. */
  lemma {:induction false} PreparedFixed(rules: seq<Rule>, i: nat, expand: string -> Result<string>)
    requires i <= |rules|
    requires forall k | i <= k < |rules| :: expand(rules[k].expr) == Ok(rules[k].expr)
    ensures PreparedFrom(rules, i, expand) == (rules[i..], Success)
    decreases |rules| - i
  {
    if i < |rules| {
      PreparedFixed(rules, i + 1, expand);
      assert rules[i..] == [rules[i].(expr := rules[i].expr)] + rules[i + 1..];
    }
  }

  /** Rules without references come out of preparation as they went in. */
  lemma PreparedNoReferences(rules: seq<Rule>, table: map<string, string>)
    requires forall k | 0 <= k < |rules| :: !Contains(rules[k].expr, "${")
    ensures Prepared(rules, table) == (rules, Success)
  {
    forall k | 0 <= k < |rules| ensures Expander(table)(rules[k].expr) == Ok(rules[k].expr) {
      ExpansionOutcome(rules[k].expr, table);
    }
    PreparedFixed(rules, 0, Expander(table));
    assert rules[0..] == rules;
  }

  /** Preparing the rules a successful preparation produced changes nothing. */
  lemma PreparedIdempotent(rules: seq<Rule>, table: map<string, string>)
    requires Prepared(rules, table).1 == Success
    ensures Prepared(Prepared(rules, table).0, table) == (Prepared(rules, table).0, Success)
  {
    PreparedClean(rules, table);
    PreparedNoReferences(Prepared(rules, table).0, table);
  }

  /** The state of the preparation loop before rule `i`: the rules before it hold their
      expansions as the specification does, and the rules from `i` on are untouched. */
  predicate PreparedUpTo(original: seq<Rule>, current: seq<Rule>, i: nat, expand: string -> Result<string>) {
    && i <= |original| == |current|
    && current[i..] == original[i..]
    && PreparedFrom(original, 0, expand).0 == current[..i] + PreparedFrom(original, i, expand).0
    && PreparedFrom(original, 0, expand).1 == PreparedFrom(original, i, expand).1
  }

  lemma PreparedStart(original: seq<Rule>, expand: string -> Result<string>)
    ensures PreparedUpTo(original, original, 0, expand)
  {
    assert original[..0] == [];
  }

  /** Rule `i` expands: it is rewritten and the loop moves on. */
  lemma PreparedStep(original: seq<Rule>, current: seq<Rule>, i: nat, expand: string -> Result<string>)
    requires PreparedUpTo(original, current, i, expand) && i < |original|
    requires expand(original[i].expr).Ok?
    ensures PreparedUpTo(original, current[i := original[i].(expr := expand(original[i].expr).value)], i + 1, expand)
  {
    var r := original[i].(expr := expand(original[i].expr).value);
    var next := current[i := r];
    var q := PreparedFrom(original, i + 1, expand);
    assert PreparedFrom(original, i, expand) == ([r] + q.0, q.1);
    assert current[i + 1..] == current[i..][1..] == original[i..][1..] == original[i + 1..];
    assert next[i + 1..] == current[i + 1..];
    assert next[..i + 1] == current[..i] + [r];
    assert (current[..i] + [r]) + q.0 == current[..i] + ([r] + q.0);
  }

  /** Rule `i` fails: the loop stops with the rules as they are. */
  lemma PreparedStop(original: seq<Rule>, current: seq<Rule>, i: nat, expand: string -> Result<string>)
    requires PreparedUpTo(original, current, i, expand) && i < |original|
    requires expand(original[i].expr).Err?
    ensures PreparedFrom(original, 0, expand) == (current, Failure(ExpandRuleError(original[i].desc, expand(original[i].expr).msg)))
  {
    assert PreparedFrom(original, i, expand).0 == original[i..];
    assert current == current[..i] + current[i..];
  }

  /** Every rule expanded: the loop ends in success. */
  lemma PreparedDone(original: seq<Rule>, current: seq<Rule>, expand: string -> Result<string>)
    requires PreparedUpTo(original, current, |original|, expand)
    ensures PreparedFrom(original, 0, expand) == (current, Success)
  {
    assert PreparedFrom(original, |original|, expand) == ([], Success);
    assert current[..|original|] + [] == current;
  }

  /** PrepareNamedExpressions: every rule's text is replaced in place by its expansion;
      the first failure ends the loop. A nil table and the empty map are one value here. */
  method PrepareNamedExpressions(rules: ValidationRules) returns (outcome: Outcome)
    modifies rules
    ensures rules.expressions == old(rules.expressions)
    ensures (rules.rules, outcome) == Prepared(old(rules.rules), old(rules.expressions))
  {
    ghost var original := rules.rules;
    ghost var expand := Expander(rules.expressions);
    PreparedStart(original, expand);
    var i := 0;
    while i < |rules.rules|
      invariant rules.expressions == old(rules.expressions)
      invariant PreparedUpTo(original, rules.rules, i, expand)
      decreases |rules.rules| - i
    {
      var rule := rules.rules[i];
      assert rule == original[i] by {
        assert rules.rules[i..][0] == original[i..][0];
      }
      var expanded := ExpandExpression(rule.expr, rules.expressions);
      if expanded.Err? {
        PreparedStop(original, rules.rules, i, expand);
        return Failure(ExpandRuleError(rule.desc, expanded.msg));
      }
      PreparedStep(original, rules.rules, i, expand);
      rules.rules := rules.rules[i := rule.(expr := expanded.value)];
      i := i + 1;
    }
    PreparedDone(original, rules.rules, expand);
    return Success;
  }
}
