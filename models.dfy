/** pkg/models: rules, findings, the validation result and its exact text rendering. */
module Models {
  import opened Values
  import opened GoStrings

  /** A rule of a rules file. `severity` is the raw text of the optional `severity` key
      ("" when absent); only the exact text "warning" makes a finding a warning. */
  datatype Rule = Rule(expr: string, desc: string, severity: string)

  /** ValidationRules as the loaders, the expander and the generator share it through a
      pointer: the rule list and the named-expression table are updated in place. */
  class ValidationRules {
    var rules: seq<Rule>
    var expressions: map<string, string>

    constructor (rules: seq<Rule>, expressions: map<string, string>)
      ensures this.rules == rules && this.expressions == expressions
    {
      this.rules := rules;
      this.expressions := expressions;
    }
  }

  const ErrorSymbol: string := "\U{274C}"
  const WarningSymbol: string := "\U{26A0}\U{FE0F}"
  const Separator: string := "\n\n"

  /** A finding. `value` is Null where the Go field holds nil; `path` is "" when unknown.
      `show` stands for Go's %v formatting of a value. */
  datatype ValidationError = ValidationError(description: string, expression: string, value: Value, path: string)
  {
    /** The line block of one finding, headed by `symbol`: the title, the rule, the path
        when there is one, and the current value, without a final line break. */
    function Format(symbol: string, show: Value -> string): string {
      TitleLine(symbol) + "\n" + (RuleLine() + "\n" + (PathPart() + ValueLine(show)))
    }

    /** The path line with its line break, or nothing when the path is unknown. */
    function PathPart(): string {
      if path != "" then PathLine() + "\n" else ""
    }

    function TitleLine(symbol: string): string {
      symbol + " " + description
    }

    function RuleLine(): string {
      "   Rule: " + expression
    }

    function PathLine(): string {
      "   Path: " + path
    }

    function ValueLine(show: Value -> string): string {
      "   Current value: " + (if value.Null? then "<nil>" else show(value))
    }

    function Error(show: Value -> string): string {
      Format(ErrorSymbol, show)
    }

    function Warning(show: Value -> string): string {
      Format(WarningSymbol, show)
    }
  }

  /** The rendering of each finding of `items` with `symbol`. */
  function Formatted(items: seq<ValidationError>, symbol: string, show: Value -> string): (fs: seq<string>)
    ensures |fs| == |items|
    ensures forall i | 0 <= i < |items| :: fs[i] == items[i].Format(symbol, show)
  {
    seq(|items|, i requires 0 <= i < |items| => items[i].Format(symbol, show))
  }

  /** "Found N error(s):" and its warning counterpart, followed by a blank line. */
  function Header(n: nat, noun: string): string {
    "Found " + Itoa(n) + " " + noun + "(s):" + Separator
  }

  /** A block: the header, then every finding, separated by blank lines. */
  function Block(items: seq<ValidationError>, noun: string, symbol: string, show: Value -> string): string {
    Header(|items|, noun) + Join(Formatted(items, symbol, show), Separator)
  }

  datatype ValidationResult = ValidationResult(errors: seq<ValidationError>, warnings: seq<ValidationError>)
  {
    predicate HasErrors() {
      |errors| > 0
    }

    /** The text that ValidationResult.Error produces. */
    function Report(show: Value -> string): string {
      ErrorsPart(show) + WarningsPart(show)
    }

    /** The errors block, present when there are errors. */
    function ErrorsPart(show: Value -> string): string {
      if |errors| > 0 then Block(errors, "error", ErrorSymbol, show) else ""
    }

    /** The warnings block, present when there are warnings, after a blank line when
        an errors block precedes it. */
    function WarningsPart(show: Value -> string): string {
      if |warnings| > 0 then
        (if |errors| > 0 then Separator else "") + Block(warnings, "warning", WarningSymbol, show)
      else ""
    }

    /** ValidationResult.Error: builds the report piece by piece. */
    method Error(show: Value -> string) returns (msg: string)
      ensures msg == Report(show)
    {
      msg := "";
      if |errors| > 0 {
        msg := AppendBlock(msg, errors, "error", ErrorSymbol, show);
      }
      assert msg == ErrorsPart(show);
      if |warnings| > 0 {
        ghost var head := msg;
        ghost var lead: string := if |errors| > 0 then Separator else "";
        if |errors| > 0 {
          msg := msg + Separator;
        }
        assert msg == head + lead;
        msg := AppendBlock(msg, warnings, "warning", WarningSymbol, show);
        Associative(head, lead, Block(warnings, "warning", WarningSymbol, show));
      }
    }
  }

  /** One block of ValidationResult.Error written after `prefix`: the header, then the loop
      over the findings. */
  method AppendBlock(prefix: string, items: seq<ValidationError>, noun: string, symbol: string, show: Value -> string)
    returns (msg: string)
    ensures msg == prefix + Block(items, noun, symbol, show)
  {
    msg := prefix + Header(|items|, noun);
    msg := AppendItems(msg, Formatted(items, symbol, show));
  }

  /** The loop of ValidationResult.Error over one list of renderings: each one, with a
      blank line after every one but the last. */
  method AppendItems(prefix: string, fs: seq<string>) returns (msg: string)
    ensures msg == prefix + Join(fs, Separator)
  {
    msg := prefix;
    for i := 0 to |fs|
      invariant i == 0 ==> msg == prefix
      invariant 0 < i ==> msg == prefix + Join(fs[..i], Separator) + (if i < |fs| then Separator else "")
    {
      JoinSnoc(fs[..i], fs[i], Separator);
      assert fs[..i] + [fs[i]] == fs[..i + 1];
      msg := msg + fs[i];
      if i < |fs| - 1 {
        msg := msg + Separator;
      }
    }
    assert fs[..|fs|] == fs;
  }

  /** Join extended by one more part. */
  lemma JoinSnoc(parts: seq<string>, p: string, sep: string)
    ensures Join(parts + [p], sep) == if parts == [] then p else Join(parts, sep) + sep + p
  {
    assert (parts + [p])[..|parts|] == parts;
  }

  /** The report is empty exactly when there is nothing to report. */
  lemma ReportEmpty(vr: ValidationResult, show: Value -> string)
    ensures vr.Report(show) == "" <==> vr.errors == [] && vr.warnings == []
  {
    if vr.errors != [] {
      assert |Block(vr.errors, "error", ErrorSymbol, show)| > 0 by {
        assert |Header(|vr.errors|, "error")| > 0;
      }
    } else if vr.warnings != [] {
      assert |Block(vr.warnings, "warning", WarningSymbol, show)| > 0 by {
        assert |Header(|vr.warnings|, "warning")| > 0;
      }
    }
  }

  /** The errors block comes first; the warnings block follows, after a blank line when
      there are errors. */
  lemma ReportErrorsFirst(vr: ValidationResult, show: Value -> string)
    ensures vr.Report(show) ==
      ValidationResult(vr.errors, []).Report(show)
      + (if vr.errors != [] && vr.warnings != [] then Separator else "")
      + ValidationResult([], vr.warnings).Report(show)
  {
  }

  /** The report opens with the error count exactly when there are errors. */
  lemma HasErrorsIffErrorHeader(vr: ValidationResult, show: Value -> string)
    ensures vr.HasErrors() <==> HasPrefix(vr.Report(show), "Found " + Itoa(|vr.errors|) + " error(s):")
  {
    if vr.HasErrors() {
      ErrorHeaderLeads(vr, show);
    } else {
      NoErrorHeader(vr, show);
    }
  }

  lemma ErrorHeaderLeads(vr: ValidationResult, show: Value -> string)
    requires vr.HasErrors()
    ensures HasPrefix(vr.Report(show), "Found " + Itoa(|vr.errors|) + " error(s):")
  {
    var h := "Found " + Itoa(|vr.errors|) + " error(s):";
    PrefixOfConcat(h, Separator);
    PrefixExtend(Header(|vr.errors|, "error"), h, Join(Formatted(vr.errors, ErrorSymbol, show), Separator));
    PrefixExtend(Block(vr.errors, "error", ErrorSymbol, show), h, vr.WarningsPart(show));
  }

  lemma NoErrorHeader(vr: ValidationResult, show: Value -> string)
    requires !vr.HasErrors()
    ensures !HasPrefix(vr.Report(show), "Found " + Itoa(|vr.errors|) + " error(s):")
  {
    assert Itoa(|vr.errors|)[0] == '0';
    if vr.warnings != [] {
      var r := vr.Report(show);
      var hw := Header(|vr.warnings|, "warning");
      assert r == hw + Join(Formatted(vr.warnings, WarningSymbol, show), Separator);
      assert r[6] == hw[6] == Itoa(|vr.warnings|)[0] != '0';
    }
  }

  lemma Associative(a: string, b: string, c: string)
    ensures a + b + c == a + (b + c)
  {
  }

  lemma PrefixOfConcat(a: string, b: string)
    ensures HasPrefix(a + b, a)
  {
    assert (a + b)[..|a|] == a;
  }

  lemma PrefixExtend(s: string, p: string, t: string)
    requires HasPrefix(s, p)
    ensures HasPrefix(s + t, p)
  {
    assert (s + t)[..|p|] == s[..|p|];
  }

  /** Error and Warning differ only in the leading symbol. */
  lemma ErrorWarningDifferInSymbol(e: ValidationError, show: Value -> string)
    ensures e.Error(show) == ErrorSymbol + e.Format("", show)
    ensures e.Warning(show) == WarningSymbol + e.Format("", show)
  {
  }

  /** A line of text holds no line break. */
  predicate SingleLine(s: string) {
    forall k | 0 <= k < |s| :: s[k] != '\n'
  }

  lemma SingleLineConcat(a: string, b: string)
    requires SingleLine(a) && SingleLine(b)
    ensures SingleLine(a + b)
  {
    forall k | 0 <= k < |a + b| ensures (a + b)[k] != '\n' {
      if k >= |a| {
        assert (a + b)[k] == b[k - |a|];
      }
    }
  }

  /** When no field holds a line break, a finding renders as three or four lines: the
      "Path" line is present exactly when the path is non-empty, and the value line is
      last, without a trailing line break. */
  lemma FormatLines(e: ValidationError, symbol: string, show: Value -> string)
    requires SingleLine(symbol) && SingleLine(e.description) && SingleLine(e.expression)
    requires SingleLine(e.path) && SingleLine(show(e.value))
    ensures Split(e.Format(symbol, show), "\n") ==
      [e.TitleLine(symbol), e.RuleLine()]
      + (if e.path != "" then [e.PathLine()] else [])
      + [e.ValueLine(show)]
  {
    var l1, l2, l3, l4 := e.TitleLine(symbol), e.RuleLine(), e.PathLine(), e.ValueLine(show);
    var tail := e.PathPart() + l4;
    LinesSingle(e, symbol, show);
    SplitLine(l1, l2 + "\n" + tail);
    SplitLine(l2, tail);
    SplitTail(l3, l4, e.path != "");
    SeqShape(l1, l2, Split(tail, "\n"), if e.path != "" then [l3] else [], l4);
  }

  /** Regrouping a list of lines. */
  lemma SeqShape(a: string, b: string, t: seq<string>, p: seq<string>, d: string)
    requires t == p + [d]
    ensures [a] + ([b] + t) == [a, b] + p + [d]
  {
  }

  /** Each line of a rendering is a single line when no field holds a line break. */
  lemma LinesSingle(e: ValidationError, symbol: string, show: Value -> string)
    requires SingleLine(symbol) && SingleLine(e.description) && SingleLine(e.expression)
    requires SingleLine(e.path) && SingleLine(show(e.value))
    ensures SingleLine(e.TitleLine(symbol)) && SingleLine(e.RuleLine())
    ensures SingleLine(e.PathLine()) && SingleLine(e.ValueLine(show))
  {
    SingleLineConcat(symbol + " ", e.description);
    SingleLineConcat("   Rule: ", e.expression);
    SingleLineConcat("   Path: ", e.path);
    SingleLineConcat("   Current value: ", if e.value.Null? then "<nil>" else show(e.value));
  }

  /** The optional path line and the value line split into one or two lines. */
  lemma SplitTail(l3: string, l4: string, hasPath: bool)
    requires SingleLine(l3) && SingleLine(l4)
    ensures Split((if hasPath then l3 + "\n" else "") + l4, "\n") == (if hasPath then [l3] else []) + [l4]
  {
    SplitSingle(l4);
    if hasPath {
      SplitLine(l3, l4);
    } else {
      assert "" + l4 == l4;
    }
  }

  /** A leading single line splits off at the first line break. */
  lemma SplitLine(line: string, rest: string)
    requires SingleLine(line)
    ensures Split(line + "\n" + rest, "\n") == [line] + Split(rest, "\n")
  {
    var s := line + "\n" + rest;
    forall j | 0 <= j < |line| ensures !OccursAt(s, "\n", j) {
      assert s[j] == line[j];
    }
    SplitAt(line, "\n", rest);
  }

  /** A single line is one piece when split at line breaks. */
  lemma SplitSingle(line: string)
    requires SingleLine(line)
    ensures Split(line, "\n") == [line]
  {
    AbsentChar(line, '\n');
  }
}
