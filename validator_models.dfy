/** pkg/validator/models.go: the validator package's own copy of the rule, finding and
    result types and of their rendering. Its findings and results have the same fields as
    those of pkg/models, so they are the same types here; the rendering is written out
    again as that file builds it, and proved to produce the same text. */
module ValidatorModels {
  import opened Values
  import opened GoStrings
  import Models

  /** A rule of this package: the rule of pkg/models with an optional `name` ("" when
      absent). */
  datatype Rule = Rule(expr: string, desc: string, severity: string, name: string)

  class ValidationRules {
    var rules: seq<Rule>
    var expressions: map<string, string>

    constructor (rules: seq<Rule>, expressions: map<string, string>)
      ensures this.rules == rules && this.expressions == expressions
    {
      this.rules := rules;
      this.expressions := expressions;
    }
  }

  type ValidationError = Models.ValidationError
  type ValidationResult = Models.ValidationResult

  /** ValidationResult.HasErrors of this package, the same test as in pkg/models: there
      is at least one error. */
  function HasErrors(vr: ValidationResult): (b: bool)
    ensures b == vr.HasErrors()
    ensures b <==> vr.errors != []
  {
    |vr.errors| > 0
  }

  /** format: the finding's lines written one after another; the path line only for a
      known path, `<nil>` for a nil value, no line break at the end. */
  method Format(e: ValidationError, symbol: string, show: Value -> string) returns (msg: string)
    ensures msg == e.Format(symbol, show)
  {
    ghost var title, rule, path, value :=
      e.TitleLine(symbol) + "\n", e.RuleLine() + "\n", e.PathPart(), e.ValueLine(show);
    msg := symbol + " " + e.description + "\n";
    assert msg == title;
    msg := msg + ("   Rule: " + e.expression + "\n");
    assert msg == title + rule;
    if e.path != "" {
      msg := msg + ("   Path: " + e.path + "\n");
    }
    assert msg == title + rule + path;
    if !e.value.Null? {
      msg := msg + ("   Current value: " + show(e.value));
    } else {
      msg := msg + "   Current value: <nil>";
    }
    assert msg == title + rule + path + value;
    Models.Associative(title + rule, path, value);
    Models.Associative(title, rule, path + value);
  }

  method ErrorText(e: ValidationError, show: Value -> string) returns (msg: string)
    ensures msg == e.Error(show)
  {
    msg := Format(e, Models.ErrorSymbol, show);
  }

  method WarningText(e: ValidationError, show: Value -> string) returns (msg: string)
    ensures msg == e.Warning(show)
  {
    msg := Format(e, Models.WarningSymbol, show);
  }

  /** ValidationResult.Error of this package: the errors block, a blank line when both
      blocks are present, the warnings block; the same text as pkg/models renders. */
  method Error(vr: ValidationResult, show: Value -> string) returns (msg: string)
    ensures msg == vr.Report(show)
  {
    msg := "";
    if |vr.errors| > 0 {
      var header := Models.Header(|vr.errors|, "error");
      msg := msg + header;
      assert msg == header;
      msg := WriteAll(msg, vr.errors, Models.ErrorSymbol, show);
    }
    assert msg == vr.ErrorsPart(show);
    if |vr.warnings| > 0 {
      ghost var errorsPart := msg;
      ghost var lead: string := if |vr.errors| > 0 then Models.Separator else "";
      if |vr.errors| > 0 {
        msg := msg + Models.Separator;
      }
      assert msg == errorsPart + lead;
      var header := Models.Header(|vr.warnings|, "warning");
      ghost var items := Join(Models.Formatted(vr.warnings, Models.WarningSymbol, show), Models.Separator);
      msg := msg + header;
      msg := WriteAll(msg, vr.warnings, Models.WarningSymbol, show);
      assert msg == errorsPart + lead + header + items;
      Models.Associative(errorsPart + lead, header, items);
      Models.Associative(errorsPart, lead, header + items);
      assert vr.WarningsPart(show) == lead + (header + items);
    }
  }

  /** One loop of Error: every finding rendered with `symbol`, followed by a blank line
      unless it is the last. */
  method WriteAll(prefix: string, items: seq<ValidationError>, symbol: string, show: Value -> string)
    returns (msg: string)
    ensures msg == prefix + Join(Models.Formatted(items, symbol, show), Models.Separator)
  {
    ghost var fs := Models.Formatted(items, symbol, show);
    msg := prefix;
    for i := 0 to |items|
      invariant i == 0 ==> msg == prefix
      invariant 0 < i ==> msg == prefix + Join(fs[..i], Models.Separator) + (if i < |items| then Models.Separator else "")
    {
      var text := Format(items[i], symbol, show);
      WriteStep(prefix, fs, i, msg);
      msg := msg + text;
      if i < |items| - 1 {
        msg := msg + Models.Separator;
      }
    }
    assert fs[..|fs|] == fs;
  }

  /** One turn of the loop of WriteAll: the text so far, then the `i`-th rendering, then
      the blank line unless it is the last. */
  lemma WriteStep(prefix: string, fs: seq<string>, i: nat, msg: string)
    requires i < |fs|
    requires i == 0 ==> msg == prefix
    requires 0 < i ==> msg == prefix + Join(fs[..i], Models.Separator) + Models.Separator
    ensures msg + fs[i] + (if i < |fs| - 1 then Models.Separator else "") ==
      prefix + Join(fs[..i + 1], Models.Separator) + (if i + 1 < |fs| then Models.Separator else "")
  {
    Models.JoinSnoc(fs[..i], fs[i], Models.Separator);
    assert fs[..i] + [fs[i]] == fs[..i + 1];
  }
}
