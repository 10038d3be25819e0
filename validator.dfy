/** pkg/validator/validator.go: the evaluation of the prepared rules against the merged
    values, the sorting of each rule's outcome into errors or warnings, the diagnostics
    drawn from CEL's messages and from the values, and the flow of ValidateChart. */
module Validator {
  import opened Wrappers
  import opened Values
  import opened GoStrings
  import opened Models
  import opened ExpressionProcessor
  import ValuesLoader
  import RulesLoader

  /** The only severity that makes a finding a warning. */
  const WarningSeverity: string := "warning"

  /** The CEL engine as the validator uses it, each stage an oracle: compiling a rule text,
      building its program, and evaluating it with `values` bound to the merged values. */
  datatype Cel = Cel(
    compile: string -> Outcome,
    program: string -> Outcome,
    eval: (string, map<string, Value>) -> Result<Value>)

  // ---------------------------------------------------------------------------------
  // extractPath
  // ---------------------------------------------------------------------------------

  /** The message fragments extractPath looks for, in the order it tries them. */
  const PathPatterns: seq<string> := ["no such key: ", "undefined field '", "missing key "]

  const Quotes: set<char> := {'\'', '"'}

  /** The first word of `text` after quotes are trimmed from both ends. */
  function FirstWord(text: string): (r: string)
    ensures !Contains(r, " ")
    ensures r == [] || r[0] !in Quotes
  {
    var trimmed := Trim(text, Quotes);
    var parts := Split(trimmed, " ");
    SplitPartsFree(trimmed, " ");
    FirstPartPrefix(trimmed, " ");
    parts[0]
  }

  /** The first part of a split is a prefix of the text. */
  lemma {:induction false} FirstPartPrefix(s: string, sep: string)
    requires |sep| > 0
    ensures |Split(s, sep)[0]| <= |s| && Split(s, sep)[0] == s[..|Split(s, sep)[0]|]
  {
    var i := Index(s, sep);
    if i >= 0 {
      SplitHead(s, sep);
    }
  }

  /** Where the separator occurs, the first part is the text before it. */
  lemma SplitHead(s: string, sep: string)
    requires |sep| > 0 && Index(s, sep) >= 0
    ensures Split(s, sep)[0] == s[..Index(s, sep)]
  {
    var i := Index(s, sep);
    var p, rest := s[..i], s[i + |sep|..];
    assert s == p + sep + rest by {
      assert s[i..i + |sep|] == sep;
      Around(s, i, |sep|);
    }
    SplitAt(p, sep, rest);
  }

  /** The path after the first occurrence of `pattern` in `msg`. */
  function PathAfter(msg: string, pattern: string): string
    requires Contains(msg, pattern)
  {
    FirstWord(msg[Index(msg, pattern) + |pattern|..])
  }

  /** extractPath: the path a CEL error message names, or "" when it names none. */
  function ExtractPath(msg: string): (r: string)
    ensures !Contains(r, " ") && (r == [] || r[0] !in Quotes)
  {
    if Contains(msg, PathPatterns[0]) then PathAfter(msg, PathPatterns[0])
    else if Contains(msg, PathPatterns[1]) then PathAfter(msg, PathPatterns[1])
    else if Contains(msg, PathPatterns[2]) then PathAfter(msg, PathPatterns[2])
    else ""
  }

  /** A message with none of the patterns names no path. */
  lemma ExtractPathNone(msg: string)
    requires forall k | 0 <= k < |PathPatterns| :: !Contains(msg, PathPatterns[k])
    ensures ExtractPath(msg) == ""
  {
  }

  /** The order of the pattern list decides, not the place in the message: when patterns
      before the `k`-th are absent and the `k`-th first occurs after `left`, the path is
      the word that follows it, up to a space, or up to the quotes that end the message. */
  lemma PatternPath(k: nat, left: string, path: string, rest: string)
    requires k < |PathPatterns|
    requires forall j | 0 <= j < k :: !Contains(left + PathPatterns[k] + path + rest, PathPatterns[j])
    requires forall j | 0 <= j < |left| :: !OccursAt(left + PathPatterns[k] + path + rest, PathPatterns[k], j)
    requires path != [] && path[0] !in Quotes && path[|path| - 1] !in Quotes
    requires forall i | 0 <= i < |path| :: path[i] != ' '
    requires (rest != [] && rest[0] == ' ') || forall i | 0 <= i < |rest| :: rest[i] in Quotes
    ensures ExtractPath(left + PathPatterns[k] + path + rest) == path
  {
    var p := PathPatterns[k];
    var msg := left + p + (path + rest);
    assert msg == left + p + path + rest;
    FirstOccurrence(left, p, path + rest);
    FirstWordOf(path, rest);
    assert PathAfter(msg, p) == path;
    if k == 1 {
      assert !Contains(msg, PathPatterns[0]);
    } else if k == 2 {
      assert !Contains(msg, PathPatterns[0]) && !Contains(msg, PathPatterns[1]);
    }
  }

  /** A pattern that does not occur before `left` ends first occurs right after it. */
  lemma FirstOccurrence(left: string, p: string, tail: string)
    requires forall j | 0 <= j < |left| :: !OccursAt(left + p + tail, p, j)
    ensures Index(left + p + tail, p) == |left|
    ensures (left + p + tail)[Index(left + p + tail, p) + |p|..] == tail
  {
    var msg := left + p + tail;
    assert msg[|left|..|left| + |p|] == p;
    assert OccursAt(msg, p, |left|);
  }

  /** An undefined field as CEL names it, in quotes at the end of the message: the path
      is the field without its quotes. */
  lemma UndefinedField(path: string)
    requires path != [] && path[0] !in Quotes && path[|path| - 1] !in Quotes
    requires forall i | 0 <= i < |path| :: path[i] != ' ' && path[i] != ':'
    ensures ExtractPath("undefined field '" + path + "'") == path
  {
    var msg := "undefined field '" + path + "'";
    assert forall i | 17 <= i < 17 + |path| :: msg[i] == path[i - 17];
    NoSuchKeyAbsent(msg);
    assert msg == "" + PathPatterns[1] + path + "'";
    PatternPath(1, "", path, "'");
  }

  /** A missing key in the other wording, in a message without `:` or `'`. */
  lemma MissingKey(path: string, rest: string)
    requires path != [] && path[0] !in Quotes && path[|path| - 1] !in Quotes
    requires forall i | 0 <= i < |path| :: path[i] != ' ' && path[i] != ':' && path[i] != '\''
    requires rest == [] || rest[0] == ' '
    requires forall i | 0 <= i < |rest| :: rest[i] != ':' && rest[i] != '\''
    ensures ExtractPath("missing key " + path + rest) == path
  {
    var msg := "missing key " + path + rest;
    assert forall i | 12 <= i < 12 + |path| :: msg[i] == path[i - 12];
    assert forall i | 12 + |path| <= i < |msg| :: msg[i] == rest[i - 12 - |path|];
    NoSuchKeyAbsent(msg);
    UndefinedFieldAbsent(msg);
    assert msg == "" + PathPatterns[2] + path + rest;
    PatternPath(2, "", path, rest);
  }

  /** `no such key: ` is looked for first, so it wins over an `undefined field '` or a
      `missing key ` that comes before it in the message (any text without `:`). */
  lemma PatternOrderWins(left: string, path: string, rest: string)
    requires forall i | 0 <= i < |left| :: left[i] != ':'
    requires path != [] && path[0] !in Quotes && path[|path| - 1] !in Quotes
    requires forall i | 0 <= i < |path| :: path[i] != ' '
    requires rest == [] || rest[0] == ' '
    ensures ExtractPath(left + "no such key: " + path + rest) == path
  {
    NoEarlierNoSuchKey(left, path + rest);
    assert left + PathPatterns[0] + (path + rest) == left + PathPatterns[0] + path + rest;
    PatternPath(0, left, path, rest);
  }

  /** `no such key: ` cannot start inside a text without `:` that comes before it. */
  lemma NoEarlierNoSuchKey(left: string, tail: string)
    requires forall i | 0 <= i < |left| :: left[i] != ':'
    ensures forall j | 0 <= j < |left| :: !OccursAt(left + PathPatterns[0] + tail, PathPatterns[0], j)
  {
    var p := PathPatterns[0];
    var msg := left + p + tail;
    forall j | 0 <= j < |left| ensures !OccursAt(msg, p, j) {
      assert msg[j..j + |p|][11] == msg[j + 11];
      if j + 11 >= |left| {
        assert msg[j + 11] == p[j + 11 - |left|];
      }
    }
  }

  /** A message with no `:` does not hold `no such key: `. */
  lemma NoSuchKeyAbsent(msg: string)
    requires forall i | 0 <= i < |msg| :: msg[i] != ':'
    ensures !Contains(msg, PathPatterns[0])
  {
    var p := PathPatterns[0];
    forall j | 0 <= j ensures !OccursAt(msg, p, j) {
      if j + |p| <= |msg| {
        assert msg[j..j + |p|][11] == msg[j + 11];
      }
    }
  }

  /** A message with no `'` does not hold `undefined field '`. */
  lemma UndefinedFieldAbsent(msg: string)
    requires forall i | 0 <= i < |msg| :: msg[i] != '\''
    ensures !Contains(msg, PathPatterns[1])
  {
    var p := PathPatterns[1];
    forall j | 0 <= j ensures !OccursAt(msg, p, j) {
      if j + |p| <= |msg| {
        assert msg[j..j + |p|][16] == msg[j + 16];
      }
    }
  }

  /** The first word of a word followed by a space and more, or by nothing but quotes. */
  lemma FirstWordOf(path: string, rest: string)
    requires path != [] && path[0] !in Quotes && path[|path| - 1] !in Quotes
    requires forall k | 0 <= k < |path| :: path[k] != ' '
    requires (rest != [] && rest[0] == ' ') || forall i | 0 <= i < |rest| :: rest[i] in Quotes
    ensures FirstWord(path + rest) == path
  {
    TrimmedHead(path, rest);
    FirstWordHead(Trim(path + rest, Quotes), |path|);
  }

  /** Trimming quotes from such a word and what follows it keeps the word at the front,
      followed by a space or by nothing. */
  lemma TrimmedHead(path: string, rest: string)
    requires path != [] && path[0] !in Quotes && path[|path| - 1] !in Quotes
    requires forall k | 0 <= k < |path| :: path[k] != ' '
    requires (rest != [] && rest[0] == ' ') || forall i | 0 <= i < |rest| :: rest[i] in Quotes
    ensures var t := Trim(path + rest, Quotes);
      |path| <= |t| && t[..|path|] == path && (|path| == |t| || t[|path|] == ' ')
      && forall k | 0 <= k < |path| :: t[k] != ' '
  {
    var s := path + rest;
    TailShape(path, rest);
    TrimKeeps(s, |path|);
    var t := Trim(s, Quotes);
    assert forall k | 0 <= k < |path| :: t[k] == t[..|path|][k] == path[k];
  }

  /** The word and what follows it, glued: the shape TrimKeeps asks for. */
  lemma TailShape(path: string, rest: string)
    requires path != [] && path[0] !in Quotes && path[|path| - 1] !in Quotes
    requires (rest != [] && rest[0] == ' ') || forall i | 0 <= i < |rest| :: rest[i] in Quotes
    ensures var s := path + rest;
      s[0] !in Quotes && s[|path| - 1] !in Quotes
      && ((|path| < |s| && s[|path|] == ' ') || forall i | |path| <= i < |s| :: s[i] in Quotes)
  {
    var s := path + rest;
    if !(rest != [] && rest[0] == ' ') {
      assert forall i | |path| <= i < |s| :: s[i] == rest[i - |path|];
    }
  }

  /** A text whose first `n` characters are no space, followed by a space or the end,
      splits on spaces with those `n` characters first. */
  lemma FirstWordHead(t: string, n: nat)
    requires n <= |t| && (n == |t| || t[n] == ' ')
    requires forall k | 0 <= k < n :: t[k] != ' '
    ensures Split(t, " ")[0] == t[..n]
  {
    if n == |t| {
      AbsentChar(t, ' ');
      assert t[..n] == t;
    } else {
      forall j | 0 <= j < n ensures !OccursAt(t, " ", j) {
        assert t[j..j + 1][0] == t[j];
      }
      assert t[n..n + 1] == " ";
      assert OccursAt(t, " ", n);
      assert Index(t, " ") == n;
    }
  }

  /** Trimming quotes from a text that neither starts with one nor has one at the end of
      its `n`-character head keeps that head. When a space follows the head, the space is
      kept too; when only quotes follow it, they all go. */
  lemma TrimKeeps(s: string, n: nat)
    requires 0 < n <= |s| && s[0] !in Quotes && s[n - 1] !in Quotes
    requires (n < |s| && s[n] == ' ') || forall i | n <= i < |s| :: s[i] in Quotes
    ensures |Trim(s, Quotes)| >= n && Trim(s, Quotes)[..n] == s[..n]
    ensures |Trim(s, Quotes)| == n || Trim(s, Quotes)[n] == ' '
  {
    assert TrimLeft(s, Quotes) == s;
    var r := TrimRight(s, Quotes);
    assert |r| >= n;
    assert r[..n] == s[..n];
    if n < |s| && s[n] == ' ' {
      assert s[n] !in Quotes;
      assert |r| > n;
    }
  }

  // ---------------------------------------------------------------------------------
  // extractValueFromValues
  // ---------------------------------------------------------------------------------

  /** The path a comparison expression points at: the text after the first "values." up
      to the next space or "values.", with `(` and `)` trimmed from both ends; None when
      the expression has no "values.". */
  function CandidatePath(expr: string): (r: Option<string>)
    ensures r.None? <==> !Contains(expr, "values.")
  {
    var parts := Split(expr, "values.");
    if |parts| < 2 then None else Some(Trim(Split(parts[1], " ")[0], {'(', ')'}))
  }

  /** The walk down the values along `parts`: maps are entered for every part but the last;
      the walk stops at the first part whose value is no map. The value reached, and how
      many parts it used. */
  function Walk(m: map<string, Value>, parts: seq<string>): (r: (Value, nat))
    requires |parts| >= 1
    ensures 1 <= r.1 <= |parts|
    ensures r.1 < |parts| ==> !r.0.Map?
    decreases |parts|
  {
    if |parts| == 1 then (Lookup(m, parts[0]), 1)
    else
      match Lookup(m, parts[0])
      case Map(f) => var w := Walk(f, parts[1..]); (w.0, w.1 + 1)
      case v => (v, 1)
  }

  /** extractValueFromValues as a function: the value the expression's path leads to and
      the path to it; nil and "" when there is no path. */
  function Extracted(values: map<string, Value>, expr: string): (Value, string) {
    match CandidatePath(expr)
    case None => (Null, "")
    case Some(path) =>
      var parts := Split(path, ".");
      var w := Walk(values, parts);
      (w.0, if w.1 == |parts| then path else Join(parts[..w.1], "."))
  }

  /** The returned path is the candidate path cut after a whole number of its segments,
      all of them when the walk reached its end. */
  lemma ExtractedSegmentPrefix(values: map<string, Value>, expr: string)
    requires CandidatePath(expr).Some?
    ensures var parts := Split(CandidatePath(expr).value, ".");
      exists n | 1 <= n <= |parts| :: Extracted(values, expr).1 == Join(parts[..n], ".")
  {
    var path := CandidatePath(expr).value;
    var parts := Split(path, ".");
    ExtractedAlong(values, expr, path, parts);
    var n := Walk(values, parts).1;
    if n == |parts| {
      SplitJoin(path, ".");
      assert parts[..n] == parts;
    }
    assert Extracted(values, expr).1 == Join(parts[..n], ".");
  }

  /** Without "values." the expression points at nothing. */
  lemma ExtractedNoValues(values: map<string, Value>, expr: string)
    requires !Contains(expr, "values.")
    ensures Extracted(values, expr) == (Null, "")
  {
  }

  /** A path through maps all the way gives the value under its last segment. */
  lemma {:induction false} WalkThroughMaps(m: map<string, Value>, key: string, rest: seq<string>)
    requires |rest| >= 1 && key in m && m[key].Map?
    ensures Walk(m, [key] + rest) == (Walk(m[key].fields, rest).0, Walk(m[key].fields, rest).1 + 1)
  {
    assert ([key] + rest)[1..] == rest;
  }

  /** One step of the walk from the `i`-th part. */
  lemma WalkStep(m: map<string, Value>, parts: seq<string>, i: nat)
    requires i < |parts| - 1
    ensures Lookup(m, parts[i]).Map? ==>
      Walk(m, parts[i..]) == (Walk(Lookup(m, parts[i]).fields, parts[i + 1..]).0, Walk(Lookup(m, parts[i]).fields, parts[i + 1..]).1 + 1)
    ensures !Lookup(m, parts[i]).Map? ==> Walk(m, parts[i..]) == (Lookup(m, parts[i]), 1)
  {
    assert parts[i..][1..] == parts[i + 1..];
  }

  /** Extracted once the candidate path is known: the walk along its segments. */
  lemma ExtractedAlong(values: map<string, Value>, expr: string, path: string, parts: seq<string>)
    requires CandidatePath(expr) == Some(path) && parts == Split(path, ".")
    ensures Extracted(values, expr) == (Walk(values, parts).0,
      if Walk(values, parts).1 == |parts| then path else Join(parts[..Walk(values, parts).1], "."))
  {
  }

  /** The fields reached by entering the map under each key of `p` in turn, from `m`;
      None when some key on the way holds no map. */
  function Enter(m: map<string, Value>, p: seq<string>): Option<map<string, Value>>
    decreases |p|
  {
    if p == [] then Some(m)
    else
      match Enter(m, p[..|p| - 1])
      case None => None
      case Some(f) =>
        var v := Lookup(f, p[|p| - 1]);
        if v.Map? then Some(v.fields) else None
  }

  /** The value at the path `p`: the last key looked up in the map its predecessors lead
      to; nil when one of them holds no map. */
  function At(m: map<string, Value>, p: seq<string>): Value
    requires |p| >= 1
  {
    match Enter(m, p[..|p| - 1])
    case None => Null
    case Some(f) => Lookup(f, p[|p| - 1])
  }

  /** Entering along a path is entering its first key, then along the rest. */
  lemma {:induction false} EnterCons(m: map<string, Value>, k: string, p: seq<string>)
    ensures Enter(m, [k] + p) == if Lookup(m, k).Map? then Enter(Lookup(m, k).fields, p) else None
    decreases |p|
  {
    if p != [] {
      var init := p[..|p| - 1];
      assert ([k] + p)[..|p|] == [k] + init;
      EnterCons(m, k, init);
    } else {
      assert ([k] + p)[..0] == [];
    }
  }

  /** The value at a path of two or more keys is the value at the rest of the path inside the
      first key's map, nil when the first key holds none. */
  lemma AtCons(m: map<string, Value>, k: string, p: seq<string>)
    requires |p| >= 1
    ensures At(m, [k] + p) == if Lookup(m, k).Map? then At(Lookup(m, k).fields, p) else Null
  {
    assert ([k] + p)[..|p|] == [k] + p[..|p| - 1];
    EnterCons(m, k, p[..|p| - 1]);
  }

  /** The walk reaches the value at the first prefix of the path whose value is no map,
      or at the whole path when every shorter prefix leads to a map. */
  lemma {:induction false} WalkAt(m: map<string, Value>, parts: seq<string>)
    requires |parts| >= 1
    ensures Walk(m, parts).0 == At(m, parts[..Walk(m, parts).1])
    ensures forall j | 1 <= j < Walk(m, parts).1 :: At(m, parts[..j]).Map?
    ensures Walk(m, parts).1 < |parts| ==> !At(m, parts[..Walk(m, parts).1]).Map?
    decreases |parts|
  {
    var k := parts[0];
    assert parts[..1] == [k] + [];
    assert At(m, [k]) == Lookup(m, k) by {
      assert [k][..0] == [];
    }
    if |parts| > 1 && Lookup(m, k).Map? {
      var f := Lookup(m, k).fields;
      var rest := parts[1..];
      WalkAt(f, rest);
      var n := Walk(m, parts).1;
      assert n == Walk(f, rest).1 + 1;
      assert parts[..n] == [k] + rest[..n - 1];
      AtCons(m, k, rest[..n - 1]);
      forall j | 2 <= j < n ensures At(m, parts[..j]).Map? {
        assert parts[..j] == [k] + rest[..j - 1];
        AtCons(m, k, rest[..j - 1]);
      }
    }
  }

  /** "values." cannot start inside a text before it that does not hold it. */
  lemma ValuesNotBefore(left: string, tail: string)
    requires !Contains(left, "values.")
    ensures forall j | 0 <= j < |left| :: !OccursAt(left + "values." + tail, "values.", j)
  {
    var v := "values.";
    var s := left + v + tail;
    forall j | 0 <= j < |left| ensures !OccursAt(s, v, j) {
      if j + 7 <= |left| {
        assert s[j..j + 7] == left[j..j + 7];
        assert !OccursAt(left, v, j);
      } else if j + 7 <= |s| {
        assert s[j..j + 7][6] == s[j + 6] == v[j + 6 - |left|];
      }
    }
  }

  /** A space-free word without "values.", followed by a space or by nothing, ends the first
      piece of a split on "values." or is all of it; the piece starts with the word. */
  lemma WordBeforeValues(p: string, rest: string)
    requires forall i | 0 <= i < |p| :: p[i] != ' '
    requires !Contains(p, "values.")
    requires rest == [] || rest[0] == ' '
    ensures var q := Split(p + rest, "values.")[0];
      |p| <= |q| && q[..|p|] == p && (|q| == |p| || q[|p|] == ' ')
  {
    var v := "values.";
    var t := p + rest;
    forall j | 0 <= j < |p| ensures !OccursAt(t, v, j) {
      if j + 7 <= |p| {
        assert t[j..j + 7] == p[j..j + 7];
        assert !OccursAt(p, v, j);
      } else if j + 7 <= |t| {
        assert t[j..j + 7][|p| - j] == t[|p|] == ' ';
      }
    }
    var i := Index(t, v);
    if i >= 0 {
      assert !OccursAt(t, v, |p|) by {
        if |p| + 7 <= |t| {
          assert t[|p|..|p| + 7][0] == t[|p|];
        }
      }
      SplitHead(t, v);
    }
  }

  /** The candidate path of an expression whose first "values." is followed by a space-free
      word without "values.", then by a space or by nothing, is that word with its
      parentheses trimmed, whatever follows the space. */
  lemma CandidateAfter(left: string, p: string, rest: string)
    requires !Contains(left, "values.")
    requires forall i | 0 <= i < |p| :: p[i] != ' '
    requires !Contains(p, "values.")
    requires rest == [] || rest[0] == ' '
    ensures CandidatePath(left + "values." + p + rest) == Some(Trim(p, {'(', ')'}))
  {
    var expr := left + "values." + p + rest;
    PieceAfterValues(expr, left, p + rest);
    WordBeforeValues(p, rest);
    var q := Split(p + rest, "values.")[0];
    FirstWordHead(q, |p|);
  }

  /** The piece of `expr` after its first "values." when nothing before it holds one. */
  lemma PieceAfterValues(expr: string, left: string, tail: string)
    requires !Contains(left, "values.")
    requires expr == left + "values." + tail
    ensures var parts := Split(expr, "values.");
      |parts| >= 2 && parts[1] == Split(tail, "values.")[0]
  {
    ValuesNotBefore(left, tail);
    SplitAt(left, "values.", tail);
  }

  /** extractValueFromValues on such an expression: the value at the shortest prefix of the
      candidate path's segments whose value is no map, or at all of them, and that prefix
      joined back with dots. */
  lemma ExtractedAt(values: map<string, Value>, left: string, p: string, rest: string)
    requires !Contains(left, "values.")
    requires forall i | 0 <= i < |p| :: p[i] != ' '
    requires !Contains(p, "values.")
    requires rest == [] || rest[0] == ' '
    ensures var parts := Split(Trim(p, {'(', ')'}), ".");
      exists n | 1 <= n <= |parts| ::
        Extracted(values, left + "values." + p + rest) == (At(values, parts[..n]), Join(parts[..n], "."))
        && (forall j | 1 <= j < n :: At(values, parts[..j]).Map?)
        && (n < |parts| ==> !At(values, parts[..n]).Map?)
  {
    var expr := left + "values." + p + rest;
    var path := Trim(p, {'(', ')'});
    var parts := Split(path, ".");
    CandidateAfter(left, p, rest);
    ExtractedWalk(values, expr, path, parts);
    WalkAt(values, parts);
    var n := Walk(values, parts).1;
    assert Extracted(values, expr) == (At(values, parts[..n]), Join(parts[..n], "."));
  }

  /** Extracted once the candidate path is known, the path returned joined from the
      segments the walk used. */
  lemma ExtractedWalk(values: map<string, Value>, expr: string, path: string, parts: seq<string>)
    requires CandidatePath(expr) == Some(path) && parts == Split(path, ".")
    ensures Extracted(values, expr) ==
      (At(values, parts[..Walk(values, parts).1]), Join(parts[..Walk(values, parts).1], "."))
  {
    ExtractedAlong(values, expr, path, parts);
    WalkAt(values, parts);
    if Walk(values, parts).1 == |parts| {
      SplitJoin(path, ".");
      assert parts[..|parts|] == parts;
    }
  }

  /** extractValueFromValues: the split and trims, then the loop down the maps. */
  method ExtractValueFromValues(values: map<string, Value>, expr: string) returns (value: Value, path: string)
    ensures (value, path) == Extracted(values, expr)
  {
    var candidate := CandidatePath(expr);
    if candidate.None? {
      return Null, "";
    }
    path := candidate.value;
    var pathParts := Split(path, ".");
    ExtractedAlong(values, expr, path, pathParts);
    var used;
    value, used := WalkValues(values, pathParts);
    if used < |pathParts| {
      path := Join(pathParts[..used], ".");
    }
  }

  /** The loop of extractValueFromValues: down the maps along every part but the last,
      stopping at the first value that is no map; the value reached and the number of
      parts used. */
  method WalkValues(values: map<string, Value>, pathParts: seq<string>) returns (value: Value, used: nat)
    requires |pathParts| >= 1
    ensures (value, used) == Walk(values, pathParts)
  {
    var current := values;
    ghost var reached, count := Walk(values, pathParts).0, Walk(values, pathParts).1;
    assert pathParts[0..] == pathParts;
    var i := 0;
    while i < |pathParts| - 1
      invariant 0 <= i <= |pathParts| - 1
      invariant Walk(current, pathParts[i..]).0 == reached && Walk(current, pathParts[i..]).1 + i == count
      decreases |pathParts| - i
    {
      var part := pathParts[i];
      WalkStep(current, pathParts, i);
      var next := Lookup(current, part);
      if next.Map? {
        current := next.fields;
      } else {
        return next, i + 1;
      }
      i := i + 1;
    }
    value := Lookup(current, pathParts[|pathParts| - 1]);
    assert pathParts[i..] == [pathParts[|pathParts| - 1]];
    used := |pathParts|;
  }

  /** The values of the extraction examples: a service map with a nested map, a replica
      count and resource limits two maps down. */
  function SampleValues(): map<string, Value> {
    map[
      "service" := Map(map[
        "port" := Int(8080), "type" := Str("ClusterIP"), "nodePort" := Int(30080),
        "nested" := Map(map["field" := Str("value")])]),
      "replicas" := Int(3),
      "resources" := Map(map["limits" := Map(map["cpu" := Str("1"), "memory" := Str("1Gi")])])]
  }

  /** Extracted on an expression that starts with "values." and a path joined from
      dot-free segments, without spaces, lacking the `k`-th letter of "values." and
      without a parenthesis at either end, the walk along the segments known. */
  lemma ExtractedExample(values: map<string, Value>, p: string, rest: string, segs: seq<string>, k: nat,
                         v: Value, n: nat)
    requires |segs| >= 1 && Join(segs, ".") == p && forall j | 0 <= j < |segs| :: '.' !in segs[j]
    requires k < 7 && forall i | 0 <= i < |p| :: p[i] != ' ' && p[i] != "values."[k]
    requires p != [] && p[0] !in {'(', ')'} && p[|p| - 1] !in {'(', ')'}
    requires rest == [] || rest[0] == ' '
    requires Walk(values, segs) == (v, n)
    ensures Extracted(values, "values." + p + rest) == (v, if n == |segs| then p else Join(segs[..n], "."))
  {
    JoinSplit(segs, '.');
    AbsentFrom(p, "values.", k);
    TrimUntouched(p, {'(', ')'});
    assert "" + "values." == "values.";
    CandidateAfter("", p, rest);
    ExtractedAlong(values, "values." + p + rest, p, segs);
  }

  /** A top-level field. */
  lemma ExtractSimpleField()
    ensures Extracted(SampleValues(), "values." + "replicas" + " >= 1") == (Int(3), "replicas")
  {
    assert Walk(SampleValues(), ["replicas"]) == (Int(3), 1);
    ExtractedExample(SampleValues(), "replicas", " >= 1", ["replicas"], 6, Int(3), 1);
  }

  /** A field one map down. */
  lemma ExtractNestedField()
    ensures Extracted(SampleValues(), "values." + "service.port" + " <= 65535") == (Int(8080), "service.port")
  {
    var segs := ["service", "port"];
    assert Join(segs, ".") == "service.port";
    assert Walk(SampleValues(), segs) == (Int(8080), 2);
    ExtractedExample(SampleValues(), "service.port", " <= 65535", segs, 1, Int(8080), 2);
  }

  /** A field two maps down. */
  lemma ExtractDeeplyNestedField()
    ensures Extracted(SampleValues(), "values." + "resources.limits.cpu" + " == '1'")
      == (Str("1"), "resources.limits.cpu")
  {
    var segs := ["resources", "limits", "cpu"];
    assert Join(segs, ".") == "resources.limits.cpu";
    assert Walk(SampleValues(), segs) == (Str("1"), 3);
    ExtractedExample(SampleValues(), "resources.limits.cpu", " == '1'", segs, 1, Str("1"), 3);
  }

  /** No "values." prefix: nil and no path. */
  lemma ExtractWithoutValuesPrefix()
    ensures Extracted(SampleValues(), "replicas >= 1") == (Null, "")
  {
    AbsentFrom("replicas >= 1", "values.", 6);
    ExtractedNoValues(SampleValues(), "replicas >= 1");
  }

  /** Two comparisons: the first "values." decides, up to the space after its path. */
  lemma ExtractComplexExpression()
    ensures Extracted(SampleValues(), "values." + "service.port" + " >= 1 && values.service.port <= 65535")
      == (Int(8080), "service.port")
  {
    var segs := ["service", "port"];
    assert Join(segs, ".") == "service.port";
    assert Walk(SampleValues(), segs) == (Int(8080), 2);
    ExtractedExample(SampleValues(), "service.port", " >= 1 && values.service.port <= 65535", segs, 1, Int(8080), 2);
  }

  /** A field inside a nested map, the last segment holding a string. */
  lemma ExtractNestedString()
    ensures Extracted(SampleValues(), "values." + "service.nested.field" + " == 'value'")
      == (Str("value"), "service.nested.field")
  {
    var segs := ["service", "nested", "field"];
    assert Join(segs, ".") == "service.nested.field";
    NestedStringWalk(segs);
    ExtractedExample(SampleValues(), "service.nested.field", " == 'value'", segs, 1, Str("value"), 3);
  }

  /** The walk of `ExtractNestedString`, through two maps to the string. */
  lemma NestedStringWalk(segs: seq<string>)
    requires segs == ["service", "nested", "field"]
    ensures Walk(SampleValues(), segs) == (Str("value"), 3)
  {
    var service := Lookup(SampleValues(), "service");
    assert service.Map?;
    var nested := Lookup(service.fields, "nested");
    assert nested == Map(map["field" := Str("value")]);
    assert segs[1..][1..] == ["field"];
    assert Walk(nested.fields, ["field"]) == (Str("value"), 1);
    assert Walk(service.fields, segs[1..]) == (Str("value"), 2);
  }

  /** A missing first segment: nil, and the path cut after that segment. */
  lemma ExtractNonexistentPath()
    ensures Extracted(SampleValues(), "values." + "nonexistent.field" + " == true") == (Null, "nonexistent")
  {
    var segs := ["nonexistent", "field"];
    assert Join(segs, ".") == "nonexistent.field";
    assert Walk(SampleValues(), segs) == (Null, 1);
    assert Join(segs[..1], ".") == "nonexistent" by {
      assert segs[..1] == ["nonexistent"];
    }
    ExtractedExample(SampleValues(), "nonexistent.field", " == true", segs, 1, Null, 1);
  }

  // ---------------------------------------------------------------------------------
  // validateRules
  // ---------------------------------------------------------------------------------

  /** What one rule contributes to the result. */
  datatype Finding = NoFinding | ToErrors(e: ValidationError) | ToWarnings(e: ValidationError)

  /** A failed rule is a warning exactly when its severity is "warning". */
  function Route(rule: Rule, e: ValidationError): Finding {
    if rule.severity == WarningSeverity then ToWarnings(e) else ToErrors(e)
  }

  /** The finding for one rule: a rule that does not compile or whose program cannot be
      built is an error whatever its severity; an evaluation error is a finding at the
      path the message names; an output other than `true` is a finding with the value
      and path the expression points at. */
  function Judge(rule: Rule, values: map<string, Value>, cel: Cel): Finding {
    match cel.compile(rule.expr)
    case Failure(m) =>
      ToErrors(ValidationError("Invalid rule syntax in '" + rule.desc + "': " + m, rule.expr, Null, ""))
    case Success =>
      match cel.program(rule.expr)
      case Failure(m) =>
        ToErrors(ValidationError("Failed to process rule '" + rule.desc + "': " + m, rule.expr, Null, ""))
      case Success =>
        match cel.eval(rule.expr, values)
        case Err(m) => Route(rule, ValidationError(rule.desc, rule.expr, Null, ExtractPath(m)))
        case Ok(out) =>
          if out == Bool(true) then NoFinding
          else
            var (v, p) := Extracted(values, rule.expr);
            Route(rule, ValidationError(rule.desc, rule.expr, v, p))
  }

  /** A rule passes exactly when it compiles, builds and evaluates to `true`. A failing
      rule is a warning exactly when its severity is "warning" and it compiled and built;
      every other failure is an error. Every finding carries the rule's expression. */
  lemma JudgeCases(rule: Rule, values: map<string, Value>, cel: Cel)
    ensures Judge(rule, values, cel) == NoFinding <==>
      cel.compile(rule.expr).Success? && cel.program(rule.expr).Success? && cel.eval(rule.expr, values) == Ok(Bool(true))
    ensures Judge(rule, values, cel).ToWarnings? <==>
      rule.severity == WarningSeverity && cel.compile(rule.expr).Success? && cel.program(rule.expr).Success?
      && cel.eval(rule.expr, values) != Ok(Bool(true))
    ensures Judge(rule, values, cel).ToErrors? <==>
      cel.compile(rule.expr).Failure? || cel.program(rule.expr).Failure?
      || (rule.severity != WarningSeverity && cel.eval(rule.expr, values) != Ok(Bool(true)))
    ensures !Judge(rule, values, cel).NoFinding? ==> Judge(rule, values, cel).e.expression == rule.expr
  {
  }

  /** The judgement of every rule against the same values and engine. */
  function Judgement(values: map<string, Value>, cel: Cel): Rule -> Finding {
    rule => Judge(rule, values, cel)
  }

  /** The result of validateRules over `rules`: the findings in rule order, errors and
      warnings apart. */
  function Checked(rules: seq<Rule>, values: map<string, Value>, cel: Cel): ValidationResult {
    Findings(rules, Judgement(values, cel))
  }

  /** The findings of `judge` on each rule, recorded in rule order. */
  function Findings(rules: seq<Rule>, judge: Rule -> Finding): ValidationResult
    decreases |rules|
  {
    if rules == [] then ValidationResult([], [])
    else Record(Findings(rules[..|rules| - 1], judge), judge(rules[|rules| - 1]))
  }

  /** A finding appended to the list it belongs to. */
  function Record(before: ValidationResult, f: Finding): ValidationResult {
    match f
    case NoFinding => before
    case ToErrors(e) => before.(errors := before.errors + [e])
    case ToWarnings(e) => before.(warnings := before.warnings + [e])
  }

  /** Rules are judged independently and their findings kept in order: the result for two
      runs of rules is the two results one after the other. */
  lemma {:induction false} FindingsAppend(a: seq<Rule>, b: seq<Rule>, judge: Rule -> Finding)
    ensures Findings(a + b, judge) == ValidationResult(
      Findings(a, judge).errors + Findings(b, judge).errors,
      Findings(a, judge).warnings + Findings(b, judge).warnings)
    decreases |b|
  {
    if b == [] {
      assert a + b == a;
    } else {
      var init := b[..|b| - 1];
      FindingsAppend(a, init, judge);
      assert (a + b)[..|a + b| - 1] == a + init;
      assert (a + b)[|a + b| - 1] == b[|b| - 1];
    }
  }

  /** Each rule gives at most one finding. */
  lemma {:induction false} AtMostOneFinding(rules: seq<Rule>, judge: Rule -> Finding)
    ensures |Findings(rules, judge).errors| + |Findings(rules, judge).warnings| <= |rules|
    decreases |rules|
  {
    if rules != [] {
      AtMostOneFinding(rules[..|rules| - 1], judge);
    }
  }

  /** The result is empty exactly when no rule gives a finding. */
  lemma {:induction false} FindingsEmpty(rules: seq<Rule>, judge: Rule -> Finding)
    ensures Findings(rules, judge) == ValidationResult([], []) <==>
      forall k | 0 <= k < |rules| :: judge(rules[k]) == NoFinding
    decreases |rules|
  {
    if rules != [] {
      var init := rules[..|rules| - 1];
      FindingsEmpty(init, judge);
      assert forall k | 0 <= k < |init| :: init[k] == rules[k];
    }
  }

  /** There are no warnings exactly when no rule gives a warning. */
  lemma {:induction false} FindingsNoWarnings(rules: seq<Rule>, judge: Rule -> Finding)
    ensures Findings(rules, judge).warnings == [] <==> forall k | 0 <= k < |rules| :: !judge(rules[k]).ToWarnings?
    decreases |rules|
  {
    if rules != [] {
      var init := rules[..|rules| - 1];
      FindingsNoWarnings(init, judge);
      assert forall k | 0 <= k < |init| :: init[k] == rules[k];
    }
  }

  /** There are no errors exactly when no rule gives an error. */
  lemma {:induction false} FindingsNoErrors(rules: seq<Rule>, judge: Rule -> Finding)
    ensures Findings(rules, judge).errors == [] <==> forall k | 0 <= k < |rules| :: !judge(rules[k]).ToErrors?
    decreases |rules|
  {
    if rules != [] {
      var init := rules[..|rules| - 1];
      FindingsNoErrors(init, judge);
      assert forall k | 0 <= k < |init| :: init[k] == rules[k];
    }
  }

  /** The result of validateRules is empty exactly when every rule compiles, builds and
      evaluates to `true`. */
  lemma AllPass(rules: seq<Rule>, values: map<string, Value>, cel: Cel)
    ensures Checked(rules, values, cel) == ValidationResult([], []) <==>
      forall k | 0 <= k < |rules| ::
        cel.compile(rules[k].expr).Success? && cel.program(rules[k].expr).Success?
        && cel.eval(rules[k].expr, values) == Ok(Bool(true))
  {
    FindingsEmpty(rules, Judgement(values, cel));
    forall k | 0 <= k < |rules| {
      JudgeCases(rules[k], values, cel);
    }
  }

  /** Without rules of severity "warning" validateRules reports no warnings. */
  lemma NoWarningRules(rules: seq<Rule>, values: map<string, Value>, cel: Cel)
    requires forall k | 0 <= k < |rules| :: rules[k].severity != WarningSeverity
    ensures Checked(rules, values, cel).warnings == []
  {
    forall k | 0 <= k < |rules| ensures !Judgement(values, cel)(rules[k]).ToWarnings? {
      JudgeCases(rules[k], values, cel);
    }
    FindingsNoWarnings(rules, Judgement(values, cel));
  }

  /** The result has no errors, so the chart passes, exactly when every rule compiles and
      builds and every rule that does not evaluate to `true` has severity "warning": the
      failures of warning rules never make the chart fail. */
  lemma WarningsOnly(rules: seq<Rule>, values: map<string, Value>, cel: Cel)
    ensures !Checked(rules, values, cel).HasErrors() <==>
      forall k | 0 <= k < |rules| ::
        cel.compile(rules[k].expr).Success? && cel.program(rules[k].expr).Success?
        && (cel.eval(rules[k].expr, values) != Ok(Bool(true)) ==> rules[k].severity == WarningSeverity)
  {
    FindingsNoErrors(rules, Judgement(values, cel));
    forall k | 0 <= k < |rules| {
      JudgeCases(rules[k], values, cel);
    }
  }

  /** The result has warnings exactly when some rule of severity "warning" compiles and
      builds but does not evaluate to `true`. */
  lemma WarningsIff(rules: seq<Rule>, values: map<string, Value>, cel: Cel)
    ensures Checked(rules, values, cel).warnings != [] <==>
      exists k | 0 <= k < |rules| ::
        rules[k].severity == WarningSeverity && cel.compile(rules[k].expr).Success?
        && cel.program(rules[k].expr).Success? && cel.eval(rules[k].expr, values) != Ok(Bool(true))
  {
    FindingsNoWarnings(rules, Judgement(values, cel));
    forall k | 0 <= k < |rules| {
      JudgeCases(rules[k], values, cel);
    }
  }

  /** validateRules one rule further. */
  lemma CheckedSnoc(rules: seq<Rule>, i: nat, values: map<string, Value>, cel: Cel)
    requires i < |rules|
    ensures Checked(rules[..i + 1], values, cel) == Record(Checked(rules[..i], values, cel), Judge(rules[i], values, cel))
  {
    assert rules[..i + 1][..i] == rules[..i];
  }

  /** validateRules: the loop over the rules, appending each finding to its list. */
  method ValidateRules(values: map<string, Value>, rules: ValidationRules, cel: Cel) returns (result: ValidationResult)
    ensures result == Checked(rules.rules, values, cel)
  {
    var errors: seq<ValidationError> := [];
    var warnings: seq<ValidationError> := [];
    var all := rules.rules;
    for i := 0 to |all|
      invariant Checked(all[..i], values, cel) == ValidationResult(errors, warnings)
    {
      var rule := all[i];
      CheckedSnoc(all, i, values, cel);
      if cel.compile(rule.expr).Failure? {
        errors := errors + [ValidationError("Invalid rule syntax in '" + rule.desc + "': " + cel.compile(rule.expr).msg, rule.expr, Null, "")];
        continue;
      }
      if cel.program(rule.expr).Failure? {
        errors := errors + [ValidationError("Failed to process rule '" + rule.desc + "': " + cel.program(rule.expr).msg, rule.expr, Null, "")];
        continue;
      }
      var out := cel.eval(rule.expr, values);
      var validationError := ValidationError(rule.desc, rule.expr, Null, "");
      if out.Err? {
        validationError := validationError.(path := ExtractPath(out.msg));
        if rule.severity == WarningSeverity {
          warnings := warnings + [validationError];
        } else {
          errors := errors + [validationError];
        }
        continue;
      }
      if out.value != Bool(true) {
        var value, path := ExtractValueFromValues(values, rule.expr);
        validationError := validationError.(value := value, path := path);
        if rule.severity == WarningSeverity {
          warnings := warnings + [validationError];
        } else {
          errors := errors + [validationError];
        }
      }
    }
    assert all[..|all|] == all;
    return ValidationResult(errors, warnings);
  }

  // ---------------------------------------------------------------------------------
  // ValidateChart
  // ---------------------------------------------------------------------------------

  /** What ValidateChart returns once the files are loaded: a load error of either kind,
      an empty result for no rules, the environment's or the preparation's error, or the
      result of validating the prepared rules. */
  predicate ChartOutcome(valuesFiles: seq<ValuesLoader.ValuesFile>, rulesFiles: seq<RulesLoader.RulesFile>,
                         envInit: Outcome, cel: Cel, r: Result<ValidationResult>)
  {
    var values := ValuesLoader.MergedValues(valuesFiles);
    var merge := RulesLoader.MergeUpTo(rulesFiles, |rulesFiles|);
    if values.Err? then r == Err("failed to load values: " + values.msg)
    else if !merge.Merged? then
      r.Err? && HasPrefix(r.msg, "failed to load rules: ")
      && RulesLoader.ReportsStop(rulesFiles, merge, r.msg[|"failed to load rules: "|..])
    else if merge.rules == [] then r == Ok(ValidationResult([], []))
    else if envInit.Failure? then r == Err("failed to initialize CEL environment: " + envInit.msg)
    else
      var prepared := Prepared(merge.rules, merge.expressions);
      match prepared.1
      case Failure(m) => r == Err(m)
      case Success => r == Ok(Checked(prepared.0, values.value, cel))
  }

  /** ValidateChart after the file paths are resolved: loads and merges the values and
      the rules, returns early without rules, prepares the named expressions and
      validates. `envInit` is the outcome of creating the CEL environment. */
  method ValidateChart(valuesFiles: seq<ValuesLoader.ValuesFile>, rulesFiles: seq<RulesLoader.RulesFile>,
                       envInit: Outcome, cel: Cel) returns (r: Result<ValidationResult>)
    ensures ChartOutcome(valuesFiles, rulesFiles, envInit, cel, r)
  {
    var mergedValues := ValuesLoader.LoadAndMergeValues(valuesFiles);
    if mergedValues.Err? {
      return Err("failed to load values: " + mergedValues.msg);
    }
    var mergedRules := RulesLoader.LoadAndMergeRules(rulesFiles);
    if mergedRules.Err? {
      r := Err("failed to load rules: " + mergedRules.msg);
      assert r.msg[|"failed to load rules: "|..] == mergedRules.msg;
      return;
    }
    var rules := mergedRules.value;
    if |rules.rules| == 0 {
      return Ok(ValidationResult([], []));
    }
    if envInit.Failure? {
      return Err("failed to initialize CEL environment: " + envInit.msg);
    }
    var prepared := PrepareNamedExpressions(rules);
    if prepared.Failure? {
      return Err(prepared.msg);
    }
    var result := ValidateRules(mergedValues.value, rules, cel);
    return Ok(result);
  }
}
