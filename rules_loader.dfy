/** pkg/validator/rules_loader.go: the merge of several rules files into one rule list
    and one named-expression table. Reading and decoding a file is not modelled: each
    file comes with its decoded contents, or the error its loading ends in. */
module RulesLoader {
  import opened Wrappers
  import opened Models

  /** The decoded contents of one rules file. A file without `expressions` decodes to an
      empty table. */
  datatype LoadedRules = LoadedRules(rules: seq<Rule>, expressions: map<string, string>)

  /** A rules file: its path and what loading it gives. */
  datatype RulesFile = RulesFile(path: string, content: Result<LoadedRules>)

  function LoadError(path: string, e: string): string {
    "failed to load rules from " + path + ": " + e
  }

  function DuplicateError(name: string, path: string, existing: string): string {
    "duplicate named expression '" + name + "' found in " + path + " (already defined as '" + existing + "')"
  }

  /** Where the merge of the first files stands: merged so far, stopped by the file `f`
      that failed to load, or stopped by the file `f` defining a name already in `table`,
      the table merged before it. */
  datatype RulesMerge =
    | Merged(rules: seq<Rule>, expressions: map<string, string>)
    | LoadFailed(f: nat, msg: string)
    | Clashed(f: nat, table: map<string, string>)

  /** The merge of the first `n` files: rule lists concatenated in file order, tables
      united; the first file that fails to load or redefines a name ends it. */
  function MergeUpTo(files: seq<RulesFile>, n: nat): RulesMerge
    requires n <= |files|
  {
    if n == 0 then Merged([], map[])
    else
      match MergeUpTo(files, n - 1)
      case Merged(rules, table) =>
        (match files[n - 1].content
         case Err(e) => LoadFailed(n - 1, LoadError(files[n - 1].path, e))
         case Ok(c) =>
           if c.expressions.Keys !! table.Keys then Merged(rules + c.rules, table + c.expressions)
           else Clashed(n - 1, table))
      case stopped => stopped
  }

  /** The error LoadAndMergeRules may report for a stopped merge: the load error, or the
      duplicate error for one of the names the clashing file redefines (which one depends
      on Go's map iteration order). */
  predicate ReportsStop(files: seq<RulesFile>, m: RulesMerge, msg: string)
    requires !m.Merged?
  {
    match m
    case LoadFailed(_, e) => msg == e
    case Clashed(f, table) =>
      f < |files| && files[f].content.Ok? &&
      exists name | name in files[f].content.value.expressions && name in table ::
        msg == DuplicateError(name, files[f].path, table[name])
  }

  /** A stopped merge stays stopped. */
  lemma {:induction false} MergeStopped(files: seq<RulesFile>, n: nat, k: nat)
    requires n <= k <= |files| && !MergeUpTo(files, n).Merged?
    ensures MergeUpTo(files, k) == MergeUpTo(files, n)
    decreases k - n
  {
    if n < k {
      MergeStopped(files, n, k - 1);
    }
  }

  /** Every file's rules, in order (the reference concatenation). */
  function AllRules(files: seq<RulesFile>): seq<Rule>
    requires forall j | 0 <= j < |files| :: files[j].content.Ok?
  {
    if files == [] then [] else files[0].content.value.rules + AllRules(files[1..])
  }

  /** The rules of the first `n` files after the rules of file 0 (helper of MergedRules). */
  lemma {:induction false} AllRulesSnoc(files: seq<RulesFile>, n: nat)
    requires 0 < n <= |files| && forall j | 0 <= j < |files| :: files[j].content.Ok?
    ensures AllRules(files[..n]) == AllRules(files[..n - 1]) + files[n - 1].content.value.rules
    decreases n
  {
    if n == 1 {
      assert files[..n][1..] == [];
    } else {
      assert files[..n][1..] == files[1..][..n - 1];
      assert files[..n - 1][1..] == files[1..][..n - 2];
      AllRulesSnoc(files[1..], n - 1);
    }
  }

  /** A completed merge holds the concatenation of the files' rules, and a table that
      maps every name each file defines to that file's expression. */
  lemma {:induction false} MergedContents(files: seq<RulesFile>, n: nat)
    requires n <= |files| && MergeUpTo(files, n).Merged?
    ensures forall j | 0 <= j < n :: files[j].content.Ok?
    ensures MergeUpTo(files, n).rules == AllRules(files[..n])
    ensures forall j, name | 0 <= j < n && files[j].content.Ok? && name in files[j].content.value.expressions ::
      name in MergeUpTo(files, n).expressions
      && MergeUpTo(files, n).expressions[name] == files[j].content.value.expressions[name]
    ensures forall name | name in MergeUpTo(files, n).expressions ::
      exists j | 0 <= j < n :: files[j].content.Ok? && name in files[j].content.value.expressions
    decreases n
  {
    if n == 0 {
      assert files[..0] == [];
    } else {
      MergedContents(files, n - 1);
      var c := files[n - 1].content.value;
      var all := files[..n];
      assert forall j | 0 <= j < |all| :: all[j].content.Ok?;
      AllRulesSnoc(all, n);
      assert all[..n - 1] == files[..n - 1];
      assert all[..n] == all;
    }
  }

  /** The files' tables are pairwise disjoint. */
  predicate DisjointUpTo(files: seq<RulesFile>, n: nat)
    requires n <= |files| && forall j | 0 <= j < n :: files[j].content.Ok?
  {
    forall i, j | 0 <= i < j < n :: files[i].content.value.expressions.Keys !! files[j].content.value.expressions.Keys
  }

  /** The merge completes exactly when every file loads and no name is defined twice. */
  lemma {:induction false} MergedIff(files: seq<RulesFile>, n: nat)
    requires n <= |files|
    ensures MergeUpTo(files, n).Merged? <==>
      (forall j | 0 <= j < n :: files[j].content.Ok?) && DisjointUpTo(files, n)
    decreases n
  {
    if n > 0 {
      MergedIff(files, n - 1);
      var prev := MergeUpTo(files, n - 1);
      if prev.Merged? && files[n - 1].content.Ok? {
        MergedContents(files, n - 1);
        var keys := files[n - 1].content.value.expressions.Keys;
        if !(keys !! prev.expressions.Keys) {
          var name :| name in keys && name in prev.expressions;
          var i :| 0 <= i < n - 1 && files[i].content.Ok? && name in files[i].content.value.expressions;
          assert name in files[i].content.value.expressions.Keys;
        }
      } else if !prev.Merged? {
        MergeStopped(files, n - 1, n);
      }
    }
  }

  /** Adding an entry after an override is adding it to the overriding map. */
  lemma OverrideInsert(before: map<string, string>, inserted: map<string, string>, name: string, value: string)
    ensures (before + inserted)[name := value] == before + inserted[name := value]
  {
  }

  /** The inner loop of LoadAndMergeRules: inserts the names of one file into the merged
      table one by one, in any order, and stops at the first name already defined before
      this file. */
  method MergeExpressions(merged: ValidationRules, defined: map<string, string>, path: string)
    returns (duplicate: Option<string>)
    modifies merged
    ensures merged.rules == old(merged.rules)
    ensures duplicate.None? <==> defined.Keys !! old(merged.expressions).Keys
    ensures duplicate.None? ==> merged.expressions == old(merged.expressions) + defined
    ensures duplicate.Some? ==>
      exists name | name in defined && name in old(merged.expressions) ::
        duplicate.value == DuplicateError(name, path, old(merged.expressions)[name])
  {
    ghost var before := merged.expressions;
    ghost var inserted: map<string, string> := map[];
    var remaining := defined.Keys;
    while remaining != {}
      invariant merged.rules == old(merged.rules)
      invariant remaining <= defined.Keys && inserted.Keys <= defined.Keys
      invariant forall name | name in defined :: name in inserted <==> name !in remaining
      invariant forall name | name in inserted :: inserted[name] == defined[name]
      invariant (forall name | name in inserted :: name !in before) && merged.expressions == before + inserted
      decreases |remaining|
    {
      var name :| name in remaining;
      if name in merged.expressions {
        return Some(DuplicateError(name, path, merged.expressions[name]));
      }
      OverrideInsert(before, inserted, name, defined[name]);
      merged.expressions := merged.expressions[name := defined[name]];
      inserted := inserted[name := defined[name]];
      remaining := remaining - {name};
    }
    assert inserted == defined;
    return None;
  }

  /** LoadAndMergeRules: the loop over the files, appending the rules and merging the
      named expressions into a fresh ValidationRules. */
  method LoadAndMergeRules(files: seq<RulesFile>) returns (r: Result<ValidationRules>)
    ensures r.Ok? <==> MergeUpTo(files, |files|).Merged?
    ensures r.Ok? ==> (fresh(r.value)
      && r.value.rules == MergeUpTo(files, |files|).rules
      && r.value.expressions == MergeUpTo(files, |files|).expressions)
    ensures r.Err? ==> ReportsStop(files, MergeUpTo(files, |files|), r.msg)
  {
    var mergedRules := new ValidationRules([], map[]);
    for i := 0 to |files|
      invariant MergeUpTo(files, i) == Merged(mergedRules.rules, mergedRules.expressions)
    {
      var file := files[i];
      if file.content.Err? {
        MergeStopped(files, i + 1, |files|);
        return Err(LoadError(file.path, file.content.msg));
      }
      var loaded := file.content.value;
      mergedRules.rules := mergedRules.rules + loaded.rules;
      var duplicate := MergeExpressions(mergedRules, loaded.expressions, file.path);
      if duplicate.Some? {
        MergeStopped(files, i + 1, |files|);
        return Err(duplicate.value);
      }
    }
    r := Ok(mergedRules);
  }
}
