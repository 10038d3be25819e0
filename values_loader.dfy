/** pkg/validator/values_loader.go: deep merge of values trees and the fold over the
    values files. Reading and decoding a file is not modelled: each file comes with the
    map it decodes to, or the error its loading ends in. */
module ValuesLoader {
  import opened Wrappers
  import opened Values

  /** mergeValues: the keys of both maps; a key only in `base` keeps its value; a key of
      `overlay` takes the overlay's value, except that two maps under the same key are
      merged in turn. Neither input is changed: the result is a new map. */
  function MergeValues(base: map<string, Value>, overlay: map<string, Value>): (r: map<string, Value>)
    ensures r.Keys == base.Keys + overlay.Keys
    decreases Map(overlay)
  {
    map k | k in base.Keys + overlay.Keys ::
      if k !in overlay then base[k]
      else if k in base && base[k].Map? && overlay[k].Map? then
        assert overlay[k] in overlay.Values;
        Map(MergeValues(base[k].fields, overlay[k].fields))
      else overlay[k]
  }

  /** Both values under a key are maps: mergeValues recurses into them. */
  predicate BothMaps(base: map<string, Value>, overlay: map<string, Value>, k: string) {
    k in base && k in overlay && base[k].Map? && overlay[k].Map?
  }

  /** The three cases of a merged key. */
  lemma MergeCases(base: map<string, Value>, overlay: map<string, Value>, k: string)
    ensures k in base && k !in overlay ==> MergeValues(base, overlay)[k] == base[k]
    ensures k in overlay && !BothMaps(base, overlay, k) ==> MergeValues(base, overlay)[k] == overlay[k]
    ensures BothMaps(base, overlay, k) ==>
      MergeValues(base, overlay)[k] == Map(MergeValues(base[k].fields, overlay[k].fields))
  {
  }

  /** An overlay without nested maps simply overrides the base, key by key. */
  lemma FlatOverlay(base: map<string, Value>, overlay: map<string, Value>)
    requires forall k | k in overlay :: !overlay[k].Map?
    ensures MergeValues(base, overlay) == base + overlay
  {
  }

  /** Merging into nothing copies the overlay; merging nothing copies the base. */
  lemma MergeEmpty(m: map<string, Value>)
    ensures MergeValues(map[], m) == m
    ensures MergeValues(m, map[]) == m
  {
  }

  /** A tree merged with itself is unchanged. */
  lemma {:induction false} MergeSelf(m: map<string, Value>)
    ensures MergeValues(m, m) == m
    decreases Map(m)
  {
    forall k | k in m ensures MergeValues(m, m)[k] == m[k] {
      if m[k].Map? {
        assert m[k] in m.Values;
        MergeSelf(m[k].fields);
      }
    }
  }

  /** Merging the same overlay a second time changes nothing. */
  lemma {:induction false} MergeOverlayAgain(base: map<string, Value>, overlay: map<string, Value>)
    ensures MergeValues(MergeValues(base, overlay), overlay) == MergeValues(base, overlay)
    decreases Map(overlay)
  {
    var once := MergeValues(base, overlay);
    forall k | k in once ensures MergeValues(once, overlay)[k] == once[k] {
      if k in overlay && overlay[k].Map? && once[k].Map? {
        assert overlay[k] in overlay.Values;
        if BothMaps(base, overlay, k) {
          MergeOverlayAgain(base[k].fields, overlay[k].fields);
        } else {
          MergeSelf(overlay[k].fields);
        }
      }
    }
  }

  /** A values file: its path and what loading it gives. */
  datatype ValuesFile = ValuesFile(path: string, content: Result<map<string, Value>>)

  function LoadError(path: string, e: string): string {
    "failed to load values from " + path + ": " + e
  }

  /** The fold of LoadAndMergeValues: from an empty map, each file merged over the result
      so far, left to right; the first file that fails to load ends it. */
  function MergedValues(files: seq<ValuesFile>): Result<map<string, Value>>
    decreases |files|
  {
    if files == [] then Ok(map[])
    else
      var last := files[|files| - 1];
      match MergedValues(files[..|files| - 1])
      case Err(e) => Err(e)
      case Ok(m) =>
        match last.content
        case Err(e) => Err(LoadError(last.path, e))
        case Ok(v) => Ok(MergeValues(m, v))
  }

  /** The files up to `n` all load. */
  predicate LoadsUpTo(files: seq<ValuesFile>, n: nat)
    requires n <= |files|
  {
    forall j | 0 <= j < n :: files[j].content.Ok?
  }

  /** The top-level keys of the first `n` files. */
  function KeysUpTo(files: seq<ValuesFile>, n: nat): set<string>
    requires n <= |files| && LoadsUpTo(files, n)
  {
    if n == 0 then {} else KeysUpTo(files, n - 1) + files[n - 1].content.value.Keys
  }

  /** The fold succeeds exactly when every file loads; the merged tree then has the keys of
      all files. */
  lemma {:induction false} MergedValuesOk(files: seq<ValuesFile>)
    ensures MergedValues(files).Ok? <==> LoadsUpTo(files, |files|)
    ensures MergedValues(files).Ok? ==> MergedValues(files).value.Keys == KeysUpTo(files, |files|)
    decreases |files|
  {
    if files != [] {
      var init := files[..|files| - 1];
      MergedValuesOk(init);
      assert forall j | 0 <= j < |init| :: init[j] == files[j];
      if LoadsUpTo(init, |init|) {
        assert KeysUpTo(init, |init|) == KeysUpTo(files, |init|) by {
          KeysPrefix(init, files, |init|);
        }
      }
    }
  }

  /** KeysUpTo depends only on the files it covers. */
  lemma {:induction false} KeysPrefix(a: seq<ValuesFile>, b: seq<ValuesFile>, n: nat)
    requires n <= |a| && n <= |b| && forall j | 0 <= j < n :: a[j] == b[j]
    requires LoadsUpTo(a, n) && LoadsUpTo(b, n)
    ensures KeysUpTo(a, n) == KeysUpTo(b, n)
  {
    if n > 0 {
      KeysPrefix(a, b, n - 1);
    }
  }

  /** When file `f` is the first that fails to load, the fold fails naming it. */
  lemma {:induction false} MergedValuesFailure(files: seq<ValuesFile>, f: nat)
    requires f < |files| && files[f].content.Err? && LoadsUpTo(files, f)
    ensures MergedValues(files) == Err(LoadError(files[f].path, files[f].content.msg))
    decreases |files|
  {
    var init := files[..|files| - 1];
    if f < |files| - 1 {
      assert forall j | 0 <= j < |init| :: init[j] == files[j];
      MergedValuesFailure(init, f);
    } else {
      assert forall j | 0 <= j < |init| :: init[j] == files[j];
      MergedValuesOk(init);
    }
  }

  /** One file that loads gives its own tree. */
  lemma SingleFile(file: ValuesFile)
    requires file.content.Ok?
    ensures MergedValues([file]) == Ok(file.content.value)
  {
    assert [file][..0] == [];
    MergeEmpty(file.content.value);
  }

  /** LoadAndMergeValues: the loop over the files. */
  method LoadAndMergeValues(files: seq<ValuesFile>) returns (r: Result<map<string, Value>>)
    ensures r == MergedValues(files)
  {
    var mergedValues: map<string, Value> := map[];
    for i := 0 to |files|
      invariant MergedValues(files[..i]) == Ok(mergedValues)
    {
      assert files[..i + 1][..i] == files[..i];
      var file := files[i];
      if file.content.Err? {
        MergedValuesOk(files[..i]);
        assert LoadsUpTo(files, i) by {
          assert forall j | 0 <= j < i :: files[..i][j] == files[j];
        }
        MergedValuesFailure(files, i);
        return Err(LoadError(file.path, file.content.msg));
      }
      mergedValues := MergeValues(mergedValues, file.content.value);
    }
    assert files[..|files|] == files;
    r := Ok(mergedValues);
  }
}
