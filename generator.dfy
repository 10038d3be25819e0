/** pkg/generator/generator.go: a starting set of rules derived from a values tree, one
    or two per node by its type. Go's map iteration order is not fixed, so the rules are
    specified as a multiset: any order of visiting the keys gives the same multiset. */
module Generator {
  import opened Values
  import opened GoStrings
  import opened Models

  /** isPort: an integer in 1..65535 under a key that mentions "port" in any case. */
  function IsPort(key: string, value: int): (b: bool)
    ensures b ==> 1 <= value <= 65535
  {
    if value < 1 || value > 65535 then false else Contains(ToLower(key), "port")
  }

  /** isResource: the key, in any case, is "cpu" or "memory" or ends in ".cpu" or ".memory". */
  function IsResource(key: string): bool {
    var k := ToLower(key);
    k == "cpu" || k == "memory" || HasSuffix(k, ".cpu") || HasSuffix(k, ".memory")
  }

  /** Both classifiers ignore the case of the key. */
  lemma ClassifiersIgnoreCase(key: string, value: int)
    ensures IsPort(ToLower(key), value) == IsPort(key, value)
    ensures IsResource(ToLower(key)) == IsResource(key)
  {
    ToLowerIdempotent(key);
  }

  /** A value outside 1..65535 is never a port, whatever the key. */
  lemma PortRange(key: string, value: int)
    requires value < 1 || value > 65535
    ensures !IsPort(key, value)
  {
  }

  /** A key mentioning "Port" in an integer in range is a port; out of range it is not. */
  lemma PortExample()
    ensures IsPort("servicePort", 8080) && !IsPort("servicePort", 0)
  {
    assert ToLower("servicePort") == "serviceport";
    assert OccursAt("serviceport", "port", 7);
    ContainsAt("serviceport", "port", 7);
  }

  /** A key without "port" is not a port. */
  lemma NotPortExample()
    ensures !IsPort("replicas", 3)
  {
    assert ToLower("replicas") == "replicas";
    AbsentChar("replicas", 'o');
    NoOccurrenceBeyond("replicas", "port", 'o');
  }

  /** The resource keys match whole or after a dot, in any case. */
  lemma ResourceExample()
    ensures IsResource("CPU") && IsResource("limits.memory") && !IsResource("cpus")
  {
    assert ToLower("CPU") == "cpu";
    assert ToLower("limits.memory") == "limits.memory";
    assert "limits.memory"[6..] == ".memory";
    assert ToLower("cpus") == "cpus";
  }

  /** A text without the character `c` contains no text in which `c` occurs. */
  lemma NoOccurrenceBeyond(s: string, sub: string, c: char)
    requires c in sub && !Contains(s, [c])
    ensures !Contains(s, sub)
  {
    if Contains(s, sub) {
      var i := Index(s, sub);
      var p :| 0 <= p < |sub| && sub[p] == c;
      assert s[i + p] == c;
      assert OccursAt(s, [c], i + p);
      ContainsAt(s, [c], i + p);
    }
  }

  function PortRule(path: string, key: string): Rule {
    Rule(path + " >= 1 && " + path + " <= 65535", key + " must be a valid port number (1-65535)", "")
  }

  function ResourceRule(path: string, key: string): Rule {
    Rule(path + ".matches('^[0-9]+(.[0-9]+)?(m|Mi|Gi|Ti|Pi|Ei|n|u|m|k|M|G|T|P|E)?$')",
         key + " must be a valid resource quantity", "")
  }

  /** The rules generateRulesForValue appends for a value at `path` under `key`: a type
      rule for a string, number, boolean or integer, followed by the resource rule for a
      resource key or the port rule for a port; nothing for any other value. */
  function ValueRules(path: string, v: Value, key: string): seq<Rule> {
    match v
    case Str(_) =>
      [Rule("type(" + path + ") == string", key + " must be a string", "")]
      + (if IsResource(key) then [ResourceRule(path, key)] else [])
    case Float(_) =>
      [Rule("type(" + path + ") == int || type(" + path + ") == double", key + " must be a number", "")]
    case Bool(_) =>
      [Rule("type(" + path + ") == bool", key + " must be a boolean", "")]
    case Int(i) =>
      [Rule("type(" + path + ") == int", key + " must be an integer", "")]
      + (if IsPort(key, i) then [PortRule(path, key)] else [])
    case _ => []
  }

  /** Scalars, and only scalars, get value rules, at most two; none sets a severity. */
  lemma ValueRulesShape(path: string, v: Value, key: string)
    ensures |ValueRules(path, v, key)| <= 2
    ensures ValueRules(path, v, key) != [] <==> v.Str? || v.Float? || v.Bool? || v.Int?
    ensures forall r | r in ValueRules(path, v, key) :: r.severity == ""
  {
  }

  /** The rule a map child gets before the rules of its own children. */
  function DefinedRule(path: string, key: string): Rule {
    Rule("has(" + path + ")", key + " must be defined", "")
  }

  /** The rule a list child gets before the rules of its first element. */
  function ArrayRule(path: string, key: string): Rule {
    Rule("size(" + path + ") >= 0", key + " must be an array", "")
  }

  /** The rules generateRulesForMap produces for the keys `keys` of `m`, whose paths
      start with `prefix`. */
  ghost function KeysRules(prefix: string, m: map<string, Value>, keys: set<string>): multiset<Rule>
    requires keys <= m.Keys
    decreases Map(m), |keys|
  {
    if keys == {} then multiset{}
    else
      var k :| k in keys;
      assert m[k] in m.Values;
      ChildRules(prefix, k, m[k]) + KeysRules(prefix, m, keys - {k})
  }

  /** The rules generateRulesForMap produces for all of `m`. */
  ghost function MapRules(prefix: string, m: map<string, Value>): multiset<Rule> {
    KeysRules(prefix, m, m.Keys)
  }

  /** The rules for the child `k` of a map, at `prefix.k`: a map gets its defined rule and
      its children's rules; a list its array rule and the rules of its first element; any
      other value its value rules. */
  ghost function ChildRules(prefix: string, k: string, v: Value): multiset<Rule>
    decreases v, if v.Map? then |v.fields| + 1 else 0
  {
    var path := prefix + "." + k;
    match v
    case Map(f) =>
      assert |f.Keys| == |f|;
      multiset{DefinedRule(path, k)} + KeysRules(path, f, f.Keys)
    case List(items) =>
      multiset{ArrayRule(path, k)} + (if |items| > 0 then ElementRules(path, k, items[0]) else multiset{})
    case _ => multiset(ValueRules(path, v, k))
  }

  /** The rules for the first element of the list at `path` under `k`: a map gives the
      value rules of each of its fields at `path[0].field` (no deeper), anything else
      its own value rules at `path[0]` under the list's key. */
  ghost function ElementRules(path: string, k: string, first: Value): multiset<Rule> {
    match first
    case Map(f) => FieldRules(path, f, f.Keys)
    case _ => multiset(ValueRules(path + "[0]", first, k))
  }

  ghost function FieldRules(path: string, f: map<string, Value>, keys: set<string>): multiset<Rule>
    requires keys <= f.Keys
    decreases |keys|
  {
    if keys == {} then multiset{}
    else
      var fk :| fk in keys;
      multiset(ValueRules(path + "[0]." + fk, f[fk], fk)) + FieldRules(path, f, keys - {fk})
  }

  /** Order does not matter: the rules of a key set are those of any one of its keys and
      those of the rest. */
  lemma {:induction false} KeysRulesPick(prefix: string, m: map<string, Value>, keys: set<string>, k: string)
    requires keys <= m.Keys && k in keys
    ensures KeysRules(prefix, m, keys) == ChildRules(prefix, k, m[k]) + KeysRules(prefix, m, keys - {k})
    decreases |keys|
  {
    var j :| j in keys && KeysRules(prefix, m, keys) == ChildRules(prefix, j, m[j]) + KeysRules(prefix, m, keys - {j});
    if j != k {
      KeysRulesPick(prefix, m, keys - {j}, k);
      KeysRulesPick(prefix, m, keys - {k}, j);
      assert keys - {j} - {k} == keys - {k} - {j};
    }
  }

  /** The same for the fields of a list's first element. */
  lemma {:induction false} FieldRulesPick(path: string, f: map<string, Value>, keys: set<string>, fk: string)
    requires keys <= f.Keys && fk in keys
    ensures FieldRules(path, f, keys) == multiset(ValueRules(path + "[0]." + fk, f[fk], fk)) + FieldRules(path, f, keys - {fk})
    decreases |keys|
  {
    var j :| j in keys && FieldRules(path, f, keys) == multiset(ValueRules(path + "[0]." + j, f[j], j)) + FieldRules(path, f, keys - {j});
    if j != fk {
      FieldRulesPick(path, f, keys - {j}, fk);
      FieldRulesPick(path, f, keys - {fk}, j);
      assert keys - {j} - {fk} == keys - {fk} - {j};
    }
  }

  /** Generated rules never set a severity, so every one of them reports as an error. */
  lemma {:induction false} KeysRulesSeverity(prefix: string, m: map<string, Value>, keys: set<string>)
    requires keys <= m.Keys
    ensures forall r | r in KeysRules(prefix, m, keys) :: r.severity == ""
    decreases Map(m), |keys|
  {
    if keys != {} {
      var k :| k in keys && KeysRules(prefix, m, keys) == ChildRules(prefix, k, m[k]) + KeysRules(prefix, m, keys - {k});
      assert m[k] in m.Values;
      ChildRulesSeverity(prefix, k, m[k]);
      KeysRulesSeverity(prefix, m, keys - {k});
    }
  }

  lemma {:induction false} ChildRulesSeverity(prefix: string, k: string, v: Value)
    ensures forall r | r in ChildRules(prefix, k, v) :: r.severity == ""
    decreases v, if v.Map? then |v.fields| + 1 else 0
  {
    var path := prefix + "." + k;
    match v
    case Map(f) =>
      assert |f.Keys| == |f|;
      KeysRulesSeverity(path, f, f.Keys);
    case List(items) =>
      if |items| > 0 {
        ValueRulesShape(path + "[0]", items[0], k);
        if items[0].Map? {
          FieldRulesSeverity(path, items[0].fields, items[0].fields.Keys);
        }
      }
    case _ =>
      ValueRulesShape(path, v, k);
  }

  lemma {:induction false} FieldRulesSeverity(path: string, f: map<string, Value>, keys: set<string>)
    requires keys <= f.Keys
    ensures forall r | r in FieldRules(path, f, keys) :: r.severity == ""
    decreases |keys|
  {
    if keys != {} {
      var fk :| fk in keys && FieldRules(path, f, keys) == multiset(ValueRules(path + "[0]." + fk, f[fk], fk)) + FieldRules(path, f, keys - {fk});
      ValueRulesShape(path + "[0]." + fk, f[fk], fk);
      FieldRulesSeverity(path, f, keys - {fk});
    }
  }

  /** Every child of a map contributes its rules: a nested map its defined rule, a list
      its array rule. */
  lemma ChildContributes(prefix: string, m: map<string, Value>, k: string)
    requires k in m
    ensures ChildRules(prefix, k, m[k]) <= MapRules(prefix, m)
    ensures m[k].Map? ==> DefinedRule(prefix + "." + k, k) in MapRules(prefix, m)
    ensures m[k].List? ==> ArrayRule(prefix + "." + k, k) in MapRules(prefix, m)
  {
    KeysRulesPick(prefix, m, m.Keys, k);
  }

  /** generateRulesForValue: appends the value rules of `v`. */
  method GenerateRulesForValue(path: string, v: Value, key: string, rules: ValidationRules)
    modifies rules
    ensures rules.expressions == old(rules.expressions)
    ensures rules.rules == old(rules.rules) + ValueRules(path, v, key)
  {
    match v {
      case Str(_) =>
        Append(rules, Rule("type(" + path + ") == string", key + " must be a string", ""));
        if IsResource(key) {
          Append(rules, ResourceRule(path, key));
        }
      case Float(_) =>
        Append(rules, Rule("type(" + path + ") == int || type(" + path + ") == double", key + " must be a number", ""));
      case Bool(_) =>
        Append(rules, Rule("type(" + path + ") == bool", key + " must be a boolean", ""));
      case Int(i) =>
        Append(rules, Rule("type(" + path + ") == int", key + " must be an integer", ""));
        if IsPort(key, i) {
          Append(rules, PortRule(path, key));
        }
      case _ =>
    }
  }

  /** Go's `rules.Rules = append(rules.Rules, r)`. */
  method Append(rules: ValidationRules, r: Rule)
    modifies rules
    ensures rules.expressions == old(rules.expressions)
    ensures rules.rules == old(rules.rules) + [r]
  {
    rules.rules := rules.rules + [r];
  }

  /** generateRulesForMap: visits the keys of `m` in any order, appending the rules of
      each child and recursing into nested maps. */
  method GenerateRulesForMap(prefix: string, m: map<string, Value>, rules: ValidationRules)
    modifies rules
    ensures rules.expressions == old(rules.expressions)
    ensures multiset(rules.rules) == multiset(old(rules.rules)) + MapRules(prefix, m)
    decreases Map(m), |m| + 1
  {
    var remaining := m.Keys;
    while remaining != {}
      invariant remaining <= m.Keys
      invariant rules.expressions == old(rules.expressions)
      invariant multiset(old(rules.rules)) + MapRules(prefix, m) == multiset(rules.rules) + KeysRules(prefix, m, remaining)
      decreases |remaining|
    {
      var k :| k in remaining;
      KeysRulesPick(prefix, m, remaining, k);
      assert m[k] in m.Values;
      GenerateChild(prefix, k, m[k], rules);
      remaining := remaining - {k};
    }
  }

  /** The body of generateRulesForMap's loop for one key. */
  method GenerateChild(prefix: string, k: string, v: Value, rules: ValidationRules)
    modifies rules
    ensures rules.expressions == old(rules.expressions)
    ensures multiset(rules.rules) == multiset(old(rules.rules)) + ChildRules(prefix, k, v)
    decreases v, if v.Map? then |v.fields| + 2 else 0
  {
    var path := prefix + "." + k;
    match v {
      case Map(f) =>
        rules.rules := rules.rules + [DefinedRule(path, k)];
        GenerateRulesForMap(path, f, rules);
      case List(items) =>
        GenerateListRules(path, k, items, rules);
      case _ =>
        GenerateRulesForValue(path, v, k, rules);
    }
  }

  /** The list case of generateRulesForMap's loop: the array rule, then the rules of the
      first element. */
  method GenerateListRules(path: string, k: string, items: seq<Value>, rules: ValidationRules)
    modifies rules
    ensures rules.expressions == old(rules.expressions)
    ensures multiset(rules.rules) == multiset(old(rules.rules)) + multiset{ArrayRule(path, k)}
      + (if |items| > 0 then ElementRules(path, k, items[0]) else multiset{})
  {
    rules.rules := rules.rules + [ArrayRule(path, k)];
    if |items| > 0 {
      match items[0] {
        case Map(f) =>
          GenerateFieldRules(path, f, rules);
        case _ =>
          GenerateRulesForValue(path + "[0]", items[0], k, rules);
      }
    }
  }

  /** The loop over the fields of a list's first element. */
  method GenerateFieldRules(path: string, f: map<string, Value>, rules: ValidationRules)
    modifies rules
    ensures rules.expressions == old(rules.expressions)
    ensures multiset(rules.rules) == multiset(old(rules.rules)) + FieldRules(path, f, f.Keys)
  {
    var remaining := f.Keys;
    while remaining != {}
      invariant remaining <= f.Keys
      invariant rules.expressions == old(rules.expressions)
      invariant multiset(old(rules.rules)) + FieldRules(path, f, f.Keys) == multiset(rules.rules) + FieldRules(path, f, remaining)
      decreases |remaining|
    {
      var fk :| fk in remaining;
      FieldRulesPick(path, f, remaining, fk);
      GenerateRulesForValue(path + "[0]." + fk, f[fk], fk, rules);
      remaining := remaining - {fk};
    }
  }

  /** GenerateRules after decoding: a fresh rule set for the whole tree under the prefix
      "values", with no named expressions. */
  method GenerateRules(values: map<string, Value>) returns (rules: ValidationRules)
    ensures fresh(rules)
    ensures rules.expressions == map[]
    ensures multiset(rules.rules) == MapRules("values", values)
  {
    rules := new ValidationRules([], map[]);
    GenerateRulesForMap("values", values, rules);
  }
}
