/** The operations of Go's `strings` and `strconv` packages that the core uses, on
    strings modelled as sequences of characters. */
module GoStrings {

  /** `sub` occurs in `s` starting at position `i`. */
  predicate OccursAt(s: string, sub: string, i: int) {
    0 <= i && i + |sub| <= |s| && s[i..i + |sub|] == sub
  }

  /** strings.Index: the first position of `sub` in `s`, or -1. */
  function Index(s: string, sub: string): (r: int)
    ensures -1 <= r <= |s|
    ensures r >= 0 ==> OccursAt(s, sub, r)
    ensures forall j | 0 <= j && (r < 0 || j < r) :: !OccursAt(s, sub, j)
  {
    IndexFrom(s, sub, 0)
  }

  function IndexFrom(s: string, sub: string, i: nat): (r: int)
    requires i <= |s|
    ensures -1 <= r <= |s|
    ensures r >= 0 ==> i <= r && OccursAt(s, sub, r)
    ensures forall j | i <= j && (r < 0 || j < r) :: !OccursAt(s, sub, j)
    decreases |s| - i
  {
    if OccursAt(s, sub, i) then i
    else if i == |s| then -1
    else IndexFrom(s, sub, i + 1)
  }

  /** strings.Contains */
  predicate Contains(s: string, sub: string) {
    Index(s, sub) >= 0
  }

  lemma ContainsAt(s: string, sub: string, i: int)
    requires OccursAt(s, sub, i)
    ensures Contains(s, sub)
  {
  }

  /** An occurrence inside a slice is an occurrence in the whole string. */
  lemma OccursInSlice(s: string, sub: string, a: nat, b: nat, j: int)
    requires a <= b <= |s|
    requires OccursAt(s[a..b], sub, j)
    ensures OccursAt(s, sub, a + j)
  {
    var t := s[a..b];
    forall k | 0 <= k < |sub| ensures s[a + j..a + j + |sub|][k] == sub[k] {
      assert sub[k] == t[j..j + |sub|][k] == t[j + k];
    }
  }

  lemma ContainsSlice(s: string, sub: string, a: nat, b: nat)
    requires a <= b <= |s|
    ensures Contains(s[a..b], sub) ==> Contains(s, sub)
  {
    if Contains(s[a..b], sub) {
      OccursInSlice(s, sub, a, b, Index(s[a..b], sub));
    }
  }

  /** A string none of whose characters is `c` does not contain `c`. */
  lemma AbsentChar(s: string, c: char)
    requires forall k | 0 <= k < |s| :: s[k] != c
    ensures !Contains(s, [c])
  {
    forall j | 0 <= j ensures !OccursAt(s, [c], j) {
      if j + 1 <= |s| {
        assert s[j..j + 1][0] == s[j];
      }
    }
  }

  /** A string that lacks one of the characters of `sub` does not contain `sub`. */
  lemma AbsentFrom(s: string, sub: string, k: nat)
    requires k < |sub| && forall i | 0 <= i < |s| :: s[i] != sub[k]
    ensures !Contains(s, sub)
  {
    forall j | 0 <= j ensures !OccursAt(s, sub, j) {
      if j + |sub| <= |s| {
        assert s[j..j + |sub|][k] == s[j + k];
      }
    }
  }

  /** Cutting a string in three pieces and gluing them back gives the string. */
  lemma Around(s: string, i: nat, n: nat)
    requires i + n <= |s|
    ensures s == s[..i] + s[i..i + n] + s[i + n..]
  {
  }

  /** A slice is the concatenation of its two halves. */
  lemma SliceSplit(s: string, a: nat, b: nat, c: nat)
    requires a <= b <= c <= |s|
    ensures s[a..c] == s[a..b] + s[b..c]
  {
  }

  /** strings.HasPrefix */
  predicate HasPrefix(s: string, prefix: string) {
    |prefix| <= |s| && s[..|prefix|] == prefix
  }

  /** strings.HasSuffix */
  predicate HasSuffix(s: string, suffix: string) {
    |suffix| <= |s| && s[|s| - |suffix|..] == suffix
  }

  /** strings.TrimPrefix: removes one leading `prefix` if present. */
  function TrimPrefix(s: string, prefix: string): (r: string)
    ensures HasPrefix(s, prefix) ==> s == prefix + r
    ensures !HasPrefix(s, prefix) ==> r == s
  {
    if HasPrefix(s, prefix) then s[|prefix|..] else s
  }

  /** strings.TrimSuffix: removes one trailing `suffix` if present. */
  function TrimSuffix(s: string, suffix: string): (r: string)
    ensures HasSuffix(s, suffix) ==> s == r + suffix
    ensures !HasSuffix(s, suffix) ==> r == s
  {
    if HasSuffix(s, suffix) then s[..|s| - |suffix|] else s
  }

  /** strings.TrimLeft with a cut set: drops every leading character of the set. */
  function TrimLeft(s: string, cutset: set<char>): (r: string)
    ensures |r| <= |s| && r == s[|s| - |r|..]
    ensures r == [] || r[0] !in cutset
    ensures forall i | 0 <= i < |s| - |r| :: s[i] in cutset
  {
    if |s| > 0 && s[0] in cutset then TrimLeft(s[1..], cutset) else s
  }

  /** strings.TrimRight with a cut set: drops every trailing character of the set. */
  function TrimRight(s: string, cutset: set<char>): (r: string)
    ensures |r| <= |s| && r == s[..|r|]
    ensures r == [] || r[|r| - 1] !in cutset
    ensures forall i | |r| <= i < |s| :: s[i] in cutset
  {
    if |s| > 0 && s[|s| - 1] in cutset then TrimRight(s[..|s| - 1], cutset) else s
  }

  /** strings.Trim: drops leading and trailing characters of the cut set. */
  function Trim(s: string, cutset: set<char>): (r: string)
    ensures r == [] || (r[0] !in cutset && r[|r| - 1] !in cutset)
    ensures |r| <= |s|
  {
    TrimRight(TrimLeft(s, cutset), cutset)
  }

  /** A string that neither starts nor ends with a character of the cut set is left alone. */
  lemma TrimUntouched(s: string, cutset: set<char>)
    requires s == [] || (s[0] !in cutset && s[|s| - 1] !in cutset)
    ensures Trim(s, cutset) == s
  {
  }

  /** unicode.IsSpace: the Latin-1 spaces and the other White_Space characters. */
  predicate IsSpace(c: char) {
    ('\t' <= c <= '\r') || c == ' ' || c == '\U{0085}' || c == '\U{00A0}' || c == '\U{1680}'
    || ('\U{2000}' <= c <= '\U{200A}') || c == '\U{2028}' || c == '\U{2029}' || c == '\U{202F}'
    || c == '\U{205F}' || c == '\U{3000}'
  }

  /** Drops every leading white-space character. */
  function TrimLeftSpace(s: string): (r: string)
    ensures |r| <= |s| && r == s[|s| - |r|..]
    ensures r == [] || !IsSpace(r[0])
    ensures forall i | 0 <= i < |s| - |r| :: IsSpace(s[i])
  {
    if |s| > 0 && IsSpace(s[0]) then TrimLeftSpace(s[1..]) else s
  }

  /** Drops every trailing white-space character. */
  function TrimRightSpace(s: string): (r: string)
    ensures |r| <= |s| && r == s[..|r|]
    ensures r == [] || !IsSpace(r[|r| - 1])
    ensures forall i | |r| <= i < |s| :: IsSpace(s[i])
  {
    if |s| > 0 && IsSpace(s[|s| - 1]) then TrimRightSpace(s[..|s| - 1]) else s
  }

  /** strings.TrimSpace */
  function TrimSpace(s: string): (r: string)
    ensures r == [] || (!IsSpace(r[0]) && !IsSpace(r[|r| - 1]))
    ensures |r| <= |s|
  {
    TrimRightSpace(TrimLeftSpace(s))
  }

  /** The text before the first occurrence of `sub` does not contain `sub`. */
  lemma HeadBeforeIndex(s: string, sub: string)
    requires |sub| > 0 && Index(s, sub) >= 0
    ensures !Contains(s[..Index(s, sub)], sub)
  {
    var i := Index(s, sub);
    if Contains(s[..i], sub) {
      OccursInSlice(s, sub, 0, i, Index(s[..i], sub));
    }
  }

  /** strings.Split with a non-empty separator. */
  function Split(s: string, sep: string): (parts: seq<string>)
    requires |sep| > 0
    ensures |parts| >= 1
    ensures |parts| == 1 <==> !Contains(s, sep)
    ensures !Contains(s, sep) ==> parts == [s]
    decreases |s|
  {
    var i := Index(s, sep);
    if i < 0 then [s]
    else
      [s[..i]] + Split(s[i + |sep|..], sep)
  }

  /** No piece of a split contains the separator. */
  lemma {:induction false} SplitPartsFree(s: string, sep: string)
    requires |sep| > 0
    ensures forall k | 0 <= k < |Split(s, sep)| :: !Contains(Split(s, sep)[k], sep)
    decreases |s|
  {
    var i := Index(s, sep);
    if i >= 0 {
      HeadBeforeIndex(s, sep);
      SplitPartsFree(s[i + |sep|..], sep);
    }
  }

  /** strings.Join over the parts, inserting `sep` between neighbours. */
  function Join(parts: seq<string>, sep: string): (r: string)
  {
    if |parts| == 0 then ""
    else if |parts| == 1 then parts[0]
    else Join(parts[..|parts| - 1], sep) + sep + parts[|parts| - 1]
  }

  /** A character in no part and not in the separator is not in the joined text. */
  lemma {:induction false} JoinAbsent(parts: seq<string>, sep: string, c: char)
    requires c !in sep && forall k | 0 <= k < |parts| :: c !in parts[k]
    ensures c !in Join(parts, sep)
    decreases |parts|
  {
    if |parts| >= 2 {
      JoinAbsent(parts[..|parts| - 1], sep, c);
      assert c !in parts[|parts| - 1];
    } else if |parts| == 1 {
      assert c !in parts[0];
    }
  }

  lemma {:induction false} JoinCons(p: string, parts: seq<string>, sep: string)
    requires |parts| > 0
    ensures Join([p] + parts, sep) == p + sep + Join(parts, sep)
    decreases |parts|
  {
    if |parts| == 1 {
      assert [p] + parts == [p, parts[0]];
      assert ([p] + parts)[..1] == [p];
    } else {
      var init := parts[..|parts| - 1];
      assert ([p] + parts)[..|parts|] == [p] + init;
      JoinCons(p, init, sep);
    }
  }

  /** Joining the pieces of a split gives back the string. */
  lemma {:induction false} SplitJoin(s: string, sep: string)
    requires |sep| > 0
    ensures Join(Split(s, sep), sep) == s
    decreases |s|
  {
    var i := Index(s, sep);
    if i >= 0 {
      var head, rest := s[..i], s[i + |sep|..];
      var tail := Split(rest, sep);
      assert Split(s, sep) == [head] + tail;
      SplitJoin(rest, sep);
      JoinCons(head, tail, sep);
      Around(s, i, |sep|);
    }
  }

  /** A string that has `sep` first at position `|p|` splits into `p` and the pieces of the rest. */
  lemma SplitAt(p: string, sep: string, rest: string)
    requires |sep| > 0
    requires forall j | 0 <= j < |p| :: !OccursAt(p + sep + rest, sep, j)
    ensures Split(p + sep + rest, sep) == [p] + Split(rest, sep)
  {
    var s := p + sep + rest;
    assert OccursAt(s, sep, |p|) by {
      assert s[|p|..|p| + |sep|] == sep;
    }
    assert Index(s, sep) == |p|;
    assert s[..|p|] == p;
    assert s[|p| + |sep|..] == rest;
  }

  /** Splitting pieces joined with a one-character separator that none of them holds gives
      the pieces back. */
  lemma {:induction false} JoinSplit(parts: seq<string>, c: char)
    requires |parts| >= 1 && forall k | 0 <= k < |parts| :: c !in parts[k]
    ensures Split(Join(parts, [c]), [c]) == parts
    decreases |parts|
  {
    var head := parts[0];
    if |parts| == 1 {
      AbsentChar(head, c);
    } else {
      var tail := parts[1..];
      var rest := Join(tail, [c]);
      assert parts == [head] + tail;
      JoinCons(head, tail, [c]);
      var s := head + [c] + rest;
      forall j | 0 <= j < |head| ensures !OccursAt(s, [c], j) {
        assert s[j..j + 1][0] == s[j] == head[j];
      }
      SplitAt(head, [c], rest);
      JoinSplit(tail, c);
    }
  }

  /** strings.ReplaceAll with a non-empty pattern: every non-overlapping occurrence,
      scanning from the left, is replaced. */
  function ReplaceAll(s: string, pattern: string, replacement: string): (r: string)
    requires |pattern| > 0
    ensures !Contains(s, pattern) ==> r == s
    decreases |s|
  {
    if |s| < |pattern| then s
    else if s[..|pattern|] == pattern then
      assert OccursAt(s, pattern, 0);
      replacement + ReplaceAll(s[|pattern|..], pattern, replacement)
    else
      ContainsSlice(s, pattern, 1, |s|);
      assert s[1..|s|] == s[1..];
      [s[0]] + ReplaceAll(s[1..], pattern, replacement)
  }

  /** A prefix in which the pattern's first character does not occur is kept as it is. */
  lemma {:induction false} ReplaceAllFreePrefix(s: string, t: string, pattern: string, replacement: string)
    requires |pattern| > 0 && pattern[0] !in s
    ensures ReplaceAll(s + t, pattern, replacement) == s + ReplaceAll(t, pattern, replacement)
    decreases |s|
  {
    if s != [] {
      var u := s + t;
      assert u[0] == s[0] && u[1..] == s[1..] + t;
      if |u| >= |pattern| {
        assert u[..|pattern|][0] == s[0];
        ReplaceAllFreePrefix(s[1..], t, pattern, replacement);
        assert [s[0]] + s[1..] == s;
      } else {
        assert ReplaceAll(t, pattern, replacement) == t;
      }
    } else {
      assert s + t == t;
    }
  }

  /** A text that begins with the pattern: the first occurrence is replaced, then the
      rest is scanned. */
  lemma ReplaceAllHead(t: string, pattern: string, replacement: string)
    requires |pattern| > 0
    ensures ReplaceAll(pattern + t, pattern, replacement) == replacement + ReplaceAll(t, pattern, replacement)
  {
    var u := pattern + t;
    assert u[..|pattern|] == pattern && u[|pattern|..] == t;
  }

  /** strings.Replace(s, pattern, replacement, 1): only the first occurrence is replaced. */
  function ReplaceFirst(s: string, pattern: string, replacement: string): (r: string)
    ensures !Contains(s, pattern) ==> r == s
    ensures Contains(s, pattern) ==>
      r == s[..Index(s, pattern)] + replacement + s[Index(s, pattern) + |pattern|..]
  {
    var i := Index(s, pattern);
    if i < 0 then s else s[..i] + replacement + s[i + |pattern|..]
  }

  predicate IsDigit(c: char) {
    '0' <= c <= '9'
  }

  predicate IsUpper(c: char) {
    'A' <= c <= 'Z'
  }

  /** unicode.ToLower restricted to ASCII letters; every other character is kept. */
  function LowerChar(c: char): (r: char)
    ensures !IsUpper(r)
    ensures !IsUpper(c) ==> r == c
  {
    if IsUpper(c) then (c as int - 'A' as int + 'a' as int) as char else c
  }

  /** strings.ToLower, ASCII letters only. */
  function ToLower(s: string): (r: string)
    ensures |r| == |s|
    ensures forall i | 0 <= i < |s| :: r[i] == LowerChar(s[i])
  {
    seq(|s|, i requires 0 <= i < |s| => LowerChar(s[i]))
  }

  /** Lowering twice is lowering once. */
  lemma ToLowerIdempotent(s: string)
    ensures ToLower(ToLower(s)) == ToLower(s)
  {
  }

  function DigitChar(d: nat): (c: char)
    requires d < 10
    ensures IsDigit(c) && c as int - '0' as int == d
  {
    ('0' as int + d) as char
  }

  /** strconv.Itoa / fmt's %d on a non-negative integer. */
  function Itoa(n: nat): (r: string)
    ensures |r| > 0
    ensures forall k | 0 <= k < |r| :: IsDigit(r[k])
    ensures |r| > 1 ==> r[0] != '0'
    ensures r[0] == '0' <==> n == 0
    decreases n
  {
    if n < 10 then [DigitChar(n)] else Itoa(n / 10) + [DigitChar(n % 10)]
  }

  /** The value of a string of decimal digits (strconv.Atoi on such a string). */
  function DecimalValue(s: string): nat
    requires forall k | 0 <= k < |s| :: IsDigit(s[k])
  {
    if s == [] then 0
    else
      assert IsDigit(s[|s| - 1]);
      10 * DecimalValue(s[..|s| - 1]) + (s[|s| - 1] as int - '0' as int)
  }

  /** Decimal printing is injective: reading the digits back gives the number. */
  lemma {:induction false} ItoaRoundTrip(n: nat)
    ensures DecimalValue(Itoa(n)) == n
    decreases n
  {
    if n >= 10 {
      ItoaRoundTrip(n / 10);
      var r := Itoa(n);
      assert r[..|r| - 1] == Itoa(n / 10);
    }
  }
}
