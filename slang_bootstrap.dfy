/**
 * Property-reference substitution of the CLI bootstrap: every `${NAME}` in
 * a user property value whose system property is set and non-empty is
 * replaced by that property's value. NAME is a non-empty run of characters
 * other than `$`, `{` and `}` (the pattern `\$\{([^${}]+)\}`).
 *
 * The system properties are a map parameter.
 */
module SlangBootstrap {
  import opened Wrappers

  /** The characters the pattern's class `[^${}]` accepts. */
  predicate IsNameChar(c: char) {
    c != '$' && c != '{' && c != '}'
  }

  /** A name the pattern can capture. */
  predicate ValidName(name: string) {
    |name| > 0 && forall k :: 0 <= k < |name| ==> IsNameChar(name[k])
  }

  /** The reference text `${name}`, also the target of the replacement. */
  function Token(name: string): string {
    "${" + name + "}"
  }

  predicate OccursAt(t: string, s: string, i: nat) {
    i + |t| <= |s| && s[i..i + |t|] == t
  }

  ghost predicate Occurs(t: string, s: string) {
    exists i: nat :: OccursAt(t, s, i)
  }

  /** The number of positions at which `t` occurs in `s`, overlapping ones included. */
  function Count(t: string, s: string): nat
    decreases |s|
  {
    if |s| == 0 then 0 else (if OccursAt(t, s, 0) then 1 else 0) + Count(t, s[1..])
  }

  predicate Distinct(names: seq<string>) {
    forall a, b :: 0 <= a < b < |names| ==> names[a] != names[b]
  }

  // ----- The matcher -----

  /** The end of the longest run of name characters from position k. */
  function RunEnd(v: string, k: nat): (j: nat)
    requires k <= |v|
    ensures k <= j <= |v|
    ensures forall i :: k <= i < j ==> IsNameChar(v[i])
    ensures j < |v| ==> !IsNameChar(v[j])
    decreases |v| - k
  {
    if k == |v| || !IsNameChar(v[k]) then k else RunEnd(v, k + 1)
  }

  /**
   * A match of the pattern starting at i: the position of its closing
   * brace. The class excludes `}`, `$` and `{`, so the greedy run can only
   * end right before the brace; no backtracking can find another match.
   */
  function MatchAt(v: string, i: nat): (m: Option<nat>)
    ensures m.Some? ==> i + 3 <= m.value < |v|
  {
    if i + 2 <= |v| && v[i] == '$' && v[i + 1] == '{' then
      var j := RunEnd(v, i + 2);
      if j > i + 2 && j < |v| && v[j] == '}' then Some(j) else None
    else None
  }

  /**
   * The names `Matcher.find` captures, scanning from position i: after a
   * match it resumes right after the closing brace, otherwise one position on.
   */
  function Matches(v: string, i: nat): seq<string>
    decreases |v| - i
  {
    if i >= |v| then []
    else
      match MatchAt(v, i)
      case Some(j) => [v[i + 2..j]] + Matches(v, j + 1)
      case None => Matches(v, i + 1)
  }

  /**
   * The names the scan from position i adds to `names`, one `find()` at a
   * time: after a match it resumes right after the closing brace.
   */
  function Scan(v: string, names: set<string>, i: nat): set<string>
    decreases |v| - i
  {
    if i >= |v| then names
    else
      match MatchAt(v, i)
      case Some(j) => Scan(v, names + {v[i + 2..j]}, j + 1)
      case None => Scan(v, names, i + 1)
  }

  /** The variable names of a value: the HashSet the find loop fills. */
  function VariableNames(v: string): set<string> {
    Scan(v, {}, 0)
  }

  // ----- Replacement -----

  /** String.replace: every leftmost, non-overlapping occurrence of target replaced. */
  function ReplaceAll(s: string, target: string, replacement: string): (r: string)
    requires |target| > 0
    ensures Count(target, s) == 0 ==> r == s
    decreases |s|
  {
    if |s| < |target| then s
    else if s[..|target|] == target then replacement + ReplaceAll(s[|target|..], target, replacement)
    else
      assert [s[0]] + s[1..] == s;
      [s[0]] + ReplaceAll(s[1..], target, replacement)
  }

  /** The text between the occurrences of target that ReplaceAll finds. */
  function Pieces(s: string, target: string): (ps: seq<string>)
    requires |target| > 0
    ensures |ps| >= 1
    decreases |s|
  {
    if |s| < |target| then [s]
    else if s[..|target|] == target then [""] + Pieces(s[|target|..], target)
    else
      var rest := Pieces(s[1..], target);
      [[s[0]] + rest[0]] + rest[1..]
  }

  /** The pieces put back together with a separator between each two. */
  function Join(ps: seq<string>, separator: string): string
    requires |ps| >= 1
  {
    if |ps| == 1 then ps[0] else ps[0] + separator + Join(ps[1..], separator)
  }

  /** One pass of the loop over names: a missing or empty property leaves the value alone. */
  function Step(value: string, name: string, system: map<string, string>): (r: string)
    ensures (name !in system || system[name] == "") ==> r == value
    ensures name in system && system[name] != "" ==> r == Join(Pieces(value, Token(name)), system[name])
  {
    if name in system && system[name] != "" then
      PiecesJoin(value, Token(name), system[name]);
      ReplaceAll(value, Token(name), system[name])
    else value
  }

  /** The passes for the names in order. */
  function ApplyNames(value: string, names: seq<string>, system: map<string, string>): string {
    if names == [] then value
    else Step(ApplyNames(value, names[..|names| - 1], system), names[|names| - 1], system)
  }

  /** The order in which a loop over the set visits its names: each name exactly once. */
  ghost predicate Enumerates(order: seq<string>, names: set<string>) {
    Distinct(order) && forall n :: n in order <==> n in names
  }

  /**
   * What substitutePropertyReferences may return: the passes for the
   * variable names in one of the orders a HashSet can iterate them in.
   */
  ghost predicate IsSubstitution(value: string, system: map<string, string>, result: string) {
    exists order :: Enumerates(order, VariableNames(value)) && result == ApplyNames(value, order, system)
  }

  // ----- The methods -----

  /** The `while (matcher.find())` loop that adds each captured name to the set. */
  method FindVariableNames(value: string) returns (names: set<string>)
    ensures names == VariableNames(value)
  {
    names := {};
    var position := 0;
    while position < |value|
      invariant 0 <= position <= |value|
      invariant Scan(value, names, position) == VariableNames(value)
      decreases |value| - position
    {
      var m := MatchAt(value, position);
      if m.Some? {
        var name := value[position + 2..m.value];
        ScanFound(value, names, position, m.value);
        names := names + {name};
        position := m.value + 1;
      } else {
        ScanMissed(value, names, position);
        position := position + 1;
      }
    }
  }

  /**
   * substitutePropertyReferences: collect the names, then one replace-all
   * pass per name, in the set's iteration order, which `order` records.
   */
  method SubstitutePropertyReferences(value: string, system: map<string, string>)
    returns (result: string, ghost order: seq<string>)
    ensures Enumerates(order, VariableNames(value))
    ensures result == ApplyNames(value, order, system)
    ensures IsSubstitution(value, system, result)
  {
    var variableNames := FindVariableNames(value);
    result := value;
    order := [];
    var remaining := variableNames;
    while remaining != {}
      invariant remaining <= variableNames
      invariant Distinct(order)
      invariant forall n :: n in order <==> n in variableNames && n !in remaining
      invariant result == ApplyNames(value, order, system)
      decreases remaining
    {
      var variableName :| variableName in remaining;
      if variableName in system && system[variableName] != "" {
        result := ReplaceAll(result, Token(variableName), system[variableName]);
      }
      assert (order + [variableName])[..|order|] == order;
      order := order + [variableName];
      remaining := remaining - {variableName};
    }
  }

  /** The key/value loop of loadUserProperties: every raw property, substituted. */
  method ProcessProperties(rawProperties: map<string, string>, system: map<string, string>)
    returns (processedProperties: map<string, string>)
    ensures processedProperties.Keys == rawProperties.Keys
    ensures forall key :: key in rawProperties ==> IsSubstitution(rawProperties[key], system, processedProperties[key])
  {
    processedProperties := map[];
    var remaining := rawProperties.Keys;
    while remaining != {}
      invariant remaining <= rawProperties.Keys
      invariant processedProperties.Keys == rawProperties.Keys - remaining
      invariant forall key :: key in processedProperties ==>
        IsSubstitution(rawProperties[key], system, processedProperties[key])
      decreases remaining
    {
      var key :| key in remaining;
      var value, order := SubstitutePropertyReferences(rawProperties[key], system);
      processedProperties := processedProperties[key := value];
      remaining := remaining - {key};
    }
  }

  // ----- Properties of the matcher -----

  /** A `find()` that succeeds: the name is added and the scan resumes after the brace. */
  lemma ScanFound(v: string, names: set<string>, p: nat, j: nat)
    requires p < |v| && MatchAt(v, p) == Some(j)
    ensures Scan(v, names, p) == Scan(v, names + {v[p + 2..j]}, j + 1)
  {
  }

  /** No match at p: the scan moves one position on. */
  lemma ScanMissed(v: string, names: set<string>, p: nat)
    requires p < |v| && MatchAt(v, p).None?
    ensures Scan(v, names, p) == Scan(v, names, p + 1)
  {
  }

  /** The scan adds exactly the captured names. */
  lemma {:induction false} ScanNames(v: string, names: set<string>, i: nat, n: string)
    ensures n in Scan(v, names, i) <==> n in names || n in Matches(v, i)
    decreases |v| - i
  {
    if i < |v| {
      MatchesStep(v, i);
      match MatchAt(v, i)
      case Some(j) =>
        ScanFound(v, names, i, j);
        ScanNames(v, names + {v[i + 2..j]}, j + 1, n);
      case None =>
        ScanMissed(v, names, i);
        ScanNames(v, names, i + 1, n);
    }
  }

  /** Every captured name is a valid name whose reference occurs in the value. */
  lemma {:induction false} MatchesSound(v: string, i: nat)
    ensures forall n :: n in Matches(v, i) ==> ValidName(n) && Occurs(Token(n), v)
    decreases |v| - i
  {
    if i < |v| {
      match MatchAt(v, i)
      case Some(j) =>
        MatchesSound(v, j + 1);
        MatchAtSound(v, i);
      case None =>
        MatchesSound(v, i + 1);
    }
  }

  /** At a reference to a valid name the pattern matches, closing at the reference's brace. */
  lemma MatchAtToken(v: string, i: nat, n: string)
    requires ValidName(n) && OccursAt(Token(n), v, i)
    ensures MatchAt(v, i) == Some(i + 2 + |n|)
    ensures v[i + 2..i + 2 + |n|] == n
  {
    var t := Token(n);
    assert forall k :: 0 <= k < |t| ==> v[i + k] == t[k];
    assert forall k :: 0 <= k < |n| ==> t[2 + k] == n[k];
    assert v[i] == '$' && v[i + 1] == '{' && v[i + 2 + |n|] == '}';
    assert forall k :: i + 2 <= k < i + 2 + |n| ==> v[k] == n[k - i - 2];
    assert v[i + 2..i + 2 + |n|] == n;
  }

  /**
   * Every reference to a valid name is found: a match that starts before it
   * ends before it, because the reference's `$` can be neither in a match's
   * name nor its braces.
   */
  lemma {:induction false} MatchesComplete(v: string, p: nat, i: nat, n: string)
    requires ValidName(n) && OccursAt(Token(n), v, i) && p <= i
    ensures n in Matches(v, p)
    decreases i - p
  {
    TokenStart(v, i, n);
    MatchesStep(v, p);
    if p == i {
      MatchAtToken(v, i, n);
    } else {
      match MatchAt(v, p)
      case None =>
        MatchesComplete(v, p + 1, i, n);
      case Some(j) =>
        MatchEndsBefore(v, p, i);
        MatchesComplete(v, j + 1, i, n);
    }
  }

  /** A match captures a valid name, and the text it spans is that name's reference. */
  lemma MatchAtSound(v: string, i: nat)
    requires MatchAt(v, i).Some?
    ensures ValidName(v[i + 2..MatchAt(v, i).value])
    ensures OccursAt(Token(v[i + 2..MatchAt(v, i).value]), v, i)
  {
    var j := MatchAt(v, i).value;
    assert j == RunEnd(v, i + 2);
    assert v[i..j + 1] == Token(v[i + 2..j]);
  }

  /** One step of the scan. */
  lemma MatchesStep(v: string, p: nat)
    requires p < |v|
    ensures MatchAt(v, p).Some? ==> Matches(v, p) == [v[p + 2..MatchAt(v, p).value]] + Matches(v, MatchAt(v, p).value + 1)
    ensures MatchAt(v, p).None? ==> Matches(v, p) == Matches(v, p + 1)
  {
  }

  lemma TokenStart(v: string, i: nat, n: string)
    requires OccursAt(Token(n), v, i)
    ensures i < |v| && v[i] == '$'
  {
    assert v[i..i + |Token(n)|][0] == Token(n)[0];
  }

  /** A match that starts before a `$` ends before it. */
  lemma MatchEndsBefore(v: string, p: nat, i: nat)
    requires MatchAt(v, p).Some? && p < i < |v| && v[i] == '$'
    ensures MatchAt(v, p).value < i
  {
    var j := RunEnd(v, p + 2);
    assert v[p + 1] == '{' && MatchAt(v, p).value == j && v[j] == '}';
  }

  /**
   * The variable names are distinct, and they are exactly the valid names
   * whose `${NAME}` occurs in the value: `${}` and names holding `$`, `{` or
   * `}` never are.
   */
  lemma VariableNamesExact(v: string)
    ensures forall n :: n in VariableNames(v) <==> ValidName(n) && Occurs(Token(n), v)
  {
    forall n ensures n in VariableNames(v) <==> n in Matches(v, 0) {
      ScanNames(v, {}, 0, n);
    }
    MatchesSound(v, 0);
    forall n | ValidName(n) && Occurs(Token(n), v) ensures n in Matches(v, 0) {
      var i: nat :| OccursAt(Token(n), v, i);
      MatchesComplete(v, 0, i, n);
    }
  }

  // ----- Properties of the replacement -----

  lemma JoinPrepend(c: char, ps: seq<string>, separator: string)
    requires |ps| >= 1
    ensures Join([[c] + ps[0]] + ps[1..], separator) == [c] + Join(ps, separator)
  {
    var qs := [[c] + ps[0]] + ps[1..];
    if |ps| > 1 {
      assert qs[1..] == ps[1..];
    }
  }

  /** Joining the pieces with a separator is replacing every occurrence with it. */
  lemma {:induction false} PiecesJoin(s: string, target: string, separator: string)
    requires |target| > 0
    ensures Join(Pieces(s, target), separator) == ReplaceAll(s, target, separator)
    decreases |s|
  {
    if |s| < |target| {
    } else if s[..|target|] == target {
      PiecesJoin(s[|target|..], target, separator);
      JoinAtTarget(s, target, separator);
    } else {
      PiecesJoin(s[1..], target, separator);
      JoinPastChar(s, target, separator);
    }
  }

  lemma JoinAtTarget(s: string, target: string, separator: string)
    requires |target| > 0 && |s| >= |target| && s[..|target|] == target
    ensures Join(Pieces(s, target), separator) == separator + Join(Pieces(s[|target|..], target), separator)
  {
    var rest := Pieces(s[|target|..], target);
    PiecesAtTarget(s, target);
    JoinCons("", rest, separator);
    assert "" + separator == separator;
  }

  lemma PiecesAtTarget(s: string, target: string)
    requires |target| > 0 && |s| >= |target| && s[..|target|] == target
    ensures Pieces(s, target) == [""] + Pieces(s[|target|..], target)
  {
  }

  lemma JoinCons(p: string, ps: seq<string>, separator: string)
    requires |ps| >= 1
    ensures Join([p] + ps, separator) == p + separator + Join(ps, separator)
  {
    assert ([p] + ps)[1..] == ps;
  }

  lemma JoinPastChar(s: string, target: string, separator: string)
    requires |target| > 0 && |s| >= |target| && s[..|target|] != target
    ensures Join(Pieces(s, target), separator) == [s[0]] + Join(Pieces(s[1..], target), separator)
  {
    var rest := Pieces(s[1..], target);
    assert Pieces(s, target) == [[s[0]] + rest[0]] + rest[1..];
    JoinPrepend(s[0], rest, separator);
  }

  /** Replacing the target by itself gives the value back. */
  lemma {:induction false} ReplaceAllByItself(s: string, target: string)
    requires |target| > 0
    ensures ReplaceAll(s, target, target) == s
    decreases |s|
  {
    if |s| < |target| {
    } else if s[..|target|] == target {
      ReplaceAllByItself(s[|target|..], target);
      assert s == s[..|target|] + s[|target|..];
    } else {
      ReplaceAllByItself(s[1..], target);
      assert s == [s[0]] + s[1..];
    }
  }

  lemma OccursInTail(t: string, s: string, i: nat)
    requires 0 < i <= |s|
    ensures OccursAt(t, s, i) <==> OccursAt(t, s[1..], i - 1)
  {
    if i + |t| <= |s| {
      assert s[i..i + |t|] == s[1..][i - 1..i - 1 + |t|];
    }
  }

  lemma OccursInPrefix(t: string, s: string, k: nat, i: nat)
    requires k <= |s|
    ensures OccursAt(t, s[..k], i) ==> OccursAt(t, s, i)
  {
    if i + |t| <= k {
      assert s[..k][i..i + |t|] == s[i..i + |t|];
    }
  }

  /** The first piece is a prefix of s, and the first occurrence of target starts where it ends. */
  lemma {:induction false} FirstPiece(s: string, target: string)
    requires |target| > 0
    ensures |Pieces(s, target)[0]| <= |s| && s[..|Pieces(s, target)[0]|] == Pieces(s, target)[0]
    ensures forall i: nat :: i < |Pieces(s, target)[0]| ==> !OccursAt(target, s, i)
    decreases |s|
  {
    if |s| >= |target| && s[..|target|] != target {
      FirstPiece(s[1..], target);
      var p := Pieces(s, target)[0];
      forall i: nat | 0 < i < |p| ensures !OccursAt(target, s, i) {
        OccursInTail(target, s, i);
      }
    }
  }

  /** No piece holds an occurrence of target. */
  lemma {:induction false} PiecesAreFree(s: string, target: string)
    requires |target| > 0
    ensures forall k :: 0 <= k < |Pieces(s, target)| ==> !Occurs(target, Pieces(s, target)[k])
    decreases |s|
  {
    var ps := Pieces(s, target);
    if |s| < |target| {
      forall i: nat ensures !OccursAt(target, s, i) { }
    } else if s[..|target|] == target {
      PiecesAreFree(s[|target|..], target);
      assert ps[1..] == Pieces(s[|target|..], target);
      forall i: nat ensures !OccursAt(target, ps[0], i) { }
    } else {
      PiecesAreFree(s[1..], target);
      FirstPiece(s, target);
      var rest := Pieces(s[1..], target);
      assert ps[1..] == rest[1..];
      forall i: nat ensures !OccursAt(target, ps[0], i) {
        OccursInPrefix(target, s, |ps[0]|, i);
      }
      forall k | 1 <= k < |ps| ensures !Occurs(target, ps[k]) {
        assert ps[k] == rest[k];
      }
    }
  }

  /**
   * replace-all replaces every occurrence: the value splits into pieces,
   * none containing the target, separated by the target's occurrences, and
   * the result is the same pieces separated by the replacement.
   */
  lemma ReplaceAllReplacesEveryOccurrence(s: string, target: string, replacement: string)
    requires |target| > 0
    ensures var ps := Pieces(s, target);
      && s == Join(ps, target)
      && ReplaceAll(s, target, replacement) == Join(ps, replacement)
      && forall k :: 0 <= k < |ps| ==> !Occurs(target, ps[k])
  {
    PiecesJoin(s, target, replacement);
    PiecesJoin(s, target, target);
    ReplaceAllByItself(s, target);
    PiecesAreFree(s, target);
  }

  /** replace-all leaves alone a prefix without the target's first character. */
  lemma {:induction false} ReplaceAllKeepsPrefix(s: string, target: string, replacement: string, k: nat)
    requires |target| > 0 && k <= |s|
    requires forall j :: 0 <= j < k ==> s[j] != target[0]
    ensures ReplaceAll(s, target, replacement) == s[..k] + ReplaceAll(s[k..], target, replacement)
    decreases k
  {
    if k > 0 {
      if |s| < |target| {
        assert ReplaceAll(s[k..], target, replacement) == s[k..];
        assert s == s[..k] + s[k..];
      } else {
        assert s[..|target|][0] == s[0];
        ReplaceAllKeepsPrefix(s[1..], target, replacement, k - 1);
        assert s[1..][k - 1..] == s[k..];
        assert s[..k] == [s[0]] + s[1..][..k - 1];
      }
    }
  }

  /** Two references to valid names at the same place are references to the same name. */
  lemma SameToken(v: string, i: nat, m: string, n: string)
    requires ValidName(m) && ValidName(n)
    ensures OccursAt(Token(m), v, i) && OccursAt(Token(n), v, i) ==> m == n
  {
    if OccursAt(Token(m), v, i) && OccursAt(Token(n), v, i) {
      MatchAtToken(v, i, m);
      MatchAtToken(v, i, n);
    }
  }

  lemma OccursAfter(u: string, a: string, b: string, j: nat)
    requires OccursAt(u, b, j)
    ensures OccursAt(u, a + b, |a| + j)
  {
    assert (a + b)[|a| + j..|a| + j + |u|] == b[j..j + |u|];
  }

  lemma OccursInSuffix(u: string, s: string, k: nat, i: nat)
    requires k <= i && k <= |s| && OccursAt(u, s, i)
    ensures OccursAt(u, s[k..], i - k)
  {
    assert s[k..][i - k..i - k + |u|] == s[i..i + |u|];
  }

  /** The characters of a reference after its first are never a `$`. */
  lemma TokenTail(n: string)
    requires ValidName(n)
    ensures Token(n)[0] == '$'
    ensures forall j :: 1 <= j < |Token(n)| ==> Token(n)[j] != '$'
  {
    var t := Token(n);
    assert forall k :: 0 <= k < |n| ==> t[k + 2] == n[k];
  }

  lemma OccursChars(t: string, s: string, i: nat)
    requires OccursAt(t, s, i)
    ensures forall j :: 0 <= j < |t| ==> s[i + j] == t[j]
  {
    forall j | 0 <= j < |t| ensures s[i + j] == t[j] {
      assert s[i..i + |t|][j] == t[j];
    }
  }

  /** A reference to a valid name cannot start inside the reference to another. */
  lemma NoTokenInsideToken(s: string, m: string, n: string, i: nat)
    requires ValidName(m) && ValidName(n) && m != n
    requires OccursAt(Token(m), s, 0) && OccursAt(Token(n), s, i)
    ensures i >= |Token(m)|
  {
    TokenTail(m);
    TokenTail(n);
    OccursChars(Token(m), s, 0);
    OccursChars(Token(n), s, i);
    SameToken(s, 0, m, n);
  }

  /**
   * replace-all keeps the first `k` characters when the target does not
   * start at the first one and its first character is not among the others.
   */
  lemma PrefixSurvives(s: string, target: string, replacement: string, k: nat)
    requires |target| > 0 && 1 <= k <= |s|
    requires !OccursAt(target, s, 0)
    requires forall j :: 1 <= j < k ==> s[j] != target[0]
    ensures k <= |ReplaceAll(s, target, replacement)| && ReplaceAll(s, target, replacement)[..k] == s[..k]
  {
    var rest := s[1..];
    assert forall j :: 0 <= j < k - 1 ==> rest[j] != target[0];
    ReplaceAllKeepsPrefix(rest, target, replacement, k - 1);
    if |s| >= |target| {
      assert ReplaceAll(s, target, replacement) == [s[0]] + ReplaceAll(rest, target, replacement);
      assert s[..k] == [s[0]] + rest[..k - 1];
    }
  }

  /** A reference at the very start survives when the value does not begin with the target. */
  lemma KeepsLeadingToken(s: string, m: string, n: string, replacement: string)
    requires ValidName(m) && ValidName(n)
    requires OccursAt(Token(n), s, 0) && !OccursAt(Token(m), s, 0)
    ensures OccursAt(Token(n), ReplaceAll(s, Token(m), replacement), 0)
  {
    var u := Token(n);
    TokenTail(n);
    TokenTail(m);
    OccursChars(u, s, 0);
    PrefixSurvives(s, Token(m), replacement, |u|);
  }

  /** Inside a leading reference to `${m}` no reference to another valid name starts. */
  lemma NoTokenAtStartOf(s: string, m: string, n: string, i: nat)
    requires ValidName(m) && ValidName(n) && m != n
    requires OccursAt(Token(m), s, 0)
    ensures i < |Token(m)| ==> !OccursAt(Token(n), s, i)
  {
    if OccursAt(Token(n), s, i) {
      NoTokenInsideToken(s, m, n, i);
    }
  }

  /** Text put in front never lowers the number of occurrences. */
  lemma {:induction false} CountPrepend(t: string, a: string, b: string)
    ensures Count(t, a + b) >= Count(t, b)
    decreases |a|
  {
    if a != [] {
      assert (a + b)[1..] == a[1..] + b;
      CountPrepend(t, a[1..], b);
    } else {
      assert a + b == b;
    }
  }

  /** Dropping a prefix in which `t` does not start keeps the number of occurrences. */
  lemma {:induction false} CountSkip(t: string, s: string, k: nat)
    requires k <= |s|
    requires forall i: nat :: i < k ==> !OccursAt(t, s, i)
    ensures Count(t, s) == Count(t, s[k..])
  {
    if k > 0 {
      assert !OccursAt(t, s, 0);
      forall i: nat | i < k - 1 ensures !OccursAt(t, s[1..], i) {
        OccursInTail(t, s, i + 1);
      }
      CountSkip(t, s[1..], k - 1);
      assert s[1..][k - 1..] == s[k..];
    }
  }

  /** `t` occurs somewhere exactly when it occurs at least once. */
  lemma {:induction false} OccursCount(t: string, s: string)
    requires |t| > 0
    ensures Occurs(t, s) <==> Count(t, s) > 0
    decreases |s|
  {
    if |s| > 0 {
      OccursCount(t, s[1..]);
      if Occurs(t, s) && !OccursAt(t, s, 0) {
        var i: nat :| OccursAt(t, s, i);
        OccursInTail(t, s, i);
        assert Occurs(t, s[1..]);
      }
      if Count(t, s[1..]) > 0 {
        var j: nat :| OccursAt(t, s[1..], j);
        OccursInTail(t, s, j + 1);
      }
    } else {
      assert forall i: nat :: !OccursAt(t, s, i);
    }
  }

  /**
   * A replace-all pass for `${m}` destroys no occurrence of a reference to
   * another valid name: there are at least as many afterwards.
   */
  lemma {:induction false} ReplaceAllKeepsOtherToken(s: string, m: string, n: string, replacement: string)
    requires ValidName(m) && ValidName(n) && m != n
    ensures Count(Token(n), ReplaceAll(s, Token(m), replacement)) >= Count(Token(n), s)
    decreases |s|
  {
    var t := Token(m);
    var u := Token(n);
    if |s| < |t| {
    } else if s[..|t|] == t {
      forall i: nat | i < |t| ensures !OccursAt(u, s, i) {
        NoTokenAtStartOf(s, m, n, i);
      }
      CountSkip(u, s, |t|);
      ReplaceAllKeepsOtherToken(s[|t|..], m, n, replacement);
      CountPrepend(u, replacement, ReplaceAll(s[|t|..], t, replacement));
    } else {
      var rest := ReplaceAll(s[1..], t, replacement);
      assert ReplaceAll(s, t, replacement) == [s[0]] + rest;
      assert ([s[0]] + rest)[1..] == rest;
      if OccursAt(u, s, 0) {
        KeepsLeadingToken(s, m, n, replacement);
      }
      ReplaceAllKeepsOtherToken(s[1..], m, n, replacement);
    }
  }

  // ----- Properties of substitution -----

  /** A value without any `${NAME}` reference comes back unchanged, in any order. */
  lemma NoReferenceUnchanged(v: string, system: map<string, string>, order: seq<string>)
    requires forall n :: ValidName(n) ==> !Occurs(Token(n), v)
    requires Enumerates(order, VariableNames(v))
    ensures ApplyNames(v, order, system) == v
  {
    VariableNamesExact(v);
    EmptyWithoutMembers(order);
  }

  lemma EmptyWithoutMembers(names: seq<string>)
    ensures (forall n :: n !in names) ==> names == []
  {
    if names != [] {
      assert names[0] in names;
    }
  }

  lemma {:induction false} UnresolvedNamesChangeNothing(v: string, names: seq<string>, system: map<string, string>)
    requires forall k :: 0 <= k < |names| ==> names[k] !in system || system[names[k]] == ""
    ensures ApplyNames(v, names, system) == v
  {
    if names != [] {
      UnresolvedNamesChangeNothing(v, names[..|names| - 1], system);
    }
  }

  /** When no referenced name has a non-empty property, the value comes back unchanged, in any order. */
  lemma AllUnresolvedUnchanged(v: string, system: map<string, string>, order: seq<string>)
    requires forall n :: n in VariableNames(v) ==> n !in system || system[n] == ""
    requires Enumerates(order, VariableNames(v))
    ensures ApplyNames(v, order, system) == v
  {
    UnresolvedNamesChangeNothing(v, order, system);
  }

  lemma {:induction false} UnresolvedSurvivesPasses(v: string, names: seq<string>, system: map<string, string>, n: string)
    requires ValidName(n) && (n !in system || system[n] == "")
    requires forall k :: 0 <= k < |names| ==> ValidName(names[k])
    ensures Count(Token(n), ApplyNames(v, names, system)) >= Count(Token(n), v)
  {
    if names != [] {
      var init := names[..|names| - 1];
      var m := names[|names| - 1];
      UnresolvedSurvivesPasses(v, init, system, n);
      var before := ApplyNames(v, init, system);
      if m != n && m in system && system[m] != "" {
        ReplaceAllKeepsOtherToken(before, m, n, system[m]);
      }
    }
  }

  /**
   * Every occurrence of a reference whose property is missing or empty is
   * left verbatim, whatever order the names are processed in: the result
   * holds at least as many occurrences of it as the value did.
   */
  lemma UnresolvedLeftVerbatim(v: string, system: map<string, string>, order: seq<string>, n: string)
    requires ValidName(n)
    requires n !in system || system[n] == ""
    requires Enumerates(order, VariableNames(v))
    ensures Count(Token(n), ApplyNames(v, order, system)) >= Count(Token(n), v)
    ensures Occurs(Token(n), v) ==> Occurs(Token(n), ApplyNames(v, order, system))
  {
    VariableNamesExact(v);
    UnresolvedSurvivesPasses(v, order, system, n);
    OccursCount(Token(n), v);
    OccursCount(Token(n), ApplyNames(v, order, system));
  }

  /** The pass for a name with a non-empty property replaces every occurrence of its reference. */
  lemma ResolvedPassReplacesAll(s: string, name: string, system: map<string, string>)
    requires name in system && system[name] != ""
    ensures var ps := Pieces(s, Token(name));
      && s == Join(ps, Token(name))
      && Step(s, name, system) == Join(ps, system[name])
      && forall k :: 0 <= k < |ps| ==> !Occurs(Token(name), ps[k])
  {
    ReplaceAllReplacesEveryOccurrence(s, Token(name), system[name]);
  }
}
