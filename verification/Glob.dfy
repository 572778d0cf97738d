// Test name filters: glob patterns, and filters made of them
// (submodules/googletest/googletest/src/gtest.cc).
module Glob {

  // ---------- What a pattern means ----------

  // '*' stands for any string, '?' for any character, every other character for itself.
  predicate Matches(pattern: string, name: string)
    decreases |pattern|, |name|
  {
    if pattern == [] then name == []
    else if pattern[0] == '*' then Matches(pattern[1..], name) || (name != [] && Matches(pattern, name[1..]))
    else name != [] && (pattern[0] == '?' || pattern[0] == name[0]) && Matches(pattern[1..], name[1..])
  }

  predicate Fits(c: char, part: string) {
    if c == '*' then true else if c == '?' then |part| == 1 else part == [c]
  }

  function Concat(parts: seq<string>): string {
    if parts == [] then [] else parts[0] + Concat(parts[1..])
  }

  // The name is cut into one part for each character of the pattern.
  ghost predicate Cuts(pattern: string, name: string, parts: seq<string>) {
    && |parts| == |pattern| && Concat(parts) == name
    && forall i :: 0 <= i < |parts| ==> Fits(pattern[i], parts[i])
  }

  // The recursion finds a match exactly when the name can be cut to fit the pattern.
  lemma MatchesExactly(pattern: string, name: string)
    ensures Matches(pattern, name) <==> exists parts :: Cuts(pattern, name, parts)
  {
    if Matches(pattern, name) { var _ := Cut(pattern, name); }
    forall parts | Cuts(pattern, name, parts) ensures Matches(pattern, name) {
      Uncut(pattern, name, parts);
    }
  }

  lemma {:induction false} Cut(pattern: string, name: string) returns (parts: seq<string>)
    requires Matches(pattern, name)
    ensures Cuts(pattern, name, parts)
    decreases |pattern|, |name|
  {
    if pattern == [] {
      parts := [];
    } else if pattern[0] == '*' && Matches(pattern[1..], name) {
      parts := Cut(pattern[1..], name);
      parts := [[]] + parts;
    } else if pattern[0] == '*' {
      parts := Cut(pattern, name[1..]);
      var longer := [[name[0]] + parts[0]] + parts[1..];
      assert Concat(longer) == [name[0]] + Concat(parts);
      parts := longer;
    } else {
      parts := Cut(pattern[1..], name[1..]);
      parts := [[name[0]]] + parts;
    }
  }

  lemma {:induction false} Uncut(pattern: string, name: string, parts: seq<string>)
    requires Cuts(pattern, name, parts)
    ensures Matches(pattern, name)
    decreases |pattern|, |name|
  {
    if pattern == [] {
    } else if pattern[0] == '*' && parts[0] != [] {
      var shorter := [parts[0][1..]] + parts[1..];
      assert Concat(shorter) == name[1..];
      Uncut(pattern, name[1..], shorter);
    } else {
      assert name == parts[0] + Concat(parts[1..]);
      assert name[|parts[0]|..] == Concat(parts[1..]);
      Uncut(pattern[1..], name[|parts[0]|..], parts[1..]);
    }
  }

  // ---------- The linear-time matcher ----------

  predicate StarFree(pattern: string) { '*' !in pattern }

  // A star-free beginning of the pattern uses up as many characters of the name.
  lemma {:induction false} StarFreeUses(pattern: string, name: string, d: nat)
    requires d <= |pattern| && StarFree(pattern[..d]) && Matches(pattern, name)
    ensures d <= |name| && Matches(pattern[d..], name[d..])
  {
    if d == 0 {
      assert pattern[0..] == pattern && name[0..] == name;
    } else {
      assert pattern[..d][0] == pattern[0] && pattern[1..][..d - 1] == pattern[..d][1..];
      StarFreeUses(pattern[1..], name[1..], d - 1);
      assert pattern[1..][d - 1..] == pattern[d..] && name[1..][d - 1..] == name[d..];
    }
  }

  // A pattern that begins with a star matches whatever ends in a match.
  lemma {:induction false} StarSkips(pattern: string, name: string, k: nat)
    requires pattern != [] && pattern[0] == '*' && k <= |name| && Matches(pattern, name[k..])
    ensures Matches(pattern, name)
    decreases k
  {
    if k == 0 {
      assert name[0..] == name;
    } else {
      assert name[k - 1..][1..] == name[k..];
      StarSkips(pattern, name, k - 1);
    }
  }

  // How much of the name the star in front takes.
  lemma {:induction false} StarTakes(pattern: string, name: string) returns (k: nat)
    requires pattern != [] && pattern[0] == '*' && Matches(pattern, name)
    ensures k <= |name| && Matches(pattern[1..], name[k..])
    decreases |name|
  {
    if Matches(pattern[1..], name) {
      assert name[0..] == name;
      k := 0;
    } else {
      k := StarTakes(pattern, name[1..]);
      assert name[1..][k..] == name[k + 1..];
      k := k + 1;
    }
  }

  // Why only the last star needs to be reconsidered: with a star-free segment of length d
  // between two stars, whatever the first star could reach by taking more, the second can too.
  lemma LastStar(pattern: string, name: string, d: nat)
    requires d + 1 < |pattern| && pattern[0] == '*' && pattern[d + 1] == '*' && StarFree(pattern[1..d + 1])
    requires Matches(pattern, name) && d <= |name|
    ensures Matches(pattern[d + 1..], name[d..])
  {
    var k := StarTakes(pattern, name);
    assert pattern[1..][..d] == pattern[1..d + 1];
    StarFreeUses(pattern[1..], name[k..], d);
    assert pattern[1..][d..] == pattern[d + 1..];
    assert name[k..][d..] == name[k + d..] == name[d..][k..];
    StarSkips(pattern[d + 1..], name[d..], k);
  }

  // Where the matcher stands: it is at (p, n), and may go back to the star at patternNext,
  // letting it end before nameNext (nameNext is 0 while there has been no star).
  datatype Cursor = Cursor(p: nat, n: nat, patternNext: nat, nameNext: nat)

  ghost predicate At(pattern: string, name: string, c: Cursor) {
    && c.p <= |pattern| && c.n <= |name|
    && (c.nameNext == 0 ==> c.p == c.n && StarFree(pattern[..c.p]))
    && (c.nameNext > 0 ==>
          && c.patternNext < |pattern| && pattern[c.patternNext] == '*' && c.nameNext <= |name| + 1
          && (|| (c.p == c.patternNext && c.n == c.nameNext)
              || (&& c.p > c.patternNext && c.n == c.nameNext - 1 + (c.p - c.patternNext - 1)
                  && StarFree(pattern[c.patternNext + 1..c.p]))))
  }

  // What is still possible from there.
  ghost predicate Hopeful(pattern: string, name: string, c: Cursor)
    requires At(pattern, name, c)
  {
    || Matches(pattern[c.p..], name[c.n..])
    || (0 < c.nameNext <= |name| && Matches(pattern[c.patternNext..], name[c.nameNext..]))
  }

  lemma CharStep(pattern: string, name: string, c: Cursor)
    requires At(pattern, name, c) && c.p < |pattern| && c.n < |name|
    requires pattern[c.p] == '?' || (pattern[c.p] == name[c.n] && pattern[c.p] != '*')
    ensures var c' := c.(p := c.p + 1, n := c.n + 1);
            At(pattern, name, c') && Hopeful(pattern, name, c') == Hopeful(pattern, name, c)
  {
    hide Matches;
    OneChar(pattern, name, c.p, c.n);
    var k := if c.nameNext == 0 then 0 else c.patternNext + 1;
    if c.nameNext > 0 && c.p == c.patternNext {
      assert false;
    } else {
      assert pattern[k..c.p + 1] == pattern[k..c.p] + [pattern[c.p]];
    }
  }

  lemma OneChar(pattern: string, name: string, p: nat, n: nat)
    requires p < |pattern| && n < |name|
    requires pattern[p] == '?' || (pattern[p] == name[n] && pattern[p] != '*')
    ensures Matches(pattern[p..], name[n..]) == Matches(pattern[p + 1..], name[n + 1..])
  {
    assert pattern[p..][1..] == pattern[p + 1..] && name[n..][1..] == name[n + 1..];
  }

  lemma StarStep(pattern: string, name: string, c: Cursor)
    requires At(pattern, name, c) && c.p < |pattern| && pattern[c.p] == '*'
    ensures var c' := Cursor(c.p + 1, c.n, c.p, c.n + 1);
            At(pattern, name, c') && Hopeful(pattern, name, c') == Hopeful(pattern, name, c)
  {
    hide Matches;
    OneStar(pattern, name, c.p, c.n);
    if 0 < c.nameNext <= |name| && Matches(pattern[c.patternNext..], name[c.nameNext..]) && c.p > c.patternNext {
      var s, d := c.patternNext, c.p - c.patternNext - 1;
      assert name[c.nameNext - 1..][1..] == name[c.nameNext..];
      assert pattern[s..][1..d + 1] == pattern[s + 1..c.p] && pattern[s..][d + 1] == '*';
      assert pattern[s..][d + 1..] == pattern[c.p..] && name[c.nameNext - 1..][d..] == name[c.n..];
      LastStar(pattern[s..], name[c.nameNext - 1..], d);
    }
  }

  lemma OneStar(pattern: string, name: string, p: nat, n: nat)
    requires p < |pattern| && n <= |name| && pattern[p] == '*'
    ensures Matches(pattern[p..], name[n..])
       <==> Matches(pattern[p + 1..], name[n..]) || (n < |name| && Matches(pattern[p..], name[n + 1..]))
  {
    assert pattern[p..][1..] == pattern[p + 1..];
    if n < |name| { assert name[n..][1..] == name[n + 1..]; }
  }

  method PatternMatchesString(name: string, pattern: string) returns (matches: bool)
    ensures matches <==> Matches(pattern, name)
  {
    hide At, Hopeful, Matches, StarFree;
    var p, n, patternNext, nameNext := 0, 0, 0, 0;
    Start(pattern, name);
    while p < |pattern| || n < |name|
      invariant At(pattern, name, Cursor(p, n, patternNext, nameNext))
      invariant Hopeful(pattern, name, Cursor(p, n, patternNext, nameNext)) <==> Matches(pattern, name)
      invariant p <= |pattern| && n <= |name| && nameNext <= |name| + 1 && (nameNext > 0 ==> patternNext <= p)
      decreases if nameNext == 0 then |pattern| + 1 else |pattern| - patternNext,
                if nameNext > 0 && p > patternNext then |name| + 2 - nameNext else |name| + 1 - nameNext,
                |pattern| - p
    {
      ghost var c := Cursor(p, n, patternNext, nameNext);
      Bounds(pattern, name, c);
      if p < |pattern| {
        if pattern[p] == '*' {
          StarStep(pattern, name, c);
          patternNext, nameNext := p, n + 1;
          p := p + 1;
          continue;
        }
        if n < |name| && (pattern[p] == '?' || pattern[p] == name[n]) {
          CharStep(pattern, name, c);
          p, n := p + 1, n + 1;
          continue;
        }
      }
      Failed(pattern, name, c);
      if 0 < nameNext <= |name| {
        p, n := patternNext, nameNext;
        continue;
      }
      return false;
    }
    Finished(pattern, name, Cursor(p, n, patternNext, nameNext));
    return true;
  }

  lemma Start(pattern: string, name: string)
    ensures At(pattern, name, Cursor(0, 0, 0, 0))
    ensures Hopeful(pattern, name, Cursor(0, 0, 0, 0)) <==> Matches(pattern, name)
  {
    assert pattern[0..] == pattern && name[0..] == name;
  }

  lemma Bounds(pattern: string, name: string, c: Cursor)
    requires At(pattern, name, c)
    ensures c.p <= |pattern| && c.n <= |name| && c.nameNext <= |name| + 1
    ensures c.nameNext > 0 ==> c.patternNext <= c.p && c.patternNext < |pattern| && pattern[c.patternNext] == '*'
    ensures c.nameNext > 0 && c.p == c.patternNext ==> c.n == c.nameNext
  {
  }

  // Nothing fits here, so all hope is in going back, if that is possible.
  lemma Failed(pattern: string, name: string, c: Cursor)
    requires At(pattern, name, c) && (c.p < |pattern| || c.n < |name|)
    requires c.p < |pattern| ==> pattern[c.p] != '*'
    requires c.p < |pattern| && c.n < |name| ==> pattern[c.p] != '?' && pattern[c.p] != name[c.n]
    ensures if 0 < c.nameNext <= |name|
            then var c' := c.(p := c.patternNext, n := c.nameNext);
                 At(pattern, name, c') && Hopeful(pattern, name, c') == Hopeful(pattern, name, c)
            else !Hopeful(pattern, name, c)
    ensures 0 < c.nameNext ==> c.patternNext < c.p
  {
  }

  lemma Finished(pattern: string, name: string, c: Cursor)
    requires At(pattern, name, c) && c.p == |pattern| && c.n == |name|
    ensures Hopeful(pattern, name, c)
  {
  }

  // ---------- Splitting ----------

  function Split(s: string, delimiter: char): (parts: seq<string>)
    ensures |parts| >= 1
  {
    if s == [] then [[]]
    else
      var rest := Split(s[1..], delimiter);
      if s[0] == delimiter then [[]] + rest else [[s[0]] + rest[0]] + rest[1..]
  }

  function Join(parts: seq<string>, delimiter: char): string
    requires parts != []
  {
    if |parts| == 1 then parts[0] else parts[0] + [delimiter] + Join(parts[1..], delimiter)
  }

  lemma {:induction false} JoinFront(c: char, parts: seq<string>, delimiter: char)
    requires parts != []
    ensures Join([[c] + parts[0]] + parts[1..], delimiter) == [c] + Join(parts, delimiter)
  {
    var longer := [[c] + parts[0]] + parts[1..];
    if |parts| > 1 {
      assert longer[1..] == parts[1..];
      assert longer[0] + [delimiter] == [c] + (parts[0] + [delimiter]);
    }
  }

  lemma JoinOne(part: string, delimiter: char)
    ensures Join([part], delimiter) == part
  {
  }

  lemma JoinEmptyFront(parts: seq<string>, delimiter: char)
    requires parts != []
    ensures Join([[]] + parts, delimiter) == [delimiter] + Join(parts, delimiter)
  {
    assert ([[]] + parts)[1..] == parts;
    assert [] + [delimiter] == [delimiter];
  }

  // Splitting loses nothing and leaves no delimiter in a part.
  lemma {:induction false} SplitJoin(s: string, delimiter: char)
    ensures Join(Split(s, delimiter), delimiter) == s
    ensures forall part :: part in Split(s, delimiter) ==> delimiter !in part
  {
    SplitLosesNothing(s, delimiter);
    SplitClean(s, delimiter);
  }

  lemma {:induction false} SplitLosesNothing(s: string, delimiter: char)
    ensures Join(Split(s, delimiter), delimiter) == s
  {
    hide Join;
    if s == [] {
      JoinOne([], delimiter);
    } else {
      SplitLosesNothing(s[1..], delimiter);
      var rest := Split(s[1..], delimiter);
      if s[0] == delimiter {
        JoinEmptyFront(rest, delimiter);
      } else {
        JoinFront(s[0], rest, delimiter);
      }
      assert s == [s[0]] + s[1..];
    }
  }

  lemma {:induction false} SplitClean(s: string, delimiter: char)
    ensures forall part :: part in Split(s, delimiter) ==> delimiter !in part
  {
    if s != [] { SplitClean(s[1..], delimiter); }
  }

  // And it is the only such list of parts.
  lemma {:induction false} JoinSplit(parts: seq<string>, delimiter: char)
    requires parts != [] && forall part :: part in parts ==> delimiter !in part
    ensures Split(Join(parts, delimiter), delimiter) == parts
    decreases |parts|
  {
    if |parts| == 1 {
      SplitOne(parts[0], delimiter);
    } else {
      JoinSplit(parts[1..], delimiter);
      SplitFirst(parts[0], Join(parts[1..], delimiter), delimiter);
    }
  }

  lemma {:induction false} SplitOne(part: string, delimiter: char)
    requires delimiter !in part
    ensures Split(part, delimiter) == [part]
  {
    if part != [] {
      SplitOne(part[1..], delimiter);
      assert [part[0]] + part[1..] == part;
    }
  }

  lemma {:induction false} SplitFirst(part: string, rest: string, delimiter: char)
    requires delimiter !in part
    ensures Split(part + [delimiter] + rest, delimiter) == [part] + Split(rest, delimiter)
  {
    var s := part + [delimiter] + rest;
    if part == [] {
      assert s[1..] == rest;
    } else {
      SplitFirst(part[1..], rest, delimiter);
      assert s[1..] == part[1..] + [delimiter] + rest;
      assert [part[0]] + part[1..] == part;
    }
  }

  // string::find
  method FindChar(s: string, c: char, pos: nat) returns (at: int)
    requires pos <= |s|
    ensures at == -1 ==> c !in s[pos..]
    ensures at != -1 ==> pos <= at < |s| && s[at] == c && c !in s[pos..at]
  {
    at := pos;
    while at < |s|
      invariant pos <= at <= |s| && c !in s[pos..at]
    {
      if s[at] == c { return; }
      assert s[pos..at + 1] == s[pos..at] + [s[at]];
      at := at + 1;
    }
    assert s[pos..at] == s[pos..];
    at := -1;
  }

  method SplitString(s: string, delimiter: char) returns (parsed: seq<string>)
    ensures parsed == Split(s, delimiter)
  {
    hide Split;
    parsed := [];
    var pos := 0;
    assert s[0..] == s;
    while true
      invariant pos <= |s| && Split(s, delimiter) == parsed + Split(s[pos..], delimiter)
      decreases |s| - pos
    {
      var colon := FindChar(s, delimiter, pos);
      if colon == -1 {
        SplitOne(s[pos..], delimiter);
        parsed := parsed + [s[pos..]];
        return;
      }
      SplitFirst(s[pos..colon], s[colon + 1..], delimiter);
      assert s[pos..] == s[pos..colon] + [delimiter] + s[colon + 1..];
      parsed := parsed + [s[pos..colon]];
      pos := colon + 1;
    }
  }

  // ---------- Filters ----------

  predicate IsGlobPattern(pattern: string) {
    exists i :: 0 <= i < |pattern| && (pattern[i] == '?' || pattern[i] == '*')
  }

  // Without wildcards a pattern matches itself alone.
  lemma {:induction false} ExactPattern(pattern: string, name: string)
    requires !IsGlobPattern(pattern)
    ensures Matches(pattern, name) <==> name == pattern
  {
    if pattern != [] && name != [] {
      assert forall i :: 0 <= i < |pattern[1..]| ==> pattern[1..][i] == pattern[i + 1];
      ExactPattern(pattern[1..], name[1..]);
      assert pattern == [pattern[0]] + pattern[1..] && name == [name[0]] + name[1..];
    }
  }

  // A name passes a list of patterns that has one matching it.
  ghost predicate Passes(patterns: seq<string>, name: string) {
    exists pattern :: pattern in patterns && Matches(pattern, name)
  }

  class UnitTestFilter {
    var globPatterns: seq<string>
    var exactMatchPatterns: set<string>
    ghost var patterns: seq<string>

    // The two collections hold the wildcard and the other patterns of the list.
    ghost predicate Valid()
      reads this
    {
      && (forall p :: p in globPatterns <==> p in patterns && IsGlobPattern(p))
      && (forall p :: p in exactMatchPatterns <==> p in patterns && !IsGlobPattern(p))
    }

    constructor Empty()
      ensures Valid() && patterns == []
    {
      globPatterns, exactMatchPatterns, patterns := [], {}, [];
    }

    constructor (filter: string)
      ensures Valid() && patterns == Split(filter, ':')
    {
      hide Split, IsGlobPattern;
      var allPatterns := SplitString(filter, ':');
      var globs, exact := [], {};
      for i := 0 to |allPatterns|
        invariant forall p :: p in globs <==> p in allPatterns[..i] && IsGlobPattern(p)
        invariant forall p :: p in exact <==> p in allPatterns[..i] && !IsGlobPattern(p)
      {
        assert allPatterns[..i + 1] == allPatterns[..i] + [allPatterns[i]];
        if IsGlobPattern(allPatterns[i]) {
          globs := globs + [allPatterns[i]];
        } else {
          exact := exact + {allPatterns[i]};
        }
      }
      assert allPatterns[..|allPatterns|] == allPatterns;
      globPatterns, exactMatchPatterns, patterns := globs, exact, allPatterns;
    }

    method MatchesName(name: string) returns (matches: bool)
      requires Valid()
      ensures matches <==> Passes(patterns, name)
    {
      hide Matches, IsGlobPattern;
      if name in exactMatchPatterns {
        ExactPattern(name, name);
        return true;
      }
      for i := 0 to |globPatterns|
        invariant forall k :: 0 <= k < i ==> !Matches(globPatterns[k], name)
      {
        var one := PatternMatchesString(name, globPatterns[i]);
        if one { return true; }
      }
      forall pattern | pattern in patterns ensures !Matches(pattern, name) {
        if !IsGlobPattern(pattern) { ExactPattern(pattern, name); }
      }
      return false;
    }
  }

  // UnitTestOptions::MatchesFilter
  method MatchesFilter(name: string, filter: string) returns (matches: bool)
    ensures matches <==> exists pattern :: pattern in Split(filter, ':') && Matches(pattern, name)
  {
    var unitTestFilter := new UnitTestFilter(filter);
    matches := unitTestFilter.MatchesName(name);
  }

  // ---------- Positive and negative filters ----------

  const UNIVERSAL_FILTER := "*"

  // What a whole filter says: what is before the first '-', and what is after it.
  ghost predicate Selects(filter: string, name: string) {
    if '-' !in filter then Passes(Split(filter, ':'), name)
    else
      var at := Dash(filter);
      && Passes(Split(if at == 0 then UNIVERSAL_FILTER else filter[..at], ':'), name)
      && !Passes(Split(filter[at + 1..], ':'), name)
  }

  // With nothing before the '-', every name is selected that the rest does not name.
  lemma OnlyNegative(rest: string, name: string)
    ensures Selects("-" + rest, name) <==> !Passes(Split(rest, ':'), name)
  {
    var filter := "-" + rest;
    assert filter[0] == '-' && Dash(filter) == 0 && filter[1..] == rest;
    SplitOne(UNIVERSAL_FILTER, ':');
    StarMatchesAll(name);
    assert UNIVERSAL_FILTER in Split(UNIVERSAL_FILTER, ':');
  }

  lemma {:induction false} StarMatchesAll(name: string)
    ensures Matches("*", name)
  {
    if name != [] { StarMatchesAll(name[1..]); }
  }

  function Dash(filter: string): (at: nat)
    requires '-' in filter
    ensures at < |filter| && filter[at] == '-' && '-' !in filter[..at]
  {
    if filter[0] == '-' then 0 else 1 + Dash(filter[1..])
  }

  class PositiveAndNegativeUnitTestFilter {
    const positiveFilter: UnitTestFilter
    const negativeFilter: UnitTestFilter
    ghost const filter: string

    ghost predicate Valid()
      reads positiveFilter, negativeFilter
    {
      && positiveFilter.Valid() && negativeFilter.Valid()
      && forall name :: Selects(filter, name)
                   <==> Passes(positiveFilter.patterns, name) && !Passes(negativeFilter.patterns, name)
    }

    constructor (filter: string)
      ensures Valid() && this.filter == filter
    {
      hide Split, Matches, IsGlobPattern;
      var parts := SplitString(filter, '-');
      var positive, negative;
      if |parts| > 1 {
        positive := new UnitTestFilter(if parts[0] == [] then UNIVERSAL_FILTER else parts[0]);
        var rest := parts[1];
        for i := 2 to |parts|
          modifies {}
          invariant rest == Join(parts[1..i], '-')
        {
          JoinBack(parts[1..i], parts[i], '-');
          assert parts[1..i + 1] == parts[1..i] + [parts[i]];
          rest := rest + ['-'] + parts[i];
        }
        assert parts[1..|parts|] == parts[1..];
        negative := new UnitTestFilter(rest);
        AtDash(filter);
      } else {
        positive := new UnitTestFilter(parts[0]);
        negative := new UnitTestFilter.Empty();
        NoDash(filter);
      }
      positiveFilter, negativeFilter := positive, negative;
      this.filter := filter;
    }

    method MatchesName(name: string) returns (matches: bool)
      requires Valid()
      ensures matches <==> Selects(filter, name)
    {
      hide Selects;
      matches := positiveFilter.MatchesName(name);
      if matches {
        var rejected := negativeFilter.MatchesName(name);
        matches := !rejected;
      }
    }
  }

  lemma {:induction false} JoinBack(parts: seq<string>, last: string, delimiter: char)
    requires parts != []
    ensures Join(parts + [last], delimiter) == Join(parts, delimiter) + [delimiter] + last
  {
    if |parts| == 1 {
      assert (parts + [last])[1..] == [last];
    } else {
      JoinBack(parts[1..], last, delimiter);
      assert (parts + [last])[1..] == parts[1..] + [last];
    }
  }

  lemma NoDash(filter: string)
    requires |Split(filter, '-')| == 1
    ensures '-' !in filter && Split(filter, '-')[0] == filter
  {
    SplitJoin(filter, '-');
  }

  lemma AtDash(filter: string)
    requires |Split(filter, '-')| > 1
    ensures '-' in filter
    ensures Split(filter, '-')[0] == filter[..Dash(filter)]
    ensures Join(Split(filter, '-')[1..], '-') == filter[Dash(filter) + 1..]
  {
    hide Split;
    if '-' !in filter { SplitOne(filter, '-'); }
    var at := Dash(filter);
    assert filter == filter[..at] + ['-'] + filter[at + 1..];
    SplitFirst(filter[..at], filter[at + 1..], '-');
    SplitJoin(filter[at + 1..], '-');
  }
}
