// The matcher of simple regular expressions, against the language they denote
// (submodules/googletest/googletest/src/gtest-port.cc).
module RegexMatcher {
  import opened RegexSyntax

  // ---------- The language ----------

  predicate Times(repeat: Repeat, n: nat) {
    match repeat
    case Once => n == 1
    case Optional => n <= 1
    case Many => true
    case AtLeastOnce => n >= 1
  }

  predicate ItemAccepts(item: Item, w: string) {
    Times(item.repeat, |w|) && forall i :: 0 <= i < |w| ==> Accepts(item.atom, w[i])
  }

  // The word is a concatenation of one word of each item.
  ghost predicate InLanguage(items: seq<Item>, w: string) {
    if items == [] then w == ""
    else exists k :: 0 <= k <= |w| && ItemAccepts(items[0], w[..k]) && InLanguage(items[1..], w[k..])
  }

  // A word of the language begins the string, and ends it if the expression says so.
  ghost predicate AtHead(tail: Tail, str: string) {
    exists n :: 0 <= n <= |str| && InLanguage(tail.items, str[..n]) && (tail.ending ==> n == |str|)
  }

  // A word of the language occurs in the string, at its head if the expression says so.
  ghost predicate Occurs(r: Regex, str: string) {
    exists i :: 0 <= i <= |str| && AtHead(r.tail, str[i..]) && (r.anchored ==> i == 0)
  }

  // The first item takes some beginning, and the rest goes on from there.
  ghost predicate Continues(item: Item, rest: Tail, str: string, k: nat)
    requires k <= |str|
  {
    ItemAccepts(item, str[..k]) && AtHead(rest, str[k..])
  }

  lemma HeadSplits(tail: Tail, str: string)
    requires tail.items != []
    ensures AtHead(tail, str)
       <==> exists k :: 0 <= k <= |str| && Continues(tail.items[0], Tail(tail.items[1..], tail.ending), str, k)
  {
    var item, rest := tail.items[0], Tail(tail.items[1..], tail.ending);
    hide ItemAccepts, Accepts;
    if AtHead(tail, str) {
      var n :| 0 <= n <= |str| && InLanguage(tail.items, str[..n]) && (tail.ending ==> n == |str|);
      var k :| 0 <= k <= n && ItemAccepts(item, str[..n][..k]) && InLanguage(rest.items, str[..n][k..]);
      assert str[..n][..k] == str[..k] && str[..n][k..] == str[k..][..n - k];
      assert Continues(item, rest, str, k);
    }
    forall k | 0 <= k <= |str| && Continues(item, rest, str, k) ensures AtHead(tail, str) {
      var m :| 0 <= m <= |str[k..]| && InLanguage(rest.items, str[k..][..m]) && (rest.ending ==> m == |str[k..]|);
      var n := k + m;
      assert str[..n][..k] == str[..k] && str[..n][k..] == str[k..][..m];
    }
  }

  lemma HeadOfNothing(ending: bool, str: string)
    ensures AtHead(Tail([], ending), str) <==> !ending || str == ""
  {
    if !ending || str == "" { assert str[..0] == "" && InLanguage([], str[..0]); }
  }

  // ---------- The matcher ----------

  // size_t, less one: longer strings cannot be indexed.
  const MAX_COUNT := 0xFFFF_FFFF_FFFF_FFFE

  // What the regular expression at regex means for the string at str.
  ghost predicate Head(regex: string, str: string) {
    ParseTail(regex).Parsed? && AtHead(ParseTail(regex).tail, str)
  }

  lemma HeadItem(regex: CString, str: string)
    requires regex != "" && regex != "$" && ParseTail(regex).Parsed?
    ensures var r := ReadItem(regex);
            && r.Read? && ParseTail(r.rest).Parsed? && '\0' !in r.rest
            && (Head(regex, str) <==> exists k :: 0 <= k <= |str| && Follows(r.item, r.rest, str, k))
  {
    hide ReadItem, AtHead, ItemAccepts, Accepts;
    var r := ReadItem(regex);
    ItemRead(regex);
    var tail, rest := ParseTail(regex).tail, ParseTail(r.rest).tail;
    assert tail.items[1..] == rest.items;
    HeadSplits(tail, str);
    if Head(regex, str) {
      var k :| 0 <= k <= |str| && Continues(tail.items[0], Tail(tail.items[1..], tail.ending), str, k);
      assert Follows(r.item, r.rest, str, k);
    }
    forall k | 0 <= k <= |str| && Follows(r.item, r.rest, str, k) ensures Head(regex, str) {
      assert Continues(tail.items[0], Tail(tail.items[1..], tail.ending), str, k);
    }
  }

  ghost predicate Follows(item: Item, regex: string, str: string, k: nat)
    requires k <= |str|
  {
    ItemAccepts(item, str[..k]) && Head(regex, str[k..])
  }

  // The parts of the text that the matcher looks at.
  lemma Pieces(regex: string)
    requires ReadItem(regex).Read?
    ensures var escaped := CharAt(regex, 0) == '\\';
            var at := if escaped then regex[1..] else regex;
            var item := ReadItem(regex).item;
            && at != "" && item.atom.Wf() && item == Item(Atom(escaped, at[0]), RepeatOf(CharAt(at, 1)))
            && (IsRepeat(CharAt(at, 1)) <==> item.repeat != Once)
            && ReadItem(regex).rest == if item.repeat == Once then at[1..] else at[2..]
  {
  }

  // Beyond a character the atom does not accept there is nothing.
  lemma NoFurther(item: Item, regex: string, str: string, i: nat)
    requires i <= |str| && (i == |str| || !Accepts(item.atom, str[i]))
    ensures forall k :: i < k <= |str| ==> !Follows(item, regex, str, k)
  {
    hide Accepts, Head;
    forall k | i < k <= |str| ensures !Follows(item, regex, str, k) {
      assert str[..k][i] == str[i];
    }
  }

  lemma FollowsExactly(item: Item, regex: string, str: string, k: nat)
    requires k <= |str| && forall j :: 0 <= j < k ==> Accepts(item.atom, str[j])
    ensures Follows(item, regex, str, k) <==> Times(item.repeat, k) && Head(regex, str[k..])
  {
    hide Accepts, Head;
  }

  lemma FollowsOnce(atom: Atom, regex: string, str: string)
    ensures (exists k :: 0 <= k <= |str| && Follows(Item(atom, Once), regex, str, k))
       <==> str != "" && Accepts(atom, str[0]) && Head(regex, str[1..])
  {
    hide Accepts, Head;
    if str != "" && Accepts(atom, str[0]) {
      FollowsExactly(Item(atom, Once), regex, str, 1);
    }
    forall k | 0 <= k <= |str| && Follows(Item(atom, Once), regex, str, k)
      ensures str != "" && Accepts(atom, str[0]) && Head(regex, str[1..])
    {
      assert k == 1 && str[..k][0] == str[0];
    }
  }

  method MatchRepetitionAndRegexAtHead(escaped: bool, c: char, repeat: char, regex: CString, str: CString)
    returns (matches: bool)
    requires Atom(escaped, c).Wf() && IsRepeat(repeat) && ParseTail(regex).Parsed? && |str| <= MAX_COUNT
    ensures matches <==> exists k :: 0 <= k <= |str| && Follows(Item(Atom(escaped, c), RepeatOf(repeat)), regex, str, k)
    decreases |regex|, 1
  {
    hide ParseTail, Head, AtomMatchesChar, Accepts, Follows, Atom.Wf;
    ghost var item := Item(Atom(escaped, c), RepeatOf(repeat));
    var minCount := if repeat == '+' then 1 else 0;
    var maxCount := if repeat == '?' then 1 else MAX_COUNT;
    assert forall n: nat :: n <= MAX_COUNT ==> (Times(item.repeat, n) <==> minCount <= n <= maxCount);
    var i := 0;
    while i <= maxCount
      invariant 0 <= i <= |str| && i <= maxCount + 1
      invariant forall j :: 0 <= j < i ==> Accepts(item.atom, str[j])
      invariant forall k :: 0 <= k < i ==> !Follows(item, regex, str, k)
      decreases |str| - i
    {
      FollowsExactly(item, regex, str, i);
      if i >= minCount {
        var tail := MatchRegexAtHead(regex, str[i..]);
        if tail { return true; }
      }
      if i < |str| { AtomExactly(item.atom, str[i]); }
      if CharAt(str, i) == '\0' || !AtomMatchesChar(escaped, c, str[i]) {
        NoFurther(item, regex, str, i);
        return false;
      }
      i := i + 1;
    }
    TooMany(item, regex, str, i);
    return false;
  }

  lemma TooMany(item: Item, regex: string, str: string, i: nat)
    requires i <= |str| && forall n :: i <= n <= |str| ==> !Times(item.repeat, n)
    ensures forall k :: i <= k <= |str| ==> !Follows(item, regex, str, k)
  {
    hide Head;
    forall k | i <= k <= |str| ensures !Follows(item, regex, str, k) {
      assert |str[..k]| == k;
    }
  }

  method MatchRegexAtHead(regex: CString, str: CString) returns (matches: bool)
    requires ParseTail(regex).Parsed? && |str| <= MAX_COUNT
    ensures matches <==> Head(regex, str)
    decreases |regex|, 0
  {
    hide ParseTail, Head, AtomMatchesChar, Accepts, Follows, ReadItem, IsInSet, Atom.Wf;
    HeadEnds(regex, str);
    if CharAt(regex, 0) == '\0' { return true; }
    if CharAt(regex, 0) == '$' { return CharAt(str, 0) == '\0'; }
    HeadItem(regex, str);
    Pieces(regex);
    var escaped := CharAt(regex, 0) == '\\';
    var at := if escaped then regex[1..] else regex;
    if IsRepeat(CharAt(at, 1)) {
      matches := MatchRepetitionAndRegexAtHead(escaped, at[0], at[1], at[2..], str);
    } else {
      FollowsOnce(Atom(escaped, at[0]), at[1..], str);
      if str != "" { AtomExactly(Atom(escaped, at[0]), str[0]); }
      matches := false;
      if CharAt(str, 0) != '\0' && AtomMatchesChar(escaped, at[0], str[0]) {
        matches := MatchRegexAtHead(at[1..], str[1..]);
      }
    }
  }

  // The two ends of a regular expression.
  lemma HeadEnds(regex: CString, str: CString)
    requires ParseTail(regex).Parsed?
    ensures CharAt(regex, 0) == '\0' ==> Head(regex, str)
    ensures CharAt(regex, 0) == '$' ==> (Head(regex, str) <==> CharAt(str, 0) == '\0')
    ensures CharAt(regex, 0) != '\0' && CharAt(regex, 0) != '$' ==> regex != "" && regex != "$"
  {
    HeadOfNothing(false, str);
    HeadOfNothing(true, str);
  }

  method MatchRegexAnywhere(regex: Pointer, str: Pointer) returns (matches: bool)
    requires regex.Text? ==> exists r :: Spells(r, regex.s)
    requires str.Text? ==> |str.s| <= MAX_COUNT
    ensures matches <==> regex.Text? && str.Text? && exists r :: Spells(r, regex.s) && Occurs(r, str.s)
  {
    hide ParseTail, Head, Spells;
    if regex.Null? || str.Null? { return false; }
    SpelledExactly(regex.s);
    OccursExactly(regex.s, str.s);
    if CharAt(regex.s, 0) == '^' {
      matches := MatchRegexAtHead(regex.s[1..], str.s);
      return;
    }
    var at := 0;
    while true
      invariant 0 <= at <= |str.s|
      invariant forall i :: 0 <= i < at ==> !Head(regex.s, str.s[i..])
      decreases |str.s| - at
    {
      matches := MatchRegexAtHead(regex.s, str.s[at..]);
      if matches || CharAt(str.s, at) == '\0' { return; }
      at := at + 1;
    }
  }

  lemma OccursExactly(regex: string, str: string)
    requires exists r :: Spells(r, regex)
    ensures (exists r :: Spells(r, regex) && Occurs(r, str))
       <==> if CharAt(regex, 0) == '^' then Head(regex[1..], str)
            else exists i :: 0 <= i <= |str| && Head(regex, str[i..])
  {
    hide ParseTail, Spells, AtHead;
    var r :| Spells(r, regex);
    Spelled(r, regex);
    forall r' | Spells(r', regex) ensures r' == r { SpelledOnce(r, r', regex); }
    assert str[0..] == str;
    forall i | 0 <= i <= |str| ensures Head(TailText(regex), str[i..]) <==> AtHead(r.tail, str[i..]) {
    }
  }
}
