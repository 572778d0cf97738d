// The RE class over the simple matcher: partial and full matches
// (submodules/googletest/googletest/src/gtest-port.cc).
module RegularExpression {
  import opened RegexSyntax
  import opened RegexMatcher

  // The pattern between '^' and '$', if it does not have them.
  function FullPattern(pattern: string): string {
    (if pattern == "" || pattern[0] != '^' then "^" else "")
    + pattern
    + (if pattern == "" || pattern[|pattern| - 1] != '$' then "$" else "")
  }

  // The last item is an escaped dollar sign, and nothing comes after it.
  predicate EndsInEscapedDollar(tail: Tail) {
    !tail.ending && tail.items != [] && tail.items[|tail.items| - 1] == Item(Atom(true, '$'), Once)
  }

  function FullRegex(r: Regex): Regex {
    Regex(true, if EndsInEscapedDollar(r.tail) then r.tail else r.tail.(ending := true))
  }

  // ---------- What the full pattern spells ----------

  lemma {:induction false} AddEnding(items: seq<Item>)
    ensures Tail(items, true).Unparse() == Tail(items, false).Unparse() + "$"
  {
    if items != [] {
      AddEnding(items[1..]);
      assert items[0].Unparse() + (Tail(items[1..], false).Unparse() + "$")
          == (items[0].Unparse() + Tail(items[1..], false).Unparse()) + "$";
    }
  }

  predicate Ends(s: string, c: char) { s != "" && s[|s| - 1] == c }

  lemma ItemEnd(item: Item)
    requires item.atom.Wf()
    ensures Ends(item.Unparse(), '$') <==> item == Item(Atom(true, '$'), Once)
    ensures item.Unparse() != ""
  {
  }

  // An unanchored end is a dollar sign only if that is escaped.
  lemma {:induction false} TailEnd(items: seq<Item>)
    requires Tail(items, false).Wf()
    ensures Ends(Tail(items, false).Unparse(), '$') <==> EndsInEscapedDollar(Tail(items, false))
    ensures items != [] ==> Tail(items, false).Unparse() != ""
  {
    hide Item.Unparse, Tail.Unparse, Atom.Wf, Ends;
    TailText(items);
    EndsNone('$');
    if items != [] {
      ItemEnd(items[0]);
      TailEnd(items[1..]);
      TailText(items[1..]);
      EndsRight(items[0].Unparse(), Tail(items[1..], false).Unparse(), '$');
    }
  }

  lemma TailText(items: seq<Item>)
    ensures Tail(items, false).Unparse()
         == if items == [] then "" else items[0].Unparse() + Tail(items[1..], false).Unparse()
  {
  }

  lemma EndsNone(c: char)
    ensures !Ends("", c)
  {
  }

  lemma EndsRight(s: string, t: string, c: char)
    ensures Ends(s + t, c) <==> if t == "" then Ends(s, c) else Ends(t, c)
  {
    if t == "" { assert s + t == s; }
  }

  lemma FullSpells(r: Regex, pattern: string)
    requires Spells(r, pattern)
    ensures Spells(FullRegex(r), FullPattern(pattern))
  {
    Spelled(r, pattern);
    hide ParseTail, Atom.Wf, Tail.Unparse;
    var items, u := r.tail.items, r.tail.Unparse();
    TailEnd(items);
    AddEnding(items);
    FullText(r.anchored, pattern, u);
    if EndsInEscapedDollar(r.tail) {
      assert FullRegex(r).Unparse() == "^" + u;
    } else if r.tail.ending {
      assert Ends(u, '$');
    } else {
      assert FullRegex(r).Unparse() == "^" + (u + "$");
    }
  }

  lemma FullText(anchored: bool, pattern: string, u: string)
    requires pattern == (if anchored then "^" else "") + u && (anchored <==> CharAt(pattern, 0) == '^')
    ensures FullPattern(pattern) == "^" + (if Ends(u, '$') then u else u + "$")
  {
    if anchored {
      assert pattern == "^" + u;
      EndsRight("^", u, '$');
      assert pattern + "$" == "^" + (u + "$");
    } else {
      assert pattern == u;
    }
    FullParts(pattern);
  }

  lemma FullParts(pattern: string)
    ensures FullPattern(pattern)
         == (if CharAt(pattern, 0) == '^' then "" else "^") + (if Ends(pattern, '$') then pattern else pattern + "$")
  {
    var head := if pattern == "" || pattern[0] != '^' then "^" else "";
    Assoc(head, pattern, if Ends(pattern, '$') then "" else "$");
    assert pattern + "" == pattern;
  }

  // ---------- Full matches ----------

  lemma WholeString(items: seq<Item>, str: string)
    ensures Occurs(Regex(true, Tail(items, true)), str) <==> InLanguage(items, str)
  {
    assert str[0..] == str && str[..|str|] == str;
    if InLanguage(items, str) {
      assert AtHead(Tail(items, true), str[0..]);
    }
  }

  // A character the atom accepts.
  function Sample(atom: Atom): char {
    if !atom.escaped then (if atom.c == '.' then 'a' else atom.c)
    else
      match atom.c
      case 'd' => '0'
      case 's' => ' '
      case 'w' => 'a'
      case 'D' => 'a'
      case 'S' => 'a'
      case 'W' => ' '
      case 't' => '\t'
      case 'n' => '\n'
      case 'v' => '\U{0B}'
      case 'f' => '\U{0C}'
      case 'r' => '\r'
      case c => c
  }

  lemma SampleAccepted(atom: Atom)
    requires atom.Wf()
    ensures Accepts(atom, Sample(atom))
  {
    Digits('a');
    Lower('a');
    Lower(' ');
    Upper(' ');
    Digits(' ');
    Digits('0');
  }

  function Samples(items: seq<Item>): string {
    if items == [] then "" else [Sample(items[0].atom)] + Samples(items[1..])
  }

  lemma {:induction false} SamplesInLanguage(items: seq<Item>)
    requires Tail(items, false).Wf()
    ensures InLanguage(items, Samples(items))
  {
    if items != [] {
      hide Accepts, Atom.Wf;
      SampleAccepted(items[0].atom);
      SamplesInLanguage(items[1..]);
      var w := Samples(items);
      assert w[..1] == [Sample(items[0].atom)] && w[1..] == Samples(items[1..]);
      assert ItemAccepts(items[0], w[..1]);
    }
  }

  // Words of a list that ends in an escaped dollar sign end in a dollar sign.
  lemma {:induction false} DollarWords(items: seq<Item>, w: string)
    requires EndsInEscapedDollar(Tail(items, false)) && InLanguage(items, w)
    ensures Ends(w, '$')
  {
    var k :| 0 <= k <= |w| && ItemAccepts(items[0], w[..k]) && InLanguage(items[1..], w[k..]);
    if |items| > 1 {
      DollarWords(items[1..], w[k..]);
    }
  }

  // A full match is what it says for exactly the expressions that do not end in \$: for one
  // that does, RE::Init adds no '$' and a string that goes on after a match is let through.
  lemma FullMatchExactly(r: Regex)
    requires r.tail.Wf()
    ensures (forall str :: Occurs(FullRegex(r), str) <==> InLanguage(r.tail.items, str)) <==> !EndsInEscapedDollar(r.tail)
  {
    var items := r.tail.items;
    if EndsInEscapedDollar(r.tail) {
      SamplesInLanguage(items);
      var w := Samples(items);
      var longer := w + "x";
      assert longer[0..][..|w|] == w;
      assert AtHead(r.tail, longer[0..]);
      assert Occurs(FullRegex(r), longer);
      if InLanguage(items, longer) { DollarWords(items, longer); }
    } else {
      forall str ensures Occurs(FullRegex(r), str) <==> InLanguage(items, str) {
        WholeString(items, str);
      }
    }
  }

  // ---------- A full match that is none ----------

  // The items of a\$.
  const AITEM := Item(Atom(false, 'a'), Once)
  const DOLLARITEM := Item(Atom(true, '$'), Once)

  lemma ADollarSpelled()
    ensures Spells(Regex(false, Tail([AITEM, DOLLARITEM], false)), "a\\$")
  {
    hide Atom.Wf;
    var items := [AITEM, DOLLARITEM];
    ADollarWf();
    assert items[1..] == [DOLLARITEM] && items[1..][1..] == [];
    assert Tail(items[1..], false).Unparse() == "\\$";
  }

  lemma ADollarWf()
    ensures AITEM.atom.Wf() && DOLLARITEM.atom.Wf()
  {
  }

  lemma ADollarWord()
    ensures InLanguage([AITEM, DOLLARITEM], "a$")
  {
    var items := [AITEM, DOLLARITEM];
    assert items[1..] == [DOLLARITEM] && [DOLLARITEM][1..] == [];
    assert "a$"[..1] == "a" && "a$"[1..] == "$" && "$"[..1] == "$" && "$"[1..] == "";
    assert Accepts(DOLLARITEM.atom, '$') && Accepts(AITEM.atom, 'a');
    hide Accepts;
    assert ItemAccepts(DOLLARITEM, "$"[..1]) && InLanguage([], "$"[1..]);
    assert InLanguage([DOLLARITEM], "$");
    assert ItemAccepts(AITEM, "a$"[..1]);
  }

  // The expression a\$ and the string a$b: a full match, although the string is not in the
  // language.
  lemma FullMatchLetsThrough()
    ensures var r := Regex(false, Tail([AITEM, DOLLARITEM], false));
            && Spells(r, "a\\$") && Occurs(FullRegex(r), "a$b") && !InLanguage(r.tail.items, "a$b")
  {
    hide InLanguage, Spells;
    var r := Regex(false, Tail([AITEM, DOLLARITEM], false));
    ADollarSpelled();
    ADollarWord();
    assert "a$b"[0..] == "a$b" && "a$b"[..2] == "a$";
    assert AtHead(r.tail, "a$b"[0..]);
    if InLanguage(r.tail.items, "a$b") { DollarWords(r.tail.items, "a$b"); }
  }

  class RE {
    var pattern: CString
    var fullPattern: string
    var isValid: bool

    ghost predicate Valid()
      reads this
    {
      isValid ==> (exists r :: Spells(r, pattern)) && fullPattern == FullPattern(pattern)
    }

    // RE::Init
    constructor (regex: Pointer)
      ensures Valid() && (regex.Text? ==> pattern == regex.s)
      ensures isValid <==> regex.Text? && exists r :: Spells(r, regex.s)
    {
      hide Spells;
      var valid := ValidateRegex(regex);
      var p: CString := if regex.Text? then regex.s else "";
      var full := "";
      if valid {
        if p == "" || p[0] != '^' { full := "^"; }
        full := full + p;
        if p == "" || p[|p| - 1] != '$' { full := full + "$"; }
      }
      assert valid ==> full == FullPattern(p);
      pattern, fullPattern, isValid := p, full, valid;
    }

    method PartialMatch(str: CString) returns (matches: bool)
      requires Valid() && |str| <= MAX_COUNT
      ensures matches <==> isValid && exists r :: Spells(r, pattern) && Occurs(r, str)
    {
      hide Spells, Occurs;
      matches := false;
      if isValid {
        matches := MatchRegexAnywhere(Text(pattern), Text(str));
      }
    }

    method FullMatch(str: CString) returns (matches: bool)
      requires Valid() && |str| <= MAX_COUNT
      ensures matches <==> isValid && exists r :: Spells(r, pattern) && Occurs(FullRegex(r), str)
    {
      hide Spells, Occurs, FullPattern, FullRegex;
      matches := false;
      if isValid {
        FullExactly(pattern, str);
        matches := MatchRegexAnywhere(Text(fullPattern), Text(str));
      }
    }
  }

  lemma FullExactly(pattern: CString, str: CString)
    requires exists r :: Spells(r, pattern)
    ensures '\0' !in FullPattern(pattern) && exists f :: Spells(f, FullPattern(pattern))
    ensures (exists f :: Spells(f, FullPattern(pattern)) && Occurs(f, str))
       <==> exists r :: Spells(r, pattern) && Occurs(FullRegex(r), str)
  {
    assert '\0' !in FullPattern(pattern);
    hide Spells, Occurs, FullPattern, FullRegex;
    var r :| Spells(r, pattern);
    FullSpells(r, pattern);
    forall f | Spells(f, FullPattern(pattern)) ensures f == FullRegex(r) {
      SpelledOnce(f, FullRegex(r), FullPattern(pattern));
    }
    forall r' | Spells(r', pattern) ensures r' == r {
      SpelledOnce(r', r, pattern);
    }
  }
}
