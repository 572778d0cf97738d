// Simple regular expressions: characters, syntax, and the validator
// (submodules/googletest/googletest/src/gtest-port.cc).
module RegexSyntax {

  // A C string has no '\0' before its end; indexing it at the end reads '\0'.
  type CString = s: string | '\0' !in s

  datatype Pointer = Null | Text(s: CString)

  function CharAt(s: string, i: nat): char {
    if i < |s| then s[i] else '\0'
  }

  predicate IsInSet(ch: char, str: string) { ch != '\0' && ch in str }

  predicate IsAsciiDigit(ch: char) { '0' <= ch <= '9' }

  predicate IsAsciiPunct(ch: char) { IsInSet(ch, "^-!\"#$%&'()*+,./:;<=>?@[\\]_`{|}~") }

  predicate IsRepeat(ch: char) { IsInSet(ch, "?*+") }

  predicate IsAsciiWhiteSpace(ch: char) { IsInSet(ch, " \U{0C}\n\r\t\U{0B}") }

  predicate IsAsciiWordChar(ch: char) {
    'a' <= ch <= 'z' || 'A' <= ch <= 'Z' || '0' <= ch <= '9' || ch == '_'
  }

  predicate IsValidEscape(c: char) { IsAsciiPunct(c) || IsInSet(c, "dDfnrsStvwW") }

  predicate AtomMatchesChar(escaped: bool, patternChar: char, ch: char) {
    if escaped then
      match patternChar
      case 'd' => IsAsciiDigit(ch)
      case 'D' => !IsAsciiDigit(ch)
      case 'f' => ch == '\U{0C}'
      case 'n' => ch == '\n'
      case 'r' => ch == '\r'
      case 's' => IsAsciiWhiteSpace(ch)
      case 'S' => !IsAsciiWhiteSpace(ch)
      case 't' => ch == '\t'
      case 'v' => ch == '\U{0B}'
      case 'w' => IsAsciiWordChar(ch)
      case 'W' => !IsAsciiWordChar(ch)
      case _ => IsAsciiPunct(patternChar) && patternChar == ch
    else (patternChar == '.' && ch != '\n') || patternChar == ch
  }

  // ---------- Abstract syntax ----------

  const DIGITS := "0123456789"
  const LOWER := "abcdefghijklmnopqrstuvwxyz"
  const UPPER := "ABCDEFGHIJKLMNOPQRSTUVWXYZ"
  const SPACES := "\t\n\U{0B}\U{0C}\r "

  // Punctuation is what is printed of the ASCII characters and is no letter, digit or blank.
  predicate InPuncts(ch: char) {
    33 <= ch as int <= 126 && ch !in LOWER && ch !in UPPER && ch !in DIGITS
  }

  // The letters that name a class or a control character behind a backslash.
  predicate NamesClass(c: char) {
    match c
    case 'd' | 's' | 'w' | 'D' | 'S' | 'W' => true
    case 't' | 'n' | 'v' | 'f' | 'r' => true
    case _ => false
  }

  // The characters that do not stand for themselves: they repeat, anchor or escape, or are
  // reserved for what simple expressions do not have.
  predicate IsMeta(c: char) {
    match c
    case '?' | '*' | '+' => true
    case '^' | '$' | '\\' => true
    case '(' | ')' | '[' | ']' | '{' | '}' | '|' => true
    case _ => false
  }

  // A character of the pattern, or an escape sequence.
  datatype Atom = Atom(escaped: bool, c: char) {
    predicate Wf() {
      if escaped then InPuncts(c) || NamesClass(c) else c != '\0' && !IsMeta(c)
    }

    function Unparse(): string { if escaped then ['\\', c] else [c] }
  }

  // ---------- What an atom means ----------

  predicate InDigits(ch: char) { ch in DIGITS }

  predicate InSpaces(ch: char) { ch in SPACES }

  predicate InWords(ch: char) { ch in LOWER || ch in UPPER || ch in DIGITS || ch == '_' }

  // '.' is any character but a newline; the letters of the escapes name classes and control
  // characters, a capital the complement of its small letter; the rest are themselves.
  predicate Accepts(atom: Atom, ch: char) {
    if !atom.escaped then (if atom.c == '.' then ch != '\n' else ch == atom.c)
    else
      match atom.c
      case 'd' => InDigits(ch)
      case 's' => InSpaces(ch)
      case 'w' => InWords(ch)
      case 'D' => !InDigits(ch)
      case 'S' => !InSpaces(ch)
      case 'W' => !InWords(ch)
      case 't' => ch as int == 9
      case 'n' => ch as int == 10
      case 'v' => ch as int == 11
      case 'f' => ch as int == 12
      case 'r' => ch as int == 13
      case c => ch == c
  }

  lemma AtomExactly(atom: Atom, ch: char)
    requires atom.Wf() && ch != '\0'
    ensures AtomMatchesChar(atom.escaped, atom.c, ch) <==> Accepts(atom, ch)
  {
    hide IsInSet, IsAsciiDigit, IsAsciiWhiteSpace, IsAsciiWordChar, InDigits, InSpaces, InWords;
    Classes(ch);
    PunctExactly(atom.c);
  }

  lemma Classes(ch: char)
    ensures IsAsciiDigit(ch) <==> InDigits(ch)
    ensures IsAsciiWhiteSpace(ch) <==> InSpaces(ch)
    ensures IsAsciiWordChar(ch) <==> InWords(ch)
  {
    hide IsInSet;
    Digits(ch);
    Lower(ch);
    Upper(ch);
    Spaces(ch);
  }

  lemma Digits(ch: char)
    ensures '0' <= ch <= '9' <==> ch in DIGITS
  {
    assert '0' <= ch <= '9' ==> DIGITS[ch as int - '0' as int] == ch;
  }

  lemma Lower(ch: char)
    ensures 'a' <= ch <= 'z' <==> ch in LOWER
  {
    assert 'a' <= ch <= 'z' ==> LOWER[ch as int - 'a' as int] == ch;
  }

  lemma Upper(ch: char)
    ensures 'A' <= ch <= 'Z' <==> ch in UPPER
  {
    assert 'A' <= ch <= 'Z' ==> UPPER[ch as int - 'A' as int] == ch;
  }

  lemma Spaces(ch: char)
    ensures ch in SPACES <==> IsAsciiWhiteSpace(ch)
  {
  }

  // ---------- Which characters the validator lets through ----------

  // The character tables of the source: punctuation, what may follow a backslash, and what
  // may not stand alone.
  lemma PunctExactly(ch: char)
    ensures IsAsciiPunct(ch) <==> InPuncts(ch)
  {
    Digits(ch);
    Lower(ch);
    Upper(ch);
    Puncts(ch);
  }

  lemma Puncts(ch: char)
    ensures IsAsciiPunct(ch)
       <==> 33 <= ch as int <= 126 && !('a' <= ch <= 'z') && !('A' <= ch <= 'Z') && !('0' <= ch <= '9')
  {
  }

  lemma EscapeExactly(c: char)
    ensures IsValidEscape(c) <==> Atom(true, c).Wf()
  {
    hide IsAsciiPunct, InPuncts;
    PunctExactly(c);
  }

  // A character may stand alone if and only if the validator has nothing against it there.
  lemma MetaExactly(c: char)
    requires c != '\0'
    ensures Atom(false, c).Wf() <==> c != '\\' && c != '^' && c != '$' && !IsInSet(c, "()[]{}|") && !IsRepeat(c)
    ensures IsInSet(c, "^$?*+") <==> c == '^' || c == '$' || IsRepeat(c)
    ensures IsRepeat(c) <==> RepeatOf(c) != Once
    ensures IsRepeat(c) ==> c != '\\' && c != '^' && c != '$' && !IsInSet(c, "()[]{}|")
  {
  }

  datatype Repeat = Once | Optional | Many | AtLeastOnce {
    function Unparse(): string {
      match this
      case Once => ""
      case Optional => "?"
      case Many => "*"
      case AtLeastOnce => "+"
    }
  }

  function RepeatOf(ch: char): Repeat {
    if ch == '?' then Optional else if ch == '*' then Many else if ch == '+' then AtLeastOnce else Once
  }

  datatype Item = Item(atom: Atom, repeat: Repeat) {
    function Unparse(): string { atom.Unparse() + repeat.Unparse() }
  }

  datatype Tail = Tail(items: seq<Item>, ending: bool) {
    predicate Wf() { forall item :: item in items ==> item.atom.Wf() }

    function Unparse(): string
      decreases |items|
    {
      if items == [] then (if ending then "$" else "")
      else items[0].Unparse() + Tail(items[1..], ending).Unparse()
    }
  }

  // Anchored at the head or not, a list of items, anchored at the end or not.
  datatype Regex = Regex(anchored: bool, tail: Tail) {
    function Unparse(): string { (if anchored then "^" else "") + tail.Unparse() }
  }

  // The text is that of the regular expression.
  ghost predicate Spells(r: Regex, text: string) { r.tail.Wf() && r.Unparse() == text }

  // ---------- Parsing ----------

  datatype Read = Read(item: Item, rest: string) | NoItem

  // The item in front of the text.
  function ReadItem(s: string): (r: Read)
    ensures r.Read? ==> |r.rest| < |s|
  {
    var escaped := CharAt(s, 0) == '\\';
    var t := if escaped then s[1..] else s;
    var repeat := RepeatOf(CharAt(t, 1));
    if t == "" || !Atom(escaped, t[0]).Wf() then NoItem
    else Read(Item(Atom(escaped, t[0]), repeat), if repeat == Once then t[1..] else t[2..])
  }

  datatype Parsed = Parsed(tail: Tail) | Bad

  function ParseTail(s: string): Parsed
    decreases |s|
  {
    if s == "" then Parsed(Tail([], false))
    else if s == "$" then Parsed(Tail([], true))
    else
      var r := ReadItem(s);
      if r.NoItem? then Bad
      else
        var rest := ParseTail(r.rest);
        if rest.Bad? then Bad else Parsed(rest.tail.(items := [r.item] + rest.tail.items))
  }

  lemma ItemRead(s: string)
    requires ReadItem(s).Read?
    ensures ReadItem(s).item.atom.Wf() && s == ReadItem(s).item.Unparse() + ReadItem(s).rest
  {
  }

  lemma ItemSpelled(item: Item, u: string)
    requires item.atom.Wf() && !IsRepeat(CharAt(u, 0))
    ensures ReadItem(item.Unparse() + u) == Read(item, u)
    ensures item.Unparse() + u != "" && item.Unparse() + u != "$"
  {
    hide IsInSet, IsValidEscape, RepeatOf, Repeat.Unparse, Atom.Unparse, Atom.Wf, ReadItem, CharAt, IsRepeat;
    var v := item.repeat.Unparse() + u;
    RepeatSpelled(item.repeat, u);
    AtomSpelled(item.atom, v);
    Assoc(item.atom.Unparse(), item.repeat.Unparse(), u);
  }

  lemma Assoc(a: string, b: string, c: string)
    ensures a + b + c == a + (b + c)
  {
  }

  lemma AtomSpelled(atom: Atom, v: string)
    requires atom.Wf()
    ensures var repeat := RepeatOf(CharAt(v, 0));
            ReadItem(atom.Unparse() + v) == Read(Item(atom, repeat), if repeat == Once then v else v[1..])
    ensures atom.Unparse() + v != "" && atom.Unparse() + v != "$"
  {
    hide IsInSet, IsValidEscape;
    if !atom.escaped { MetaExactly(atom.c); }
    var s := atom.Unparse() + v;
    var t := if atom.escaped then s[1..] else s;
    assert t == [atom.c] + v;
    assert t[1..] == v && CharAt(t, 1) == CharAt(v, 0);
    if v != "" { assert t[2..] == v[1..]; }
  }

  lemma RepeatSpelled(repeat: Repeat, u: string)
    requires !IsRepeat(CharAt(u, 0))
    ensures var v := repeat.Unparse() + u;
            RepeatOf(CharAt(v, 0)) == repeat && (if repeat == Once then v else v[1..]) == u
  {
  }

  // Whatever is parsed is spelled so.
  lemma {:induction false} ParsedSpells(s: string)
    requires ParseTail(s).Parsed?
    ensures ParseTail(s).tail.Wf() && ParseTail(s).tail.Unparse() == s
    decreases |s|
  {
    hide ReadItem;
    if s != "" && s != "$" {
      ItemRead(s);
      ParsedSpells(ReadItem(s).rest);
      assert ParseTail(s).tail.items[1..] == ParseTail(ReadItem(s).rest).tail.items;
    }
  }

  // Whatever is spelled is parsed so.
  lemma {:induction false} SpelledParses(tail: Tail)
    requires tail.Wf()
    ensures ParseTail(tail.Unparse()) == Parsed(tail)
    decreases |tail.items|
  {
    hide ReadItem;
    if tail.items != [] {
      var item, rest := tail.items[0], Tail(tail.items[1..], tail.ending);
      SpelledParses(rest);
      NoRepeat(rest);
      ItemSpelled(item, rest.Unparse());
      assert [item] + rest.items == tail.items;
    }
  }

  // What follows an item never looks like its repetition.
  lemma NoRepeat(tail: Tail)
    requires tail.Wf()
    ensures !IsRepeat(CharAt(tail.Unparse(), 0))
  {
    if tail.items != [] { assert tail.items[0].atom.Wf(); }
  }

  // ---------- A text spells at most one regular expression ----------

  function TailText(s: string): string {
    if CharAt(s, 0) == '^' then s[1..] else s
  }

  lemma Spelled(r: Regex, s: string)
    requires Spells(r, s)
    ensures ParseTail(TailText(s)) == Parsed(r.tail) && r.anchored == (CharAt(s, 0) == '^')
  {
    SpelledParses(r.tail);
    if r.anchored {
      assert s[1..] == r.tail.Unparse();
    } else {
      assert s == r.tail.Unparse();
      if r.tail.items != [] { assert r.tail.items[0].atom.Wf(); }
    }
  }

  lemma SpelledOnce(r: Regex, r': Regex, s: string)
    requires Spells(r, s) && Spells(r', s)
    ensures r == r'
  {
    hide ParseTail, Spells;
    Spelled(r, s);
    Spelled(r', s);
  }

  lemma SpelledExactly(s: string)
    ensures (exists r :: Spells(r, s)) <==> ParseTail(TailText(s)).Parsed?
  {
    if ParseTail(TailText(s)).Parsed? {
      ParsedSpells(TailText(s));
      assert Spells(Regex(CharAt(s, 0) == '^', ParseTail(TailText(s)).tail), s);
    }
    forall r | Spells(r, s) ensures ParseTail(TailText(s)).Parsed? {
      Spelled(r, s);
    }
  }

  // ---------- The validator ----------

  // What the validator asks of a character that is no escape sequence.
  predicate CharOk(ch: char, first: bool, last: bool, prevRepeatable: bool) {
    if ch == '^' && !first then false
    else if ch == '$' && !last then false
    else if IsInSet(ch, "()[]{}|") then false
    else !(IsRepeat(ch) && !prevRepeatable)
  }

  // What it asks of the text from some point on.
  predicate ScansFrom(s: string, first: bool, prevRepeatable: bool) {
    if s == "" then true
    else if s[0] == '\\' then |s| > 1 && IsValidEscape(s[1]) && ScansFrom(s[2..], false, true)
    else CharOk(s[0], first, |s| == 1, prevRepeatable) && ScansFrom(s[1..], false, !IsInSet(s[0], "^$?*+"))
  }

  method ValidateRegex(regex: Pointer) returns (valid: bool)
    ensures valid <==> regex.Text? && exists r :: Spells(r, regex.s)
  {
    hide Spells, ScansFrom, IsValidEscape, CharOk, IsInSet, CharAt;
    if regex.Null? { return false; }
    var s: CString := regex.s;
    ScansExactly(s);
    valid := true;
    var prevRepeatable := false;
    var i := 0;
    assert s[0..] == s;
    while CharAt(s, i) != '\0'
      invariant 0 <= i <= |s|
      invariant (valid && ScansFrom(s[i..], i == 0, prevRepeatable)) <==> ScansFrom(s, true, false)
      decreases |s| - i
    {
      AtEnd(s, i);
      ScanStep(s, i, prevRepeatable);
      if s[i] == '\\' {
        i := i + 1;
        if CharAt(s, i) == '\0' { return false; }
        if !IsValidEscape(s[i]) { valid := false; }
        prevRepeatable := true;
      } else {
        if !CharOk(s[i], i == 0, CharAt(s, i + 1) == '\0', prevRepeatable) { valid := false; }
        prevRepeatable := !IsInSet(s[i], "^$?*+");
      }
      i := i + 1;
    }
    AtEnd(s, i);
    ScanEnd(s[i..], i == 0, prevRepeatable);
  }

  lemma AtEnd(s: CString, i: nat)
    requires i <= |s|
    ensures CharAt(s, i) == '\0' <==> i == |s|
  {
  }

  lemma ScanEnd(s: string, first: bool, prevRepeatable: bool)
    ensures s == "" ==> ScansFrom(s, first, prevRepeatable)
  {
  }

  lemma ScanStep(s: CString, i: nat, prevRepeatable: bool)
    requires i < |s|
    ensures ScansFrom(s[i..], i == 0, prevRepeatable) <==>
            if s[i] == '\\' then i + 1 < |s| && IsValidEscape(s[i + 1]) && ScansFrom(s[i + 2..], false, true)
            else CharOk(s[i], i == 0, i + 1 == |s|, prevRepeatable) && ScansFrom(s[i + 1..], false, !IsInSet(s[i], "^$?*+"))
    ensures i + 1 <= |s| && (CharAt(s, i + 1) == '\0' <==> i + 1 == |s|)
  {
    hide IsValidEscape, CharOk, IsInSet;
    assert s[i..][1..] == s[i + 1..];
    if i + 1 < |s| { assert s[i..][2..] == s[i + 2..]; }
  }

  // The character scan accepts what the grammar spells.
  lemma ScansExactly(s: CString)
    ensures ScansFrom(s, true, false) <==> exists r :: Spells(r, s)
  {
    hide Spells, ParseTail;
    SpelledExactly(s);
    if s != "" && s[0] == '^' {
      ScanParses(s[1..], false);
    } else {
      ScanParses(s, true);
    }
  }

  // Without a '^' in front, being at the beginning makes no difference.
  lemma {:induction false} ScanParses(s: CString, first: bool)
    requires first ==> CharAt(s, 0) != '^'
    ensures ScansFrom(s, first, false) <==> ParseTail(s).Parsed?
    decreases |s|
  {
    if s != "" && s != "$" {
      ScanItem(s, first);
      if ReadItem(s).Read? {
        ScanParses(ReadItem(s).rest, false);
      }
    }
  }

  lemma ScanItem(s: CString, first: bool)
    requires s != "" && s != "$" && (first ==> s[0] != '^')
    ensures ReadItem(s).Read? ==> '\0' !in ReadItem(s).rest
    ensures ScansFrom(s, first, false) <==> ReadItem(s).Read? && ScansFrom(ReadItem(s).rest, false, false)
  {
    hide IsInSet, IsValidEscape, Atom.Wf, InPuncts, NamesClass, IsMeta, IsRepeat;
    var t := if s[0] == '\\' then s[1..] else s;
    if t != "" {
      MetaExactly(s[0]);
      EscapeExactly(t[0]);
      AfterAtom(t[1..]);
      assert t[1..] == if s[0] == '\\' then s[2..] else s[1..];
      if CharAt(t, 1) != '\0' {
        assert t[1..][1..] == t[2..];
      }
    }
  }

  // An atom may be repeated once.
  lemma AfterAtom(u: CString)
    ensures ScansFrom(u, false, true)
       <==> if RepeatOf(CharAt(u, 0)) == Once then ScansFrom(u, false, false) else ScansFrom(u[1..], false, false)
  {
    if u != "" {
      hide IsInSet, IsValidEscape;
      MetaExactly(u[0]);
    }
  }
}
