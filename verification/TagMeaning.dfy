/**
 What tag expressions are made of and what they select
 (packages/spec/src/selection/tag-expression.ts): the characters of tokens, keywords in any case,
 tags with and without their at sign, and the connectives.
 */
module TagMeaning {
  import opened Wrappers
  import opened TagExpression
  import opened TagPrinting

  // ---------------------------------------------------------------- characters

  /** An ASCII letter or digit, or an underscore, by code point. */
  predicate IsWord(c: char) {
    var n := c as int;
    65 <= n < 91 || 97 <= n < 123 || 48 <= n < 58 || n == 95
  }

  /** A word character, a colon or a hyphen. */
  predicate IsTagUnit(c: char) {
    IsWord(c) || c as int == 58 || c as int == 45
  }

  lemma Characters(c: char)
    ensures IsWordChar(c) <==> IsWord(c)
    ensures IsTagChar(c) <==> IsTagUnit(c)
  {
  }

  // The code points of JavaScript's white space and line terminators.
  const SPACES: set<int> :=
    {0x09, 0x0A, 0x0B, 0x0C, 0x0D, 0x20, 0xA0, 0x1680, 0x2000, 0x2001, 0x2002, 0x2003, 0x2004, 0x2005, 0x2006,
     0x2007, 0x2008, 0x2009, 0x200A, 0x2028, 0x2029, 0x202F, 0x205F, 0x3000, 0xFEFF}

  lemma SpaceCharacters(c: char)
    ensures IsSpace(c) <==> c as int in SPACES
  {
  }

  /** A letter of the alphabet in either case. */
  predicate IsLetterIn(c: char, letter: char) {
    c == letter || c as int == letter as int - 32
  }

  predicate Spells(token: string, keyword: string) {
    |token| == |keyword| && forall i :: 0 <= i < |keyword| ==> IsLetterIn(token[i], keyword[i])
  }

  lemma LetterInEitherCase(c: char, letter: char)
    requires 'a' <= letter <= 'z'
    ensures LowerCase([c])[0] == letter <==> IsLetterIn(c, letter)
  {
  }

  lemma KeywordInAnyCase(token: string, keyword: string)
    requires forall i :: 0 <= i < |keyword| ==> 'a' <= keyword[i] <= 'z'
    ensures IsKeyword(token, keyword) <==> Spells(token, keyword)
  {
    forall i | 0 <= i < |keyword| && |token| == |keyword|
      ensures LowerCase(token)[i] == keyword[i] <==> IsLetterIn(token[i], keyword[i])
    {
      LetterInEitherCase(token[i], keyword[i]);
    }
    hide IsLetterIn;
    if IsKeyword(token, keyword) {
      assert |LowerCase(token)| == |token|;
    }
    if Spells(token, keyword) {
      assert LowerCase(token) == keyword;
    }
  }

  // ---------------------------------------------------------------- tokens

  /** The text has a whole word in front that spells the keyword. */
  predicate HasWord(s: string, keyword: string) {
    |keyword| <= |s| && Spells(s[..|keyword|], keyword)
    && (|keyword| == |s| || !IsWord(s[|keyword|]))
  }

  /** The longest run of tag characters from offset `from` on ends at offset n. */
  predicate IsRun(s: string, from: nat, n: nat) {
    && from < n <= |s|
    && (forall i :: from <= i < n ==> IsTagUnit(s[i]))
    && (n < |s| ==> !IsTagUnit(s[n]))
  }

  /** The first n characters are the token: a parenthesis, a keyword, or a tag with or without its at sign. */
  predicate IsTokenOf(s: string, n: nat) {
    if s == [] then false
    else if s[0] == '(' || s[0] == ')' then n == 1
    else if HasWord(s, "and") || HasWord(s, "not") then n == 3
    else if HasWord(s, "or") then n == 2
    else IsRun(s, if s[0] == '@' then 1 else 0, n)
  }

  lemma HasWordExactly(s: string, keyword: string)
    requires keyword == "and" || keyword == "or" || keyword == "not"
    ensures StartsKeyword(s, keyword) <==> HasWord(s, keyword)
  {
    if |s| >= |keyword| {
      KeywordInAnyCase(s[..|keyword|], keyword);
      if |s| > |keyword| {
        Characters(s[|keyword|]);
      }
    }
    hide IsKeyword, Spells, IsWordChar;
  }

  lemma {:induction false} RunExactly(s: string, n: nat)
    ensures TagRun(s) == n && n > 0 <==> IsRun(s, 0, n)
  {
    forall c ensures IsTagChar(c) <==> IsTagUnit(c) {
      Characters(c);
    }
    hide IsTagChar, IsTagUnit;
    RunEnds(s);
    var k := TagRun(s);
    assert n < k ==> IsTagChar(s[n]);
    assert IsRun(s, 0, n) ==> forall i :: 0 <= i < n ==> IsTagChar(s[i]);
  }

  lemma {:induction false} RunEnds(s: string)
    ensures forall i :: 0 <= i < TagRun(s) ==> IsTagChar(s[i])
    ensures TagRun(s) < |s| ==> !IsTagChar(s[TagRun(s)])
  {
    if s != [] && IsTagChar(s[0]) {
      RunEnds(s[1..]);
    }
  }

  lemma RunAfterAt(s: string, n: nat)
    requires s != []
    ensures IsRun(s, 1, n) <==> n > 0 && IsRun(s[1..], 0, n - 1)
  {
    var t := s[1..];
    assert forall i :: 0 <= i < |t| ==> t[i] == s[i + 1];
    if n > 0 && IsRun(t, 0, n - 1) {
      forall i | 1 <= i < n ensures IsTagUnit(s[i]) {
        assert t[i - 1] == s[i];
      }
    }
  }

  /** The token that the pattern matches at a text's start, and where it matches nothing. */
  lemma TokenExactly(s: string, n: nat)
    requires s != []
    ensures TokenLength(s) == n && n > 0 <==> IsTokenOf(s, n)
  {
    HasWordExactly(s, "and");
    HasWordExactly(s, "or");
    HasWordExactly(s, "not");
    RunExactly(s, n);
    RunAfterAt(s, n);
    if n > 0 {
      RunExactly(s[1..], n - 1);
    }
    hide StartsKeyword, HasWord, TagRun, IsRun;
  }

  // ---------------------------------------------------------------- tags with and without the at sign

  predicate IsBareTag(word: string) {
    && word != [] && (forall i :: 0 <= i < |word| ==> IsTagChar(word[i]))
    && !IsKeyword(word, "and") && !IsKeyword(word, "or") && !IsKeyword(word, "not")
  }

  /** A text that is one token and no keyword or parenthesis is a tag, with an at sign if it lacks one. */
  lemma OneTag(token: string)
    requires IsTag(token) || (IsBareTag(token) && TokenLength(token) == |token|)
    ensures Parse(token) == Ok(Tag(if token[0] == '@' then token else "@" + token))
  {
    if IsTag(token) {
      TagTokenLength(token, []);
      TagIsNoKeyword(token);
      assert token + [] == token;
    }
    KeywordsAreKeywords();
    assert IsTagChar('(') == false && IsTagChar(')') == false && !IsTagChar('@');
    assert !IsSpace(token[0]) && SkipSpaces(token) == token;
    assert token != "(";
    assert token[..|token|] == token && token[|token|..] == [];
    assert Tokenize([]) == Ok([]) && [token] + [] == [token];
    assert Tokenize(token) == Ok([token]);
    OneToken(token);
  }

  lemma OneToken(token: string)
    requires token != "(" && token != [] && Tokenize(token) == Ok([token])
    requires !IsKeyword(token, "and") && !IsKeyword(token, "or") && !IsKeyword(token, "not")
    ensures Parse(token) == Ok(Tag(if token[0] == '@' then token else "@" + token))
  {
    var ts := [token];
    assert ts[1..] == [] && ts[0] == token;
    assert NormalizedTag(token) == if token[0] == '@' then token else "@" + token;
    hide IsKeyword, NormalizedTag, Tokenize;
    var node := Tag(NormalizedTag(token));
    assert Primary(ts) == Ok(Read(node, []));
    hide Primary;
    assert Conjunction(ts) == MoreConjuncts(node, []) == Ok(Read(node, []));
    hide Conjunction, MoreConjuncts;
    assert Disjunction(ts) == MoreDisjuncts(node, []) == Ok(Read(node, []));
    hide Disjunction, MoreDisjuncts;
    assert ParseTokens(ts) == Ok(node);
  }

  // ---------------------------------------------------------------- what is selected

  /** No expression selects everything. */
  lemma NothingSelectsAll(tags: seq<string>)
    ensures Selects("", tags) == Ok(true)
  {
  }

  /** A tag, with or without its at sign, selects what carries it. */
  lemma TagSelects(token: string, tags: seq<string>)
    requires IsTag(token) || (IsBareTag(token) && TokenLength(token) == |token|)
    ensures Selects(token, tags) == Ok((if token[0] == '@' then token else "@" + token) in tags)
  {
    OneTag(token);
    hide Parse;
  }

  /** What two expressions select decides what their connections select. */
  lemma ConnectivesSelect(a: Node, b: Node, tags: seq<string>)
    requires Printable(a) && Printable(b)
    ensures
      var x, y := Selects(Print(a), tags), Selects(Print(b), tags);
      && x.Ok? && y.Ok?
      && Selects(Print(Not(a)), tags) == Ok(!x.value)
      && Selects(Print(And(a, b)), tags) == Ok(x.value && y.value)
      && Selects(Print(Or(a, b)), tags) == Ok(x.value || y.value)
  {
    hide Selects, Print;
    PrintedParsesBack(a, tags);
    PrintedParsesBack(b, tags);
    PrintedParsesBack(Not(a), tags);
    PrintedParsesBack(And(a, b), tags);
    PrintedParsesBack(Or(a, b), tags);
  }
}
