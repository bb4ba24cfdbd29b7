/**
 Printing tag expressions back with as few parentheses as their grammar allows: what is printed
 tokenizes and parses to the same tree (packages/spec/src/selection/tag-expression.ts).
 */
module TagPrinting {
  import opened Wrappers
  import opened TagExpression

  // ---------------------------------------------------------------- printing

  // The place that a printed expression must fit: `or` operand lists, `and` operand lists, operands.
  datatype Level = InOr | InAnd | InOperand

  function Parenthesized(tokens: seq<string>): seq<string> {
    ["("] + tokens + [")"]
  }

  function PrintTokens(node: Node, level: Level): seq<string> {
    match node
    case Tag(value) => [value]
    case Not(child) => ["not"] + PrintTokens(child, InOperand)
    case And(left, right) =>
      var tokens := PrintTokens(left, InAnd) + ["and"] + PrintTokens(right, InOperand);
      if level.InOperand? then Parenthesized(tokens) else tokens
    case Or(left, right) =>
      var tokens := PrintTokens(left, InOr) + ["or"] + PrintTokens(right, InAnd);
      if level.InOr? then tokens else Parenthesized(tokens)
  }

  function Spaced(tokens: seq<string>): string {
    if tokens == [] then []
    else if |tokens| == 1 then tokens[0]
    else tokens[0] + " " + Spaced(tokens[1..])
  }

  function Print(node: Node): string {
    Spaced(PrintTokens(node, InOr))
  }

  /** A tag as the tokenizer reads it: an at sign and at least one tag character. */
  predicate IsTag(value: string) {
    |value| >= 2 && value[0] == '@' && forall i :: 1 <= i < |value| ==> IsTagChar(value[i])
  }

  predicate Printable(node: Node) {
    match node
    case Tag(value) => IsTag(value)
    case Not(child) => Printable(child)
    case And(left, right) => Printable(left) && Printable(right)
    case Or(left, right) => Printable(left) && Printable(right)
  }

  // ---------------------------------------------------------------- tokens parse back

  lemma TagIsNoKeyword(value: string)
    requires value != [] && value[0] == '@'
    ensures !IsKeyword(value, "and") && !IsKeyword(value, "or") && !IsKeyword(value, "not")
    ensures value != "(" && value != ")" && NormalizedTag(value) == value
  {
    assert LowerCase(value)[0] == '@';
    assert "@" <= value;
  }

  lemma KeywordsAreKeywords()
    ensures IsKeyword("and", "and") && IsKeyword("or", "or") && IsKeyword("not", "not")
    ensures !IsKeyword("or", "and") && !IsKeyword(")", "and") && !IsKeyword(")", "or") && !IsKeyword("and", "or")
  {
    assert LowerCase("and") == "and" && LowerCase("or") == "or" && LowerCase("not") == "not" && LowerCase(")") == ")";
  }

  /** The tags of a tree are read as tags. */
  predicate ReadsAsTags(node: Node) {
    match node
    case Tag(value) => value != [] && value[0] == '@'
    case Not(child) => ReadsAsTags(child)
    case And(left, right) => ReadsAsTags(left) && ReadsAsTags(right)
    case Or(left, right) => ReadsAsTags(left) && ReadsAsTags(right)
  }

  lemma {:induction false} PrimaryReadsBack(node: Node, rest: seq<string>)
    requires ReadsAsTags(node)
    ensures Primary(PrintTokens(node, InOperand) + rest) == Ok(Read(node, rest))
    decreases node, if node.And? then 2 else if node.Or? then 1 else 0
  {
    KeywordsAreKeywords();
    match node
    case Tag(value) =>
      TagIsNoKeyword(value);
      assert ([value] + rest)[1..] == rest;
    case Not(child) =>
      var inner := PrintTokens(child, InOperand) + rest;
      assert PrintTokens(node, InOperand) + rest == ["not"] + inner;
      assert (["not"] + inner)[1..] == inner;
      PrimaryReadsBack(child, rest);
    case _ =>
      assert PrintTokens(node, InOperand) == ["("] + PrintTokens(node, InOr) + [")"];
      DisjunctionReadsOn(node, [")"] + rest);
      NoMoreDisjuncts(node, [")"] + rest);
      ParenthesesReadBack(node, PrintTokens(node, InOr), rest);
  }

  lemma ParenthesesReadBack(node: Node, tokens: seq<string>, rest: seq<string>)
    requires Disjunction(tokens + ([")"] + rest)) == Ok(Read(node, [")"] + rest))
    ensures Primary(["("] + tokens + [")"] + rest) == Ok(Read(node, rest))
  {
    var inner := tokens + ([")"] + rest);
    assert ["("] + tokens + [")"] + rest == ["("] + inner;
    assert (["("] + inner)[1..] == inner && ([")"] + rest)[1..] == rest;
    hide Disjunction;
  }

  lemma NoMoreDisjuncts(node: Node, rest: seq<string>)
    requires rest != [] && rest[0] == ")"
    ensures MoreDisjuncts(node, rest) == Ok(Read(node, rest)) && !StartsWith(rest, "and")
  {
    KeywordsAreKeywords();
  }

  /** A printed conjunction is read as its node, and then goes on: so `and` associates to the left. */
  lemma {:induction false} ConjunctionReadsOn(node: Node, rest: seq<string>)
    requires ReadsAsTags(node)
    ensures Conjunction(PrintTokens(node, InAnd) + rest) == MoreConjuncts(node, rest)
    decreases node, if node.And? then 0 else if node.Or? then 2 else 1
  {
    KeywordsAreKeywords();
    if node.And? {
      var tail := PrintTokens(node.right, InOperand) + rest;
      var more := ["and"] + tail;
      assert PrintTokens(node, InAnd) + rest == PrintTokens(node.left, InAnd) + more;
      assert more[1..] == tail;
      ConjunctionReadsOn(node.left, more);
      PrimaryReadsBack(node.right, rest);
    } else {
      assert PrintTokens(node, InAnd) == PrintTokens(node, InOperand);
      PrimaryReadsBack(node, rest);
    }
  }

  /** The same for `or`. */
  lemma {:induction false} DisjunctionReadsOn(node: Node, rest: seq<string>)
    requires ReadsAsTags(node) && !StartsWith(rest, "and")
    ensures Disjunction(PrintTokens(node, InOr) + rest) == MoreDisjuncts(node, rest)
    decreases node, if node.And? then 1 else if node.Or? then 0 else 2
  {
    KeywordsAreKeywords();
    if node.Or? {
      var tail := PrintTokens(node.right, InAnd) + rest;
      var more := ["or"] + tail;
      assert PrintTokens(node, InOr) + rest == PrintTokens(node.left, InOr) + more;
      assert more[1..] == tail;
      DisjunctionReadsOn(node.left, more);
      ConjunctionReadsOn(node.right, rest);
    } else {
      assert PrintTokens(node, InOr) == PrintTokens(node, InAnd);
      ConjunctionReadsOn(node, rest);
    }
  }

  /** Tokens of a printed tree parse to the tree. */
  lemma TokensParseBack(node: Node)
    requires ReadsAsTags(node)
    ensures ParseTokens(PrintTokens(node, InOr)) == Ok(node)
  {
    DisjunctionReadsOn(node, []);
    assert PrintTokens(node, InOr) + [] == PrintTokens(node, InOr);
  }

  // ---------------------------------------------------------------- text tokenizes back

  predicate IsFixedToken(token: string) {
    token == "(" || token == ")" || token == "and" || token == "or" || token == "not"
  }

  predicate IsPrintedToken(token: string) {
    IsFixedToken(token) || IsTag(token)
  }

  lemma {:induction false} RunOfTag(s: string, rest: string)
    requires forall i :: 0 <= i < |s| ==> IsTagChar(s[i])
    requires rest == [] || rest[0] == ' '
    ensures TagRun(s + rest) == |s|
  {
    if s == [] {
      assert s + rest == rest;
    } else {
      RunOfTag(s[1..], rest);
      assert (s + rest)[1..] == s[1..] + rest;
    }
  }

  lemma FixedTokenLength(token: string, rest: string)
    requires IsFixedToken(token) && (rest == [] || rest[0] == ' ')
    ensures TokenLength(token + rest) == |token|
  {
    var s := token + rest;
    assert s[0] == token[0] && s[..|token|] == token;
    KeywordsAreKeywords();
    if token == "and" || token == "or" || token == "not" {
      if rest != [] {
        assert s[|token|] == rest[0];
      }
      assert StartsKeyword(s, token);
      if token == "or" {
        assert LowerCase(s[..1])[0] == 'o';
        if |s| >= 3 {
          assert LowerCase(s[..3])[0] == 'o';
        }
      }
    }
  }

  lemma TagTokenLength(token: string, rest: string)
    requires IsTag(token) && (rest == [] || rest[0] == ' ')
    ensures TokenLength(token + rest) == |token|
  {
    var s := token + rest;
    assert s[0] == '@' && s[1..] == token[1..] + rest;
    RunOfTag(token[1..], rest);
    AtIsNoKeyword(s, "and");
    AtIsNoKeyword(s, "or");
    AtIsNoKeyword(s, "not");
  }

  lemma AtIsNoKeyword(s: string, keyword: string)
    requires s != [] && s[0] == '@' && keyword != [] && keyword[0] != '@'
    ensures !StartsKeyword(s, keyword)
  {
    if |s| >= |keyword| {
      assert LowerCase(s[..|keyword|])[0] == '@';
    }
  }

  lemma TokenReadsBack(token: string, rest: string)
    requires IsPrintedToken(token) && (rest == [] || rest[0] == ' ')
    ensures Tokenize(token + rest) == Prepend([token], Tokenize(rest))
  {
    assert !IsSpace(token[0]);
    hide TokenLength, Tokenize, IsSpace;
    var s := token + rest;
    assert s[0] == token[0] && SkipSpaces(s) == s;
    if IsTag(token) {
      TagTokenLength(token, rest);
    } else {
      FixedTokenLength(token, rest);
    }
    assert s[..|token|] == token && s[|token|..] == rest;
    TokenizeStep(s, s);
  }

  lemma LeadingSpace(s: string)
    ensures Tokenize(" " + s) == Tokenize(s)
  {
    assert (" " + s)[1..] == s;
  }

  lemma {:induction false} SpacedTokenizesBack(tokens: seq<string>)
    requires forall t :: t in tokens ==> IsPrintedToken(t)
    ensures Tokenize(Spaced(tokens)) == Ok(tokens)
  {
    if tokens == [] {
    } else {
      hide Tokenize, IsPrintedToken;
      var first, more := tokens[0], tokens[1..];
      assert tokens == [first] + more;
      SpacedTokenizesBack(more);
      if |tokens| == 1 {
        TokenReadsBack(first, []);
        assert first + [] == first && more == [];
      } else {
        LeadingSpace(Spaced(more));
        TokenReadsBack(first, " " + Spaced(more));
        assert first + (" " + Spaced(more)) == Spaced(tokens);
      }
    }
  }

  lemma {:induction false} PrintedTokens(node: Node, level: Level)
    requires Printable(node)
    ensures ReadsAsTags(node) && forall t :: t in PrintTokens(node, level) ==> IsPrintedToken(t)
    decreases node
  {
    match node
    case Tag(_) =>
    case Not(child) => PrintedTokens(child, InOperand);
    case And(left, right) =>
      PrintedTokens(left, InAnd);
      PrintedTokens(right, InOperand);
    case Or(left, right) =>
      PrintedTokens(left, InOr);
      PrintedTokens(right, InAnd);
  }

  /**
   Round trip: any tree of proper tags, printed with as few parentheses as possible, parses back to
   itself, and selects what the tree says.  So `not` binds over `and`, `and` over `or`, and both
   associate to the left.
   */
  lemma PrintedParsesBack(node: Node, tags: seq<string>)
    requires Printable(node)
    ensures Parse(Print(node)) == Ok(node)
    ensures Selects(Print(node), tags) == Ok(Matches(node, tags))
  {
    PrintedTokens(node, InOr);
    SpacedTokenizesBack(PrintTokens(node, InOr));
    TokensParseBack(node);
    assert Parse([]) == Err(UnexpectedEnd);
  }

  // ---------------------------------------------------------------- what reprints

  // A closing parenthesis where an operand is expected is read as a tag of this name.
  const STRAY: string := "@)"

  lemma StrayParenthesisIsATag()
    ensures Parse(")") == Ok(Tag(STRAY))
  {
    assert LowerCase(")") == ")";
    TokenReadsBack(")", []);
    assert ")" + [] == ")" && Tokenize([]) == Ok([]);
    NothingMore([")"]);
    assert Tokenize(")") == Ok([")"]);
    var ts := [")"];
    assert ts[1..] == [] && NormalizedTag(ts[0]) == STRAY;
    assert Primary(ts) == Ok(Read(Tag(STRAY), []));
    assert ParseTokens(ts) == Ok(Tag(STRAY));
  }

  /** A token of the tokenizer. */
  predicate IsToken(token: string) {
    || token == "(" || token == ")" || IsTag(token) || IsTag("@" + token)
    || IsKeyword(token, "and") || IsKeyword(token, "or") || IsKeyword(token, "not")
  }

  lemma {:induction false} RunIsTagChars(s: string)
    ensures forall i :: 0 <= i < TagRun(s) ==> IsTagChar(s[i])
  {
    if s != [] && IsTagChar(s[0]) {
      RunIsTagChars(s[1..]);
      forall i | 0 <= i < TagRun(s) ensures IsTagChar(s[i]) {
        assert i > 0 ==> s[i] == s[1..][i - 1];
      }
    }
  }

  lemma MatchedIsToken(s: string)
    requires s != [] && TokenLength(s) > 0
    ensures IsToken(s[..TokenLength(s)])
  {
    RunIsTagChars(s);
    RunIsTagChars(s[1..]);
    var token := s[..TokenLength(s)];
    if s[0] == '@' {
      AtIsNoKeyword(s, "and");
      AtIsNoKeyword(s, "or");
      AtIsNoKeyword(s, "not");
      forall i | 1 <= i < |token| ensures IsTagChar(token[i]) {
        assert token[i] == s[1..][i - 1];
      }
    } else if TokenLength(s) == TagRun(s) {
      forall i | 1 <= i < |token| + 1 ensures IsTagChar(("@" + token)[i]) {
        assert ("@" + token)[i] == s[i - 1];
      }
    }
  }

  lemma {:induction false} TokensAreTokens(expression: string)
    requires Tokenize(expression).Ok?
    ensures forall t :: t in Tokenize(expression).value ==> IsToken(t)
    decreases |expression|
  {
    var s := SkipSpaces(expression);
    if s != [] {
      MatchedIsToken(s);
      TokensAreTokens(s[TokenLength(s)..]);
    }
  }

  /** Every tag is a proper one, or stands for a stray parenthesis. */
  predicate Readable(node: Node) {
    match node
    case Tag(value) => IsTag(value) || value == STRAY
    case Not(child) => Readable(child)
    case And(left, right) => Readable(left) && Readable(right)
    case Or(left, right) => Readable(left) && Readable(right)
  }

  ghost predicate AllTokens(ts: seq<string>) {
    forall t :: t in ts ==> IsToken(t)
  }

  lemma {:induction false} PrimaryReadable(ts: seq<string>)
    requires AllTokens(ts) && Primary(ts).Ok?
    ensures Readable(Primary(ts).value.node) && AllTokens(Primary(ts).value.rest)
    decreases |ts|, 0
  {
    hide IsToken, IsTag;
    if ts[0] == "(" {
      DisjunctionReadable(ts[1..]);
    } else if IsKeyword(ts[0], "not") {
      PrimaryReadable(ts[1..]);
    } else {
      OperandReadable(ts[0]);
    }
  }

  lemma OperandReadable(token: string)
    requires IsToken(token) && token != "("
    requires !IsKeyword(token, "and") && !IsKeyword(token, "or") && !IsKeyword(token, "not")
    ensures Readable(Tag(NormalizedTag(token)))
  {
    if IsTag("@" + token) {
      assert ("@" + token)[1] == token[0];
    }
  }

  lemma {:induction false} ConjunctionReadable(ts: seq<string>)
    requires AllTokens(ts) && Conjunction(ts).Ok?
    ensures Readable(Conjunction(ts).value.node) && AllTokens(Conjunction(ts).value.rest)
    decreases |ts|, 2
  {
    hide IsToken;
    PrimaryReadable(ts);
    ConjunctsReadable(Primary(ts).value.node, Primary(ts).value.rest);
  }

  lemma {:induction false} ConjunctsReadable(left: Node, ts: seq<string>)
    requires Readable(left) && AllTokens(ts) && MoreConjuncts(left, ts).Ok?
    ensures Readable(MoreConjuncts(left, ts).value.node) && AllTokens(MoreConjuncts(left, ts).value.rest)
    decreases |ts|, 1
  {
    hide IsToken;
    if StartsWith(ts, "and") {
      PrimaryReadable(ts[1..]);
      var right := Primary(ts[1..]).value;
      ConjunctsReadable(And(left, right.node), right.rest);
    }
  }

  lemma {:induction false} DisjunctionReadable(ts: seq<string>)
    requires AllTokens(ts) && Disjunction(ts).Ok?
    ensures Readable(Disjunction(ts).value.node) && AllTokens(Disjunction(ts).value.rest)
    decreases |ts|, 4
  {
    hide IsToken;
    ConjunctionReadable(ts);
    DisjunctsReadable(Conjunction(ts).value.node, Conjunction(ts).value.rest);
  }

  lemma {:induction false} DisjunctsReadable(left: Node, ts: seq<string>)
    requires Readable(left) && AllTokens(ts) && MoreDisjuncts(left, ts).Ok?
    ensures Readable(MoreDisjuncts(left, ts).value.node) && AllTokens(MoreDisjuncts(left, ts).value.rest)
    decreases |ts|, 3
  {
    hide IsToken;
    if StartsWith(ts, "or") {
      ConjunctionReadable(ts[1..]);
      var right := Conjunction(ts[1..]).value;
      DisjunctsReadable(Or(left, right.node), right.rest);
    }
  }

  lemma StrayDoesNotTokenize(rest: string)
    ensures Tokenize(STRAY + rest) == Err(UnexpectedCharacter)
  {
    var s := STRAY + rest;
    AtIsNoKeyword(s, "and");
    AtIsNoKeyword(s, "or");
    AtIsNoKeyword(s, "not");
    assert s[1..][0] == ')';
    assert TokenLength(s) == 0;
  }

  lemma {:induction false} StrayTextFails(tokens: seq<string>)
    requires STRAY in tokens && forall t :: t in tokens ==> IsPrintedToken(t) || t == STRAY
    ensures Tokenize(Spaced(tokens)).Err?
  {
    hide Tokenize, IsPrintedToken, Spaced;
    var first, more := tokens[0], tokens[1..];
    var after := if more == [] then [] else " " + Spaced(more);
    SpacedUnfold(tokens);
    assert tokens == [first] + more;
    if first == STRAY {
      StrayDoesNotTokenize(after);
    } else {
      StrayTextFails(more);
      LeadingSpace(Spaced(more));
      TokenReadsBack(first, after);
    }
  }

  lemma SpacedUnfold(tokens: seq<string>)
    requires tokens != []
    ensures Spaced(tokens) == tokens[0] + (if tokens[1..] == [] then [] else " " + Spaced(tokens[1..]))
  {
    if |tokens| == 1 {
      assert tokens[0] + [] == tokens[0];
    } else {
      assert tokens[0] + " " + Spaced(tokens[1..]) == tokens[0] + (" " + Spaced(tokens[1..]));
    }
  }

  lemma {:induction false} StrayIsPrinted(node: Node, level: Level)
    requires Readable(node)
    ensures forall t :: t in PrintTokens(node, level) ==> IsPrintedToken(t) || t == STRAY
    ensures !Printable(node) ==> STRAY in PrintTokens(node, level)
    decreases node
  {
    match node
    case Tag(_) =>
    case Not(child) => StrayIsPrinted(child, InOperand);
    case And(left, right) =>
      StrayIsPrinted(left, InAnd);
      StrayIsPrinted(right, InOperand);
    case Or(left, right) =>
      StrayIsPrinted(left, InOr);
      StrayIsPrinted(right, InAnd);
  }

  /** An accepted expression reprints to its tree exactly when no tag of it stands for a stray parenthesis. */
  lemma ReprintsExactlyWhenPrintable(expression: string)
    requires Parse(expression).Ok?
    ensures Parse(Print(Parse(expression).value)) == Parse(expression) <==> Printable(Parse(expression).value)
  {
    var node := Parse(expression).value;
    TokensAreTokens(expression);
    DisjunctionReadable(Tokenize(expression).value);
    if Printable(node) {
      PrintedParsesBack(node, []);
    } else {
      StrayIsPrinted(node, InOr);
      StrayTextFails(PrintTokens(node, InOr));
    }
  }
}
