/**
 Tag expressions (packages/spec/src/selection/tag-expression.ts): tokenizer, parser with a mutable
 index, and evaluation.
 */
module TagExpression {
  import opened Wrappers

  datatype Node =
    | Tag(value: string)
    | Not(child: Node)
    | And(left: Node, right: Node)
    | Or(left: Node, right: Node)

  datatype Fault = UnexpectedCharacter | UnexpectedEnd | UnexpectedOperator | ExpectedClosing | UnexpectedToken

  // ---------------------------------------------------------------- tokens

  predicate IsSpace(c: char) {
    || '\t' <= c <= '\r' || c == ' ' || c == '\U{A0}' || c == '\U{1680}' || '\U{2000}' <= c <= '\U{200A}'
    || c == '\U{2028}' || c == '\U{2029}' || c == '\U{202F}' || c == '\U{205F}' || c == '\U{3000}' || c == '\U{FEFF}'
  }

  predicate IsWordChar(c: char) {
    'A' <= c <= 'Z' || 'a' <= c <= 'z' || '0' <= c <= '9' || c == '_'
  }

  predicate IsTagChar(c: char) {
    IsWordChar(c) || c == ':' || c == '-'
  }

  function LowerCase(s: string): (t: string)
    ensures |t| == |s|
  {
    seq(|s|, i requires 0 <= i < |s| => if 'A' <= s[i] <= 'Z' then s[i] + 32 as char else s[i])
  }

  predicate IsKeyword(token: string, keyword: string) {
    LowerCase(token) == keyword
  }

  /** The text starts with the keyword in any case, at a word boundary. */
  predicate StartsKeyword(s: string, keyword: string) {
    |s| >= |keyword| && IsKeyword(s[..|keyword|], keyword) && (|s| > |keyword| ==> !IsWordChar(s[|keyword|]))
  }

  function TagRun(s: string): (n: nat)
    ensures n <= |s|
  {
    if s != [] && IsTagChar(s[0]) then 1 + TagRun(s[1..]) else 0
  }

  /** The length of the token that the pattern matches at the start of the text, or 0. */
  function TokenLength(s: string): (n: nat)
    requires s != []
    ensures n <= |s|
  {
    if s[0] == '(' || s[0] == ')' then 1
    else if StartsKeyword(s, "and") || StartsKeyword(s, "not") then 3
    else if StartsKeyword(s, "or") then 2
    else if s[0] == '@' then (if TagRun(s[1..]) > 0 then 1 + TagRun(s[1..]) else 0)
    else TagRun(s)
  }

  function SkipSpaces(s: string): (t: string)
    ensures |t| <= |s| && (t != [] ==> !IsSpace(t[0]))
  {
    if s != [] && IsSpace(s[0]) then SkipSpaces(s[1..]) else s
  }

  function Tokenize(expression: string): Result<seq<string>, Fault>
    decreases |expression|
  {
    var s := SkipSpaces(expression);
    if s == [] then Ok([])
    else if TokenLength(s) == 0 then Err(UnexpectedCharacter)
    else
      var more :- Tokenize(s[TokenLength(s)..]);
      Ok([s[..TokenLength(s)]] + more)
  }

  function Prepend(done: seq<string>, r: Result<seq<string>, Fault>): Result<seq<string>, Fault> {
    match r
    case Ok(tokens) => Ok(done + tokens)
    case Err(fault) => Err(fault)
  }

  method SpacesEnd(expression: string, start: nat) returns (index: nat)
    requires start <= |expression|
    ensures start <= index <= |expression| && expression[index..] == SkipSpaces(expression[start..])
  {
    index := start;
    while index < |expression| && IsSpace(expression[index])
      invariant start <= index <= |expression|
      invariant SkipSpaces(expression[start..]) == SkipSpaces(expression[index..])
    {
      assert expression[index..][1..] == expression[index + 1..];
      index := index + 1;
    }
  }

  method TokenizeTagExpression(expression: string) returns (result: Result<seq<string>, Fault>)
    ensures result == Tokenize(expression)
  {
    hide TokenLength, SkipSpaces, Prepend;
    var tokens: seq<string> := [];
    var index := 0;
    assert expression[0..] == expression;
    PrependNothing(Tokenize(expression));
    while index < |expression|
      invariant index <= |expression|
      invariant Tokenize(expression) == Prepend(tokens, Tokenize(expression[index..]))
    {
      var start := index;
      index := SpacesEnd(expression, start);
      if index == |expression| {
        assert Tokenize(expression[start..]) == Ok([]);
        break;
      }
      var s := expression[index..];
      var length := TokenLength(s);
      if length == 0 {
        NothingAfterFault(tokens, UnexpectedCharacter);
        return Err(UnexpectedCharacter);
      }
      assert s[length..] == expression[index + length..] && s[..length] == expression[index..index + length];
      TokenizeStep(expression[start..], s);
      PrependOneMore(tokens, s[..length], Tokenize(s[length..]));
      tokens := tokens + [expression[index..index + length]];
      index := index + length;
    }
    NothingMore(tokens);
    return Ok(tokens);
  }

  lemma TokenizeStep(expression: string, s: string)
    requires s == SkipSpaces(expression) && s != [] && TokenLength(s) > 0
    ensures Tokenize(expression) == Prepend([s[..TokenLength(s)]], Tokenize(s[TokenLength(s)..]))
  {
  }

  lemma NothingMore(done: seq<string>)
    ensures Tokenize([]) == Ok([]) && Prepend(done, Ok([])) == Ok(done)
  {
    assert done + [] == done;
  }

  lemma NothingAfterFault(done: seq<string>, fault: Fault)
    ensures Prepend(done, Err(fault)) == Err(fault)
  {
  }

  lemma PrependNothing(r: Result<seq<string>, Fault>)
    ensures Prepend([], r) == r
  {
    if r.Ok? {
      assert [] + r.value == r.value;
    }
  }

  lemma PrependOneMore(done: seq<string>, token: string, r: Result<seq<string>, Fault>)
    ensures Prepend(done + [token], r) == Prepend(done, Prepend([token], r))
  {
    if r.Ok? {
      assert (done + [token]) + r.value == done + ([token] + r.value);
    }
  }

  // ---------------------------------------------------------------- grammar

  // A node and the tokens after it.
  datatype Read = Read(node: Node, rest: seq<string>)

  function NormalizedTag(token: string): string {
    if "@" <= token then token else "@" + token
  }

  predicate StartsWith(ts: seq<string>, keyword: string) {
    ts != [] && IsKeyword(ts[0], keyword)
  }

  function Primary(ts: seq<string>): (r: Result<Read, Fault>)
    ensures r.Ok? ==> |r.value.rest| < |ts|
    decreases |ts|, 0
  {
    if ts == [] then Err(UnexpectedEnd)
    else if ts[0] == "(" then
      var inner :- Disjunction(ts[1..]);
      if inner.rest == [] then Err(UnexpectedEnd)
      else if inner.rest[0] != ")" then Err(ExpectedClosing)
      else Ok(Read(inner.node, inner.rest[1..]))
    else if IsKeyword(ts[0], "not") then
      var child :- Primary(ts[1..]);
      Ok(Read(Not(child.node), child.rest))
    else if IsKeyword(ts[0], "and") || IsKeyword(ts[0], "or") then Err(UnexpectedOperator)
    else Ok(Read(Tag(NormalizedTag(ts[0])), ts[1..]))
  }

  function Conjunction(ts: seq<string>): (r: Result<Read, Fault>)
    ensures r.Ok? ==> |r.value.rest| < |ts|
    decreases |ts|, 2
  {
    var first :- Primary(ts);
    MoreConjuncts(first.node, first.rest)
  }

  function MoreConjuncts(left: Node, ts: seq<string>): (r: Result<Read, Fault>)
    ensures r.Ok? ==> |r.value.rest| <= |ts|
    decreases |ts|, 1
  {
    if !StartsWith(ts, "and") then Ok(Read(left, ts))
    else
      var right :- Primary(ts[1..]);
      MoreConjuncts(And(left, right.node), right.rest)
  }

  function Disjunction(ts: seq<string>): (r: Result<Read, Fault>)
    ensures r.Ok? ==> |r.value.rest| < |ts|
    decreases |ts|, 4
  {
    var first :- Conjunction(ts);
    MoreDisjuncts(first.node, first.rest)
  }

  function MoreDisjuncts(left: Node, ts: seq<string>): (r: Result<Read, Fault>)
    ensures r.Ok? ==> |r.value.rest| <= |ts|
    decreases |ts|, 3
  {
    if !StartsWith(ts, "or") then Ok(Read(left, ts))
    else
      var right :- Conjunction(ts[1..]);
      MoreDisjuncts(Or(left, right.node), right.rest)
  }

  function ParseTokens(tokens: seq<string>): Result<Node, Fault> {
    var r :- Disjunction(tokens);
    if r.rest != [] then Err(UnexpectedToken) else Ok(r.node)
  }

  /** validateTagExpression, with the tree it builds. */
  function Parse(expression: string): Result<Node, Fault> {
    var tokens :- Tokenize(expression);
    ParseTokens(tokens)
  }

  // ---------------------------------------------------------------- the parser

  function Outcome(r: Result<Read, Fault>): Result<Node, Fault> {
    match r
    case Ok(read) => Ok(read.node)
    case Err(fault) => Err(fault)
  }

  class TagExpressionParser {
    const tokens: seq<string>
    var index: nat

    constructor (tokens: seq<string>)
      ensures this.tokens == tokens && index == 0
    {
      this.tokens := tokens;
      index := 0;
    }

    ghost predicate Valid()
      reads this
    {
      index <= |tokens|
    }

    /** The tokens that are left to read. */
    ghost function Left(): seq<string>
      reads this
      requires Valid()
    {
      tokens[index..]
    }

    method Parse() returns (result: Result<Node, Fault>)
      requires index == 0
      modifies this
      ensures result == ParseTokens(tokens)
    {
      assert Left() == tokens;
      var node :- ParseDisjunction();
      if index < |tokens| {
        return Err(UnexpectedToken);
      }
      return Ok(node);
    }

    method Consume() returns (result: Result<string, Fault>)
      requires Valid()
      modifies this
      ensures result == if old(Left()) == [] then Err(UnexpectedEnd) else Ok(old(Left())[0])
      ensures result.Ok? ==> Valid() && Left() == old(Left())[1..]
    {
      if index >= |tokens| {
        return Err(UnexpectedEnd);
      }
      index := index + 1;
      return Ok(tokens[index - 1]);
    }

    method ParsePrimary() returns (result: Result<Node, Fault>)
      requires Valid()
      modifies this
      ensures result == Outcome(Primary(old(Left())))
      ensures result.Ok? ==> Valid() && Left() == Primary(old(Left())).value.rest
      decreases |tokens| - index, 1
    {
      var token :- Consume();
      if token == "(" {
        result := ParseParenthesized();
      } else if IsKeyword(token, "not") {
        var child :- ParsePrimary();
        return Ok(Not(child));
      } else if IsKeyword(token, "and") || IsKeyword(token, "or") {
        return Err(UnexpectedOperator);
      } else {
        return Ok(Tag(NormalizedTag(token)));
      }
    }

    method ParseParenthesized() returns (result: Result<Node, Fault>)
      requires Valid() && 0 < index && tokens[index - 1] == "("
      modifies this
      ensures result == Outcome(Primary(["("] + old(Left())))
      ensures result.Ok? ==> Valid() && Left() == Primary(["("] + old(Left())).value.rest
      decreases |tokens| - index, 4
    {
      assert (["("] + Left())[1..] == Left();
      var node :- ParseDisjunction();
      var closing :- Consume();
      if closing != ")" {
        return Err(ExpectedClosing);
      }
      return Ok(node);
    }

    method ParseConjunction() returns (result: Result<Node, Fault>)
      requires Valid()
      modifies this
      ensures result == Outcome(Conjunction(old(Left())))
      ensures result.Ok? ==> Valid() && Left() == Conjunction(old(Left())).value.rest
      decreases |tokens| - index, 2
    {
      hide Primary;
      var node :- ParsePrimary();
      ghost var all := MoreConjuncts(node, Left());
      while index < |tokens| && IsKeyword(tokens[index], "and")
        invariant Valid() && old(index) < index
        invariant all == MoreConjuncts(node, Left())
        decreases |tokens| - index
      {
        index := index + 1;
        var right :- ParsePrimary();
        node := And(node, right);
      }
      return Ok(node);
    }

    method ParseDisjunction() returns (result: Result<Node, Fault>)
      requires Valid()
      modifies this
      ensures result == Outcome(Disjunction(old(Left())))
      ensures result.Ok? ==> Valid() && Left() == Disjunction(old(Left())).value.rest
      decreases |tokens| - index, 3
    {
      hide Conjunction;
      var node :- ParseConjunction();
      ghost var all := MoreDisjuncts(node, Left());
      while index < |tokens| && IsKeyword(tokens[index], "or")
        invariant Valid() && old(index) < index
        invariant all == MoreDisjuncts(node, Left())
        decreases |tokens| - index
      {
        index := index + 1;
        var right :- ParseConjunction();
        node := Or(node, right);
      }
      return Ok(node);
    }
  }

  // ---------------------------------------------------------------- evaluation

  predicate Matches(node: Node, tags: seq<string>) {
    match node
    case Tag(value) => value in tags
    case Not(child) => !Matches(child, tags)
    case And(left, right) => Matches(left, tags) && Matches(right, tags)
    case Or(left, right) => Matches(left, tags) || Matches(right, tags)
  }

  /** createTagPredicate: an empty expression matches everything. */
  function Selects(expression: string, tags: seq<string>): Result<bool, Fault> {
    if expression == [] then Ok(true)
    else
      var node :- Parse(expression);
      Ok(Matches(node, tags))
  }
}
