/**
 Which accepted tag expressions print back to their tree
 (packages/spec/src/selection/tag-expression.ts): those with as many opening as closing parentheses.
 */
module TagParentheses {
  import opened Wrappers
  import opened TagExpression
  import opened TagPrinting

  // ---------------------------------------------------------------- counting parentheses

  function CountOf(s: string, c: char): nat {
    if s == [] then 0 else (if s[0] == c then 1 else 0) + CountOf(s[1..], c)
  }

  /** How many closing parentheses a text has more than opening ones. */
  function Excess(s: string): int {
    CountOf(s, ')') - CountOf(s, '(')
  }

  function TokenExcess(token: string): int {
    if token == ")" then 1 else if token == "(" then -1 else 0
  }

  function TokensExcess(ts: seq<string>): int {
    if ts == [] then 0 else TokenExcess(ts[0]) + TokensExcess(ts[1..])
  }

  lemma {:induction false} CountSum(s: string, t: string, c: char)
    ensures CountOf(s + t, c) == CountOf(s, c) + CountOf(t, c)
  {
    if s == [] {
      assert s + t == t;
    } else {
      assert (s + t)[1..] == s[1..] + t;
      CountSum(s[1..], t, c);
    }
  }

  lemma {:induction false} NoneCounted(s: string, c: char)
    requires c !in s
    ensures CountOf(s, c) == 0
  {
    if s != [] {
      assert s[0] in s;
      NoneCounted(s[1..], c);
    }
  }

  lemma KeywordHasNone(token: string, keyword: string)
    requires IsKeyword(token, keyword) && '(' !in keyword && ')' !in keyword
    ensures '(' !in token && ')' !in token
  {
    forall i | 0 <= i < |token| ensures token[i] != '(' && token[i] != ')' {
      assert LowerCase(token)[i] == keyword[i] && keyword[i] in keyword;
    }
  }

  lemma TagHasNone(token: string)
    requires IsTag(token) || IsTag("@" + token)
    ensures '(' !in token && ')' !in token
  {
    if IsTag("@" + token) {
      assert forall i :: 0 <= i < |token| ==> ("@" + token)[i + 1] == token[i];
    }
  }

  lemma ExcessOfToken(token: string)
    requires IsToken(token)
    ensures Excess(token) == TokenExcess(token)
  {
    if token == "(" || token == ")" {
      var none := token[1..];
      assert none == [] && CountOf(none, '(') == CountOf(none, ')') == 0;
    } else {
      assert '(' !in token && ')' !in token by {
        if IsTag(token) || IsTag("@" + token) {
          TagHasNone(token);
        } else {
          var keyword := if IsKeyword(token, "and") then "and" else if IsKeyword(token, "or") then "or" else "not";
          KeywordHasNone(token, keyword);
        }
      }
      NoneCounted(token, '(');
      NoneCounted(token, ')');
    }
  }

  lemma {:induction false} ExcessOfSpaces(s: string)
    ensures Excess(SkipSpaces(s)) == Excess(s)
  {
    if s != [] && IsSpace(s[0]) {
      ExcessOfSpaces(s[1..]);
    }
  }

  /** Tokenizing keeps the parentheses. */
  lemma {:induction false} ExcessOfTokens(expression: string)
    requires Tokenize(expression).Ok?
    ensures TokensExcess(Tokenize(expression).value) == Excess(expression)
    decreases |expression|
  {
    var s := SkipSpaces(expression);
    ExcessOfSpaces(expression);
    if s != [] {
      var token, rest := s[..TokenLength(s)], s[TokenLength(s)..];
      MatchedIsToken(s);
      ExcessOfToken(token);
      ExcessOfTokens(rest);
      assert s == token + rest;
      CountSum(token, rest, '(');
      CountSum(token, rest, ')');
    }
  }

  // ---------------------------------------------------------------- counting stray parentheses

  /** How many tags of a tree stand for a stray parenthesis. */
  function Strays(node: Node): nat {
    match node
    case Tag(value) => if value == STRAY then 1 else 0
    case Not(child) => Strays(child)
    case And(left, right) => Strays(left) + Strays(right)
    case Or(left, right) => Strays(left) + Strays(right)
  }

  lemma {:induction false} PrintableWithoutStrays(node: Node)
    requires Readable(node)
    ensures Printable(node) <==> Strays(node) == 0
  {
    match node
    case Tag(_) => assert STRAY[1] == ')' && !IsTagChar(')');
    case Not(child) => PrintableWithoutStrays(child);
    case And(left, right) =>
      PrintableWithoutStrays(left);
      PrintableWithoutStrays(right);
    case Or(left, right) =>
      PrintableWithoutStrays(left);
      PrintableWithoutStrays(right);
  }

  lemma OperandStrays(token: string)
    requires IsToken(token) && token != "("
    requires !IsKeyword(token, "and") && !IsKeyword(token, "or") && !IsKeyword(token, "not")
    ensures Strays(Tag(NormalizedTag(token))) == TokenExcess(token)
  {
    if token != ")" {
      TagHasNone(token);
      assert STRAY[1] == ')';
      assert NormalizedTag(token) == token || NormalizedTag(token)[1..] == token;
    } else {
      assert !("@" <= token) && "@" + token == STRAY;
    }
  }

  lemma KeywordExcess(token: string)
    requires IsKeyword(token, "and") || IsKeyword(token, "or") || IsKeyword(token, "not")
    ensures TokenExcess(token) == 0
  {
    assert |LowerCase(token)| == |token| > 1;
  }

  /** What is read from tokens has as many strays as those tokens have closing parentheses in excess. */
  lemma {:induction false} PrimaryStrays(ts: seq<string>)
    requires AllTokens(ts) && Primary(ts).Ok?
    ensures TokensExcess(ts) == Strays(Primary(ts).value.node) + TokensExcess(Primary(ts).value.rest)
    decreases |ts|, 0
  {
    hide IsToken, IsKeyword;
    if ts[0] == "(" {
      DisjunctionStrays(ts[1..]);
    } else if IsKeyword(ts[0], "not") {
      KeywordExcess(ts[0]);
      PrimaryStrays(ts[1..]);
    } else {
      OperandStrays(ts[0]);
    }
  }

  lemma {:induction false} ConjunctionStrays(ts: seq<string>)
    requires AllTokens(ts) && Conjunction(ts).Ok?
    ensures TokensExcess(ts) == Strays(Conjunction(ts).value.node) + TokensExcess(Conjunction(ts).value.rest)
    decreases |ts|, 2
  {
    PrimaryStrays(ts);
    PrimaryReadable(ts);
    hide IsToken, Primary;
    ConjunctsStrays(Primary(ts).value.node, Primary(ts).value.rest);
  }

  lemma {:induction false} ConjunctsStrays(left: Node, ts: seq<string>)
    requires AllTokens(ts) && MoreConjuncts(left, ts).Ok?
    ensures Strays(left) + TokensExcess(ts)
         == Strays(MoreConjuncts(left, ts).value.node) + TokensExcess(MoreConjuncts(left, ts).value.rest)
    decreases |ts|, 1
  {
    hide IsToken, IsKeyword;
    if StartsWith(ts, "and") {
      KeywordExcess(ts[0]);
      PrimaryStrays(ts[1..]);
      PrimaryReadable(ts[1..]);
      var right := Primary(ts[1..]).value;
      ConjunctsStrays(And(left, right.node), right.rest);
    }
  }

  lemma {:induction false} DisjunctionStrays(ts: seq<string>)
    requires AllTokens(ts) && Disjunction(ts).Ok?
    ensures TokensExcess(ts) == Strays(Disjunction(ts).value.node) + TokensExcess(Disjunction(ts).value.rest)
    decreases |ts|, 4
  {
    ConjunctionStrays(ts);
    ConjunctionReadable(ts);
    hide IsToken, Conjunction;
    DisjunctsStrays(Conjunction(ts).value.node, Conjunction(ts).value.rest);
  }

  lemma {:induction false} DisjunctsStrays(left: Node, ts: seq<string>)
    requires AllTokens(ts) && MoreDisjuncts(left, ts).Ok?
    ensures Strays(left) + TokensExcess(ts)
         == Strays(MoreDisjuncts(left, ts).value.node) + TokensExcess(MoreDisjuncts(left, ts).value.rest)
    decreases |ts|, 3
  {
    hide IsToken, IsKeyword;
    if StartsWith(ts, "or") {
      KeywordExcess(ts[0]);
      ConjunctionStrays(ts[1..]);
      ConjunctionReadable(ts[1..]);
      var right := Conjunction(ts[1..]).value;
      DisjunctsStrays(Or(left, right.node), right.rest);
    }
  }

  // ---------------------------------------------------------------- which expressions reprint

  /**
   An accepted expression has one tag for each closing parenthesis it has in excess, and never an
   opening one too many.
   */
  lemma StraysAreExcess(expression: string)
    requires Parse(expression).Ok?
    ensures Strays(Parse(expression).value) == Excess(expression) >= 0
    ensures Readable(Parse(expression).value)
  {
    var tokens := Tokenize(expression).value;
    TokensAreTokens(expression);
    ExcessOfTokens(expression);
    DisjunctionStrays(tokens);
    DisjunctionReadable(tokens);
  }

  /** An accepted expression reprints to its tree exactly when its parentheses are equal in number. */
  lemma AcceptedReprintsExactlyWhen(expression: string)
    requires Parse(expression).Ok?
    ensures Parse(Print(Parse(expression).value)) == Parse(expression)
       <==> CountOf(expression, ')') == CountOf(expression, '(')
  {
    StraysAreExcess(expression);
    PrintableWithoutStrays(Parse(expression).value);
    ReprintsExactlyWhenPrintable(expression);
  }
}
