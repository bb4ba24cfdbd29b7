/**
 The JSONC comment stripper of packages/cli/src/configuration/config.ts: one pass over the text
 that copies string literals, drops line and block comments, and copies everything else.
 */
module JsonComments {

  // ---------------------------------------------------------------- scanning

  /** Where a text first has `part` from offset `start` on, or its length. */
  function IndexOf(s: string, part: string, start: nat): (i: nat)
    ensures i <= |s|
    decreases |s| - start
  {
    if start >= |s| then |s|
    else if part <= s[start..] then start
    else IndexOf(s, part, start + 1)
  }

  /** The length of the string literal that starts the text: to its closing quote, or all of it. */
  function QuotedLength(s: string, i: nat): (n: nat)
    requires i <= |s|
    ensures i <= n <= |s|
    decreases |s| - i
  {
    if i == |s| then |s|
    else if s[i] == '"' then i + 1
    else if s[i] == '\\' then (if i + 1 == |s| then |s| else QuotedLength(s, i + 2))
    else QuotedLength(s, i + 1)
  }

  function LineCommentLength(s: string): (n: nat)
    requires "//" <= s
    ensures 2 <= n <= |s|
  {
    IndexOfAfter(s, "\n", 2);
    IndexOf(s, "\n", 2)
  }

  function BlockCommentLength(s: string): (n: nat)
    requires "/*" <= s
    ensures 2 <= n <= |s|
  {
    IndexOfAfter(s, "*/", 2);
    var closing := IndexOf(s, "*/", 2);
    if closing == |s| then |s| else closing + 2
  }

  lemma {:induction false} IndexOfAfter(s: string, part: string, start: nat)
    requires start <= |s| && part != []
    ensures start <= IndexOf(s, part, start)
    ensures IndexOf(s, part, start) < |s| ==> part <= s[IndexOf(s, part, start)..]
    decreases |s| - start
  {
    if start < |s| && !(part <= s[start..]) {
      IndexOfAfter(s, part, start + 1);
    }
  }

  predicate StandsAt(s: string, part: string, i: nat) {
    i + |part| <= |s| && s[i..i + |part|] == part
  }

  lemma {:induction false} IndexIsFirst(s: string, part: string, start: nat)
    requires start <= |s| && part != []
    ensures
      var i := IndexOf(s, part, start);
      && start <= i && (i < |s| ==> StandsAt(s, part, i))
      && forall k :: start <= k < i ==> !StandsAt(s, part, k)
    decreases |s| - start
  {
    if start < |s| {
      assert part <= s[start..] <==> StandsAt(s, part, start) by {
        if start + |part| <= |s| {
          assert s[start..][..|part|] == s[start..start + |part|];
        }
      }
      if !(part <= s[start..]) {
        IndexIsFirst(s, part, start + 1);
      }
    }
  }

  /** A line comment goes to the end of its line, which stays, or of the text. */
  lemma LineCommentExactly(s: string, n: nat)
    requires "//" <= s
    ensures n == LineCommentLength(s)
       <==> 2 <= n <= |s| && (forall k :: 2 <= k < n ==> s[k] != '\n') && (n < |s| ==> s[n] == '\n')
  {
    IndexIsFirst(s, "\n", 2);
    var end := LineCommentLength(s);
    assert forall k :: 2 <= k < |s| ==> (StandsAt(s, "\n", k) <==> s[k] == '\n');
    hide LineCommentLength;
  }

  /** A block comment goes to the first closing mark behind its opening one, or to the end of the text. */
  lemma BlockCommentExactly(s: string, n: nat)
    requires "/*" <= s
    ensures n == BlockCommentLength(s)
       <==> if exists k :: 2 <= k < |s| && StandsAt(s, "*/", k)
            then 4 <= n && StandsAt(s, "*/", n - 2) && forall k :: 2 <= k < n - 2 ==> !StandsAt(s, "*/", k)
            else n == |s|
  {
    IndexIsFirst(s, "*/", 2);
    hide StandsAt;
  }

  // ---------------------------------------------------------------- tokens

  datatype Token = Quoted(text: string) | Comment(text: string) | Plain(c: char)

  function First(s: string): (t: Token)
    requires s != []
    ensures TextOf(t) != [] && TextOf(t) <= s
  {
    if s[0] == '"' then Quoted(s[..QuotedLength(s, 1)])
    else if "//" <= s then Comment(s[..LineCommentLength(s)])
    else if "/*" <= s then Comment(s[..BlockCommentLength(s)])
    else Plain(s[0])
  }

  function TextOf(t: Token): string {
    match t
    case Quoted(text) => text
    case Comment(text) => text
    case Plain(c) => [c]
  }

  function Tokens(s: string): seq<Token>
    decreases |s|
  {
    if s == [] then [] else [First(s)] + Tokens(s[|TextOf(First(s))|..])
  }

  function Texts(ts: seq<Token>): string {
    if ts == [] then [] else TextOf(ts[0]) + Texts(ts[1..])
  }

  function WithoutComments(ts: seq<Token>): seq<Token> {
    if ts == [] then []
    else (if ts[0].Comment? then [] else [ts[0]]) + WithoutComments(ts[1..])
  }

  function Literals(ts: seq<Token>): seq<string> {
    if ts == [] then []
    else (if ts[0].Quoted? then [ts[0].text] else []) + Literals(ts[1..])
  }

  /** What the stripper leaves of a text. */
  function Strip(s: string): string {
    Texts(WithoutComments(Tokens(s)))
  }

  // ---------------------------------------------------------------- the stripper

  method QuotedJsonEnd(source: string, start: nat) returns (end: nat)
    requires start < |source| && source[start] == '"'
    ensures end == start + QuotedLength(source[start..], 1) - 1
  {
    var escaped := false;
    var s := source[start..];
    for index := start + 1 to |source|
      invariant QuotedLength(s, 1)
             == if !escaped then QuotedLength(s, index - start)
                else if index == |source| then |s| else QuotedLength(s, index - start + 1)
    {
      assert s[index - start] == source[index];
      if escaped {
        escaped := false;
      } else if source[index] == '\\' {
        escaped := true;
      } else if source[index] == '"' {
        return index;
      }
    }
    return |source| - 1;
  }

  lemma StripStep(s: string)
    requires s != []
    ensures
      var t := First(s);
      Strip(s) == (if t.Comment? then [] else TextOf(t)) + Strip(s[|TextOf(t)|..])
  {
    var t := First(s);
    var rest := WithoutComments(Tokens(s[|TextOf(t)|..]));
    assert Tokens(s)[1..] == Tokens(s[|TextOf(t)|..]);
    if t.Comment? {
      assert WithoutComments(Tokens(s)) == rest;
    } else {
      assert WithoutComments(Tokens(s)) == [t] + rest;
      assert ([t] + rest)[1..] == rest;
    }
  }

  /** One turn of the loop: what is kept of the next token, and where the one after it starts. */
  lemma StripTurn(source: string, index: nat, done: string, kept: string, length: nat)
    requires index + length <= |source| && done + Strip(source[index..]) == Strip(source)
    requires Strip(source[index..]) == kept + Strip(source[index..][length..])
    ensures (done + kept) + Strip(source[index + length..]) == Strip(source)
  {
    hide Strip;
    assert source[index..][length..] == source[index + length..];
    var rest := Strip(source[index + length..]);
    assert done + (kept + rest) == (done + kept) + rest;
  }

  lemma QuotedTurn(s: string)
    requires s != [] && s[0] == '"'
    ensures Strip(s) == s[..QuotedLength(s, 1)] + Strip(s[QuotedLength(s, 1)..])
  {
    StripStep(s);
    hide Strip;
  }

  lemma CommentTurn(s: string)
    requires s != [] && s[0] != '"' && ("//" <= s || "/*" <= s)
    ensures
      var n := if "//" <= s then LineCommentLength(s) else BlockCommentLength(s);
      Strip(s) == [] + Strip(s[n..])
  {
    StripStep(s);
    hide Strip;
  }

  lemma PlainTurn(s: string)
    requires s != [] && s[0] != '"' && !("//" <= s) && !("/*" <= s)
    ensures Strip(s) == [s[0]] + Strip(s[1..])
  {
    StripStep(s);
    hide Strip;
  }

  method RemoveJsonComments(source: string) returns (result: string)
    ensures result == Strip(source)
  {
    hide Strip, QuotedLength, LineCommentLength, BlockCommentLength;
    result := "";
    var index := 0;
    assert source[0..] == source;
    while index < |source|
      invariant index <= |source|
      invariant result + Strip(source[index..]) == Strip(source)
    {
      assert result + [] == result;
      if source[index] == '"' {
        var s := source[index..];
        QuotedTurn(s);
        var end := QuotedJsonEnd(source, index);
        assert source[index..end + 1] == s[..QuotedLength(s, 1)];
        StripTurn(source, index, result, s[..QuotedLength(s, 1)], QuotedLength(s, 1));
        result := result + source[index..end + 1];
        index := end + 1;
      } else if "//" <= source[index..] {
        CommentTurn(source[index..]);
        StripTurn(source, index, result, [], LineCommentLength(source[index..]));
        index := index + LineCommentLength(source[index..]);
      } else if "/*" <= source[index..] {
        CommentTurn(source[index..]);
        StripTurn(source, index, result, [], BlockCommentLength(source[index..]));
        index := index + BlockCommentLength(source[index..]);
      } else {
        PlainTurn(source[index..]);
        StripTurn(source, index, result, [source[index]], 1);
        result := result + [source[index]];
        index := index + 1;
      }
    }
    NothingLeft(source);
  }

  lemma NothingLeft(source: string)
    ensures Strip(source[|source|..]) == []
  {
  }

  // ---------------------------------------------------------------- stripping is exact

  /** The tokens are the text, piece by piece. */
  lemma {:induction false} TokensAreTheText(s: string)
    ensures Texts(Tokens(s)) == s
    decreases |s|
  {
    if s != [] {
      var t := First(s);
      TokensAreTheText(s[|TextOf(t)|..]);
      assert Tokens(s)[1..] == Tokens(s[|TextOf(t)|..]);
      assert s == TextOf(t) + s[|TextOf(t)|..];
    }
  }

  /** What a literal's length is decided by: the literal itself. */
  lemma {:induction false} QuotedLengthStable(s: string, t: string, i: nat)
    requires i <= |s| && i <= |t| && QuotedLength(s, i) <= |t|
    requires t[..QuotedLength(s, i)] == s[..QuotedLength(s, i)]
    requires QuotedLength(s, i) < |s| || |t| == |s|
    ensures QuotedLength(t, i) == QuotedLength(s, i)
    decreases |s| - i
  {
    var n := QuotedLength(s, i);
    if i < |s| {
      assert s[i] == s[..n][i] == t[..n][i] == t[i];
      if s[i] == '\\' {
        if i + 1 < |s| {
          QuotedLengthStable(s, t, i + 2);
        }
      } else if s[i] != '"' {
        QuotedLengthStable(s, t, i + 1);
      }
    }
  }

  /** What is left starts, if anything, with the first character that is not in a comment. */
  lemma FirstLeft(s: string)
    requires s != [] && !First(s).Comment?
    ensures Strip(s) != [] && Strip(s)[0] == s[0]
  {
    StripStep(s);
    assert TextOf(First(s))[0] == s[0];
  }

  /**
   The key step: no matter what was dropped behind it, the first token left is read again as it
   was.  In particular a deleted comment never brings together the two characters of a new one.
   */
  lemma FirstSurvives(s: string)
    requires s != [] && !First(s).Comment?
    ensures First(Strip(s)) == First(s)
  {
    var t := First(s);
    var text, rest := TextOf(t), s[|TextOf(t)|..];
    var left := Strip(s);
    StripStep(s);
    FirstLeft(s);
    assert left == text + Strip(rest) && s == text + rest;
    if t.Quoted? {
      var n := QuotedLength(s, 1);
      assert n == |text| && left[..n] == text == s[..n];
      if n == |s| {
        assert Strip(rest) == [];
        assert left == s;
      }
      QuotedLengthStable(s, left, 1);
    } else if s[0] == '/' && rest != [] {
      assert rest[0] == s[1];
      assert !First(rest).Comment? by {
        assert rest[0] != '/';
      }
      FirstLeft(rest);
      assert left[1] == s[1];
    } else if s[0] == '/' {
      assert left == s;
    }
  }

  /** Reading what is left gives the old tokens without the comments. */
  lemma {:induction false} TokensOfStrip(s: string)
    ensures Tokens(Strip(s)) == WithoutComments(Tokens(s))
    decreases |s|
  {
    if s != [] {
      var t := First(s);
      var rest := s[|TextOf(t)|..];
      TokensOfStrip(rest);
      StripStep(s);
      assert Tokens(s)[1..] == Tokens(rest);
      if t.Comment? {
        assert Strip(s) == Strip(rest);
      } else {
        FirstSurvives(s);
        assert Strip(s)[|TextOf(t)|..] == Strip(rest);
      }
    }
  }

  lemma {:induction false} LiteralsSurvive(ts: seq<Token>)
    ensures Literals(WithoutComments(ts)) == Literals(ts)
    ensures WithoutComments(WithoutComments(ts)) == WithoutComments(ts)
  {
    if ts != [] {
      LiteralsSurvive(ts[1..]);
      var rest := WithoutComments(ts[1..]);
      if ts[0].Comment? {
        assert WithoutComments(ts) == rest;
      } else {
        assert WithoutComments(ts) == [ts[0]] + rest;
        assert ([ts[0]] + rest)[1..] == rest;
      }
    }
  }

  /** Stripping twice is stripping once, also for unterminated strings and comments. */
  lemma StripIsIdempotent(s: string)
    ensures Strip(Strip(s)) == Strip(s)
  {
    TokensOfStrip(s);
    LiteralsSurvive(Tokens(s));
  }

  /** Every string literal is still there, unchanged and in order. */
  lemma StripKeepsLiterals(s: string)
    ensures Literals(Tokens(Strip(s))) == Literals(Tokens(s))
  {
    TokensOfStrip(s);
    LiteralsSurvive(Tokens(s));
  }

  ghost predicate HasComment(ts: seq<Token>) {
    exists t :: t in ts && t.Comment?
  }

  lemma {:induction false} CommentsAreText(ts: seq<Token>)
    requires forall t :: t in ts ==> TextOf(t) != []
    ensures |Texts(WithoutComments(ts))| <= |Texts(ts)|
    ensures HasComment(ts) <==> |Texts(WithoutComments(ts))| < |Texts(ts)|
    ensures !HasComment(ts) ==> WithoutComments(ts) == ts
  {
    if ts != [] {
      CommentsAreText(ts[1..]);
      assert ts == [ts[0]] + ts[1..];
      var rest := WithoutComments(ts[1..]);
      if ts[0].Comment? {
        assert WithoutComments(ts) == rest;
        assert TextOf(ts[0]) != [];
      } else {
        assert WithoutComments(ts) == [ts[0]] + rest;
        assert ([ts[0]] + rest)[1..] == rest;
      }
    }
  }

  lemma {:induction false} TokensHaveText(s: string)
    ensures forall t :: t in Tokens(s) ==> TextOf(t) != []
    decreases |s|
  {
    if s != [] {
      TokensHaveText(s[|TextOf(First(s))|..]);
    }
  }

  /** A text is changed exactly when it has a comment outside its strings. */
  lemma StripChangesExactlyComments(s: string)
    ensures Strip(s) != s <==> HasComment(Tokens(s))
  {
    TokensAreTheText(s);
    TokensHaveText(s);
    CommentsAreText(Tokens(s));
  }
}
