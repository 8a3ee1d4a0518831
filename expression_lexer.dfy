/**
 * The arithmetic-expression lexer and parser of Lab6/Lab6/Lab6/Program.cs.
 * The lexer reads one character per token. It classifies each character with a table
 * of single-character patterns. It checks each pair of consecutive categories against a
 * transition table, and it matches brackets on a stack. The parser chains the tokens
 * into a tree in which every node hangs under the previous one.
 */
module ExpressionLexer {
  import opened Wrappers
  import CnfTables

  /** `TokenType` (:4-11). */
  datatype TokenType = OpenParenthesis | CloseParenthesis | MathOperation | Numbers | Start

  /** `TokenType.ToString()`. */
  function Name(t: TokenType): string {
    match t
    case OpenParenthesis => "OPEN_PARENTHESIS"
    case CloseParenthesis => "CLOSE_PARENTHESIS"
    case MathOperation => "MATH_OPERATION"
    case Numbers => "NUMBERS"
    case Start => "START"
  }

  /** `\d`, restricted to ASCII. */
  predicate IsDigit(c: char) {
    '0' <= c <= '9'
  }

  /**
   * The pattern table `data` (:24-30), in its enumeration order. Every pattern is matched
   * against a one-character string, so each one is the set of characters it accepts.
   */
  const Data: seq<(TokenType, seq<set<char>>)> := [
    (OpenParenthesis, [{'('}, {'['}]),
    (CloseParenthesis, [{')'}, {']'}]),
    (MathOperation, [{'+', '-', '*', '/', '%', '^'}]),
    (Numbers, [set c | '0' <= c <= '9'])
  ]

  /** Some pattern of `ps` accepts `c`. */
  predicate AnyPattern(ps: seq<set<char>>, c: char) {
    exists j :: 0 <= j < |ps| && c in ps[j]
  }

  /** The first category of `data` with a pattern that accepts `c`. */
  function FirstCategory(data: seq<(TokenType, seq<set<char>>)>, c: char): Option<TokenType> {
    if data == [] then None
    else if AnyPattern(data[0].1, c) then Some(data[0].0)
    else FirstCategory(data[1..], c)
  }

  /** The category of one character (:52-65), or `None` when no pattern accepts it. */
  function Classify(c: char): Option<TokenType> {
    FirstCategory(Data, c)
  }

  /** `c` matches some pattern of category `t`. */
  predicate Matches(t: TokenType, c: char) {
    exists i :: 0 <= i < |Data| && Data[i].0 == t && AnyPattern(Data[i].1, c)
  }

  /** What each pattern list of the table accepts. */
  lemma PatternFacts(c: char)
    ensures AnyPattern(Data[0].1, c) <==> c == '(' || c == '['
    ensures AnyPattern(Data[1].1, c) <==> c == ')' || c == ']'
    ensures AnyPattern(Data[2].1, c) <==> c in {'+', '-', '*', '/', '%', '^'}
    ensures AnyPattern(Data[3].1, c) <==> IsDigit(c)
  {
    var ps0, ps1, ps2, ps3 := Data[0].1, Data[1].1, Data[2].1, Data[3].1;
    if c == '(' { assert c in ps0[0]; }
    if c == '[' { assert c in ps0[1]; }
    if c == ')' { assert c in ps1[0]; }
    if c == ']' { assert c in ps1[1]; }
    if c in ps2[0] { assert 0 < |ps2|; }
    if IsDigit(c) { assert c in ps3[0]; }
  }

  /** The first match, read off the table character by character. */
  lemma ClassifyCases(c: char)
    ensures Classify(c) ==
      if c == '(' || c == '[' then Some(OpenParenthesis)
      else if c == ')' || c == ']' then Some(CloseParenthesis)
      else if c in {'+', '-', '*', '/', '%', '^'} then Some(MathOperation)
      else if IsDigit(c) then Some(Numbers)
      else None
  {
    PatternFacts(c);
    var d1 := Data[1..];
    var d2 := d1[1..];
    var d3 := d2[1..];
    assert d1[0] == Data[1] && d2[0] == Data[2] && d3[0] == Data[3];
    assert d3[1..] == [];
    assert FirstCategory(d3, c) == if AnyPattern(Data[3].1, c) then Some(Numbers) else None;
    assert FirstCategory(d2, c) == if AnyPattern(Data[2].1, c) then Some(MathOperation) else FirstCategory(d3, c);
    assert FirstCategory(d1, c) == if AnyPattern(Data[1].1, c) then Some(CloseParenthesis) else FirstCategory(d2, c);
  }

  /**
   * The categories' patterns are disjoint, so the first match in the order OPEN, CLOSE,
   * MATH, NUMBERS is the only one. A character is classified as `t` exactly when a
   * pattern of `t` accepts it, and it is never classified as START.
   */
  lemma ClassifyMatches(c: char, t: TokenType)
    ensures Classify(c) == Some(t) <==> Matches(t, c)
    ensures Classify(c) != Some(Start)
  {
    PatternFacts(c);
    ClassifyCases(c);
    if Matches(t, c) {
      var i :| 0 <= i < |Data| && Data[i].0 == t && AnyPattern(Data[i].1, c);
      assert i == 0 || i == 1 || i == 2 || i == 3;
    }
    if Classify(c) == Some(t) {
      if t == OpenParenthesis { assert Data[0].0 == t; }
      else if t == CloseParenthesis { assert Data[1].0 == t; }
      else if t == MathOperation { assert Data[2].0 == t; }
      else { assert Data[3].0 == t; }
    }
  }

  /** The `transitions` table (:32-39): the categories that may follow `from`. */
  function Transitions(from: TokenType): seq<TokenType> {
    match from
    case OpenParenthesis => [Numbers, OpenParenthesis]
    case MathOperation => [Numbers, OpenParenthesis]
    case CloseParenthesis => [MathOperation, CloseParenthesis]
    case Numbers => [Numbers, CloseParenthesis, MathOperation]
    case Start => [OpenParenthesis, Numbers]
  }

  predicate Allowed(from: TokenType, to: TokenType) {
    to in Transitions(from)
  }

  /** The opening bracket that a closing one must match (:98). */
  function Opener(c: char): char {
    if c == ')' then '(' else '['
  }

  /** The state of `Tokenize` after some characters: its three lists, stack top last. */
  datatype Scan = Scan(categories: seq<TokenType>, tokens: seq<string>, stack: seq<char>)

  /** One iteration of the loop of `Tokenize` (:46-105); `None` is a `(null, null)` return. */
  function Step(s: Scan, c: char): Option<Scan>
    requires s.categories != []
  {
    match Classify(c)
    case None => None
    case Some(t) =>
      if !Allowed(s.categories[|s.categories| - 1], t) then None
      else
        var categories, tokens := s.categories + [t], s.tokens + [[c]];
        if t == OpenParenthesis then Some(Scan(categories, tokens, s.stack + [c]))
        else if t == CloseParenthesis then
          if s.stack == [] then None
          else if s.stack[|s.stack| - 1] != Opener(c) then None
          else Some(Scan(categories, tokens, s.stack[..|s.stack| - 1]))
        else Some(Scan(categories, tokens, s.stack))
  }

  /** The loop of `Tokenize` over the first `n` characters. */
  function Run(eq: string, n: nat): (r: Option<Scan>)
    requires n <= |eq|
    ensures r.Some? ==> |r.value.categories| == n + 1
  {
    if n == 0 then Some(Scan([Start], [], []))
    else match Run(eq, n - 1)
      case None => None
      case Some(s) => Step(s, eq[n - 1])
  }

  /** `Tokenize` (:22-115): the two lists, or `None` for `(null, null)`. */
  function TokenizeSpec(eq: string): Option<(seq<TokenType>, seq<string>)> {
    match Run(eq, |eq|)
    case None => None
    case Some(s) => if s.stack != [] then None else Some((s.categories, s.tokens))
  }

  /** Every character is classified. */
  ghost predicate Classified(s: string) {
    forall i :: 0 <= i < |s| ==> Classify(s[i]).Some?
  }

  /** The categories of the characters of `s`, in order. */
  function Categories(s: string): (r: seq<TokenType>)
    requires Classified(s)
    ensures |r| == |s|
  {
    seq(|s|, i requires 0 <= i < |s| => Classify(s[i]).value)
  }

  /** Every category, START included in front, is followed by one the table allows. */
  ghost predicate Chained(s: string)
    requires Classified(s)
  {
    var cs := [Start] + Categories(s);
    forall i :: 0 <= i < |s| ==> Allowed(cs[i], cs[i + 1])
  }

  /** One single-character token per character. */
  function Singletons(s: string): (r: seq<string>)
    ensures |r| == |s|
  {
    seq(|s|, i requires 0 <= i < |s| => [s[i]])
  }

  /**
   * Bracket matching on its own, with every other character ignored: the stack of
   * unclosed openers, or `None` when a closer finds an empty stack or the wrong opener.
   */
  function BracketStack(s: string): Option<seq<char>> {
    if s == [] then Some([])
    else match BracketStack(s[..|s| - 1])
      case None => None
      case Some(st) =>
        var c := s[|s| - 1];
        if c == '(' || c == '[' then Some(st + [c])
        else if c == ')' || c == ']' then
          if st == [] || st[|st| - 1] != Opener(c) then None else Some(st[..|st| - 1])
        else Some(st)
  }

  /** The tokens, concatenated. */
  function Concat(ts: seq<string>): string {
    if ts == [] then [] else Concat(ts[..|ts| - 1]) + ts[|ts| - 1]
  }

  /** The number of characters of `s` in `cs`. */
  function Count(s: string, cs: set<char>): nat {
    if s == [] then 0 else Count(s[..|s| - 1], cs) + (if s[|s| - 1] in cs then 1 else 0)
  }

  lemma RunNext(eq: string, n: nat)
    requires n < |eq|
    ensures Run(eq, n + 1) == if Run(eq, n).None? then None else Step(Run(eq, n).value, eq[n])
  {
  }

  lemma {:induction false} RunNoneStays(eq: string, n: nat, m: nat)
    requires n <= m <= |eq| && Run(eq, n) == None
    ensures Run(eq, m) == None
    decreases m - n
  {
    if n < m {
      RunNext(eq, n);
      RunNoneStays(eq, n + 1, m);
    }
  }

  /** Appending one character to a string, as seen by the reference definitions. */
  lemma SnocReference(s: string, c: char)
    ensures Classified(s + [c]) <==> Classified(s) && Classify(c).Some?
    ensures Classified(s + [c]) ==> Categories(s + [c]) == Categories(s) + [Classify(c).value]
    ensures Classified(s + [c]) ==>
      (Chained(s + [c]) <==> Chained(s) && Allowed(([Start] + Categories(s))[|s|], Classify(c).value))
    ensures Singletons(s + [c]) == Singletons(s) + [[c]]
    ensures (s + [c])[..|s|] == s
  {
    var t := s + [c];
    if Classified(s) && Classify(c).Some? {
      assert forall i :: 0 <= i < |t| ==> Classify(t[i]).Some? by {
        forall i | 0 <= i < |t| ensures Classify(t[i]).Some? {
          if i < |s| { assert t[i] == s[i]; }
        }
      }
    }
    if Classified(t) {
      assert t[|s|] == c;
      forall i | 0 <= i < |s| ensures Classify(s[i]).Some? {
        assert t[i] == s[i];
      }
      assert Categories(t) == Categories(s) + [Classify(c).value];
      var cs, ct := [Start] + Categories(s), [Start] + Categories(t);
      assert ct == cs + [Classify(c).value];
      if Chained(t) {
        forall i | 0 <= i < |s| ensures Allowed(cs[i], cs[i + 1]) {
          assert ct[i] == cs[i] && ct[i + 1] == cs[i + 1];
        }
        assert Allowed(ct[|s|], ct[|s| + 1]);
      }
    }
    assert Singletons(t) == Singletons(s) + [[c]];
  }

  /**
   * The loop of `Tokenize` over a prefix, described without its state: it has not failed
   * exactly when every character is classified, the categories are chained, and the
   * brackets match so far. The lists are then START and the categories, one token per
   * character, and the stack of unclosed openers.
   */
  lemma {:induction false} RunReference(eq: string, n: nat)
    requires n <= |eq|
    ensures Run(eq, n).Some? <==>
      Classified(eq[..n]) && Chained(eq[..n]) && BracketStack(eq[..n]).Some?
    ensures Run(eq, n).Some? ==>
      Run(eq, n) == Some(Scan([Start] + Categories(eq[..n]), Singletons(eq[..n]), BracketStack(eq[..n]).value))
  {
    if n == 0 {
      assert eq[..0] == [];
      assert Classified(eq[..0]) && Chained(eq[..0]);
      assert BracketStack(eq[..0]) == Some([]);
      assert Run(eq, 0) == Some(Scan([Start], [], []));
      assert [Start] + Categories(eq[..0]) == [Start];
      assert Categories(eq[..0]) == [];
      assert Singletons(eq[..0]) == [];
    } else {
      var s, c := eq[..n - 1], eq[n - 1];
      assert eq[..n] == s + [c];
      RunReference(eq, n - 1);
      SnocReference(s, c);
      RunNext(eq, n - 1);
      if Run(eq, n - 1).Some? {
        RunStep(s, c, Run(eq, n - 1).value);
      }
    }
  }

  /** The inductive step of `RunReference`, for a prefix the loop has survived. */
  lemma RunStep(s: string, c: char, sc: Scan)
    requires Classified(s) && Chained(s) && BracketStack(s).Some?
    requires sc == Scan([Start] + Categories(s), Singletons(s), BracketStack(s).value)
    ensures Step(sc, c).Some? <==>
      Classified(s + [c]) && Chained(s + [c]) && BracketStack(s + [c]).Some?
    ensures Step(sc, c).Some? ==>
      Step(sc, c) == Some(Scan([Start] + Categories(s + [c]), Singletons(s + [c]), BracketStack(s + [c]).value))
  {
    SnocReference(s, c);
    ClassifyCases(c);
    var t := s + [c];
    assert t[|t| - 1] == c;
    assert |sc.categories| == |s| + 1;
    if Step(sc, c).Some? {
      var k := Classify(c).value;
      assert [Start] + Categories(t) == sc.categories + [k];
      assert Singletons(t) == sc.tokens + [[c]];
    }
  }

  /**
   * `Tokenize` succeeds exactly when every character is classified, every pair of
   * consecutive categories (START first) is allowed, and every bracket is closed by its
   * own kind with none left open.
   */
  lemma TokenizeReference(eq: string)
    ensures TokenizeSpec(eq).Some? <==>
      Classified(eq) && Chained(eq) && BracketStack(eq) == Some([])
  {
    RunReference(eq, |eq|);
    assert eq[..|eq|] == eq;
  }

  /** An unclassifiable character anywhere makes `Tokenize` fail. */
  lemma TokenizeUnknown(eq: string, i: nat)
    requires i < |eq| && Classify(eq[i]).None?
    ensures TokenizeSpec(eq) == None
  {
    TokenizeReference(eq);
  }

  /** Concatenating the one-character tokens gives back the string. */
  lemma {:induction false} ConcatSingletons(s: string)
    ensures Concat(Singletons(s)) == s
  {
    if s != [] {
      var init := s[..|s| - 1];
      SnocReference(init, s[|s| - 1]);
      assert init + [s[|s| - 1]] == s;
      ConcatSingletons(init);
      assert Singletons(s)[..|s| - 1] == Singletons(init);
    }
  }

  /**
   * On success the categories start with START and carry one more entry than the tokens.
   * There is one single-character token per character, the tokens concatenate to the
   * string, and each token's category is its character's and is allowed after the
   * previous one.
   */
  lemma TokenizeShape(eq: string)
    requires TokenizeSpec(eq).Some?
    ensures Classified(eq) && Chained(eq)
    ensures TokenizeSpec(eq).value.0 == [Start] + Categories(eq)
    ensures |TokenizeSpec(eq).value.0| == |TokenizeSpec(eq).value.1| + 1 == |eq| + 1
    ensures forall i :: 0 <= i < |eq| ==> TokenizeSpec(eq).value.1[i] == [eq[i]]
    ensures Concat(TokenizeSpec(eq).value.1) == eq
    ensures forall i :: 0 <= i < |eq| ==>
      Classify(eq[i]) == Some(TokenizeSpec(eq).value.0[i + 1]) &&
      Allowed(TokenizeSpec(eq).value.0[i], TokenizeSpec(eq).value.0[i + 1])
  {
    RunReference(eq, |eq|);
    assert eq[..|eq|] == eq;
    ConcatSingletons(eq);
  }

  /** A successful bracket scan leaves only openers, as many as the closers fell short. */
  lemma {:induction false} BracketCounts(s: string)
    requires BracketStack(s).Some?
    ensures |BracketStack(s).value| + Count(s, {')', ']'}) == Count(s, {'(', '['})
  {
    if s != [] {
      BracketCounts(s[..|s| - 1]);
    }
  }

  /** A bracket scan that fails stays failed on every extension. */
  lemma {:induction false} BracketPrefix(s: string, n: nat)
    requires n <= |s| && BracketStack(s).Some?
    ensures BracketStack(s[..n]).Some?
    decreases |s| - n
  {
    if n < |s| {
      if n + 1 < |s| {
        BracketPrefix(s, n + 1);
      } else {
        assert s[..n + 1] == s;
      }
      var t := s[..n + 1];
      assert t[..|t| - 1] == s[..n];
    } else {
      assert s[..n] == s;
    }
  }

  /**
   * On success the brackets balance: every prefix has at least as many closers as
   * openers fewer, and the whole string as many of each.
   */
  lemma TokenizeBalanced(eq: string)
    requires TokenizeSpec(eq).Some?
    ensures Count(eq, {')', ']'}) == Count(eq, {'(', '['})
    ensures forall n :: 0 <= n <= |eq| ==> Count(eq[..n], {')', ']'}) <= Count(eq[..n], {'(', '['})
  {
    TokenizeReference(eq);
    BracketCounts(eq);
    forall n | 0 <= n <= |eq| ensures Count(eq[..n], {')', ']'}) <= Count(eq[..n], {'(', '['}) {
      BracketPrefix(eq, n);
      BracketCounts(eq[..n]);
    }
  }

  /** The classification loops of :52-65: the first category with a matching pattern. */
  method FindCategory(symbol: char) returns (currentCategory: Option<TokenType>)
    ensures currentCategory == Classify(symbol)
  {
    currentCategory := None;
    var k := 0;
    while k < |Data|
      invariant 0 <= k <= |Data|
      invariant FirstCategory(Data, symbol) == FirstCategory(Data[k..], symbol)
      decreases |Data| - k
    {
      var (category, patterns) := Data[k];
      var found := false;
      for j := 0 to |patterns|
        invariant !found <==> forall j' :: 0 <= j' < j ==> symbol !in patterns[j']
      {
        if symbol in patterns[j] {
          found := true;
          break;
        }
      }
      if found {
        currentCategory := Some(category);
        return;
      }
      assert Data[k..][1..] == Data[k + 1..];
      k := k + 1;
    }
  }

  /**
   * The body of the loop of `Tokenize` (:47-104) for one character: the three lists after
   * it, or `None` where the source returns `(null, null)`.
   */
  method ScanSymbol(categoryMapping: seq<TokenType>, validTokens: seq<string>, seqParenthesis: seq<char>, symbol: char)
    returns (next: Option<Scan>)
    requires categoryMapping != []
    ensures next == Step(Scan(categoryMapping, validTokens, seqParenthesis), symbol)
  {
    var currentCategory := FindCategory(symbol);
    if currentCategory.None? {
      return None;
    }
    if currentCategory.value !in Transitions(categoryMapping[|categoryMapping| - 1]) {
      return None;
    }
    var categories := categoryMapping + [currentCategory.value];
    var tokens := validTokens + [[symbol]];
    var stack := seqParenthesis;
    if currentCategory.value == OpenParenthesis {
      stack := stack + [symbol];
    } else if currentCategory.value == CloseParenthesis {
      if |stack| == 0 {
        return None;
      }
      ClassifyCases(symbol);
      var lastOpen := stack[|stack| - 1];
      stack := stack[..|stack| - 1];
      if (symbol == ')' && lastOpen != '(') || (symbol == ']' && lastOpen != '[') {
        return None;
      }
    }
    next := Some(Scan(categories, tokens, stack));
  }

  /** `Lexer` (:13-116). */
  class Lexer {
    var equation: string

    /** The constructor drops every space (:19). */
    constructor(equation: string)
      ensures this.equation == CnfTables.DeleteAll(equation, ' ')
      ensures ' ' !in this.equation
    {
      CnfTables.DeleteAllShape(equation, ' ');
      this.equation := CnfTables.DeleteAll(equation, ' ');
    }

    /** `Tokenize` (:22-115); `None` stands for the `(null, null)` returns. */
    method Tokenize() returns (r: Option<(seq<TokenType>, seq<string>)>)
      ensures r == TokenizeSpec(equation)
    {
      var seqParenthesis: seq<char> := [];
      var categoryMapping: seq<TokenType> := [Start];
      var validTokens: seq<string> := [];
      for i := 0 to |equation|
        invariant Run(equation, i) == Some(Scan(categoryMapping, validTokens, seqParenthesis))
      {
        var symbol := equation[i];
        RunNext(equation, i);
        var next := ScanSymbol(categoryMapping, validTokens, seqParenthesis, symbol);
        if next.None? {
          RunNoneStays(equation, i + 1, |equation|);
          return None;
        }
        categoryMapping, validTokens, seqParenthesis := next.value.categories, next.value.tokens, next.value.stack;
      }
      if |seqParenthesis| > 0 {
        return None;
      }
      r := Some((categoryMapping, validTokens));
    }
  }

  /** A node of the parse tree: the root category (:133) or a token with its category (:141). */
  datatype Label = RootLabel(root: TokenType) | NodeLabel(token: string, category: TokenType)

  /** The string the source builds for a node. */
  function Text(l: Label): string {
    match l
    case RootLabel(t) => Name(t)
    case NodeLabel(token, t) => token + " (" + Name(t) + ")"
  }

  /**
   * The strings of the root and of a token node always differ (a category name has no
   * space), so telling nodes apart by their label loses nothing.
   */
  lemma TextDistinct(t: TokenType, token: string, category: TokenType)
    ensures Text(RootLabel(t)) != Text(NodeLabel(token, category))
  {
    assert Text(NodeLabel(token, category))[|token|] == ' ';
    assert ' ' !in Name(t);
  }

  /** The top of `parentNodes` after `i` tokens: the root, then always the last node pushed. */
  function Parent(tokens: seq<string>, categories: seq<TokenType>, i: nat): Label
    requires i <= |tokens| < |categories|
  {
    if i == 0 then RootLabel(categories[0]) else NodeLabel(tokens[i - 1], categories[i])
  }

  /** The `(node, parent)` pairs of the first `n` tokens. */
  function ParseTree(tokens: seq<string>, categories: seq<TokenType>, n: nat): (r: seq<(Label, Label)>)
    requires n <= |tokens| < |categories|
    ensures |r| == n
  {
    if n == 0 then []
    else ParseTree(tokens, categories, n - 1) + [(NodeLabel(tokens[n - 1], categories[n]), Parent(tokens, categories, n - 1))]
  }

  /**
   * Token i becomes a node labelled with its category `categories[i + 1]`. It hangs under
   * the root category when i is 0 and under token i-1's node otherwise.
   */
  lemma {:induction false} ParseTreeShape(tokens: seq<string>, categories: seq<TokenType>, n: nat)
    requires n <= |tokens| < |categories|
    ensures forall i :: 0 <= i < n ==>
      ParseTree(tokens, categories, n)[i] == (NodeLabel(tokens[i], categories[i + 1]), Parent(tokens, categories, i))
  {
    if n > 0 {
      ParseTreeShape(tokens, categories, n - 1);
    }
  }

  /**
   * The tree is a chain: every node but the first hangs under the node before it, and
   * only the first hangs under the root.
   */
  lemma ParseChain(tokens: seq<string>, categories: seq<TokenType>, i: nat)
    requires 0 < i < |tokens| < |categories|
    ensures ParseTree(tokens, categories, |tokens|)[i].1 == ParseTree(tokens, categories, |tokens|)[i - 1].0
    ensures Text(ParseTree(tokens, categories, |tokens|)[i].1) != Text(ParseTree(tokens, categories, |tokens|)[0].1)
  {
    ParseTreeShape(tokens, categories, |tokens|);
    TextDistinct(categories[0], tokens[i - 1], categories[i]);
  }

  /** `Parser` (:118-153). */
  class Parser {
    var categoryMapping: seq<TokenType>
    var validTokens: seq<string>

    constructor(categoryMapping: seq<TokenType>, validTokens: seq<string>)
      ensures this.categoryMapping == categoryMapping && this.validTokens == validTokens
    {
      this.categoryMapping := categoryMapping;
      this.validTokens := validTokens;
    }

    /** `Parse` (:129-145) without the printing: the `(node, parent)` pairs. */
    method Parse() returns (tree: seq<(Label, Label)>)
      requires |validTokens| < |categoryMapping|
      ensures tree == ParseTree(validTokens, categoryMapping, |validTokens|)
    {
      tree := [];
      var rootNode := RootLabel(categoryMapping[0]);
      var parentNodes := [rootNode];
      for i := 0 to |validTokens|
        invariant |parentNodes| == i + 1
        invariant parentNodes[i] == Parent(validTokens, categoryMapping, i)
        invariant tree == ParseTree(validTokens, categoryMapping, i)
      {
        var token := validTokens[i];
        var category := categoryMapping[i + 1];
        var newNode := NodeLabel(token, category);
        tree := tree + [(newNode, parentNodes[|parentNodes| - 1])];
        parentNodes := parentNodes + [newNode];
      }
    }
  }
}
