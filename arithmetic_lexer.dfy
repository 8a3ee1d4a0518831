/**
 * The hand-written tokenizer of Lab3/Lexer/main.py. An `Analyser` holds the source text,
 * a `pointer` into it and the character under the pointer; `next_symbol` skips
 * whitespace and reads one symbol, and `extract_symbols` reads symbols up to the first
 * END. `isspace` and `isdigit` are taken over ASCII.
 */
module ArithmeticLexer {
  import opened Wrappers

  /** `SymbolType` (:3-12). */
  datatype SymbolType = Number | Add | Subtract | Multiply | Divide | OpenBrace | CloseBrace | End | Unknown

  /** A symbol's `value`: Python's `None`, an `int`, or a one-character string. */
  datatype Value = NoValue | IntValue(n: nat) | CharValue(c: char)

  /** `Symbol` (:14-17). */
  datatype Symbol = Symbol(kind: SymbolType, value: Value)

  /** `str.isspace` on ASCII: space, tab to carriage return, and the separators 0x1C-0x1F. */
  predicate IsSpace(c: char) {
    c == ' ' || ('\t' <= c <= '\r') || ('\U{1c}' <= c <= '\U{1f}')
  }

  /** `str.isdigit` on ASCII. */
  predicate IsDigit(c: char) {
    '0' <= c <= '9'
  }

  function DigitValue(c: char): nat
    requires IsDigit(c)
  {
    (c as int) - ('0' as int)
  }

  /** `int(number)` for a string of decimal digits. */
  function Decimal(ds: string): nat
    requires forall i :: 0 <= i < |ds| ==> IsDigit(ds[i])
  {
    if ds == [] then 0 else Decimal(ds[..|ds| - 1]) * 10 + DigitValue(ds[|ds| - 1])
  }

  function DigitChar(d: nat): (c: char)
    requires d < 10
    ensures IsDigit(c) && DigitValue(c) == d
  {
    ('0' as int + d) as char
  }

  /** `str(n)`: the decimal digits of `n`, most significant first. */
  function Digits(n: nat): (ds: string)
    ensures forall i :: 0 <= i < |ds| ==> IsDigit(ds[i])
  {
    if n < 10 then [DigitChar(n)] else Digits(n / 10) + [DigitChar(n % 10)]
  }

  /** `int(str(n)) == n`: reading the digits of `n` gives `n` back. */
  lemma {:induction false} DecimalDigits(n: nat)
    ensures Decimal(Digits(n)) == n
  {
    var ds := Digits(n);
    if n >= 10 {
      DecimalDigits(n / 10);
      assert ds[..|ds| - 1] == Digits(n / 10);
    } else {
      assert ds[..0] == [];
    }
  }

  /** `update_current` (:34-37): the character under the pointer, or `None` past the end. */
  function Current(s: string, p: nat): Option<char> {
    if p >= |s| then None else Some(s[p])
  }

  /** The number of whitespace characters from `p` on, up to the first other one. */
  function SpaceRun(s: string, p: nat): (k: nat)
    ensures p <= |s| ==> p + k <= |s|
    decreases |s| - p
  {
    if p < |s| && IsSpace(s[p]) then 1 + SpaceRun(s, p + 1) else 0
  }

  /** The number of digits from `p` on, up to the first other character. */
  function DigitRun(s: string, p: nat): (k: nat)
    ensures p <= |s| ==> p + k <= |s|
    decreases |s| - p
  {
    if p < |s| && IsDigit(s[p]) then 1 + DigitRun(s, p + 1) else 0
  }

  /** The kind of a one-character operator, in the order of :63-85. */
  function OperatorKind(c: char): Option<SymbolType> {
    if c == '+' then Some(Add)
    else if c == '-' then Some(Subtract)
    else if c == '*' then Some(Multiply)
    else if c == '/' then Some(Divide)
    else if c == '(' then Some(OpenBrace)
    else if c == ')' then Some(CloseBrace)
    else None
  }

  /**
   * `next_symbol` (:54-91) from pointer `p`: the symbol read and the pointer after it.
   * Every symbol other than END consumes at least one character.
   */
  function Next(s: string, p: nat): (r: (Symbol, nat))
    requires p <= |s|
    ensures p <= r.1 <= |s|
    ensures r.0.kind != End ==> p < r.1
    ensures r.0.kind == End ==> r.1 == |s|
    decreases |s| - p
  {
    if p == |s| then (Symbol(End, NoValue), p)
    else if IsSpace(s[p]) then Next(s, p + SpaceRun(s, p))
    else if IsDigit(s[p]) then
      var k := DigitRun(s, p);
      DigitRunDigits(s, p);
      (Symbol(Number, IntValue(Decimal(s[p..p + k]))), p + k)
    else if OperatorKind(s[p]).Some? then (Symbol(OperatorKind(s[p]).value, NoValue), p + 1)
    else (Symbol(Unknown, if p + 1 < |s| then CharValue(s[p + 1]) else NoValue), p + 1)
  }

  /** `extract_symbols` (:93-98) from pointer `p`: the symbols up to and including END. */
  function Symbols(s: string, p: nat): seq<Symbol>
    requires p <= |s|
    decreases |s| - p
  {
    var (symbol, q) := Next(s, p);
    if symbol.kind == End then [symbol] else [symbol] + Symbols(s, q)
  }

  /** The digit run holds digits only, and stops at a character that is not one. */
  lemma {:induction false} DigitRunDigits(s: string, p: nat)
    requires p <= |s|
    ensures forall i :: p <= i < p + DigitRun(s, p) ==> IsDigit(s[i])
    ensures p + DigitRun(s, p) == |s| || !IsDigit(s[p + DigitRun(s, p)])
    decreases |s| - p
  {
    if p < |s| && IsDigit(s[p]) {
      DigitRunDigits(s, p + 1);
    }
  }

  /** The whitespace run holds whitespace only, and stops at a character that is not. */
  lemma {:induction false} SpaceRunSpaces(s: string, p: nat)
    requires p <= |s|
    ensures forall i :: p <= i < p + SpaceRun(s, p) ==> IsSpace(s[i])
    ensures p + SpaceRun(s, p) == |s| || !IsSpace(s[p + SpaceRun(s, p)])
    decreases |s| - p
  {
    if p < |s| && IsSpace(s[p]) {
      SpaceRunSpaces(s, p + 1);
    }
  }

  /** Whitespace never produces a symbol: reading from a space reads from the next character. */
  lemma SpaceSkipped(s: string, p: nat)
    requires p < |s| && IsSpace(s[p])
    ensures Next(s, p) == Next(s, p + 1)
  {
    if p + 1 < |s| && IsSpace(s[p + 1]) {
      assert p + 1 + SpaceRun(s, p + 1) == p + SpaceRun(s, p);
    }
  }

  /** END is read exactly when only whitespace is left, and then the pointer is at the end. */
  lemma {:induction false} NextEnd(s: string, p: nat)
    requires p <= |s|
    ensures Next(s, p).0.kind == End <==> forall i :: p <= i < |s| ==> IsSpace(s[i])
    decreases |s| - p
  {
    if p < |s| && IsSpace(s[p]) {
      SpaceRunSpaces(s, p);
      var q := p + SpaceRun(s, p);
      NextEnd(s, q);
    }
  }

  /**
   * A NUMBER is read from the maximal run of digits at the pointer, and its value is the
   * decimal value of that run.
   */
  lemma NumberMaximal(s: string, p: nat)
    requires p < |s| && IsDigit(s[p])
    ensures 0 < DigitRun(s, p) && forall i :: p <= i < p + DigitRun(s, p) ==> IsDigit(s[i])
    ensures p + DigitRun(s, p) == |s| || !IsDigit(s[p + DigitRun(s, p)])
    ensures Next(s, p) == (Symbol(Number, IntValue(Decimal(s[p..p + DigitRun(s, p)]))), p + DigitRun(s, p))
  {
    DigitRunDigits(s, p);
  }

  /** Each of `+ - * / ( )` is read as its own kind, without a value, from one character. */
  lemma OperatorSymbol(s: string, p: nat)
    requires p < |s| && s[p] in "+-*/()"
    ensures Next(s, p).0 == Symbol(OperatorKind(s[p]).value, NoValue) && Next(s, p).1 == p + 1
    ensures Next(s, p).0.kind !in {Number, End, Unknown}
  {
  }

  /**
   * Any other character is consumed alone as UNKNOWN, whose value is the character
   * under the pointer after it moves on: the following character, or `None` at the end.
   */
  lemma UnknownLookahead(s: string, p: nat)
    requires p < |s| && !IsSpace(s[p]) && !IsDigit(s[p]) && s[p] !in "+-*/()"
    ensures Next(s, p) == (Symbol(Unknown, ValueOf(Current(s, p + 1))), p + 1)
  {
  }

  /** The symbols read end with END, and no other symbol is END. */
  lemma {:induction false} SymbolsEnd(s: string, p: nat)
    requires p <= |s|
    ensures |Symbols(s, p)| > 0 && Symbols(s, p)[|Symbols(s, p)| - 1].kind == End
    ensures forall i :: 0 <= i < |Symbols(s, p)| - 1 ==> Symbols(s, p)[i].kind != End
    ensures |Symbols(s, p)| <= |s| - p + 1
    decreases |s| - p
  {
    var (symbol, q) := Next(s, p);
    if symbol.kind != End {
      SymbolsEnd(s, q);
      var rest := Symbols(s, q);
      assert Symbols(s, p) == [symbol] + rest;
      forall i | 0 <= i < |Symbols(s, p)| - 1 ensures Symbols(s, p)[i].kind != End {
        if i > 0 {
          assert Symbols(s, p)[i] == rest[i - 1];
        }
      }
    }
  }

  /** A symbol value of Python's `None`, or of a one-character string. */
  function ValueOf(current: Option<char>): Value {
    match current
    case None => NoValue
    case Some(c) => CharValue(c)
  }

  /** `Analyser` (:28-98). */
  class Analyser {
    const source: string
    var pointer: nat
    var current: Option<char>

    /** The pointer stays within the source, and `current` is the character under it. */
    ghost predicate Valid()
      reads this
    {
      pointer <= |source| && current == Current(source, pointer)
    }

    /** `__init__` (:29-32). */
    constructor(source_code: string)
      ensures source == source_code && pointer == 0 && Valid()
    {
      source := source_code;
      pointer := 0;
      new;
      current := UpdateCurrent();
    }

    /** `update_current` (:34-37). */
    method UpdateCurrent() returns (c: Option<char>)
      ensures c == Current(source, pointer)
    {
      if pointer >= |source| {
        return None;
      }
      return Some(source[pointer]);
    }

    /** `move_forward` (:39-41): one character on. */
    method MoveForward()
      modifies this
      ensures pointer == old(pointer) + 1 && current == Current(source, pointer)
    {
      pointer := pointer + 1;
      current := UpdateCurrent();
    }

    /** `ignore_space` (:43-45): past the whitespace under the pointer. */
    method IgnoreSpace()
      requires Valid()
      modifies this
      ensures Valid() && pointer == old(pointer) + SpaceRun(source, old(pointer))
    {
      while current.Some? && IsSpace(current.value)
        invariant Valid() && old(pointer) <= pointer
        invariant pointer + SpaceRun(source, pointer) == old(pointer) + SpaceRun(source, old(pointer))
        decreases |source| - pointer
      {
        MoveForward();
      }
    }

    /** `collect_number` (:47-52): the digits under the pointer, read as a decimal number. */
    method CollectNumber() returns (n: nat)
      requires Valid() && current.Some? && IsDigit(current.value)
      modifies this
      ensures Valid() && pointer == old(pointer) + DigitRun(source, old(pointer))
      ensures forall i :: old(pointer) <= i < pointer ==> IsDigit(source[i])
      ensures n == Decimal(source[old(pointer)..pointer])
    {
      var number := "";
      while current.Some? && IsDigit(current.value)
        invariant Valid() && old(pointer) <= pointer
        invariant number == source[old(pointer)..pointer]
        invariant forall i :: old(pointer) <= i < pointer ==> IsDigit(source[i])
        invariant pointer + DigitRun(source, pointer) == old(pointer) + DigitRun(source, old(pointer))
        decreases |source| - pointer
      {
        number := number + [current.value];
        MoveForward();
      }
      n := Decimal(number);
    }

    /** `next_symbol` (:54-91): the next symbol, END once only whitespace is left. */
    method NextSymbol() returns (symbol: Symbol)
      requires Valid()
      modifies this
      ensures Valid() && (symbol, pointer) == Next(source, old(pointer))
    {
      while current.Some?
        invariant Valid() && old(pointer) <= pointer
        invariant Next(source, pointer) == Next(source, old(pointer))
        decreases |source| - pointer
      {
        if IsSpace(current.value) {
          IgnoreSpace();
          continue;
        }
        if IsDigit(current.value) {
          var n := CollectNumber();
          return Symbol(Number, IntValue(n));
        }
        if current.value == '+' {
          MoveForward();
          return Symbol(Add, NoValue);
        }
        if current.value == '-' {
          MoveForward();
          return Symbol(Subtract, NoValue);
        }
        if current.value == '*' {
          MoveForward();
          return Symbol(Multiply, NoValue);
        }
        if current.value == '/' {
          MoveForward();
          return Symbol(Divide, NoValue);
        }
        if current.value == '(' {
          MoveForward();
          return Symbol(OpenBrace, NoValue);
        }
        if current.value == ')' {
          MoveForward();
          return Symbol(CloseBrace, NoValue);
        }
        MoveForward();
        return Symbol(Unknown, ValueOf(current));
      }
      return Symbol(End, NoValue);
    }

    /** `extract_symbols` (:93-98): every symbol up to and including the first END. */
    method ExtractSymbols() returns (symbols: seq<Symbol>)
      requires Valid()
      modifies this
      ensures Valid() && pointer == |source| && symbols == Symbols(source, old(pointer))
    {
      symbols := [];
      var symbol := NextSymbol();
      while symbol.kind != End
        invariant Valid() && old(pointer) <= pointer
        invariant symbols + [symbol] + (if symbol.kind == End then [] else Symbols(source, pointer)) == Symbols(source, old(pointer))
        invariant symbol.kind == End ==> pointer == |source|
        decreases |source| - pointer + (if symbol.kind == End then 0 else 1)
      {
        symbols := symbols + [symbol];
        symbol := NextSymbol();
      }
      symbols := symbols + [symbol];
    }
  }
}
