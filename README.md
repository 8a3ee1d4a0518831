# Formal-languages labs in Dafny

A Dafny model of the algorithmic parts of a set of formal-languages lab exercises:

- **Context-free grammar normalisation** (Lab5, C#). A `Grammar` holds one production table
  `P : char → list of string` plus `V_N` and `V_T`. Five stages rewrite `P` in place, in order:
  - epsilon removal;
  - a single pass of unit-production expansion;
  - removal of symbols that cannot be reached from `'S'`;
  - removal of unproductive symbols;
  - left-pair binarisation with a pair → fresh-variable cache, where fresh names are minted downward from `'Z'`.

  Modules: `CnfTables`, `EpsilonRemoval`, `UnitElimination`, `UselessSymbols`, `Binarization`, `CnfGrammar` and `BuiltInGrammar`.
- **Expression lexer and parser** (Lab6, C#). `Lexer.Tokenize` classifies each character into a
  token category and checks every category change against a transition table. It also
  matches `(`/`)` and `[`/`]` with a stack. `Parser.Parse` hangs the tokens in a chain under
  the root category. Module: `ExpressionLexer`.
- **NFA word test** (Lab1, C#): `StringBelongsToLanguage` runs the set of current states
  forward over the word. Module: `RegularAutomaton`.
- **Right-linear grammar → NFA** (Lab1, C#): `Grammar.ToFiniteAutomaton`. Module: `RegularGrammar`.
- **Automaton utilities** (Lab2, Python): FA → regular grammar, the determinism test, and the
  worklist subset construction, which names a subset by its sorted, concatenated members.
  Modules: `SubsetConstruction` and `StringOrder` (the sorting and joining used for names).
- **Arithmetic tokenizer** (Lab3, Python): the `Analyser` cursor and its symbol reader.
  Module: `ArithmeticLexer`.

## How the source is rendered

- A .NET `Dictionary` is a `Table`: its enumeration order (`keys`) plus a `map`. A newly
  assigned key is enumerated after all existing ones.
- The shallow dictionary copies at Lab5/Lab5/Program.cs:59 and :139 share their lists with
  `P`. Each stage is therefore one table updated in sequence.
- Every stage of Lab5 is a method of the `Grammar` class that reassigns the field `P`. Each
  method is proved equal to a specification function, and the properties are proved about
  that function:
  - `RemoveEpsilonSpec`, `EliminateUnitSpec`, `Restrict` and `TransformSpec`;
  - the least closed sets of `AccessibleSymbols` and `ProductiveSymbols`.

  Each loop of the source is a method with its own loop invariant.
- Exceptions are result values:
  - a missing key in `EliminateUnitProd` is `KeyNotFound`, with the partly updated table;
  - a missing `Delta` entry in `ToFiniteAutomaton` is `None`;
  - a failed tokenization is `None`.
- In Lab2, `is_deterministic` always returns True. A transition function holds one target
  per (state, letter) and the letters of a set are distinct, so its `return False` cannot be
  reached. In the example data the second `('q0', 'a')` entry overwrites the first.
- In Lab2, `convert_ndfa_to_dfa` always starts from `'q0'`, whatever the start state is.
  `'q0'` is accepting only when some visited transition leads to it with a subset that meets
  the accepting states.
- Two different subsets can get the same name, for example `{q1, q2q3}` and `{q1q2, q3}`, which are both named `q1q2q3`.
  The source then keeps the transitions of the first one it met. The model records, for each
  name, the subset that was first given it.
- In Lab3, an unknown character produces `UNKNOWN` whose value is the character *after* it
  (which may be a space), or `None` at the end of the input.
- In Lab1, `Q` always contains `"X"`. A production of a key `'X'` therefore finds its
  `Delta` entry even when `'X'` is not in `V_N`.

## Model

| member | source | states |
|---|---|---|
| CnfTables.Put | Lab5/Lab5/Program.cs:161-162 | Assigning an entry replaces that key's list and keeps the order of existing keys; a new key is enumerated last |
| CnfTables.KeysIn | Lab5/Lab5/Program.cs:104 | The keys of the set, in enumeration order: exactly those of `ks` that are in the set |
| CnfTables.Restrict | Lab5/Lab5/Program.cs:104 | `Where(...).ToDictionary` keeps exactly the entries whose key is in the set, in their old order and with unchanged lists |
| CnfTables.RemoveFirst | Lab5/Lab5/Program.cs:49 | `List.Remove`: drops the first copy of the element; stated by `RemoveFirstCount` and `RemoveFirstSkip` |
| CnfTables.RemoveFirstCount | Lab5/Lab5/Program.cs:49 | `List.Remove` drops exactly one copy of a present element and leaves a list without it unchanged |
| CnfTables.RemoveFirstSkip | Lab5/Lab5/Program.cs:49 | The copy removed is the first one: elements before it stay in place |
| CnfTables.DeleteAll | Lab5/Lab5/Program.cs:41 | `Replace(c, "")`: every `c` deleted; stated by `DeleteAllShape` |
| CnfTables.DeleteAllShape | Lab5/Lab5/Program.cs:41 | `Replace(c, "")` keeps exactly the characters other than `c`, and shortens the string by the number of occurrences of `c` |
| CnfTables.UpperCaseMembers | Lab5/Lab5/Program.cs:93 | `char.IsUpper` (over ASCII) holds exactly for the 26 letters A-Z |
| EpsilonRemoval.NullableKeys | Lab5/Lab5/Program.cs:23-30 | The first loop: the keys, in table order, whose list contains `"eps"`; stated by `NullableKeysMembers` and `NullableKeysDistinct` |
| EpsilonRemoval.NullableKeysMembers | Lab5/Lab5/Program.cs:23-30 | A key is collected as nullable iff its list contains `"eps"` |
| EpsilonRemoval.NullableKeysDistinct | Lab5/Lab5/Program.cs:23-30 | Each nullable key is collected once |
| EpsilonRemoval.Shortened | Lab5/Lab5/Program.cs:36-47 | What one list gains in the round for `c`: each production that contains `c`, with every `c` deleted, unless that is empty, in order; stated by `ShortenedShape` and `ShortenedMembers` |
| EpsilonRemoval.ShortenedShape | Lab5/Lab5/Program.cs:36-47 | Every production appended for a nullable `c` is non-empty and free of `c`, and no more are appended than the list held |
| EpsilonRemoval.ShortenedMembers | Lab5/Lab5/Program.cs:39-45 | The appended productions are exactly the non-empty results of deleting every `c` from a production that contains `c` |
| EpsilonRemoval.Expand | Lab5/Lab5/Program.cs:36-47 | The index loop on one list: the list followed by its shortened copies; `ExpandCopy` says why the loop ends |
| EpsilonRemoval.ExpandCopy | Lab5/Lab5/Program.cs:36-45 | A production appended in the round holds no `c`, so visiting it appends nothing; this is why the loop that re-reads `Count` ends |
| EpsilonRemoval.GrowKeys | Lab5/Lab5/Program.cs:34-48 | The loop over the snapshot `P.ToList()` for the first `n` keys; its effect is stated by `EpsilonRoundEffect` |
| EpsilonRemoval.EpsilonRound | Lab5/Lab5/Program.cs:32-50 | One round for a nullable `c`: every list grows, then `c` loses its first `"eps"`; stated by `EpsilonRoundEffect` |
| EpsilonRemoval.EpsilonRounds | Lab5/Lab5/Program.cs:32-50 | The rounds for the first `n` nullable keys, in order; stated by `EpsilonRoundsShape` |
| EpsilonRemoval.EpsilonRoundEffect | Lab5/Lab5/Program.cs:32-50 | One round for `c`: every key's list gains its shortened copies, and `c`'s own list also loses its first `"eps"` |
| EpsilonRemoval.EpsilonRoundsShape | Lab5/Lab5/Program.cs:32-50 | After all rounds each list starts with its original list, minus the first `"eps"` for nullable keys, followed by non-empty productions only |
| EpsilonRemoval.RemoveEpsilonSpec | Lab5/Lab5/Program.cs:21-55 | Epsilon removal keeps the table well formed and its keys and their order unchanged; the shape of each list is `RemoveEpsilonShape` |
| EpsilonRemoval.RemoveEpsilonShape | Lab5/Lab5/Program.cs:21-50 | Every entry keeps its original productions in order, without its first `"eps"` when it has one, and after them gains only non-empty productions |
| UnitElimination.ReplaceUnit | Lab5/Lab5/Program.cs:66-67 | Replacing one unit keeps the key set, and fails with `KeyNotFound` iff the unit's symbol has no entry |
| UnitElimination.ExpandUnits | Lab5/Lab5/Program.cs:62-69 | The loop over the snapshot of one key's list, stopping at the first `KeyNotFound`; it keeps the key set. Its result is stated by `ExpandUnitsExact` and `ExpandUnitsThrows` |
| UnitElimination.UnitPass | Lab5/Lab5/Program.cs:60-70 | The loop over the keys, each key's snapshot taken when it is reached, stopping at the first `KeyNotFound`; it keeps the key set. Its result is stated by `UnitPassThrows` and `UnitPassKeepsNonUnits` |
| UnitElimination.ExpandUnitsOther | Lab5/Lab5/Program.cs:62-69 | Expanding one key's units changes no other key's list |
| UnitElimination.NonUnits | Lab5/Lab5/Program.cs:62-69 | The non-unit productions of a snapshot, in order, which the loop leaves in place; stated by `NonUnitsShape` |
| UnitElimination.Pulled | Lab5/Lab5/Program.cs:66-67 | The lists appended for the units of a snapshot, in order; used by `ExpandUnitsExact` |
| UnitElimination.ExpandUnitsExact | Lab5/Lab5/Program.cs:62-69 | Without self-units, a key's list becomes its non-unit productions in order, then the list of each unit's symbol as it stood at that moment |
| UnitElimination.UnitPassOutcome | Lab5/Lab5/Program.cs:60-67 | When the pass throws, the symbol reported is a `V_N` symbol without an entry; when every `V_N` symbol has an entry the pass finishes. The exact condition is `UnitPassThrows` |
| UnitElimination.ExpandUnitsThrows | Lab5/Lab5/Program.cs:62-67 | One key's loop throws iff some production of its snapshot is a unit whose variable has no entry, and it reports that variable |
| UnitElimination.KeyThrows | Lab5/Lab5/Program.cs:60-67 | A key reached without a throw throws iff its original list holds a unit whose variable has no entry, and it reports that variable |
| UnitElimination.UnitPassThrows | Lab5/Lab5/Program.cs:60-67 | With distinct keys, the pass over the first `n` keys throws iff one of their original lists holds a unit whose variable has no entry, and it reports that variable |
| UnitElimination.EliminateUnitThrows | Lab5/Lab5/Program.cs:57-70 | `EliminateUnitProd` throws `KeyNotFound` iff some entry of the table holds a unit production whose variable has no entry, and it reports that variable |
| UnitElimination.SelfUnitDoubles | Lab5/Lab5/Program.cs:66-67 | A self-unit `X -> X` is removed once and the rest of `X`'s list is appended to itself: the list doubles, and no other entry changes |
| UnitElimination.UnitPassKeepsNonUnits | Lab5/Lab5/Program.cs:59-69 | Every processed key keeps its non-unit productions in order at the front; keys not yet processed are unchanged |
| UnitElimination.EliminateUnitSpec | Lab5/Lab5/Program.cs:57-76 | Unit elimination never adds or removes a key |
| UselessSymbols.Mentioned | Lab5/Lab5/Program.cs:89-98 | The symbols collected from a list include those of each production, and are all upper case |
| UselessSymbols.MentionedFrom | Lab5/Lab5/Program.cs:89-98 | Every collected symbol occurs in some production of the list |
| UselessSymbols.AddMentioned | Lab5/Lab5/Program.cs:89-99 | Scanning one key's list adds exactly its upper-case symbols, and reports growth iff something was new |
| UselessSymbols.AccessPass | Lab5/Lab5/Program.cs:84-101 | One do-while pass only adds upper-case symbols, stays inside every closed superset, and when nothing was added the set is closed |
| UselessSymbols.AccessibleSymbols | Lab5/Lab5/Program.cs:80-102 | The fixpoint is the least set that contains `'S'` and is closed under the upper-case symbols of its members' productions |
| UselessSymbols.ProductivePass | Lab5/Lab5/Program.cs:119-126 | One pass adds only keys, stays inside every productive-closed superset, and is closed when nothing was added |
| UselessSymbols.ProductiveSymbols | Lab5/Lab5/Program.cs:114-127 | The fixpoint is the least set that contains `V_T` and every key with a production whose upper-case symbols are all in the set |
| Binarization.MintCode | Lab5/Lab5/Program.cs:141 | The `n`-th name is `'Z' - n` with 16-bit wrap-around of `char` below 0 |
| Binarization.Minted | Lab5/Lab5/Program.cs:161 | The name handed out at the `n`-th decrement; stated by `MintCode`, `MintedInjective` and `MintedDownward` |
| Binarization.NameIndex | Lab5/Lab5/Program.cs:161 | The inverse of the naming: the one decrement count, if any, at which a character is handed out |
| Binarization.MintedInjective | Lab5/Lab5/Program.cs:161 | Each name is minted at most once |
| Binarization.MintedDownward | Lab5/Lab5/Program.cs:141 | Names start at `'Z'` and go strictly downward, on each side of the wrap-around |
| Binarization.Mint | Lab5/Lab5/Program.cs:161-162 | A new pair gets the next name, cached, with the entry `cnf[v] = [pair]` |
| Binarization.CacheInjective | Lab5/Lab5/Program.cs:159-163 | Different pairs are cached under different variables |
| Binarization.CacheNames | Lab5/Lab5/Program.cs:159-163 | The cached variables are exactly the names minted so far |
| Binarization.Pairing | Lab5/Lab5/Program.cs:155-165 | The while loop from the current right-hand side, failing when names run out; stated by `PairingShape`, `PairingNext`, `PairingCache`, `PairingOnlyMints` and, for its meaning, `PairingUnfolds` |
| Binarization.PairingShape | Lab5/Lab5/Program.cs:155-165 | A right-hand side of length at most 2 is kept; a longer one of length `n` becomes two symbols ending with its last one, minting at most `n - 2` names; it fails only when the names run out |
| Binarization.PairingNext | Lab5/Lab5/Program.cs:157-164 | One iteration replaces the first two symbols by the pair's variable, reusing a cached one |
| Binarization.PairingCache | Lab5/Lab5/Program.cs:159-163 | Pairing keeps the cache injective and never forgets a cached pair |
| Binarization.PairingHead | Lab5/Lab5/Program.cs:164 | A long right-hand side ends as two symbols whose first is a cached variable |
| Binarization.ConvertRhs | Lab5/Lab5/Program.cs:148-166 | One production: a lone terminal kept, anything else paired; stated by `ConvertRhsShape` and `ConvertRhsUnfolds` |
| Binarization.ConvertRhsShape | Lab5/Lab5/Program.cs:148-166 | A lone terminal is copied verbatim; every other right-hand side ends with length at most 2 |
| Binarization.ConvertList | Lab5/Lab5/Program.cs:146-168 | The first `n` productions of a list converted in order; stated by `ConvertListShape`, `ConvertListOnlyMints` and `ConvertListUnfolds` |
| Binarization.ConvertListShape | Lab5/Lab5/Program.cs:146-168 | A converted list has one short right-hand side per original production, each converted from it |
| Binarization.ConvertKeys | Lab5/Lab5/Program.cs:143-170 | The first `n` keys converted in table order, each list assigned after its own conversion; stated by `ConvertKeysKeepsKeys`, `KeysOnlyMints` and `TransformShape` |
| Binarization.TransformSpec | Lab5/Lab5/Program.cs:137-176 | The whole conversion from a copy of `P`; stated by `TransformShape`, `TransformUnfolds` and `TransformLateMint` |
| Binarization.ConvertKeysKeepsKeys | Lab5/Lab5/Program.cs:143-170 | The original keys keep their order in the result |
| Binarization.TransformShape | Lab5/Lab5/Program.cs:137-176 | The result's keys are the original keys plus the minted ones. Every list is short. Original keys whose name was never minted hold their converted list, and each minted variable that is not an original key holds `[pair]`. Original keys whose name was minted are `TransformLateMint`; that nothing is lost is `TransformUnfolds` |
| Binarization.MintOnlyMints | Lab5/Lab5/Program.cs:161-162 | A mint overwrites only the entry of the new name, with its pair, and appends the pair to the dictionary |
| Binarization.PairingOnlyMints | Lab5/Lab5/Program.cs:155-165 | The while loop changes an entry only by minting its name, which then holds its pair |
| Binarization.ConvertListOnlyMints | Lab5/Lab5/Program.cs:146-168 | Converting a list changes an entry only by minting its name |
| Binarization.KeysOnlyMints | Lab5/Lab5/Program.cs:143-170 | Converting keys other than `x` changes the entry `x` only by minting its name |
| Binarization.OwnKeyConverted | Lab5/Lab5/Program.cs:169 | Right after its own iteration, a key holds its converted list |
| Binarization.ConvertKeysPrefix | Lab5/Lab5/Program.cs:143-170 | A conversion that succeeds succeeded on every prefix of the keys |
| Binarization.TransformLateMint | Lab5/Lab5/Program.cs:143-170 | An original key whose name is also minted: minted before or during its own iteration, it ends with its converted list; minted while a later key is converted, it ends with that name's pair |
| Binarization.PairingAdvance | Lab5/Lab5/Program.cs:155-164 | One iteration on a consistent dictionary: the first two symbols become the `i`-th name, whose pair in `newVariables` they are, and the dictionary only grows |
| Binarization.PairingUnfolds | Lab5/Lab5/Program.cs:155-165 | The while loop loses nothing: replacing the first symbol of its result by its pair in `newVariables`, once per iteration, gives back the original right-hand side |
| Binarization.ConvertRhsCache | Lab5/Lab5/Program.cs:148-166 | Converting one right-hand side keeps `newVariables` consistent and only adds to it |
| Binarization.ConvertRhsUnfolds | Lab5/Lab5/Program.cs:148-166 | A converted right-hand side read back through `newVariables` is the original one |
| Binarization.ConvertListCache | Lab5/Lab5/Program.cs:146-168 | Converting a list keeps `newVariables` consistent and only adds to it |
| Binarization.ConvertListUnfolds | Lab5/Lab5/Program.cs:146-168 | `newProductions` read back through `newVariables`, position by position, is the list it was converted from |
| Binarization.OwnKeyUnfolds | Lab5/Lab5/Program.cs:143-170 | Right after its own iteration, a key holds a list that reads back to its original list |
| Binarization.TransformKeyUnfolds | Lab5/Lab5/Program.cs:137-176 | A key whose name was not minted after its own iteration ends with a list that reads back, through the final `newVariables`, to its original list |
| Binarization.KeyUnfolds | Lab5/Lab5/Program.cs:137-176 | A key of `P` whose name was never minted reads back to its original list |
| Binarization.TransformUnfolds | Lab5/Lab5/Program.cs:137-176 | `TransformToCNF` loses no production: every key of `P` whose name was never minted reads back to its original list, and every minted name that is not a key of `P` holds its pair |
| CnfGrammar.Grammar.constructor | Lab5/Lab5/Program.cs:7-19 | The built-in table with `V_N = S A B D C` and `V_T = a b` |
| CnfGrammar.Grammar.RemoveEpsilon | Lab5/Lab5/Program.cs:21-55 | `P` becomes `RemoveEpsilonSpec(P)`; `V_N` and `V_T` unchanged |
| CnfGrammar.Grammar.EliminateUnitProd | Lab5/Lab5/Program.cs:57-76 | `P` becomes the unit pass's table, and the result says whether it threw `KeyNotFound` |
| CnfGrammar.Grammar.EliminateInaccessible | Lab5/Lab5/Program.cs:78-110 | `P` keeps exactly the entries in the least closed set containing `'S'` |
| CnfGrammar.Grammar.RemoveUnprod | Lab5/Lab5/Program.cs:112-135 | `P` keeps exactly the entries in the least productive-closed set containing `V_T` |
| CnfGrammar.Grammar.TransformToCNF | Lab5/Lab5/Program.cs:137-176 | `P` becomes the binarised table, or stays unchanged when names run out |
| CnfGrammar.EpsilonPass | Lab5/Lab5/Program.cs:23-50 | The two loops of epsilon removal compute `RemoveEpsilonSpec` |
| CnfGrammar.NullableOf | Lab5/Lab5/Program.cs:23-30 | The collected list holds exactly the keys whose list contains `"eps"` |
| CnfGrammar.GrowAll | Lab5/Lab5/Program.cs:34-48 | The loop over a snapshot of the entries expands every key's list in turn |
| CnfGrammar.ExpandList | Lab5/Lab5/Program.cs:36-47 | The index loop that re-reads `Count` computes the list plus its shortened copies |
| CnfGrammar.UnitLoop | Lab5/Lab5/Program.cs:60-70 | The loop over the keys computes the unit pass, stopping at the first `KeyNotFound` |
| CnfGrammar.UnitKeyStep | Lab5/Lab5/Program.cs:61-70 | One key's iteration advances the pass by one key |
| CnfGrammar.ExpandLoop | Lab5/Lab5/Program.cs:62-69 | The loop over a snapshot of one list expands its units |
| CnfGrammar.CnfLoop | Lab5/Lab5/Program.cs:143-170 | The loop over the keys computes `TransformSpec` |
| CnfGrammar.CnfKeyStep | Lab5/Lab5/Program.cs:145-169 | One key's iteration converts its list and assigns it |
| CnfGrammar.ConvertListLoop | Lab5/Lab5/Program.cs:146-168 | The loop over one list converts each production in order |
| CnfGrammar.PairLoop | Lab5/Lab5/Program.cs:155-165 | The while loop computes the left-pair binarisation of one production |
| BuiltInGrammar.BuiltInOneRound | Lab5/Lab5/Program.cs:23-30 | On the built-in grammar only `B` is nullable, so there is one round |
| BuiltInGrammar.BuiltInRemoveEpsilon | Lab5/Lab5UnitTests/GrammarTests.cs:13-26 | On the built-in grammar epsilon removal yields S→aB,bA,A,a; A→b,B,AS,bBAB,bA; B→b,bS,aD; D→AA; C→Ba,a |
| ExpressionLexer.PatternFacts | Lab6/Lab6/Lab6/Program.cs:24-30 | Each category's patterns match exactly its characters: `( [`, `) ]`, `+ - * / % ^`, the digits |
| ExpressionLexer.Name | Lab6/Lab6/Lab6/Program.cs:4-11 | The text `ToString()` gives each category; used by `Text`, and `TextDistinct` relies on it having no space |
| ExpressionLexer.IsDigit | Lab6/Lab6/Lab6/Program.cs:29 | The characters the pattern `\d+` accepts in a one-character string, ASCII only; stated by `PatternFacts` |
| ExpressionLexer.Data | Lab6/Lab6/Lab6/Program.cs:24-30 | The `data` table, in its enumeration order, each pattern as the set of characters it accepts; stated by `PatternFacts` |
| ExpressionLexer.Matches | Lab6/Lab6/Lab6/Program.cs:54-58 | `Regex.IsMatch` of some pattern of a category; `ClassifyMatches` ties it to `Classify` |
| ExpressionLexer.FirstCategory | Lab6/Lab6/Lab6/Program.cs:52-65 | The search over the pattern table in order; `ClassifyCases` gives its result on each character |
| ExpressionLexer.Classify | Lab6/Lab6/Lab6/Program.cs:52-65 | The first category of the pattern table that accepts the character; stated by `ClassifyCases` and `ClassifyMatches` |
| ExpressionLexer.Transitions | Lab6/Lab6/Lab6/Program.cs:32-39 | The `transitions` table: the categories that may follow each category |
| ExpressionLexer.Allowed | Lab6/Lab6/Lab6/Program.cs:74 | `transitions[last].Contains(category)`; used by `Step` and `Chained` |
| ExpressionLexer.ClassifyCases | Lab6/Lab6/Lab6/Program.cs:52-65 | The category found for each character, trying OPEN, CLOSE, MATH, NUMBERS in order; none for any other character |
| ExpressionLexer.ClassifyMatches | Lab6/Lab6/Lab6/Program.cs:52-65 | The first matching category is the only one that matches, and START is never found |
| ExpressionLexer.FindCategory | Lab6/Lab6/Lab6/Program.cs:52-65 | The search over the category table returns the classification of the character |
| ExpressionLexer.Opener | Lab6/Lab6/Lab6/Program.cs:98 | The opening bracket a closing one must meet |
| ExpressionLexer.Step | Lab6/Lab6/Lab6/Program.cs:50-104 | One character of the loop; stated by `RunStep` |
| ExpressionLexer.ScanSymbol | Lab6/Lab6/Lab6/Program.cs:47-104 | The body of the loop for one character returns exactly `Step` of the three lists: classify, check the transition, append, then push, or pop and match, and `None` for each `(null, null)` return |
| ExpressionLexer.Run | Lab6/Lab6/Lab6/Program.cs:46-105 | The loop over the first `n` characters; stated by `RunReference` |
| ExpressionLexer.TokenizeSpec | Lab6/Lab6/Lab6/Program.cs:22-115 | `Tokenize`: the two lists, or none; stated by `TokenizeReference`, `TokenizeShape` and `TokenizeBalanced` |
| ExpressionLexer.RunReference | Lab6/Lab6/Lab6/Program.cs:46-105 | The scan of a prefix succeeds iff each character is classified, each category change is allowed, and the brackets so far match; it then holds START plus the categories, the one-character tokens, and the open-bracket stack |
| ExpressionLexer.RunStep | Lab6/Lab6/Lab6/Program.cs:50-104 | One character extends a good scan iff it is classified, its category is allowed after the previous one, and a closing bracket meets its opener |
| ExpressionLexer.TokenizeReference | Lab6/Lab6/Lab6/Program.cs:22-115 | Tokenizing succeeds iff every character is classified, every transition is allowed, and the brackets match and are all closed |
| ExpressionLexer.TokenizeUnknown | Lab6/Lab6/Lab6/Program.cs:67-72 | A character of no category makes tokenizing fail |
| ExpressionLexer.ConcatSingletons | Lab6/Lab6/Lab6/Program.cs:81-83 | The one-character tokens concatenate back to the text |
| ExpressionLexer.TokenizeShape | Lab6/Lab6/Lab6/Program.cs:42-83 | On success, the categories are START followed by one per character, there is one single-character token per character, and the tokens concatenate to the equation |
| ExpressionLexer.BracketCounts | Lab6/Lab6/Lab6/Program.cs:85-104 | While brackets match, the stack height is the number of openers minus the number of closers |
| ExpressionLexer.TokenizeBalanced | Lab6/Lab6/Lab6/Program.cs:85-114 | On success, the equation has as many closers as openers, and no prefix has more closers than openers |
| ExpressionLexer.Lexer.constructor | Lab6/Lab6/Lab6/Program.cs:17-20 | The stored equation is the input with every space removed |
| ExpressionLexer.Lexer.Tokenize | Lab6/Lab6/Lab6/Program.cs:22-115 | The loop with its stack computes `TokenizeSpec` |
| ExpressionLexer.TextDistinct | Lab6/Lab6/Lab6/Program.cs:133-141 | The root's label text never equals a token node's label text |
| ExpressionLexer.Text | Lab6/Lab6/Lab6/Program.cs:133-141 | The string of a node: the root category, or `token (category)`; stated by `TextDistinct` |
| ExpressionLexer.Parent | Lab6/Lab6/Lab6/Program.cs:137-145 | The top of `parentNodes` after `i` tokens |
| ExpressionLexer.ParseTree | Lab6/Lab6/Lab6/Program.cs:133-145 | The `(node, parent)` pairs of the first `n` tokens; stated by `ParseTreeShape` and `ParseChain` |
| ExpressionLexer.ParseTreeShape | Lab6/Lab6/Lab6/Program.cs:133-145 | Token `i` becomes a node with category `i + 1`, under the root category when `i` is 0 and under token `i - 1`'s node otherwise |
| ExpressionLexer.ParseChain | Lab6/Lab6/Lab6/Program.cs:137-145 | Nodes are only pushed, so every node but the first hangs under the one before it, never under the root |
| ExpressionLexer.Parser.constructor | Lab6/Lab6/Lab6/Program.cs:123-127 | The parser stores the categories and tokens it is given |
| ExpressionLexer.Parser.Parse | Lab6/Lab6/Lab6/Program.cs:129-145 | The loop builds the `(node, parent)` pairs of `ParseTree` |
| RegularAutomaton.Step | Lab1/RegularGrammars/FiniteAutomaton.cs:23-30 | The next set of current states; stated by `StepAdd` and `StepEmpty` |
| RegularAutomaton.Reach | Lab1/RegularGrammars/FiniteAutomaton.cs:21-32 | The current states after a word; stated by `ReachAppend`, `ReachFromEmpty` and `DeadPrefix` |
| RegularAutomaton.Accepts | Lab1/RegularGrammars/FiniteAutomaton.cs:33 | Some state reached over the word is final; stated by `AcceptsEmpty`, `DeadPrefix` and `StringBelongsToLanguage` |
| RegularAutomaton.StepAdd | Lab1/RegularGrammars/FiniteAutomaton.cs:24-29 | One more current state adds exactly its successors on the letter, and nothing when it has no entry |
| RegularAutomaton.StepEmpty | Lab1/RegularGrammars/FiniteAutomaton.cs:23-30 | No current state means no next state |
| RegularAutomaton.ReachAppend | Lab1/RegularGrammars/FiniteAutomaton.cs:21-32 | Running over `u + v` is running over `v` from the set reached after `u` |
| RegularAutomaton.ReachFromEmpty | Lab1/RegularGrammars/FiniteAutomaton.cs:21-32 | Once the current set is empty it stays empty |
| RegularAutomaton.DeadPrefix | Lab1/RegularGrammars/FiniteAutomaton.cs:20-33 | A prefix that empties the current set rejects every word that extends it |
| RegularAutomaton.AcceptsEmpty | Lab1/RegularGrammars/FiniteAutomaton.cs:20-33 | The empty word is accepted iff an initial state is final |
| RegularAutomaton.FiniteAutomaton.constructor | Lab1/RegularGrammars/FiniteAutomaton.cs:9-16 | The five components are stored as given |
| RegularAutomaton.FiniteAutomaton.StringBelongsToLanguage | Lab1/RegularGrammars/FiniteAutomaton.cs:18-34 | The result is true iff the set reached over the word holds a final state; no field changes |
| RegularAutomaton.FiniteAutomaton.NextStates | Lab1/RegularGrammars/FiniteAutomaton.cs:23-30 | The next set is the union of the letter's entries over the current states |
| RegularGrammar.States | Lab1/RegularGrammars/Grammar.cs:78 | `Q`; stated by `StatesMember` |
| RegularGrammar.EmptyDelta | Lab1/RegularGrammars/Grammar.cs:84-90 | The empty `Delta` entries; stated by `EmptyDeltaEntry` |
| RegularGrammar.Target | Lab1/RegularGrammars/Grammar.cs:96-104 | The state a production adds, if any; stated by `TerminalEdge` and `PairEdge` |
| RegularGrammar.AddProductions | Lab1/RegularGrammars/Grammar.cs:94-105 | The loop over one key's productions; stated by `AddProductionsEffect` |
| RegularGrammar.AddKeys | Lab1/RegularGrammars/Grammar.cs:92-106 | The loop over the keys; stated by `AddKeysEffect` |
| RegularGrammar.DeltaSpec | Lab1/RegularGrammars/Grammar.cs:84-106 | The `Delta` built, or none when it throws; stated by `DeltaFails` and `DeltaEdges` |
| RegularGrammar.StatesMember | Lab1/RegularGrammars/Grammar.cs:78 | A one-character state is in `Q` iff its character is in `V_N` or is `'X'` |
| RegularGrammar.EmptyDeltaEntry | Lab1/RegularGrammars/Grammar.cs:84-90 | `Delta` starts with an entry for exactly the pairs in `Q` × `Sigma` |
| RegularGrammar.InitDelta | Lab1/RegularGrammars/Grammar.cs:84-90 | The nested loops create an empty entry for every state and terminal |
| RegularGrammar.AddProductionsEffect | Lab1/RegularGrammars/Grammar.cs:94-105 | One key's productions fail iff one starting with a terminal lacks its entry; otherwise each entry gains exactly the targets of its productions |
| RegularGrammar.AddKeysEffect | Lab1/RegularGrammars/Grammar.cs:92-106 | The same over the keys processed so far |
| RegularGrammar.AddProductionsLoop | Lab1/RegularGrammars/Grammar.cs:94-105 | The loop over one key's productions computes `AddProductions` |
| RegularGrammar.DeltaFails | Lab1/RegularGrammars/Grammar.cs:92-106 | The construction throws iff some key outside `V_N` and other than `'X'` has a production starting with a terminal |
| RegularGrammar.DeltaEdges | Lab1/RegularGrammars/Grammar.cs:92-106 | Otherwise `Delta` has an entry for exactly `Q` × `Sigma`, and a state is in an entry iff some production contributes it; nothing else is added |
| RegularGrammar.TerminalEdge | Lab1/RegularGrammars/Grammar.cs:96-99 | A lone terminal `a` of `A` puts `"X"` in `Delta(A, a)` |
| RegularGrammar.PairEdge | Lab1/RegularGrammars/Grammar.cs:100-104 | A production `aB...` of `A` puts `B` in `Delta(A, a)`; later characters are ignored |
| RegularGrammar.Grammar.constructor | Lab1/RegularGrammars/Grammar.cs:10-16 | The four components are stored as given |
| RegularGrammar.Grammar.ToFiniteAutomaton | Lab1/RegularGrammars/Grammar.cs:76-109 | The automaton has `Q = V_N ∪ {"X"}`, `Sigma = V_T`, `q0 = {S}`, `F = {"X"}` and the `Delta` above, or the call throws exactly when `DeltaSpec` fails |
| StringOrder.Less | Lab2/FiniteAutomata/main.py:86 | Python's `<` on strings; stated by `LessIrreflexive`, `LessTrans`, `LessTotal` and `LessAsym` |
| StringOrder.LessIrreflexive | Lab2/FiniteAutomata/main.py:86 | The string order of `sorted` is irreflexive |
| StringOrder.LessTrans | Lab2/FiniteAutomata/main.py:86 | The string order is transitive |
| StringOrder.LessTotal | Lab2/FiniteAutomata/main.py:86 | Any two different strings are ordered one way or the other |
| StringOrder.LessAsym | Lab2/FiniteAutomata/main.py:86 | The string order is asymmetric |
| StringOrder.MinExists | Lab2/FiniteAutomata/main.py:86 | A non-empty set of strings has a least element |
| StringOrder.MinUnique | Lab2/FiniteAutomata/main.py:86 | The least element is unique |
| StringOrder.Min | Lab2/FiniteAutomata/main.py:86 | `Min` is the least element of the set |
| StringOrder.SortSet | Lab2/FiniteAutomata/main.py:86 | `sorted` of a set; stated by `SortSetShape` and `SortedUnique` |
| StringOrder.SortSetShape | Lab2/FiniteAutomata/main.py:86 | `sorted` of a set is strictly increasing and holds exactly the set's members |
| StringOrder.SortedUnique | Lab2/FiniteAutomata/main.py:86 | Only one strictly increasing sequence holds exactly a given set |
| StringOrder.Join | Lab2/FiniteAutomata/main.py:86 | `''.join` |
| StringOrder.Name | Lab2/FiniteAutomata/main.py:86-87 | The name of a subset; stated by `NameJoinsSorted`, `NamePair` and `NameCollision` |
| StringOrder.NameJoinsSorted | Lab2/FiniteAutomata/main.py:86 | A subset's name is the concatenation of its members in sorted order |
| StringOrder.NamePair | Lab2/FiniteAutomata/main.py:86 | A two-element set is named by its smaller element followed by the larger |
| StringOrder.NameCollision | Lab2/FiniteAutomata/main.py:86-87 | Naming is not injective: `{q1, q2q3}` and `{q1q2, q3}` are different subsets that are both named `q1q2q3` |
| StringOrder.NameSingleton | Lab2/FiniteAutomata/main.py:86 | The name of `{x}` is `x` |
| SubsetConstruction.Productions | Lab2/FiniteAutomata/main.py:14-20 | The productions of one state; stated by `ProductionsInverse` |
| SubsetConstruction.ProductionsInverse | Lab2/FiniteAutomata/main.py:14-20 | A state's productions are exactly `c + δ(s, c)` for its letters with a transition, plus `ε` iff it accepts |
| SubsetConstruction.FiniteAutomaton.constructor | Lab2/FiniteAutomata/main.py:4-9 | The five components are stored as given |
| SubsetConstruction.FiniteAutomaton.ToRegularGrammar | Lab2/FiniteAutomata/main.py:11-21 | The grammar has exactly the automaton's states as keys, each with its productions |
| SubsetConstruction.FiniteAutomaton.StateProductions | Lab2/FiniteAutomata/main.py:14-20 | The loop over the alphabet builds one state's productions |
| SubsetConstruction.IsDeterministic | Lab2/FiniteAutomata/main.py:58-69 | The determinism test always returns True |
| SubsetConstruction.Succ | Lab2/FiniteAutomata/main.py:81-84 | The successor subset of a subset on a letter; `Successors` computes it, `SuccWithin` bounds it |
| SubsetConstruction.Successors | Lab2/FiniteAutomata/main.py:81-84 | The loop collects the targets of a subset's members on the letter |
| SubsetConstruction.SuccWithin | Lab2/FiniteAutomata/main.py:81-84 | Every successor is a transition target |
| SubsetConstruction.VisitEdges | Lab2/FiniteAutomata/main.py:85-90 | Visiting a pair records a transition iff the successor set is non-empty, to its name, which becomes a state |
| SubsetConstruction.VisitAccepting | Lab2/FiniteAutomata/main.py:91-92 | A name becomes accepting iff its successor set meets the accepting states |
| SubsetConstruction.VisitReached | Lab2/FiniteAutomata/main.py:85-90 | A visit adds a state only together with the transition that leads to it |
| SubsetConstruction.Visit | Lab2/FiniteAutomata/main.py:81-92 | One letter's visit keeps the description of the DFA built so far, and enqueues only a new name |
| SubsetConstruction.ProcessSubset | Lab2/FiniteAutomata/main.py:80-92 | Processing a subset visits exactly its letters |
| SubsetConstruction.PendingPop | Lab2/FiniteAutomata/main.py:79 | Popping the last queued subset marks its name done |
| SubsetConstruction.PendingVisit | Lab2/FiniteAutomata/main.py:88-90 | A name is enqueued at most once: only when it is first added to the states |
| SubsetConstruction.PendingEmpty | Lab2/FiniteAutomata/main.py:78 | When the queue is empty, every state has been processed |
| SubsetConstruction.Bounded | Lab2/FiniteAutomata/main.py:78-90 | The states are names of subsets of the targets plus `q0`, so adding a state shrinks a finite measure and the loop ends |
| SubsetConstruction.ProcessNext | Lab2/FiniteAutomata/main.py:78-92 | One iteration of the worklist keeps the construction's invariant and decreases the measure |
| SubsetConstruction.ConvertResult | Lab2/FiniteAutomata/main.py:73-94 | Once every pair is visited, the transitions and accepting states are exactly those described below |
| SubsetConstruction.ConvertNdfaToDfa | Lab2/FiniteAutomata/main.py:71-94 | The DFA starts at `q0`. Every transition goes between states, to the name of the successor subset, and exists iff that subset is non-empty. Every state other than `q0` is the target of some transition. The accepting states are the names reached with a subset that meets the NFA's accepting states |
| ArithmeticLexer.Decimal | Lab3/Lexer/main.py:52 | `int` of a string of decimal digits; stated by `DecimalDigits` and `NumberMaximal` |
| ArithmeticLexer.IsSpace | Lab3/Lexer/main.py:44 | `str.isspace` on one ASCII character; stated by `SpaceRunSpaces` and `SpaceSkipped` |
| ArithmeticLexer.IsDigit | Lab3/Lexer/main.py:49 | `str.isdigit` on one ASCII character; stated by `DigitRunDigits` and `DecimalDigits` |
| ArithmeticLexer.ValueOf | Lab3/Lexer/main.py:88-89 | The value of an UNKNOWN symbol: `current` after the move, `None` at the end; stated by `UnknownLookahead` |
| ArithmeticLexer.DecimalDigits | Lab3/Lexer/main.py:47-52 | `int` of the decimal digits of `n` is `n` |
| ArithmeticLexer.Current | Lab3/Lexer/main.py:34-37 | The character under the pointer, or none past the end |
| ArithmeticLexer.SpaceRun | Lab3/Lexer/main.py:44-45 | The length of the whitespace run at the pointer; stated by `SpaceRunSpaces` |
| ArithmeticLexer.DigitRun | Lab3/Lexer/main.py:49-51 | The length of the digit run at the pointer; stated by `DigitRunDigits` |
| ArithmeticLexer.OperatorKind | Lab3/Lexer/main.py:63-85 | The kind of each one-character operator; stated by `OperatorSymbol` |
| ArithmeticLexer.DigitRunDigits | Lab3/Lexer/main.py:49-51 | The digit run holds only digits and stops at a non-digit or the end |
| ArithmeticLexer.SpaceRunSpaces | Lab3/Lexer/main.py:44-45 | The whitespace run holds only whitespace and stops at other text or the end |
| ArithmeticLexer.Next | Lab3/Lexer/main.py:54-91 | Reading stays within the text, every symbol other than END consumes a character, and END leaves the pointer at the end |
| ArithmeticLexer.SpaceSkipped | Lab3/Lexer/main.py:43-58 | Whitespace never produces a symbol |
| ArithmeticLexer.NextEnd | Lab3/Lexer/main.py:54-91 | END is read iff only whitespace is left |
| ArithmeticLexer.NumberMaximal | Lab3/Lexer/main.py:47-61 | A NUMBER's value is the decimal value of the maximal digit run at the pointer |
| ArithmeticLexer.OperatorSymbol | Lab3/Lexer/main.py:63-85 | Each of `+ - * / ( )` gives its kind with no value and consumes one character |
| ArithmeticLexer.UnknownLookahead | Lab3/Lexer/main.py:87-89 | Any other character is consumed alone as UNKNOWN, valued by the following character or `None` |
| ArithmeticLexer.Symbols | Lab3/Lexer/main.py:93-98 | The symbols from the pointer up to and including END; stated by `SymbolsEnd` |
| ArithmeticLexer.SymbolsEnd | Lab3/Lexer/main.py:93-98 | The symbol list ends with END, holds no other END, and has at most one symbol per character plus one |
| ArithmeticLexer.Analyser.constructor | Lab3/Lexer/main.py:29-32 | The cursor starts at 0 with `current` the first character |
| ArithmeticLexer.Analyser.UpdateCurrent | Lab3/Lexer/main.py:34-37 | `current` is the character under the pointer, `None` past the end |
| ArithmeticLexer.Analyser.MoveForward | Lab3/Lexer/main.py:39-41 | The pointer moves exactly one character and `current` follows it |
| ArithmeticLexer.Analyser.IgnoreSpace | Lab3/Lexer/main.py:43-45 | The pointer moves past the whitespace run |
| ArithmeticLexer.Analyser.CollectNumber | Lab3/Lexer/main.py:47-52 | The pointer moves past the digit run and the result is its decimal value |
| ArithmeticLexer.Analyser.NextSymbol | Lab3/Lexer/main.py:54-91 | The loop reads the symbol and moves the pointer as `Next` says |
| ArithmeticLexer.Analyser.ExtractSymbols | Lab3/Lexer/main.py:93-98 | The loop reads every symbol up to and including END, leaving the pointer at the end |

## Left out

- Console output: `PrintProductions` and the messages of Lab5/Lab5/Program.cs:52-53 and :178-185, the error messages and `failedOn` of Lab6/Lab6/Lab6/Program.cs:69-111, the tree printing at :147-151, and the module-level prints of the Python files. Failures are result values.
- Driver code: the `Main` methods of Lab5 and Lab6, Lab1/RegularGrammars/Program.cs, and the example data of Lab2 and Lab3.
- The stages' returned dictionary copies (`new Dictionary<...>(P)`): the methods return nothing. The copies share their lists with `P`, so later stages would change them; that aliasing is not modelled.
- `GenerateValidStrings` and `GenerateRandomStrings` (Lab1/RegularGrammars/Grammar.cs:18-74): they depend on `Random`, and their recursion need not end.
- `visualize` and `render` (Lab2/FiniteAutomata/main.py:23-42, 113-117): a foreign drawing library.
- `Regex.IsMatch` is replaced by explicit character predicates. `char.IsUpper`, `\d`, `isdigit` and `isspace` are taken over ASCII only. Python's `int` on non-ASCII digits is not modelled.
- Strings are sequences of Unicode scalar values, not of UTF-16 code units as C# `string` and `char` are. In Lab1, Lab5 and Lab6 a character outside the Basic Multilingual Plane counts as two for `Length`, `Substring` and `foreach`, but as one here.
- Binarization.MintCode: a Dafny `char` cannot be a surrogate code point, so the model fails (`TransformToCNF` leaves `P` unchanged) after 8283 names, when the next would be U+DFFF. The source keeps minting surrogate characters.
- ExpressionLexer.Parser.Parse: requires at least one more category than tokens, as `Tokenize` produces on success. The source would throw on a shorter category list.
- The expected values of the unit tests at Lab5/Lab5UnitTests/GrammarTests.cs:28-95 are not properties of the code. For example, after unit elimination `S` still holds `AS` and `bBAB`. Only the epsilon-removal test (:13-26) is stated, as `BuiltInRemoveEpsilon`.
- Language equivalence: that the stages preserve the grammar's language, or that the NFA accepts the grammar's language. The code does not establish either, and `TransformToCNF` does not produce true Chomsky normal form.
