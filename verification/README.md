# CKY recognition, CNF conversion and probabilistic CKY, in Dafny

This project models the core of a small Python toolkit for context-free grammars:

- the grammar-file and word readers (`llegir_gramatica`, `llegir_paraula`);
- the boolean CKY recogniser (`CKY`);
- the converter from a context-free grammar to Chomsky normal form (`CFGtoCNF`).
  It has five stages, then removes duplicate rules;
- the probabilistic (Viterbi) CKY parser (`ProbabilisticCKY`).

A grammar is a sequence of rules `Rule(head, body)`, and a symbol is a string.
A symbol is a terminal when Python's `islower()` holds for it, and a non-terminal when `isupper()` holds. The epsilon body is `['']`.

Each Python operation is a function or method with the same branches and constants. Its contract states what the result means. Lemmas tie each result to an independent reference:
- CKY cells against derivation trees;
- Viterbi entries against the best derivation;
- nullable sets against least closed sets;
- erasure enumeration against a deletion relation;
- chains of binary rules against the bodies they reassemble;
- the conversion pipeline against the `_is_cnf` test.

Modules:

| file | module | models |
|---|---|---|
| grammar.dfy | Grammar | symbols, rules, ASCII `islower`/`isupper`/`upper`, `str(int)` |
| wrappers.dfy | Wrappers | `Option`, `Result` |
| reader.dfy | GrammarReader | `str.strip`, `str.split`, one grammar line, whole files, words |
| cky.dfy, cky_trees.dfy | Cky, CkyTrees | `CKY` and its correctness against derivation trees |
| cnf.dfy | Cnf | converter state, `_is_cnf`, `add_new_start`, `dict.fromkeys` |
| cnf_epsilon.dfy | CnfEpsilon | `remove_epsilon` |
| cnf_unit.dfy | CnfUnit | `eliminate_unary` (corrected) and the loop as written |
| cnf_terminals.dfy | CnfTerminals | `split_terminals` |
| cnf_binarize.dfy | CnfBinarize | `break_long_productions` |
| cnf_convert.dfy | CnfConvert | `convert` and the theorem that its result passes `_is_cnf` |
| prob_cky.dfy, prob_trees.dfy | ProbCky, ProbTrees | `ProbabilisticCKY` and its Viterbi correctness |

## Model

| member | source | states |
|---|---|---|
| Grammar.Upper | extensio_1.py:139 | `str.upper` maps each lowercase ASCII letter to its capital and leaves every other character as it is |
| GrammarReader.LStrip | utils.py:10 | the result is no longer than the input and does not start with Python whitespace |
| GrammarReader.LStripRemovesSpace | utils.py:10 | the result is a suffix of the input, and what was removed is all whitespace |
| GrammarReader.RStrip | utils.py:10 | the result is no longer than the input, does not end with Python whitespace, and keeps the first character |
| GrammarReader.RStripRemovesSpace | utils.py:10 | the result is a prefix of the input, and what was removed is all whitespace |
| GrammarReader.Strip | utils.py:10 | the result is no longer than the input and has no whitespace at either end |
| GrammarReader.StripPadded | utils.py:10 | the input is the result padded on both sides only with whitespace |
| GrammarReader.Split | utils.py:14 | `str.split(sep)` returns at least one piece |
| GrammarReader.SplitJoin | utils.py:14 | joining the pieces of `str.split(sep)` with `sep` gives back the input, and no piece contains `sep` |
| GrammarReader.SplitJoinsBack | utils.py:14 | joining the pieces with `sep` gives back the input |
| GrammarReader.SplitPiecesClean | utils.py:14 | no piece contains `sep` |
| GrammarReader.SplitAtOnlyOccurrence | utils.py:14-16 | a line with exactly one occurrence of the separator splits into the text before it and the text after it |
| GrammarReader.SplitCount | utils.py:14-16 | for a separator that cannot overlap itself, the number of pieces is the number of occurrences plus one |
| GrammarReader.OccurrencesContains | utils.py:13-16 | the separator occurs at least once exactly when the `in` test holds |
| GrammarReader.ContainsStep | utils.py:13-16 | the `in` test holds exactly when the text starts with the separator or its tail contains it |
| GrammarReader.SplitWs | utils.py:22 | `str.split()` gives non-empty tokens without whitespace whose concatenation is the input with its whitespace removed |
| GrammarReader.SplitWsIffRuns | utils.py:22 | a token list is what `str.split()` returns exactly when the text is those tokens separated by non-empty whitespace runs, with optional whitespace at either end |
| GrammarReader.SplitWsRuns | utils.py:22 | the tokens `str.split()` returns, with the whitespace runs around them, put the text back together |
| GrammarReader.WsRunsUnique | utils.py:22 | a text cut into tokens and whitespace runs in that way has only one such token list, the one `str.split()` returns |
| GrammarReader.Body | utils.py:30-34 | the body is `['']` exactly when the stripped alternative splits into no tokens or the one token `ε`; otherwise it is those tokens |
| GrammarReader.RulesOf | utils.py:20-21 | one rule per alternative, in order, each under the head and with the body read from that alternative |
| GrammarReader.ProbRulesOf | utils.py:20-29 | alternatives with fewer than two tokens are skipped; every rule has the head, a well-formed body and a one-token probability; all complete gives one rule each; none complete gives none |
| GrammarReader.ProbRulesOfComplete | utils.py:20-29 | the rules of a probabilistic line are, in order, the rules read from its alternatives with at least two tokens: the k-th rule comes from the k-th such alternative |
| GrammarReader.ProbRulesOfAppend | utils.py:21 | the loop over the alternatives reads a split list piece by piece: the rules of two lists of alternatives are the rules of the first, then those of the second |
| GrammarReader.ReadCompleteSnoc | utils.py:21-29 | one more alternative adds its rule at the end when it has at least two tokens and adds nothing otherwise |
| GrammarReader.ProbRuleOf | utils.py:22-29 | the probability is the last token; the other tokens are the body, with `[]` and `['ε']` becoming `['']`; writing the body back (`['']` as `ε`) followed by the probability gives the split alternative again |
| GrammarReader.LineWithoutRules | utils.py:10-18 | a line yields no rules exactly when it is blank, a comment, or holds no arrow; such a line yields none in probabilistic mode too |
| GrammarReader.LineFailsIffSeparatorRepeated | utils.py:13-16 | a line raises exactly when its separator occurs twice or more (`→` is chosen before `->`); with `float()` not applied to the probability token, both modes raise on the same lines |
| GrammarReader.LineWithOneSeparator | utils.py:13-35 | a line with one separator yields one rule per bar-separated alternative (one more than the number of bars), each headed by the stripped left side |
| GrammarReader.LineAtOnlySeparator | utils.py:13-35 | a line with one separator yields the rules read from the bar-split right side under the stripped left side |
| GrammarReader.ReadLines | utils.py:9-36 | reading a file of lines succeeds exactly when no line raises; a failure is the error of the first line that raises |
| GrammarReader.ReadLinesConcat | utils.py:9-36 | when no line raises, the result is the concatenation, in order, of the lines' rules |
| GrammarReader.ReadGrammarIsLineByLine | utils.py:9-36 | a successful read is the concatenation, in order, of the rules of each line |
| GrammarReader.ReadProbGrammarIsLineByLine | utils.py:9-36 | a successful probabilistic read is the concatenation, in order, of the rules of each line |
| GrammarReader.ReadWord | utils.py:41-44 | the word is the stripped text with one symbol per character |
| Cky.NewRecognizer | extensio_base.py:8-22 | the epsilon flag holds exactly when the rules contain `(start, [''])` |
| Cky.NewRecognizerDefault | extensio_base.py:8-22 | without a start symbol the start is `S`, and the flag holds exactly when `(S, [''])` is a rule |
| Cky.CellHeads | extensio_base.py:51-67 | every symbol in a cell is the head of some rule |
| Cky.CellBinary | extensio_base.py:59-67 | for `i < j`, `A` is in cell `(i, j)` exactly when some split `k` in `[i, j)` and some rule `A -> B C` have `B` in cell `(i, k)` and `C` in cell `(k+1, j)` |
| Cky.SplitsMember | extensio_base.py:62-67 | after the splits below `kEnd`, the accumulated cell holds exactly the heads witnessed by one of those splits |
| Cky.DiagStep | extensio_base.py:54-56 | one rule adds its head to the diagonal cell exactly when its body is the lowercase input symbol |
| Cky.RulesAtStep | extensio_base.py:63-67 | one rule adds its head exactly when it is binary and its two symbols lie in the left and right cells |
| Cky.FillDiagonal | extensio_base.py:48-56 | the table is `n` by `n`, every diagonal cell is final, and every cell above the diagonal is still empty |
| Cky.FillCell | extensio_base.py:59-67 | once the shorter spans are final, the loops over splits and rules compute the final cell |
| Cky.ParseQuiet | extensio_base.py:35-69 | the empty word gives the epsilon flag; any other word gives whether the start symbol is in the full-span cell |
| Cky.Parse | extensio_base.py:24-33 | `parse` answers the same as `parse_quiet` |
| CkyTrees.CellComplete | extensio_base.py:51-67 | the root of every derivation tree whose yield is a span lies in that span's cell |
| CkyTrees.CellSplit | extensio_base.py:59-67 | a symbol in a cell of length two or more comes from a binary rule and a split whose two sides hold its body |
| CkyTrees.CellSound | extensio_base.py:51-67 | every symbol in a span's cell derives that span |
| CkyTrees.CellIffDerives | extensio_base.py:51-67 | a symbol is in a cell exactly when it derives the span |
| CkyTrees.AcceptsIffDerives | extensio_base.py:19-69 | a non-empty word is accepted exactly when the start symbol derives it; the empty word is accepted exactly when `(start, [''])` is a rule |
| CkyTrees.ExampleAccepts | extensio_base.py:44-69 | with `S -> A B`, `A -> a`, `B -> b`, the word `ab` is accepted |
| CkyTrees.ExampleRejectsSwapped | extensio_base.py:44-69 | with the same grammar, `ba` is rejected |
| CkyTrees.ExampleRejectsEmpty | extensio_base.py:44-46 | with the same grammar, the empty word is rejected |
| CkyTrees.NoBinaryForA | extensio_base.py:51-67 | in that grammar, every tree rooted at `A` is the single leaf `A -> a` |
| Cnf.Init | extensio_1.py:9-20 | the converter keeps the rules and the start; the flag holds exactly when some rule is `(start, [''])` |
| Cnf.InitDefault | extensio_1.py:9-20 | without a start symbol the start is `S`, and the flag holds exactly when `(S, [''])` is a rule |
| Cnf.StartName | extensio_1.py:47 | the new start symbol is strictly longer than the old one and starts with it |
| Cnf.AddNewStart | extensio_1.py:39-50 | if the start occurs in a body, then `start_START -> start` is put first and becomes the start; otherwise nothing changes. If the new name occurred in no body, the start afterwards occurs in no body |
| Cnf.Filter | extensio_1.py:95-98 | the comprehension keeps exactly the rules that pass the test, in their order: the result is an in-order subsequence of the input, and every rule that passes occurs in it as often as in the input while every other rule does not occur |
| Cnf.Dedup | extensio_1.py:178-179 | no rule twice, the same rules as the input, and the order of first occurrence |
| CnfEpsilon.Propagate | extensio_1.py:64-70 | the `while changed` loop ends in a set closed under the rules |
| CnfEpsilon.Nullable | extensio_1.py:57-70 | the nullable set is closed under the rules and contains only heads |
| CnfEpsilon.NullableIsLeast | extensio_1.py:57-70 | the nullable set is contained in every closed set, so it is the least one |
| CnfEpsilon.Combos | extensio_1.py:78 | `product([True, False], repeat=k)` gives all `2^k` bit vectors of length `k` |
| CnfEpsilon.CombosComplete | extensio_1.py:78 | every bit vector of length `k` is enumerated |
| CnfEpsilon.EraseWithIsDeletion | extensio_1.py:79-83 | erasing the nullable positions that a bit vector marks gives a deletion of the body |
| CnfEpsilon.DeletionBits | extensio_1.py:78-83 | every deletion of nullable positions is produced by some bit vector |
| CnfEpsilon.ErasuresAreDeletions | extensio_1.py:76-83 | the bodies the loop enumerates are exactly the deletions of nullable positions |
| CnfEpsilon.DeletionKeepsAll | extensio_1.py:78-83 | deleting nothing is a deletion |
| CnfEpsilon.DeleteEverything | extensio_1.py:84-86 | the empty body is a deletion exactly when every symbol is nullable |
| CnfEpsilon.AddErasures | extensio_1.py:78-89 | the inner loop keeps what was collected; it adds only deletions and the start's epsilon rule, and adds every new non-empty deletion |
| CnfEpsilon.NewRules | extensio_1.py:72-91 | `new_rules` holds every non-empty deletion of every non-epsilon rule (or it is already a rule), and holds only such deletions and the start's epsilon rule |
| CnfEpsilon.RemoveEpsilon | extensio_1.py:52-98 | every non-epsilon rule stays; every non-empty deletion of nullable positions is added; nothing else appears; only the start keeps `['']`, and only under the flag; the start keeps it when it was a rule or the start has an all-nullable body |
| CnfUnit.InitialPairs | extensio_1.py:105-108 | the initial worklist holds a pair for each unit rule and nothing else |
| CnfUnit.ScanRules | extensio_1.py:113-120 | one scan copies each non-unit rule of `b` under `a`; it queues `(a, c)` for each unit rule `b -> c` unless that pair was processed; it adds nothing else |
| CnfUnit.ProcessPair | extensio_1.py:111-120 | one iteration keeps the worklist invariant and decreases the measure |
| CnfUnit.EliminateUnary | extensio_1.py:100-124 | no unit rule is left; non-unit rules stay; each `b` reachable from `a` by unit rules gives `a` every non-unit body of `b`; nothing else appears |
| CnfUnit.InitialAsWritten | extensio_1.py:105-108 | as written, `unit_pairs` starts as exactly the unit steps |
| CnfUnit.PopAsWritten | extensio_1.py:111-120 | as written, one iteration queues `(a, c)` for every unit rule `b -> c` and queues nothing else |
| CnfUnit.CycleStartsNonEmpty | extensio_1.py:105-108 | on `A -> B`, `B -> A`, `B -> b` the worklist starts non-empty, with every pair ending in `A` or `B` |
| CnfUnit.CycleNeverEmpties | extensio_1.py:111-120 | on that grammar, whichever pair is popped, the worklist stays non-empty, so the loop as written never ends |
| CnfTerminals.AuxIsUpper | extensio_1.py:139 | every `T_<X>` name is a non-terminal |
| CnfTerminals.AuxInjective | extensio_1.py:136-140 | distinct terminals get distinct `T_<X>` names |
| CnfTerminals.CollectBody | extensio_1.py:135-141 | within one body, the new terminals are appended to the `aux_map` keys without repeats |
| CnfTerminals.Collect | extensio_1.py:133-141 | the `aux_map` keys are exactly the terminals of bodies of two or more symbols, without repeats |
| CnfTerminals.Terminals | extensio_1.py:131-141 | the terminals replaced are distinct and lowercase, and are exactly those of long bodies |
| CnfTerminals.AuxRules | extensio_1.py:137-141 | one `T_<X> -> x` rule per terminal; no two of them share a head |
| CnfTerminals.RewriteFacts | extensio_1.py:134-145 | a rewritten long body has no terminal, every classified symbol becomes a non-terminal, and each replaced symbol is the terminal's `T_<X>` name |
| CnfTerminals.SplitTerminals | extensio_1.py:126-146 | the result has the input's rules followed by one added rule per distinct terminal of a long body |
| CnfTerminals.SplitTerminalsKeeps | extensio_1.py:133-145 | each rule keeps its place, head and length; bodies shorter than two are untouched |
| CnfTerminals.SplitTerminalsAdds | extensio_1.py:137-141 | each added rule is `T_<X> -> x` for a terminal `x` of a long body; every such terminal gets one; no two added rules share a head |
| CnfTerminals.SplitTerminalsRewrites | extensio_1.py:134-145 | long bodies lose every terminal, classified symbols become non-terminals, and each replaced symbol has a rule giving back its terminal |
| CnfBinarize.YNameIsUpper | extensio_1.py:161 | every `Y<n>` name is a non-terminal |
| CnfBinarize.Chain | extensio_1.py:157-164 | a body of `k` symbols becomes `k-1` binary rules, the first headed by the old head |
| CnfBinarize.ChainWithRule | extensio_1.py:157-164 | with given fresh names, the `i`-th rule is headed by the old head or the previous name, starts with the `i`-th symbol, and ends with the next name or, for the last, the last symbol |
| CnfBinarize.ChainRule | extensio_1.py:157-164 | the `i`-th chain rule is headed by the old head or `Y<counter+i>`, starts with the `i`-th symbol, and ends with `Y<counter+i+1>` or, for the last, the last symbol |
| CnfBinarize.ChainHeads | extensio_1.py:158-163 | each chain rule after the first is headed by the fresh name that ends the rule before it |
| CnfBinarize.ChainExpands | extensio_1.py:157-164 | expanding the chain through its fresh names gives back the long body |
| CnfBinarize.ChainSymbols | extensio_1.py:157-164 | every chain rule is binary; its first symbol comes from the long body and its second from the body or is a fresh name |
| CnfBinarize.BreakFrom | extensio_1.py:152-165 | every output body has at most two symbols; short rules are kept; every long rule's chain (numbered by the running counter) is present; every output rule is a short input rule or a link of the chain of one particular long input rule |
| CnfBinarize.BreakLong | extensio_1.py:148-165 | the same facts with the counter starting at zero |
| CnfBinarize.StepChainOrigins | extensio_1.py:152-165 | a rule produced after the first input rule is still a short input rule or a link of some long rule's chain once the counter is shifted back by the first rule's new symbols |
| CnfConvert.AfterNewStart | extensio_1.py:39-50 | after `add_new_start`, classified rules stay classified. The start occurs in no body, and the flag gives the start an epsilon rule or an all-nullable rule |
| CnfConvert.AfterEpsilon | extensio_1.py:52-98 | after `remove_epsilon` the rules stay classified, the start is in no non-epsilon body, and only the start has `['']` |
| CnfConvert.AfterUnit | extensio_1.py:100-124 | after `eliminate_unary` the rules stay classified and only the start has `['']` |
| CnfConvert.AfterTerminals | extensio_1.py:126-146 | after `split_terminals` each one-symbol body is not a non-terminal, each longer body is all non-terminals, and no body is empty |
| CnfConvert.AfterBreak | extensio_1.py:148-165 | after `break_long_productions` every rule passes every test of `_is_cnf` (lines 22-37) |
| CnfConvert.EpsilonSurvives | extensio_1.py:126-165 | the start's epsilon rule survives `split_terminals` and `break_long_productions` |
| CnfConvert.Convert | extensio_1.py:167-181 | the result is the five stages applied in order: `remove_epsilon` after `add_new_start` gives the start and the flag; unit elimination of those rules, then `split_terminals`, `break_long_productions` and the removal of duplicates give the rules. No rule twice; the start is renamed exactly when it occurs in a body. On classified rules whose new start name is unused, the result passes `_is_cnf` and has `start -> ''` exactly when the input had it |
| ProbCky.BuildRulesDict | extensio_2.py:22-31 | the keys are the productions of the grammar, and each maps to the probability of its last occurrence |
| ProbCky.NewParser | extensio_2.py:8-20 | construction fails only on an empty grammar without a start symbol; the start defaults to the head of the first rule |
| ProbCky.FillDiagonal | extensio_2.py:44-50 | the table has `n` rows of `n+1` cells, and every one-symbol span is final |
| ProbCky.FillCell | extensio_2.py:53-64 | once shorter spans are final, the loops compute every entry of the cell |
| ProbCky.Parse | extensio_2.py:33-67 | the empty word gives `0.0`; otherwise the start's full-span entry if positive, else the `False` sentinel |
| ProbTrees.BestTermIsMax | extensio_2.py:47-50 | the diagonal fold is non-negative, at least every matching rule's probability, and is `0` or one of them |
| ProbTrees.SpanAccIsMax | extensio_2.py:56-64 | the span fold is non-negative, at least every candidate visited, and is `0` or one of them |
| ProbTrees.DiagonalEntryIsMax | extensio_2.py:47-50 | the diagonal entry is the maximum over rules `A -> [w[i]]`, or `0` when there is none |
| ProbTrees.SpanEntryIsMax | extensio_2.py:53-64 | a span entry is the maximum over splits and binary rules of `prob * p(B) * p(C)` with both children positive, or `0` |
| ProbTrees.EntryNonNegative | extensio_2.py:47-64 | every entry is at least `0` |
| ProbTrees.TreeBelowEntry | extensio_2.py:47-64 | with positive probabilities, every derivation tree of a span has probability at most the root's entry |
| ProbTrees.NodeBelowEntry | extensio_2.py:56-64 | a binary rule's probability times positive lower bounds of its children's entries is at most the entry of its head |
| ProbTrees.EntryAttained | extensio_2.py:47-64 | a positive entry is the probability of some derivation tree of that span |
| ProbTrees.NodeAttained | extensio_2.py:56-63 | a node built from best subtrees under a binary rule derives the span with the rule's candidate probability |
| ProbTrees.TreeProbInUnitInterval | extensio_2.py:63 | with probabilities in `(0, 1]`, every tree's probability is in `(0, 1]` |
| ProbTrees.EntryInUnitInterval | extensio_2.py:47-64 | with probabilities in `(0, 1]`, every entry is in `[0, 1]`, and it is positive exactly when a derivation exists |
| ProbTrees.ParseIsBestDerivation | extensio_2.py:33-67 | with positive probabilities, a non-empty word gives `False` exactly when the start derives nothing; otherwise it gives the probability of the best derivation |
| ProbTrees.ParseInUnitInterval | extensio_2.py:40-67 | the empty word gives `0.0`; with probabilities in `(0, 1]`, any probability returned is in `(0, 1]` |
| ProbTrees.ExampleParser | extensio_2.py:17-18 | without a start symbol the example's start is `S`, the head of its first rule |
| ProbTrees.ExampleDiagonal | extensio_2.py:47-50 | in the example, `a` gives `A` 1.0; `b`, `c`, `d` give `B` 0.6, 0.4, 0 |
| ProbTrees.ExampleStartEntry | extensio_2.py:53-64 | in the example, the two-symbol entry of `S` is the product of the entries of `A` and `B` when both are positive, else 0 |
| ProbTrees.ExampleParsesB | extensio_2.py:33-67 | `S -> A B` 1.0, `A -> a` 1.0, `B -> b` 0.6, `B -> c` 0.4: `ab` gives 0.6 |
| ProbTrees.ExampleParsesC | extensio_2.py:33-67 | the same grammar: `ac` gives 0.4 |
| ProbTrees.ExampleParsesD | extensio_2.py:33-67 | the same grammar: `ad` gives `False` |

## Findings

| source | as written | input that shows it | evidently intended | confidence | as-written member | corrected member |
|---|---|---|---|---|---|---|
| extensio_1.py:110-120 | a popped pair `(a, c)` is queued again whenever it is not currently in `unit_pairs`, even if it was already processed; no processed-pairs set is kept | `A -> B`, `B -> A`, `B -> b`: popping `(A, B)` queues `(A, A)`, popping `(A, A)` queues `(A, B)` again, and so on forever (also `A -> A` alone) | each pair processed once, so the loop ends on grammars with unit cycles | not executed | CnfUnit.CycleNeverEmpties | CnfUnit.EliminateUnary |

## Left out

- File I/O: `open`, reading a file line by line, and file encodings. A grammar file is a sequence of lines, and a word file is its text.
- `float()` on the probability token: the reader keeps the token as text. The parser takes probabilities as exact `real`s, so floating-point rounding and underflow are not modelled.
- GrammarReader.LineFailsIffSeparatorRepeated / GrammarReader.ParseProbLine: the `ValueError` that `float()` raises at utils.py:29 on a last token that is not a number is not modelled. The source therefore raises on more probabilistic lines than the model: `S -> a b` raises there, while `ParseProbLine` reads it. Python's float syntax (signs, exponents, `inf`, `nan`, underscores) is left out with it.
- Python's `islower`, `isupper` and `upper` are modelled on ASCII letters. Other cased Unicode letters count as uncased. `str.strip` and `str.split()` use Python's whitespace set.
- main2.py, experimentacio.py, generador_gramatiques.py, generador_paraula.py and `CFGtoCNF.__str__`: menus, printing, randomness and formatting.
- CnfUnit.EliminateUnary: `set.pop` takes pairs in an unspecified order. The model takes them in a fixed order, and it scans the original rules rather than the growing list. Only the set of resulting rules is stated, not the order in which they are appended. The growing list adds nothing new: a rule copied earlier to `b` is reached again through `b`'s own unit pairs.
- CnfUnit.EliminateUnary: each pair is processed once (see Findings). The program as written does not end on a unit cycle.
- CnfEpsilon.RemoveEpsilon: the start's epsilon rule is proved present when `(start, [''])` was a rule or some rule of the start has an all-nullable body. The converse, that it appears only in those two cases, is not stated; `convert` does not need it.
- CnfConvert.Convert: the result is proved to pass `_is_cnf`, not to generate the same language. The names `S_START`, `T_<X>` and `Y<n>` are never checked against existing symbols. The theorem assumes only that the new start name is not already in a body, which is what keeps the start out of every body. Clashes of `T_<X>` or `Y<n>` with grammar symbols could change the language, but they do not affect the CNF shape.
- CnfConvert.Convert: the CNF theorem assumes rules as the reader produces them. Every body is `['']` or non-empty, and each symbol is a terminal or a non-terminal by `islower`/`isupper`. A literal `[]` body, which the reader never produces, would survive `remove_epsilon` and fail `_is_cnf`.
- The epsilon flags of `CKY` and `CFGtoCNF` look only for the literal rule `(start, [''])`, as the code does. A start symbol that is nullable only through other rules does not set them.
- `ProbabilisticCKY.rules_dict` is built and stated, but `parse` does not read it, and neither does the model.
