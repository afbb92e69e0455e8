# Binary decision diagrams for propositional formulas

This project models a small Python library for propositional logic and
binary decision diagrams (BDDs). It covers:

- formulas: variables, ¬, ∧, ∨, →, ↔, with a tokenizer and a
  recursive-descent parser that also accept ASCII spellings;
- interpretations and truth tables;
- decision nodes;
- diagrams built from a formula by Shannon expansion over a variable order;
- the reducer, which removes redundant tests and merges duplicate subgraphs;
- the `apply` algorithm with its unique table and result cache, the
  whole-diagram combinators, and the equivalence check.

Each Python module maps to one or two Dafny modules:

| Dafny module | file | Python module |
|---|---|---|
| `Results` | `results.dfy` | error values for every `raise` |
| `Strings` | `strings.dfy` | `sorted(set(...))` on names |
| `Interpretations` | `interpretations.dfy` | `Interpretation`, `PartialInterpretation` |
| `Formulas` | `formulas.dfy` | the `Formula` classes |
| `Lexer`, `Parser` | `lexer.dfy`, `parser.dfy` | `FormulaParser` |
| `TruthTables` | `truth_tables.dfy` | `TruthTable` |
| `Nodes` | `nodes.dfy` | `BDDNode` |
| `Diagrams`, `Traversals` | `diagrams.dfy`, `traversals.dfy` | `BDD` |
| `Reduction` | `reduction.dfy` | `BDDReducer` |
| `Operations` | `operations.dfy` | `BDDOperations` and the `bdd_*` functions |

Two further modules hold results across the library:

- `Canonicity` proves the classic theorem: two diagrams without redundant
  tests, whose labels ascend in string order along every path
  (`Canonicity.Ordered`), have the same shape when they mean the same
  function. From it follows that the library's equivalence check is exact
  for such diagrams, which include every diagram built with the default
  order.
- `Equivalence` shows what happens when the two diagrams use different
  variable orders.

## How the model is built

A node is `Terminal(value)` or `Decision(uid, name, low, high)`:

- `uid` stands for the Python object identity of a decision node. Dafny
  equality on nodes is therefore identity.
- The two terminals are the shared `TRUE` and `FALSE` singletons.
- The structural `BDDNode.__eq__` is `Nodes.NodesEqual`, proved to mean
  "same shape".
- Every operation that creates nodes threads a counter `next` of fresh
  identities. Consequently, the tree built by the constructor has distinct
  nodes, as in Python, and `count_nodes` and `is_reduced` see the same
  objects the source sees.

The meaning of a node under an interpretation is `Nodes.Value`. It is
total: an unassigned variable reads as false. `Diagrams.Walk` is the
failing walk of `BDD.evaluate`; its contract ties it to `Value`. Every
`raise` of the source becomes an `Err` value of `Results.Error`.

Below, a node is *ordered* when the labels along every path ascend in
string order (`Canonicity.Ordered`). Every diagram built with the default
order is ordered; a diagram over an unsorted order given by the caller is
not.

## Model

| member | source | states |
|---|---|---|
| Strings.Sort | bdd/diagram.py:40 | the result is ascending and is a permutation of the input |
| Strings.SortedSet | bdd/operations.py:186 | `sorted(set(...))`: the result is strictly ascending and holds exactly the input's elements |
| Strings.InsertNew | bdd/operations.py:186 | adding a name to a strictly ascending listing keeps it strictly ascending and adds exactly that name |
| Strings.StrictListingUnique | bdd/diagram.py:40 | two strictly ascending listings of one set are equal, so the sorted order of a formula's variables is unique |
| Strings.PermutationKeepsDistinct | bdd/truth_table.py:99 | sorting a list without repeats leaves it without repeats, with the same elements and length |
| Interpretations.Get | bdd/truth_table.py:40-47 | the answer is present exactly when the variable is assigned, and then it is the assigned value |
| Interpretations.Assign | bdd/truth_table.py:34-38 | afterwards the variable reads the new value, every other variable reads as before, and the domain gains exactly that variable |
| Interpretations.IsComplete | bdd/truth_table.py:49-61 | true exactly when every listed variable is assigned |
| Interpretations.Copy | bdd/truth_table.py:63-65 | the copy has the same domain and the same answers |
| Interpretations.CopyIsIndependent | bdd/truth_table.py:63-65 | the copy answers like the original, and assigning into the copy gives what assigning into the original would |
| Interpretations.EqualIffSameAnswers | bdd/truth_table.py:76-80 | two interpretations are equal exactly when they answer alike for every variable |
| Interpretations.Equal | bdd/truth_table.py:76-80 | equality of interpretations; `Interpretations.EqualIffSameAnswers` proves it holds exactly when both answer alike for every variable |
| Interpretations.IsDefinedFor | bdd/truth_table.py:272-274 | a variable is defined exactly when looking it up gives a value |
| Interpretations.Extend | bdd/truth_table.py:272-293 | the extension is defined for the new variable with the new value, answers as before elsewhere, and stays defined wherever the original was |
| Formulas.Evaluate | bdd/formula.py:31-182 | a successful evaluation gives the formula's truth value; evaluation succeeds whenever every variable is assigned; a failure names a variable of the formula that is unassigned |
| Formulas.EvaluateVariable | bdd/formula.py:31-35 | a variable evaluates to its assigned value and fails exactly when it is unassigned |
| Formulas.ShortCircuit | bdd/formula.py:31-182 | ∧ with a false left side and ∨ with a true left side never look at the right side, while ↔ needs both sides |
| Formulas.HoldsLocal | bdd/formula.py:31-182 | a formula's value depends only on the values of its own variables |
| Formulas.VarList | bdd/formula.py:37-38 | the listed names are exactly the formula's variables |
| Formulas.SortedVars | bdd/diagram.py:39-43 | the default order is strictly ascending, lists exactly the formula's variables and is never empty |
| Formulas.VarsExample | bdd/formula.py:108-114 | the variables of `p ∨ (q ∧ r)` are exactly p, q and r |
| Lexer.Replace | bdd/formula.py:222-231 | a string without the pattern comes back unchanged; no new characters appear beyond those of the replacement; a one-character pattern absent from its replacement is gone afterwards |
| Lexer.Normalize | bdd/formula.py:222-231 | after all replacements no `~`, `!`, `&` or `\|` is left, and text without ASCII operator characters is untouched |
| Lexer.RewriteSingleChar | bdd/formula.py:229-231 | the single-character replacements remove `~`, `!`, `&` and `\|` |
| Lexer.RewriteMultiChar | bdd/formula.py:222-226 | text without ASCII operator characters is left unchanged; what each multi-character spelling becomes is stated by the spelling lemmas below |
| Lexer.NameLength | bdd/formula.py:258-264 | the name read is the longest prefix of name characters |
| Lexer.Scan | bdd/formula.py:248-268 | every token produced is a symbol or a name; a failure reports a character of the input that is neither space, symbol nor letter |
| Lexer.ScanName | bdd/formula.py:258-264 | a name followed by a non-name character is read as one token |
| Lexer.TokenizeAfterRewriting | bdd/formula.py:220-268 | tokenizing is scanning the rewritten text once no ASCII operator characters remain |
| Lexer.Tokenize | bdd/formula.py:220-268 | every token produced is a one-character symbol or a variable name; the spelling lemmas below state the tokens of each ASCII operator |
| Lexer.IffSpelling | bdd/formula.py:223 | `p <-> q` tokenizes as `p`, `↔`, `q` for any two names |
| Lexer.EquivSpelling | bdd/formula.py:223 | `p <=> q` tokenizes as `p`, `↔`, `q`: the `<->` pass finds nothing in it |
| Lexer.ArrowSpelling | bdd/formula.py:224 | `p -> q` tokenizes as `p`, `→`, `q` |
| Lexer.DoubleArrowSpelling | bdd/formula.py:224 | `p => q` tokenizes as `p`, `→`, `q` |
| Lexer.WedgeSpelling | bdd/formula.py:225 | `p /\ q` tokenizes as `p`, `∧`, `q` |
| Lexer.VeeSpelling | bdd/formula.py:226 | `p \/ q` tokenizes as `p`, `∨`, `q`: the `/\` pass finds nothing in it |
| Lexer.NegationSpelling | bdd/formula.py:229 | `~p` and `!p` both tokenize as `¬`, `p` |
| Lexer.AmpersandSpelling | bdd/formula.py:230 | `p & q` tokenizes as `p`, `∧`, `q` |
| Lexer.BarSpelling | bdd/formula.py:231 | `p \| q` tokenizes as `p`, `∨`, `q` |
| Lexer.PlainBetweenNames | bdd/formula.py:222-231 | a lone `>` between names is left alone by the rewriting |
| Lexer.UnknownCharacter | bdd/formula.py:265-266 | `p > q` is rejected, naming `>` |
| Lexer.ScanReject | bdd/formula.py:265-266 | a character that is neither space, symbol nor letter stops the scan with an error naming it |
| Parser.Current | bdd/formula.py:271-275 | there is a current token exactly while the position is inside the token list, and then it is the token at that position |
| Parser.Consume | bdd/formula.py:277-283 | consuming succeeds exactly when the current token is the expected one and then advances by one; otherwise the error names the expected and the found token |
| Parser.ParseIff | bdd/formula.py:317-326 | a success consumes at least one token and names only variables of the token list; `Parser.PrintedGrouping` states how it groups against every connective, before or after `↔` |
| Parser.ParseImplies | bdd/formula.py:344-353 | a success consumes at least one token and names only variables of the token list; `Parser.PrintedGrouping` states how it groups against every connective, before or after `→` |
| Parser.ParseOr | bdd/formula.py:355-364 | a success consumes at least one token and names only variables of the token list; `Parser.PrintedGrouping` states how it groups against every connective, before or after `∨`, including the loop resuming after an and-chain |
| Parser.ParseAnd | bdd/formula.py:366-375 | a success consumes at least one token and names only variables of the token list; `Parser.AndLeftAssociative` states how it groups |
| Parser.ParseNot | bdd/formula.py:377-384 | a success consumes at least one token and names only variables of the token list; `Parser.NegationsStack` and `Parser.NotBindsTightest` state how it groups |
| Parser.ParsePrimary | bdd/formula.py:386-400 | a parsed primary ends strictly after its start and names only variables from the token list; outside parentheses a failure reports the token found |
| Parser.ParseTokens | bdd/formula.py:310-315 | a successful parse used a non-empty token list and names only its variables; an empty list fails with no token found |
| Parser.Parse | bdd/formula.py:403-413 | every variable of a parsed formula is a well-formed name |
| Parser.PrintedTokensRoundTrip | bdd/formula.py:310-400 | parsing the tokens of a printed formula gives the formula back |
| Parser.ShowRoundTrip | bdd/formula.py:403-413 | tokenizing the printed text of a formula gives its tokens, and parsing the text gives the formula back |
| Parser.Grouping | bdd/formula.py:317-375 | any token list holding three not-level units joined by two binary connectives parses with the tighter connective taking the middle unit, and between equal connectives `→` groups to the right and the others to the left |
| Parser.PrintedGrouping | bdd/formula.py:317-375 | the printed tokens of any three well-named formulas joined by any two binary connectives parse to that grouping, for all sixteen pairs |
| Parser.AndFirstBindsTighterThanOr | bdd/formula.py:355-375 | `a ∧ b ∨ c` parses as `(a ∧ b) ∨ c` |
| Parser.AndFirstBindsTighterThanImplies | bdd/formula.py:344-375 | `a ∧ b → c` parses as `(a ∧ b) → c` |
| Parser.AndFirstBindsTighterThanIff | bdd/formula.py:317-375 | `a ∧ b ↔ c` parses as `(a ∧ b) ↔ c` |
| Parser.OrFirstBindsTighterThanImplies | bdd/formula.py:344-364 | `a ∨ b → c` parses as `(a ∨ b) → c` |
| Parser.OrFirstBindsTighterThanIff | bdd/formula.py:317-364 | `a ∨ b ↔ c` parses as `(a ∨ b) ↔ c` |
| Parser.ImpliesFirstBindsTighterThanIff | bdd/formula.py:317-353 | `a → b ↔ c` parses as `(a → b) ↔ c` |
| Parser.AndBindsTighterThanImplies | bdd/formula.py:344-375 | `a → b ∧ c` parses as `a → (b ∧ c)` |
| Parser.AndBindsTighterThanIff | bdd/formula.py:317-375 | `a ↔ b ∧ c` parses as `a ↔ (b ∧ c)` |
| Parser.OrBindsTighterThanIff | bdd/formula.py:317-364 | `a ↔ b ∨ c` parses as `a ↔ (b ∨ c)` |
| Parser.AndBindsTighterThanOr | bdd/formula.py:355-375 | `a ∨ b ∧ c` parses as `a ∨ (b ∧ c)` |
| Parser.OrBindsTighterThanImplies | bdd/formula.py:344-364 | `a → b ∨ c` parses as `a → (b ∨ c)` |
| Parser.ImpliesBindsTighterThanIff | bdd/formula.py:317-353 | `a ↔ b → c` parses as `a ↔ (b → c)` |
| Parser.ImpliesRightAssociative | bdd/formula.py:344-353 | `a → b → c` parses as `a → (b → c)` |
| Parser.AndLeftAssociative | bdd/formula.py:366-375 | `a ∧ b ∧ c` parses as `(a ∧ b) ∧ c` |
| Parser.OrLeftAssociative | bdd/formula.py:355-364 | `a ∨ b ∨ c` parses as `(a ∨ b) ∨ c` |
| Parser.IffLeftAssociative | bdd/formula.py:317-326 | `a ↔ b ↔ c` parses as `(a ↔ b) ↔ c` |
| Parser.NotBindsTightest | bdd/formula.py:377-384 | `¬a op b` parses as `(¬a) op b` for every binary connective |
| Parser.NegationsStack | bdd/formula.py:377-384 | `¬¬a` parses as a double negation |
| Parser.BadStart | bdd/formula.py:386-400 | a token list starting with neither `(`, `¬` nor a name fails, reporting that token |
| Parser.TrailingToken | bdd/formula.py:310-315 | a complete formula followed by a token that is not a connective fails, naming that token |
| Parser.MissingClose | bdd/formula.py:390-394 | `(` and a formula with nothing after them fail, expecting `)` and finding nothing |
| Parser.MismatchedClose | bdd/formula.py:390-394 | `(` and a formula followed by another token fail, expecting `)` and finding that token |
| Parser.DanglingOperator | bdd/formula.py:317-400 | a formula followed by a binary connective and nothing else fails for lack of a primary |
| TruthTables.GenerateAllInterpretations | bdd/truth_table.py:113-163 | there are 2^n rows, each assigning exactly the given variables |
| TruthTables.RowBit | bdd/truth_table.py:159-160 | in row k, variable j gets bit n-1-j of k: the first variable is the most significant bit |
| TruthTables.RowsDistinct | bdd/truth_table.py:128-161 | for variables without repeats, different row numbers give different rows |
| TruthTables.EveryAssignmentListed | bdd/truth_table.py:113-163 | for variables without repeats, every assignment of exactly the variables appears as a row |
| TruthTables.FirstRowAllFalse | bdd/truth_table.py:128-161 | the first row makes every variable false |
| TruthTables.LastRowAllTrue | bdd/truth_table.py:128-161 | the last row makes every variable true |
| TruthTables.NoVariables | bdd/truth_table.py:121-122 | with no variables there is exactly one row, the empty interpretation |
| TruthTables.NewTable | bdd/truth_table.py:92-101 | a new table holds the variables sorted, as a permutation of those given, and no rows |
| TruthTables.AddRow | bdd/truth_table.py:103-111 | adding a row keeps the variables and earlier rows and puts the new row last |
| TruthTables.AddRows | bdd/truth_table.py:252-255 | row j of the table is the j-th interpretation with the function's value on it |
| TruthTables.FromFunction | bdd/truth_table.py:218-255 | the table lists, over the sorted variables, all 2^n rows in enumeration order, each with the function's value |
| TruthTables.IsTautology | bdd/truth_table.py:165-170 | true exactly when every row's value is true |
| TruthTables.IsContradiction | bdd/truth_table.py:172-174 | true exactly when every row's value is false |
| TruthTables.IsSatisfiable | bdd/truth_table.py:176-178 | true exactly when some row's value is true |
| TruthTables.GetModels | bdd/truth_table.py:180-189 | an interpretation is listed exactly when it is the interpretation of a true row |
| TruthTables.ModelsCount | bdd/truth_table.py:180-189 | there are as many models as true rows |
| TruthTables.RowsAreFullAssignments | bdd/truth_table.py:218-255 | an interpretation is a row of the table exactly when it assigns exactly the table's variables |
| TruthTables.TautologyMeaning | bdd/truth_table.py:165-170 | the table is a tautology exactly when the function holds under every full assignment |
| TruthTables.ContradictionMeaning | bdd/truth_table.py:172-174 | the table is a contradiction exactly when the function holds under no full assignment |
| TruthTables.SatisfiableMeaning | bdd/truth_table.py:176-178 | the table is satisfiable exactly when some full assignment satisfies the function, exactly when it is not a contradiction |
| TruthTables.ModelsMeaning | bdd/truth_table.py:180-189 | the models are exactly the full assignments that satisfy the function |
| TruthTables.OrHasThreeModels | bdd/truth_table.py:233-238 | the table of `p ∨ q` has exactly three models |
| Nodes.CreateTerminal | bdd/node.py:90-110 | the terminal carries the value, is labelled `T` or `F`, and is the shared singleton for that value |
| Nodes.CreateVariable | bdd/node.py:113-125 | the node tests the given variable with the given children and gets a fresh identity |
| Nodes.NodesEqualIffSameShape | bdd/node.py:61-87 | structural equality holds exactly when the two nodes have the same shape, whatever their identities |
| Nodes.EqualNodesSameValue | bdd/node.py:61-87 | structurally equal nodes mean the same function |
| Nodes.NodesEqual | bdd/operations.py:304-319 | structural equality; `Nodes.NodesEqualIffSameShape` proves it holds exactly when the two nodes have the same shape |
| Nodes.RedundantIffChildrenAlike | bdd/node.py:127-139 | a node is redundant exactly when it is a decision whose children are structurally equal; terminals never are |
| Nodes.IsRedundant | bdd/node.py:127-139 | `Nodes.RedundantIffChildrenAlike` proves a node is redundant exactly when it is a decision with structurally equal children |
| Nodes.RedundantValue | bdd/node.py:127-139 | a redundant node means the same as each of its children |
| Nodes.ValueLocal | bdd/diagram.py:159-195 | a node's value depends only on the variables it tests |
| Nodes.Register | bdd/operations.py:121-142 | adding a new node whose children are registered keeps the unique table sound, registers the node, keeps every earlier registration and grows the table by one |
| Nodes.RegisteredSigsUnique | bdd/operations.py:134-136 | below a registered node no two distinct nodes share a label and children |
| Nodes.HashConsNode | bdd/operations.py:121-142 | the node made tests the given variable with the given children, and it is found in the table exactly when that key was present |
| Nodes.HashConsKeeps | bdd/operations.py:121-142 | making a node keeps the table sound, only adds to it, registers the result and adds at most that one entry |
| Nodes.HashConsAgain | bdd/operations.py:134-136 | asking a second time returns the same node, found in the table, with nothing changed |
| Diagrams.ChooseOrder | bdd/diagram.py:39-43 | a non-empty given order is kept; otherwise a formula's order is its variables strictly ascending |
| Diagrams.NewDiagram | bdd/diagram.py:23-47 | the diagram keeps the formula and the chosen order, and has a root exactly when it has a formula |
| Diagrams.BuildTree | bdd/diagram.py:79-157 | the subtree means the formula under the path's assignment (`Diagrams.BuildTreeMeaning`), and a failure names an uncovered variable (`Diagrams.BuildTreeErrors`) |
| Diagrams.BuildFromFormula | bdd/diagram.py:49-77 | over an order covering the formula the build succeeds and means the formula (`Diagrams.BuildCorrect`), with the shape `Diagrams.BuildShape` states |
| Diagrams.BuildTreeMeaning | bdd/diagram.py:79-157 | the subtree built at a level means the formula under the partial assignment completed by the interpretation on the remaining variables |
| Diagrams.BuildTreeErrors | bdd/diagram.py:91-94 | the build succeeds when the formula's variables are covered, and a failure names a formula variable that neither the partial assignment nor the remaining order covers |
| Diagrams.BuildTreeIds | bdd/diagram.py:97-113 | every decision node built gets a distinct fresh identity from the counter's range |
| Diagrams.BuildTreeCount | bdd/diagram.py:79-157 | the tree over k remaining variables has 2^k - 1 decision nodes |
| Diagrams.BuildCorrect | bdd/diagram.py:49-77 | over an order that covers the formula, the build succeeds and the root means the formula |
| Diagrams.OrderIrrelevant | bdd/diagram.py:49-77 | diagrams built over two covering orders mean the same function |
| Diagrams.BuildErrors | bdd/diagram.py:49-94 | a failed build reports an unassigned formula variable that the order lacks, an order holding every formula variable never fails, and the default order never fails |
| Diagrams.BuildSkipsUnread | bdd/diagram.py:91-94 | `(p ∧ ¬p) ∧ q` builds over the order [p] although `q` is missing, because evaluation never reaches `q` |
| Diagrams.BuildShape | bdd/diagram.py:49-157 | the built tree has fresh distinct identities, tests only variables of the order, each at most once along any path when the order has no repeats, and has 2^n - 1 decision nodes |
| Diagrams.Walk | bdd/diagram.py:159-195 | a successful walk gives the root's value; it succeeds when every tested variable is assigned; a failure names a tested variable that is unassigned |
| Diagrams.EvaluateDiagram | bdd/diagram.py:159-195 | without a root evaluation fails; otherwise it is the walk from the root |
| Diagrams.EvaluateAgrees | bdd/diagram.py:159-195 | walking the built diagram gives what evaluating the formula gives |
| Diagrams.PathOfValue | bdd/diagram.py:216-232 | the terminal an interpretation reaches is always found by the path search |
| Diagrams.ValueOfPath | bdd/diagram.py:216-232 | when no path tests a variable twice, every terminal the search finds is reached by some interpretation |
| Diagrams.HasPathTo | bdd/diagram.py:216-232 | the path search; `Diagrams.PathOfValue` and `Diagrams.ValueOfPath` relate it to the values the root takes |
| Diagrams.IsSatisfiable | bdd/diagram.py:197-204 | fails exactly without a root, and answers true whenever some interpretation makes the root true |
| Diagrams.IsValid | bdd/diagram.py:206-214 | fails exactly without a root, and answers true only if every interpretation makes the root true |
| Diagrams.QueriesExact | bdd/diagram.py:197-232 | when no path tests a variable twice, satisfiability and validity are exactly "true somewhere" and "true everywhere" |
| Diagrams.QueriesMatchFormula | bdd/diagram.py:197-214 | for a diagram built from a formula, the queries answer exactly whether the formula is satisfiable and whether it is valid |
| Diagrams.ContradictionAndExcludedMiddle | bdd/diagram.py:197-214 | the diagram of `p ∧ ¬p` is unsatisfiable and the diagram of `p ∨ ¬p` is valid |
| Diagrams.CreateFromString | bdd/diagram.py:363-377 | a parse error is passed on; a success holds the parsed formula, a root and the chosen order |
| Diagrams.FromStringMeaning | bdd/diagram.py:363-377 | the diagram created from a printed formula holds that formula and its root means it |
| Traversals.CountFromSpec | bdd/diagram.py:234-261 | the count from a node is the number of its reachable nodes not visited before, and it marks them visited |
| Traversals.CountNodesCorrect | bdd/diagram.py:234-261 | `count_nodes` is the number of distinct nodes reachable from the root |
| Traversals.CountNodes | bdd/diagram.py:234-261 | `Traversals.CountNodesCorrect` proves it is the number of distinct nodes reachable from the root |
| Traversals.CollectNoRepeats | bdd/diagram.py:263-280 | the collected list has no repeats and gains exactly the newly visited nodes |
| Traversals.AllNodesCorrect | bdd/diagram.py:263-280 | `get_all_nodes` lists each reachable node exactly once, root first, as many as `count_nodes` counts |
| Traversals.AllNodes | bdd/diagram.py:263-280 | `Traversals.AllNodesCorrect` proves it lists each reachable node once, root first |
| Traversals.CheckFromSpec | bdd/diagram.py:336-360 | the check succeeds exactly when no reachable node is redundant and no two visited nodes share a label and children |
| Traversals.CheckFrom | bdd/diagram.py:336-360 | `Traversals.CheckFromSpec` proves it succeeds exactly when no reachable node is redundant or duplicated |
| Traversals.IsReducedCorrect | bdd/diagram.py:321-334 | `is_reduced` holds exactly when the root's reachable nodes have no redundant test and no duplicate |
| Traversals.IsReduced | bdd/diagram.py:321-334 | `Traversals.IsReducedCorrect` proves it holds exactly when the reachable nodes have no redundant test and no duplicate |
| Reduction.ReduceNode | bdd/reduction.py:66-106 | a terminal maps to the shared terminal with nothing changed; the counters and the table only grow |
| Reduction.Finish | bdd/reduction.py:85-104 | the counters, the table and the id counter only grow; `Reduction.StepInv` and `Reduction.StepMeaning` state that the step keeps the table sound and means the decision on the reduced children |
| Reduction.Start | bdd/reduction.py:57-59 | the fresh table holds just the two terminals and both counters are zero |
| Reduction.ReduceInv | bdd/reduction.py:66-106 | reducing keeps the table sound, with fresh identities and no redundant entry, only adds to it, and registers the result |
| Reduction.RegisteredIsReduced | bdd/reduction.py:91-104 | a node registered in such a table is reduced and well identified |
| Reduction.ReduceMeaning | bdd/reduction.py:66-106 | the reduced node means what the original meant |
| Reduction.ReduceKeepsRootTest | bdd/reduction.py:85-104 | a decision whose branches differ somewhere keeps its root test after reduction |
| Reduction.ReduceCount | bdd/reduction.py:85-104 | each decision node of the tree is counted exactly once: removed, merged or added to the table |
| Reduction.ReduceKeepsShape | bdd/reduction.py:66-106 | a diagram with no redundant node keeps its shape and removes nothing |
| Reduction.ReduceLabels | bdd/reduction.py:66-106 | reducing introduces no new variables |
| Reduction.ReduceCorrect | bdd/reduction.py:42-64 | `reduce` returns a node with the same meaning that is reduced, well identified and tests no new variables; the statistics plus the table size account for every decision node |
| Reduction.Reduce | bdd/reduction.py:42-64 | `Reduction.ReduceCorrect` proves the result means the same, is reduced, and tests no new variables |
| Reduction.GetStatistics | bdd/reduction.py:108-114 | `Reduction.ReduceCorrect` proves removed plus merged plus the table size equals the decision count plus two; `Reduction.ReduceDiagramCorrect` proves the reported total is removed plus merged |
| Reduction.ReduceIdempotent | bdd/reduction.py:42-64 | reducing a reduced node gives a structurally equal node and removes nothing |
| Reduction.ReduceDiagramCorrect | bdd/diagram.py:291-319 | `BDD.reduce` keeps the formula and order, makes the diagram reduced with the same meaning, and reports the distinct node counts before and after; without a root it reports only zero statistics |
| Reduction.ReduceDiagram | bdd/diagram.py:291-319 | `Reduction.ReduceDiagramCorrect` proves it keeps formula and order, makes the diagram reduced with the same meaning, and reports the node counts |
| Operations.ApplyTerminal | bdd/operations.py:106-119 | combining two terminal values succeeds exactly for a known operator and otherwise names it |
| Operations.EvalIsConnective | bdd/operations.py:106-119 | each operator on terminal values agrees with the formula connective of the same name |
| Operations.NewEngine | bdd/operations.py:22-31 | a new engine has an empty cache and a sound table of just the two terminals |
| Operations.Cofactors | bdd/operations.py:57-88 | each operand means: if the split variable is true its high cofactor, otherwise its low one; and the cofactors are smaller |
| Operations.Apply | bdd/operations.py:33-104 | an unknown operator fails with its name; a success caches its result under its key |
| Operations.ApplyMeaning | bdd/operations.py:33-104 | for a known operator apply succeeds, keeps the cache sound, and its result computes the operator pointwise |
| Operations.ApplyInv | bdd/operations.py:33-104 | apply keeps the engine sound, only adds to the unique table, registers its result and never builds a redundant node |
| Operations.ApplyUnknown | bdd/operations.py:106-119 | an unknown operator fails with its name |
| Operations.ApplyRepeats | bdd/operations.py:45-48 | asking the same question again returns the cached answer with nothing changed |
| Operations.Shannon | bdd/operations.py:94-104 | applying an operator commutes with the choice on the split variable |
| Operations.ApplyNotShape | bdd/operations.py:144-162 | the negated node has the negated shape and means the opposite everywhere |
| Operations.ApplyNotNoRedundant | bdd/operations.py:144-162 | negating a diagram without redundant nodes creates no redundant node |
| Operations.ApplyNot | bdd/operations.py:144-162 | the cache is left as it was and no identity is reused; `Operations.ApplyNotShape` proves the result means the opposite everywhere |
| Operations.MakeNodeFacts | bdd/operations.py:121-142 | the node made tests the given variable with the given children, keeps the table sound and only adds to it |
| Operations.MakeNode | bdd/operations.py:121-142 | `Operations.MakeNodeFacts` proves the node tests the given variable with the given children and the table stays sound |
| Operations.ClearCacheKeeps | bdd/operations.py:164-166 | clearing the cache empties it and keeps the engine sound, and later nodes are the same as without clearing |
| Operations.ClearCache | bdd/operations.py:164-166 | `Operations.ClearCacheKeeps` proves the cache is empty afterwards and later results are unaffected |
| Operations.CombineCorrect | bdd/operations.py:169-271 | a combinator fails without a root or with an unknown operator; otherwise it has no formula, the sorted union of the two orders, a reduced root, and computes the operator pointwise |
| Operations.Combine | bdd/operations.py:169-271 | `Operations.CombineCorrect` proves when it fails and that its root computes the operator pointwise |
| Operations.BddAnd | bdd/operations.py:169-189 | `Operations.CombineCorrect` with `AND`: the root is the conjunction of the two roots |
| Operations.BddOr | bdd/operations.py:192-211 | `Operations.CombineCorrect` with `OR`: the root is the disjunction of the two roots |
| Operations.BddXor | bdd/operations.py:235-245 | `Operations.CombineCorrect` with `XOR`: the root is the exclusive or of the two roots |
| Operations.BddImplies | bdd/operations.py:248-258 | `Operations.CombineCorrect` with `IMPLIES`: the root is the implication of the two roots |
| Operations.BddIff | bdd/operations.py:261-271 | `Operations.CombineCorrect` with `IFF`: the root is the equivalence of the two roots |
| Operations.BddNotCorrect | bdd/operations.py:214-232 | `bdd_not` fails exactly without a root; otherwise it keeps the order and its root means the opposite everywhere |
| Operations.BddNot | bdd/operations.py:214-232 | `Operations.BddNotCorrect` proves it fails exactly without a root and otherwise means the opposite everywhere |
| Operations.ForComparisonFacts | bdd/operations.py:287-298 | the diagram compared is reduced and means what the original meant |
| Operations.ForComparison | bdd/operations.py:287-298 | the compared diagram has a root exactly when the given one has; `Operations.ForComparisonFacts` proves it is reduced with the same meaning |
| Operations.ComparedRootTest | bdd/operations.py:287-298 | the compared root tests the same variable as the given root when the two branches differ somewhere |
| Operations.EquivalentSound | bdd/operations.py:274-319 | `are_equivalent` fails exactly when a root is missing, and answers true only for diagrams that mean the same function |
| Operations.AreEquivalent | bdd/operations.py:274-301 | `Operations.EquivalentSound` proves a true answer means the same function; `Canonicity.EquivalentExact` proves the converse for roots ascending in string order |
| Canonicity.Canonical | bdd/operations.py:304-319 | two ordered diagrams with no redundant node that mean the same function have the same shape |
| Canonicity.CanonicalEquality | bdd/operations.py:304-319 | for ordered diagrams without redundant nodes, structural equality holds exactly when they mean the same function |
| Canonicity.BuildOrdered | bdd/diagram.py:79-157 | the tree built over a strictly ascending order is ordered |
| Canonicity.ReduceOrdered | bdd/reduction.py:66-106 | reducing keeps a diagram ordered |
| Canonicity.ApplyOrdered | bdd/operations.py:33-104 | apply on ordered operands gives an ordered result testing only their variables |
| Canonicity.EquivalentExact | bdd/operations.py:274-301 | for ordered roots `are_equivalent` answers true exactly when the two diagrams mean the same function |
| Canonicity.ConstantIsTerminal | bdd/node.py:127-139 | an ordered diagram without redundant nodes that is constant is the terminal of that value |
| Canonicity.FromFormula | bdd/diagram.py:23-77 | the diagram built with the default order means the formula and is ordered |
| Canonicity.ReducedConstant | bdd/diagram.py:291-319 | reducing an ordered diagram of a constant function leaves just the terminal |
| Canonicity.ExcludedMiddleReduces | bdd/diagram.py:291-319 | `f ∨ ¬f` reduces to the true terminal and `f ∧ ¬f` to the false one |
| Canonicity.CombineFormulas | bdd/operations.py:169-271 | combining the diagrams of two formulas gives an ordered diagram of the formula the operator builds from them |
| Canonicity.SameFormulaEquivalent | bdd/operations.py:274-301 | diagrams of equivalent formulas are judged equivalent |
| Canonicity.Distributive | bdd/operations.py:192-211 | the `bdd_or` of the diagrams of `f ∧ g` and `f ∧ h` is judged equivalent to the diagram of `f ∧ (g ∨ h)` |
| Canonicity.OrIsNotAnd | bdd/operations.py:274-301 | when f and g differ somewhere, the diagrams of `f ∨ g` and `f ∧ g` are judged not equivalent |
| Canonicity.ReducedCount | bdd/diagram.py:234-261 | a reduced diagram has as many nodes as its shape has distinct sub-shapes |
| Canonicity.ReducedSize | bdd/diagram.py:291-319 | the reduced size of a formula's diagram is the number of distinct sub-shapes of any ordered, non-redundant diagram of the same function |
| Canonicity.OrOfAndReducesToFive | bdd/reduction.py:42-64 | the diagram of `p ∨ (q ∧ r)` reduces to five nodes |
| Equivalence.TableAgreesExact | bdd/operations.py:285 | agreement on every row of the truth table over the tested variables is exactly agreement under every interpretation |
| Equivalence.ByTableExact | bdd/operations.py:274-285 | the corrected comparison fails exactly without a root and otherwise answers true exactly when the two diagrams mean the same function, whatever their orders |
| Equivalence.ByTableAgreesWhenOrdered | bdd/operations.py:274-301 | for ordered roots the corrected comparison gives the same answer as `are_equivalent` |
| Equivalence.OrderSensitive | bdd/operations.py:274-301 | the reduced diagrams of `p ∧ q` over the orders [q, p] and [p, q] both mean `p ∧ q`, yet `are_equivalent` answers false, while the corrected comparison answers true |
| Equivalence.BuiltConjunction | bdd/diagram.py:23-157 | the constructor builds `p ∧ q` over [q, p] and over [p, q] as the complete trees testing the first listed variable at the root |
| Equivalence.OrderSensitiveBuiltVerdict | bdd/operations.py:274-301 | `are_equivalent` answers false for `p ∧ q` built by the constructor over [q, p] and over [p, q] |
| Equivalence.OrderSensitiveBuilt | bdd/operations.py:274-301 | the constructor's diagrams of `p ∧ q` over [q, p] and [p, q] mean the same function and the corrected comparison answers true, yet `are_equivalent` answers false |

## Left out

- The Graphviz visualizer (`bdd/visualizer.py`) is left out because it is file and process I/O.
- `__repr__` and `__str__` of every class are left out. The exception is
  formula printing, which is modelled by `Parser.ToTokens` and `Parser.Show`
  for the round trip.
- `__hash__` values are left out: the model keys its tables by node identity
  and by label-and-children signature.
- The `BDD.nodes` list is left out: no query in the library reads it.
- `create_terminal` gives each terminal a fresh `id`. The model identifies
  terminals by value: only the two shared singletons ever reach a diagram.
- `isalpha`, `isalnum` and `isspace` are modelled on ASCII only.
- Performance tests and timing are left out.
- `TruthTables.FromFunction` assumes the function given is total. An
  exception raised by it is not modelled.
- The reducer keeps no visited memo, so its statistics count the tree
  unfolding of the diagram (`Nodes.DecisionCount`).
- A diagram without a root fails with an attribute error in Python. The
  model gives this failure the value `EmptyDiagram`.
- `are_equivalent` copies an unreduced diagram through the constructor,
  replaces the copy's root by the original root and reduces the copy. The
  model reduces the given root, which is the same node graph. The
  constructor's own build of the formula is discarded, and its possible
  failure is left out: that failure needs a formula with a variable its
  diagram's order lacks.
- Canonicity.OrOfAndReducesToFive: the library's test only promises at most
  five nodes. The lemma proves exactly five, for the default sorted order.
- Diagrams.IsSatisfiable and Diagrams.IsValid: their contracts state
  soundness only. A path search can reach a terminal through a path that
  tests one variable twice, both ways. Exactness is proved in
  `Diagrams.QueriesExact` for diagrams that never test a variable twice along
  a path, and every diagram the constructor builds over a repeat-free order
  is one.
- Operations.EquivalentSound: states only that a true answer is correct.
  Completeness is proved for roots whose labels ascend in string order
  (`Canonicity.EquivalentExact`). It can also hold for other roots, as for
  two diagrams over one shared order; the finding below shows an input
  where it fails.
- Diagrams.BuildErrors: does not promise that a variable missing from the
  order makes the build fail. Evaluation short-circuits, so a build fails
  only when some row evaluates the missing variable
  (`Diagrams.BuildSkipsUnread`).

## Findings

| source | as written | input that shows it | evidently intended | confidence | as-written member | corrected member |
|---|---|---|---|---|---|---|
| bdd/operations.py:274-301 | `are_equivalent` reduces both diagrams and compares the roots structurally, although its documentation promises true exactly when the two diagrams represent the same function and `BDD` accepts any variable order | `p ∧ q` built over the order [q, p] and over the order [p, q]: both reduced roots mean `p ∧ q` but test the variables in different orders, so the answer is false | true exactly when the two diagrams mean the same function, whatever their orders | not executed; medium: the documented intent is explicit, but callers may always use one order | Equivalence.OrderSensitiveBuilt | Equivalence.ByTableExact |
