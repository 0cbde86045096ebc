# LSP runtime library: expressions, formatting, bookmarks, URLs

This project models the parts of the LSP runtime library in which several
mechanisms meet, and proves what they promise together:

* **Expressions** are trees that are evaluated against an environment. The
  environment of `Variables` is a sorted array that also remembers what the
  resolver below it answered, under a flattened name (`a[1]` becomes `a_1`).
  The theorems say when this memory cannot be noticed, over every run of
  operations and over the evaluation of every tree, and what an evaluation can
  depend on.
* **String templates** (`text ${name} text`) are compiled to such trees by a
  scanner that shares its input with the tokenizer. Compiling keeps the meaning.
* **The formatter and the tokenizer** print and read the same numbers. The
  specifier language takes its modifiers in any order. Escapes are undone by
  the scanners.
* **Bookmarks** of several origins are merged in place, in three passes.
* **Percent decoding** groups runs of encoded bytes before they are decoded as
  UTF-8.
* **Parameter lists** splice copies of their own objects.

Code that works step by step is a class or a method with loops here, proved
against a function of the old state; the theorems are lemmas about these
functions. Code whose behaviour is not the point (arithmetic, casts of texts and
floats, printing of floats, the case of letters outside ASCII and Cyrillic, the
grammar of expressions, the table of keywords) is a parameter: the theorems hold
for all of its behaviours, and assume no law about it. The one demand is that a
parser never moves the input backwards or behind its end. The files follow the
source files:

| file | contents |
|---|---|
| `Basics`, `Numerals`, `Texts` | shared vocabulary |
| `Names`, `FlatNames` | string order and flattened names |
| `Evaluator`, `EvaluatorLaws`, `TreeEvaluation`, `Environments` | trees, what their operators mean, their evaluation on the heap, environments as values |
| `SortedTables`, `VariableTables`, `VariableRuns` | the variable table, its operations, runs of them |
| `Expressions`, `Templates` | expressions with roots, string templates |
| `Substitutions`, `SubstitutionParser`, `SubstitutionText` | substitutions, their parser on the shared tokenizer, and how they are written |
| `Parameters` | parameter lists |
| `Lexing`, `TokenizerClass`, `TokenStream`, `TokenRuns`, `TokenSpelling`, `NumberSpelling`, `NumberText`, `StringLiterals` | the tokenizer and what it reads |
| `Specifiers`, `SpecifierText`, `SpecifierBraces`, `SpecifierReading`, `Printing`, `Formatting`, `FormatValues`, `FormatPieces`, `FormatMeaning` | the formatter |
| `Bookmarks`, `MergeTheorems` | merging |
| `Utf8`, `MalformedUtf8`, `Url`, `UrlRoundTrip`, `UrlEscapes` | percent decoding |

## Properties that hold under a condition

Some round trips do not hold for every input. Each of them is proved with its
exact condition, and with an input for which it fails:

* **Percent decoding** loses the characters U+0800 to U+0FFF when they are
  encoded, as the reader of UTF-8 takes the lead byte 0xE0 for an error; and
  everything but U+0000 that is encoded behind an encoded U+0000 in one run, as
  the reader does not advance over a zero byte (`UrlRoundTrip.DecodeRendered`,
  `UrlRoundTrip.LostCharacters`).
* **Octal and unsigned numbers** are printed with a minus sign in front of the
  digits of the unsigned value; negative numbers do not come back, except the
  least one (`FormatValues.PrintedIntegerReadsBack`, `NumberText.MinusOneInOctal`).
* **Specifiers** are read back from a template, in any order of their modifiers,
  exactly if neither padding is a closing brace and no type without a letter
  comes last (`SpecifierReading.SpecifierRoundTrip`). The specifier ends at the
  first closing brace, also at one that was meant as padding: `{^}>:5}` is the
  malformed specifier `^` and some text (`SpecifierReading.BraceCannotPad`). A
  type without a letter is malformed at the end of a specifier and well-formed
  before another modifier (`SpecifierText.TypelessLast`).
* **Padding** is computed in a signed type: a text is left alone when 2^63
  characters or more are missing (`Formatting.PaddingConserves`,
  `Formatting.HugeWidthIgnored`).
* **The cache of variables** can be noticed over a resolver that does not answer
  queries with one flat name alike. The process environment is such a resolver
  (`Environments.TransparentIffCoherent`, `VariableRuns.QueriesLeaveNoTrace`,
  `Environments.EnvironmentCoherence`, `Environments.EnvironmentLeaks`).
* **The outcome of `unset`** shows the cache over coherent resolvers too: it is
  that of the plain map of what was written exactly if the name is written, or no
  query for it has been answered since it was last removed
  (`VariableRuns.UnsetOutcome`, `VariableRuns.UnsetSeesTheCache`).
* **Format templates** without a well-formed specifier come out as they are
  exactly if they have no escape outside specifiers; a backslash at the end
  counts as one and is lost (`FormatMeaning.MalformedReproduced`, `FormatMeaning.TrailingBackslash`).
* **Flat names** differ for different indexes under one name, but not under two:
  `a_1[2]` is stored as `a[1][2]` is (`FlatNames.FlatNamesDiffer`,
  `FlatNames.FlatNamesMeet`).
* **Tokens** are read as they are spelled, unless the next character prolongs
  them. The letter of an exponent prolongs a number even without digits: `1e` is
  the integer 1 (`NumberSpelling.NumberRead`, `NumberSpelling.LetterSwallowed`).
* **String order**: two different strings compare as zero if one of them goes on
  with a zero character (`Names.ComparesEqual`, `Names.DifferentButEqual`).
  Variable names are strings without zero characters here.
* **Merging bookmarks** from two origins in either order can differ in the LSP
  bit, in exactly one situation (`MergeTheorems.MergesNearlyCommute`,
  `MergeTheorems.OrderTells`). The header
  `include/lsp-plug.in/fmt/bookmarks.h:257-269` does not mention that bookmarks
  that are added get the LSP bit; the code does it, and so does the model.

## Model

| member | source | states |
|---|---|---|
| `Templates.TemplateMeaning` | src/main/expr/Expression.cpp:291-399 | compiling a template of texts and substitutions keeps its meaning: a lone substitution keeps its value and type, anything else is the left-to-right concatenation, with the first failure's status; for every environment |
| `Templates.EscapedTemplate` | src/main/expr/Expression.cpp:291-399 | doubling every '$' makes any text a template for itself |
| `Templates.EveryTemplateMeaning` | src/main/expr/Expression.cpp:291-399 | for every template text and every parser of substitutions: compiling fails exactly as the first substitution that fails, and otherwise keeps the meaning of the segments |
| `Templates.ScanSegments` | src/main/expr/Expression.cpp:299-367 | the scanner compiles every text to the spine of its segments; a dollar sign goes before another one and at the end, and stays before any other character |
| `SubstitutionParser.ParseString` | src/main/expr/Expression.cpp:291-399 | the scanner and one tokenizer on the same input, over any number of substitutions, return exactly what the compiler as a function of the text returns, from wherever the input stands |
| `Templates.PrependedText` | src/main/expr/Expression.cpp:221-265 | prepending a text to a tree, forced or not, puts it behind the text of the tree in every environment |
| `Templates.ScanRendered` | src/main/expr/Expression.cpp:299-399 | scanning a rendered list of segments gives the left-nested spine of these segments |
| `Templates.SpineText` | src/main/expr/evaluator.cpp:1231-1266 | evaluating a spine gives the concatenation of its segments, and its effects in their order |
| `Templates.SpineShape` | src/main/expr/Expression.cpp:221-265 | a spine that is not a string is a lone substitution |
| `SubstitutionParser.ParseSubstitution` | src/main/expr/Expression.cpp:267-289 | parses a name with indexes, or an expression, with the tokenizer on the shared input, with the status of the first token that does not fit; the input is left right behind the closing brace with nothing read ahead |
| `SubstitutionParser.ParseIdentifier` | src/main/expr/parser.cpp:102-206 | the loop over the indexes behind a name ends, and builds the reference that the parsing function gives: a lone word in brackets is a variable, anything else is left to the grammar |
| `SubstitutionText.PartReads` | src/main/expr/parser.cpp:102-206 | `${ name [ word ] [expression] ... }`, with any number of indexes and white space anywhere between, is read as the variable of that name with those indexes in their order, wherever it stands in a template |
| `SubstitutionText.NameUnclosed` | src/main/expr/Expression.cpp:267-289 | the end of the input behind a name that is not closed is reported as such |
| `SubstitutionText.NameMisplaced` | src/main/expr/Expression.cpp:267-289 | any other token there is reported as a bad one |
| `SubstitutionText.NamedTemplate` | src/main/expr/Expression.cpp:267-399 | the meaning of a template of texts, names with indexes and expressions, from its text through the tokenizer to its value |
| `TreeEvaluation.Evaluate` | src/main/expr/evaluator.cpp:1097-1325 | the evaluators on the heap return the outcome of the evaluation function and leave the stored variables it leaves |
| `TreeEvaluation.EvaluateShort` | src/main/expr/evaluator.cpp:427-483 | `and`/`or` evaluate the right operand exactly unless the left one decides |
| `TreeEvaluation.EvaluateItems` | src/main/expr/evaluator.cpp:1117-1145 | indexes are evaluated and cast one after another, up to the first failure |
| `TreeEvaluation.Ask` | src/main/expr/evaluator.cpp:1107-1153 | one query of a resolver on the heap, with what it stores |
| `TreeEvaluation.RepeatByDoubling` | src/main/expr/evaluator.cpp:1296-1318 | the doubling loop yields the text repeated n times with at most 2*bitlength(n) appends, its buffer never longer than the result |
| `TreeEvaluation.RepeatText` | src/main/expr/evaluator.cpp:1268-1325 | the count is cast; null, undefined and negative counts give an undefined value |
| `Evaluator.Simulation` | src/main/expr/evaluator.cpp:1097-1325 | trees evaluate alike in related states of two environments, for any relation that answering queries keeps |
| `EvaluatorLaws.TernaryChooses` | src/main/expr/evaluator.cpp:1211-1229 | over any environment, outcome and effects of `?:` behind its condition are those of the left operand if the condition is true or a number that is not zero, and of the right one if it is false or zero; the other operand is not evaluated |
| `EvaluatorLaws.LogicTable` | src/main/expr/evaluator.cpp:427-483 | operands with truth values a and b give exactly the truth value a and b, or a or b |
| `EvaluatorLaws.LogicDecided` | src/main/expr/evaluator.cpp:427-483 | a left operand that decides is the result, and nothing else is evaluated |
| `EvaluatorLaws.LogicFails` | src/main/expr/evaluator.cpp:427-483 | an operand whose cast to a boolean fails makes the operator fail with that status |
| `EvaluatorLaws.LogicLog` | src/main/expr/evaluator.cpp:427-483 | the log of queries is that of the left operand, followed by that of the right one exactly if the left one does not decide |
| `EvaluatorLaws.TernaryLog` | src/main/expr/evaluator.cpp:1211-1229 | the log of queries is that of the condition followed by that of the chosen operand alone |
| `EvaluatorLaws.StrictLog` | src/main/expr/evaluator.cpp:1231-1325 | the other operators ask what the left operand asks, and then what the right one asks |
| `EvaluatorLaws.ConcatenationLaw` | src/main/expr/evaluator.cpp:1231-1266 | concatenation gives the texts of both operands one behind the other, with the words for null, undefined and boolean values |
| `EvaluatorLaws.RepetitionLaw` | src/main/expr/evaluator.cpp:1268-1325 | repetition gives a text of n times the length in which every position holds the character of the text at the remainder, and is undefined for counts below zero and for null and undefined ones |
| `EvaluatorLaws.FirstFails` | src/main/expr/evaluator.cpp:1211-1325 | the failure of the operand that is evaluated first is the outcome, and nothing else is evaluated |
| `EvaluatorLaws.SecondFails` | src/main/expr/evaluator.cpp:1231-1325 | the failure of the second operand is the outcome |
| `EvaluatorLaws.ResolveAsks` | src/main/expr/evaluator.cpp:1097-1153 | a variable asks one query, for its name and the integers that its indexes stand for, behind the queries of the indexes |
| `EvaluatorLaws.CallCalls` | src/main/expr/evaluator.cpp:1155-1209 | a call passes the values of its arguments, in their order, and a missing function gives an undefined value |
| `EvaluatorLaws.OneItem` | src/main/expr/evaluator.cpp:1117-1145 | an argument passes its value and an index its integer; the failure of either, or of the cast of an index, is the outcome |
| `EvaluatorLaws.NothingAsked` | src/main/expr/evaluator.cpp:1155-1162 | without an environment variables and calls are undefined, and nothing is evaluated |
| `EvaluatorLaws.CastsAgree` | src/main/expr/types.cpp:525-652 | which truth value and which integer a value stands for |
| `Environments.CacheTransparent` | src/main/expr/Variables.cpp:245-301 | evaluating a tree over caching tables equals pure evaluation over the fixed answers of the environment, and keeps every answer |
| `Environments.EvaluationRepeats` | src/main/expr/Variables.cpp:245-301 | whatever was evaluated before, a tree gives the result it would have given at first |
| `Environments.TransparentIffCoherent` | src/main/expr/Variables.cpp:245-301 | over every run of queries the cache cannot be noticed if and only if queries with one flat name are answered alike |
| `Environments.StepAnswers` | src/main/expr/Variables.cpp:245-301 | a single answer is never stale; answering a coherent name keeps every answer |
| `Environments.StackIsCoherent` | src/main/expr/Variables.cpp:286-300 | coherence of the resolver at the bottom lifts through stacks of tables of any depth |
| `Environments.TopmostAnswers` | src/main/expr/Variables.cpp:268-301 | in a stack of tables of any depth, the topmost table that has the flat name answers, or else the resolver below all of them; the value is stored in every table above and nothing else changes |
| `Environments.CachedLifts` | src/main/expr/Variables.cpp:245-301 | a table over a flattening resolver answers an indexed query as the flattened one, whatever it holds |
| `Environments.FlatteningIsCoherent` | src/main/expr/Parameters.cpp:158-187 | a resolver that flattens its queries is coherent |
| `Environments.EnvironmentCoherence` | src/main/expr/EnvResolver.cpp:61-79 | the process environment is coherent if and only if no variable is named like a flattened index |
| `Environments.EnvironmentLeaks` | src/main/expr/EnvResolver.cpp:61-79 | with an environment variable a_1 the cache is noticed |
| `Environments.AnswersDecide` | src/main/expr/evaluator.cpp:1097-1229 | a tree cannot tell apart environments that answer alike for its names |
| `Environments.QueriesAreNamed` | src/main/expr/evaluator.cpp:1097-1153 | over any environment, every name passed to `resolve` is a name of the tree |
| `Environments.NamesDecide` | src/main/expr/evaluator.cpp:1097-1229 | over any stateful environment, outcome and state depend on the answers for the names of the tree only |
| `VariableTables.Variables.Set` | src/main/expr/Variables.cpp:453-473 | stores the value in the map that the sorted array stands for, nothing else changes |
| `VariableTables.Variables.SetMove` | src/main/expr/Variables.cpp:475-498 | as `set`, and leaves the source value undefined |
| `VariableTables.Variables.Unset` | src/main/expr/Variables.cpp:500-528 | removes the name and returns its value, or reports it missing |
| `VariableTables.Variables.Resolve` | src/main/expr/Variables.cpp:245-301 | answers from the map under the flattened name, or asks the resolver below with the query as it came and stores what it answers |
| `VariableTables.Variables.SearchName` | src/main/expr/Variables.cpp:252-266 | the loop over the indexes builds the flattened name |
| `FlatNames.FlattenAppend` | src/main/expr/Variables.cpp:252-266 | flattening index by index: the indexes a and then b give the flat name of b under the flat name of a |
| `FlatNames.FlattenOne` | src/main/expr/Variables.cpp:257-261 | one index appends an underscore and the number in decimal, with its sign |
| `FlatNames.IndexReadsBack` | src/main/expr/Variables.cpp:257-261 | the decimal text of an index gives the index back, with its sign |
| `FlatNames.FlatNamesDiffer` | src/main/expr/Variables.cpp:252-266 | different lists of indexes never have the same flat name under one name |
| `FlatNames.FlatNamesMeet` | src/main/expr/Variables.cpp:252-266 | under two names they do: a_1[2] and a[1][2] |
| `VariableTables.Variables.Lookup` | src/main/expr/Variables.cpp:268-284 | search and one comparison give the stored value or the position between smaller and larger names |
| `SortedTables.IndexOf` | src/main/expr/Variables.cpp:341-363 | the search returns an in-range index from which one comparison decides hit, insert-at or insert-after |
| `SortedTables.Found` | src/main/expr/Variables.cpp:453-473 | comparing equal at the search index tells membership and gives the value |
| `SortedTables.Inserted` | src/main/expr/Variables.cpp:389-430 | inserting between smaller and larger names keeps the order and adds one entry to the map |
| `SortedTables.Removed` | src/main/expr/Variables.cpp:500-528 | removing an element keeps the order and removes exactly its name |
| `VariableRuns.Run` | src/main/expr/Variables.cpp:453-528 | from the empty table, every run of operations keeps the array strictly sorted and equal to a finite map |
| `VariableRuns.QueriesLeaveNoTrace` | src/main/expr/Variables.cpp:245-301 | every run of set, unset and resolve answers every query as the plain map of what was written, without the cache, if and only if the resolver below is coherent |
| `VariableRuns.LastWriteDecides` | src/main/expr/Variables.cpp:453-528 | over any resolver, coherent or not, the last write of a name decides: its value stays whatever is asked, and a removed name is missing until somebody asks for it |
| `VariableRuns.UnsetOutcome` | src/main/expr/Variables.cpp:500-528 | after any run over a coherent resolver, `unset` returns what the plain map of what was written returns, if and only if the name is written or no query for it has been answered since it was last removed |
| `VariableRuns.RunStores` | src/main/expr/Variables.cpp:245-301 | which names a table holds after a run: those written, those remembered from queries, and old ones that were not removed |
| `VariableRuns.UnsetSeesTheCache` | src/main/expr/Variables.cpp:500-528 | a name that nobody wrote is reported missing before it was asked for, and with its value after |
| `Names.ComparesEqual` | src/main/runtime/LSPString.cpp:1557-1575 | when two strings compare as zero: exactly if they are equal or one goes on with a zero character |
| `Names.FirstDifference` | src/main/runtime/LSPString.cpp:1557-1575 | the first difference decides, by the difference of the characters; of a string and its beginning the beginning is less |
| `Names.DifferentButEqual` | src/main/runtime/LSPString.cpp:1557-1575 | two different strings that compare as zero |
| `Names.CompareNames` | src/main/runtime/LSPString.cpp:1557-1575 | on names, zero means equality and the order is antisymmetric |
| `Names.CompareTransitive` | src/main/runtime/LSPString.cpp:1557-1575 | the order of names is transitive |
| `Expressions.DependenciesAreNames` | src/main/expr/Expression.cpp:420-505 | the dependencies are the names of all trees, each once |
| `Expressions.ScannedInOrder` | src/main/expr/Expression.cpp:437-505 | the dependencies of a tree are listed in the order in which they are first written in it |
| `Expressions.QueriesAreDependencies` | src/main/expr/Expression.cpp:437-505 | over any environment, every name passed to `resolve` in the evaluation of a root is a dependency |
| `Expressions.DependenciesDecide` | src/main/expr/Expression.cpp:88-112 | coherent environments that agree on the dependencies give the same results and status |
| `Expressions.RootsIndependent` | src/main/expr/Expression.cpp:88-112 | over a coherent environment no root depends on those before it: the results are those of each root alone, up to the first one that fails, whose status is returned |
| `Expressions.Expression.AddDependency` | src/main/expr/Expression.cpp:437-457 | appends the name unless it is listed |
| `Expressions.Expression.HasDependency` | src/main/expr/Expression.cpp:507-516 | tells whether the name is listed |
| `Expressions.Expression.ScanDependencies` | src/main/expr/Expression.cpp:459-505 | extends the list by the names of the tree in scan order |
| `Expressions.Expression.PostProcess` | src/main/expr/Expression.cpp:420-435 | scans every root that has a tree |
| `Expressions.Expression.EvaluateAll` | src/main/expr/Expression.cpp:88-112 | evaluates the roots in order up to the first failure, stores the results, leaves the roots behind a failure as they were and returns the first result; no root is a bad state |
| `ParameterLists.Parameters.LookupByName` | src/main/expr/Parameters.cpp:83-103 | returns the least matching index |
| `ParameterLists.FirstNamedLeast` | src/main/expr/Parameters.cpp:83-103 | the lookup finds a name if it is there, and no earlier entry has it |
| `ParameterLists.ResolvesFirst` | src/main/expr/Parameters.cpp:144-187 | for every list and query, the answer is the value of the first entry with the flattened name, and not found exactly if there is none |
| `ParameterLists.Parameters.Resolve` | src/main/expr/Parameters.cpp:158-187 | looks up the flattened name |
| `ParameterLists.ParametersFlatten` | src/main/expr/Parameters.cpp:158-187 | a parameter list is a flattening, hence coherent, resolver |
| `ParameterLists.Parameters.GetAt` | src/main/expr/Parameters.cpp:912-918 | the value at the index, or an invalid value status |
| `ParameterLists.Parameters.GetNamed` | src/main/expr/Parameters.cpp:929-935 | the value of the first entry of the name, or not found |
| `ParameterLists.Parameters.InsertRange` | src/main/expr/Parameters.cpp:285-326 | splices fresh copies in, also of the receiver itself; objects stay distinct, removing the range restores the very list |
| `ParameterLists.Parameters.AddRange` | src/main/expr/Parameters.cpp:328-350 | appends fresh copies, also of the receiver itself |
| `ParameterLists.Parameters.SetRange` | src/main/expr/Parameters.cpp:245-283 | replaces the list by fresh copies, a negative end meaning the end of the list |
| `ParameterLists.RangeStatuses` | src/main/expr/Parameters.cpp:245-350 | which ranges are accepted, and with which status the others are refused |
| `ParameterLists.Parameters.RemoveRange` | src/main/expr/Parameters.cpp:1733-1749 | cuts exactly the range out, with the status of a bad range |
| `ParameterLists.InsertThenRemove` | src/main/expr/Parameters.cpp:285-326 | inserting and removing the inserted range is the identity |
| `ParameterLists.InsertedLookup` | src/main/expr/Parameters.cpp:285-326 | inserted parameters hide the later ones of their names and change no other lookup |
| `Tokenizers.Tokenizer.GetToken` | src/main/expr/Tokenizer.cpp:575-731 | the tokenizer object reads the token, text, number and offset that the lexing function gives, honours `get` and pending ungets |
| `TokenSpelling.SymbolRead` | src/main/expr/Tokenizer.cpp:575-731 | for every flag and keyword table, the spelling of each operator and bracket, written down independently, is read as that token and no further, unless the next character makes a longer one |
| `TokenSpelling.SymbolProlonged` | src/main/expr/Tokenizer.cpp:575-731 | which longer token is read if it does |
| `TokenSpelling.SignRead` | src/main/expr/Tokenizer.cpp:711-717 | with the flag for signs, plus and minus are operators |
| `TokenSpelling.WordRead` | src/main/expr/Tokenizer.cpp:719-727 | a word is the keyword that the table has for it, and a plain word otherwise or if the flags exclude keywords |
| `TokenSpelling.NameRead` | src/main/expr/Tokenizer.cpp:575-731 | a colon in front of a word makes it an identifier, and is a symbol in front of anything else |
| `TokenSpelling.ColorRead` | src/main/expr/Tokenizer.cpp:353-375 | with the flag for colours, hex digits behind a sharp or an at sign make a colour with these digits |
| `TokenSpelling.BlanksPassed` | src/main/expr/Tokenizer.cpp:177-197 | white space in front of a token changes nothing but its offset |
| `TokenSpelling.NothingRead` | src/main/expr/Tokenizer.cpp:575-731 | the end is read exactly where nothing but white space is left |
| `TokenSpelling.OnlyBlanks` | src/main/expr/Tokenizer.cpp:177-197 | a text of white space is the end of the input |
| `Tokenizers.Tokenizer.LookupNumber` | src/main/expr/Tokenizer.cpp:378-549 | reads the longest number as the lexing function does, including misplaced separators, fractions and exponents |
| `NumberSpelling.NumberRead` | src/main/expr/Tokenizer.cpp:378-549 | every spelling of a number, with a sign, a prefix in either case, separators, a fraction and an exponent, is one token: a float if it has a dot or digits of an exponent, and otherwise an integer with the wrapped value of its digits in their radix |
| `NumberSpelling.LetterSwallowed` | src/main/expr/Tokenizer.cpp:378-549 | the letter of an exponent without digits is read with the number |
| `NumberSpelling.SeparatorMisplaced` | src/main/expr/Tokenizer.cpp:378-549 | a separator right behind a dot or behind the letter or sign of an exponent ends an unknown token |
| `NumberSpelling.ExponentUnfinished` | src/main/expr/Tokenizer.cpp:378-549 | a sign behind the letter of an exponent needs digits; without them the token is unknown |
| `Tokenizers.Tokenizer.ReadDigits` | src/main/expr/Tokenizer.cpp:451-466 | the digit loop in wrapping arithmetic |
| `Tokenizers.Tokenizer.LookupString` | src/main/expr/Tokenizer.cpp:278-351 | reads adjacent literals into one value and skips the white space between them |
| `Tokenizers.Tokenizer.LookupIdentifier` | src/main/expr/Tokenizer.cpp:251-276 | reads the longest identifier |
| `Tokenizers.Tokenizer.SkipWhitespace` | src/main/expr/Tokenizer.cpp:177-197 | stops at the first character that is not white space |
| `Tokenizers.Tokenizer.Commit` | src/main/expr/Tokenizer.cpp:158-169 | takes the character read ahead into the value of the token |
| `TokenStream.RunConserves` | src/main/expr/Tokenizer.cpp:575-731 | over any run of calls with any flags, the input consumed is the white space skipped and the spelling of the tokens, nothing lost or read twice |
| `TokenRuns.ReadTokens` | src/main/expr/Tokenizer.cpp:575-731 | calls with any flags read the tokens of the run, and the input is ahead by at most one character |
| `TokenStream.TokenWritten` | src/main/expr/Tokenizer.cpp:575-731 | how each token is spelled, the spelling of string literals being one that is read as the same literals; every token other than an unknown one and the end consumes a character |
| `TokenStream.BraceReadsNoFurther` | src/main/expr/Tokenizer.cpp:158-169 | behind '}' nothing is read ahead |
| `StringLiterals.StringsRoundTrip` | src/main/expr/Tokenizer.cpp:278-351 | literals made of plain characters, escapes and backslashes that escape nothing, separated by any white space, are read as one string token whose value is their texts together |
| `StringLiterals.QuoteWrites` | src/main/expr/Tokenizer.cpp:278-351 | every text can be written as a literal, with the newline, the tab, the return, the quote and the backslash as escapes |
| `StringLiterals.LiteralsAreAtoms` | src/main/expr/Tokenizer.cpp:278-351 | nothing else is a closed literal: whatever is read as one is made of these parts |
| `StringLiterals.UnclosedLiteral` | src/main/expr/Tokenizer.cpp:287-293 | a literal that is not closed is an error at the end of the input |
| `NumberText.SignedRoundTrip` | src/main/expr/Tokenizer.cpp:378-549 | decimal, binary and hexadecimal texts are read back as the number, for every 64-bit number, width and sign flag |
| `NumberText.UnsignedRoundTrip` | src/main/expr/format.cpp:626-687 | octal and unsigned texts come back exactly for numbers that are not negative and for the least one; what they give otherwise |
| `NumberText.MinusOneInOctal` | src/main/expr/format.cpp:668-687 | the octal text of -1 is read back as 1 |
| `NumberText.NumberRead` | src/main/expr/Tokenizer.cpp:378-549 | a sign, a radix prefix and digits are one token with the wrapped value of the digits |
| `Specifiers.FmtSpec.ParseBuffer` | src/main/expr/format.cpp:244-566 | the parse loop terminates and gives the fields that the parsing function gives, or fails with it |
| `Specifiers.FmtSpec.ReadType` | src/main/expr/format.cpp:410-543 | the type modifier with its step back when there is no type letter |
| `Specifiers.FmtSpec.ReadAlign` | src/main/expr/format.cpp:341-391 | the seven alignments |
| `SpecifierReading.SpecifierRoundTrip` | src/main/expr/format.cpp:212-566 | the modifiers of a specifier, in any order and before a closing brace anywhere in a template, are read back as exactly that specifier if and only if no padding is a closing brace and no type without a letter comes last |
| `SpecifierReading.SpecifierPrints` | src/main/expr/format.cpp:1042-1057 | in a template, such a specifier prints its parameter alike in every order of its modifiers, and uses up a position exactly if it has neither name nor index |
| `SpecifierReading.BraceCannotPad` | src/main/expr/format.cpp:235-240 | a padding with closing braces that the parser of the buffer accepts, and that never gets into the buffer |
| `SpecifierText.SpecifierRead` | src/main/expr/format.cpp:244-566 | modifiers for different fields are all read, if and only if the last one is not a type without a letter |
| `SpecifierText.OrderFree` | src/main/expr/format.cpp:244-566 | permuting modifiers for different fields changes nothing |
| `SpecifierText.ParseGivesSpecifiers` | src/main/expr/format.cpp:244-566 | the parser gives nothing but specifiers that can be written |
| `SpecifierText.PartsGive` | src/main/expr/format.cpp:182-210 | every specifier is given by its modifiers |
| `SpecifierText.TypelessLast` | src/main/expr/format.cpp:459-464 | two specifiers that are malformed because the type without a letter is last |
| `Printing.IntToDec` | src/main/expr/format.cpp:604-624 | prints the signed decimal text, the least number included |
| `Printing.IntToRadix` | src/main/expr/format.cpp:647-712 | prints the signed binary and hexadecimal texts |
| `Printing.UintToRadix` | src/main/expr/format.cpp:626-687 | prints the digits of the unsigned value behind the sign of the signed one |
| `Printing.IntAppendExtra` | src/main/expr/format.cpp:577-602 | fills with zeros up to the width and adds the sign |
| `Printing.AppendSignedDigits` | src/main/expr/format.cpp:610-617 | the loop with truncating division appends the digits of the magnitude |
| `Printing.NumberFromRight` | src/main/expr/format.cpp:577-624 | reversing digits, zeros and sign written from the right gives the number from the left |
| `Printing.BooleansAreCasedTexts` | src/main/expr/format.cpp:822-861 | a boolean type spells true and false as the text type of the same case spells these words, with the case functions of the strings |
| `Formatting.PrintValue` | src/main/expr/format.cpp:886-937 | casts and prints by the type of the specifier, or fails with the status of the cast |
| `FormatValues.PrintedIntegerReadsBack` | src/main/expr/format.cpp:604-712 | what any integer type prints, with the prefix of its radix behind the sign, is read back by the tokenizer as one integer: as the number that was printed, if and only if the type is signed, the number is not negative, or it is the least one |
| `FormatValues.PrintedInteger` | src/main/expr/format.cpp:577-712 | the sign, digits of the radix, in capitals for `X` and in small letters for all other types, at least as many as the width says and with no other leading zeros |
| `FormatValues.NumberPrinted` | src/main/expr/format.cpp:886-916 | integer types print a value of another type as the number that it stands for, or fail with the status of the cast |
| `FormatValues.SpecialPrinted` | src/main/expr/format.cpp:568-577 | null and undefined values print the same words with every type but those of floats |
| `FormatValues.FloatPrinted` | src/main/expr/format.cpp:917-921 | the types of floats print the text of the cast value, or fail with the status of the cast |
| `FormatValues.CasedTextPrinted` | src/main/expr/format.cpp:813-846 | the text types with a case keep every character but its case: which letters become capitals and which small |
| `FormatValues.PlainTextPrinted` | src/main/expr/format.cpp:922-936 | the other text types print a text as it is |
| `FormatValues.TextPrinted` | src/main/expr/format.cpp:922-936 | text types print any value as its text |
| `FormatValues.BooleanPrinted` | src/main/expr/format.cpp:848-863 | boolean types print what has a truth value as the text type of the same case prints that word, or fail with the status of the cast |
| `FormatValues.PairsChange` | src/main/io/charset.cpp:2730-2821 | each capital letter of ASCII and the Cyrillic blocks and its small letter are mapped to each other, and to themselves |
| `FormatValues.OnlyPairsChange` | src/main/io/charset.cpp:2730-2821 | no other character of these blocks changes |
| `FormatValues.OthersChange` | src/main/io/charset.cpp:2730-2821 | all other characters are mapped by the functions of the platform |
| `Formatting.PaddingConserves` | src/main/expr/format.cpp:945-977 | an aligned text with a width is padded to exactly max(length, widths), if and only if less than 2^63 characters are missing; otherwise and without alignment not at all |
| `Formatting.PaddingShared` | src/main/expr/format.cpp:948-978 | how each alignment shares the padding out |
| `Formatting.HugeWidthIgnored` | src/main/expr/format.cpp:946-947 | a width of 2^63 is not padded to |
| `Formatting.PaddedTextContents` | src/main/expr/format.cpp:979-1000 | the text is kept whole, with left padding before and right padding behind it and nothing else |
| `Formatting.WritePadded` | src/main/expr/format.cpp:945-1000 | the padding is computed and written around the text; the countdown loops end |
| `Formatting.EmitParameter` | src/main/expr/format.cpp:865-1004 | fetches, prints and pads a parameter, or fails and writes nothing |
| `Formatting.ReadSpecifier` | src/main/expr/format.cpp:212-566 | reads up to the closing brace; a malformed or unterminated specifier is written out again as it was |
| `Formatting.Format` | src/main/expr/format.cpp:1006-1078 | the scanner writes exactly what the formatting function of the template and the parameters gives, and ends with its status |
| `FormatPieces.TemplateMeaning` | src/main/expr/format.cpp:1006-1078 | formatting with any template gives the texts of its pieces in order, up to the first failure |
| `FormatPieces.PiecesOfTemplate` | src/main/expr/format.cpp:1018-1076 | every text is a template: it is the source of its pieces and its tail |
| `FormatPieces.PiecesOfSource` | src/main/expr/format.cpp:1018-1076 | a template is made of pieces in one way only |
| `FormatPieces.EscapeRoundTrip` | src/main/expr/format.cpp:1021-1076 | escaping backslash and braces in any text formats back to the text |
| `FormatMeaning.MalformedReproduced` | src/main/expr/format.cpp:549-563 | any template whose specifiers are all malformed or unterminated comes out with only the escapes removed, and as it is if and only if, outside specifiers, no backslash stands before a backslash or a brace or at the end |
| `FormatMeaning.TrailingBackslash` | src/main/expr/format.cpp:1019-1034 | a backslash at the end of a template is lost |
| `FormatMeaning.KthAnonymous` | src/main/expr/format.cpp:1040-1055 | in any template, the k-th valid anonymous specifier prints the value of parameter k, or fails if there is none, whatever stands between |
| `FormatMeaning.NamedPrints` | src/main/expr/format.cpp:865-884 | in any template, a named specifier prints the value of the first parameter with its name, fails with not found exactly if there is none, and takes no position |
| `FormatMeaning.IndexedPrints` | src/main/expr/format.cpp:865-884 | in any template, an indexed specifier prints the parameter at its index, or fails if there is none, and takes no position |
| `FormatMeaning.NoParameters` | src/main/expr/format.cpp:867-870 | without a parameter list every specifier prints the undefined value |
| `FormatMeaning.MeaningSplits` | src/main/expr/format.cpp:1040-1055 | positions are used up by the anonymous well-formed specifiers alone |
| `FormatMeaning.ParseIgnoresIndex` | src/main/expr/format.cpp:256-546 | whether a specifier is malformed does not depend on its position |
| `Bookmarks.MergeBookmarks` | src/main/fmt/bookmarks.cpp:58-147 | the exact new list and change count, also when source and destination are one list; bad arguments change nothing |
| `Bookmarks.BookmarkExists` | src/main/fmt/bookmarks.cpp:47-56 | tells whether a live entry has the path |
| `Bookmarks.MarkStep` | src/main/fmt/bookmarks.cpp:65-94 | null entries go and the origin of every other entry is set or cleared by presence in the source |
| `Bookmarks.AddStep` | src/main/fmt/bookmarks.cpp:96-124 | appends the sources with new paths, marked with the origin and the LSP bit |
| `Bookmarks.PurgeStep` | src/main/fmt/bookmarks.cpp:126-140 | removes exactly the entries without an origin, and no entry is null when it is read |
| `MergeTheorems.MergePathwise` | src/main/fmt/bookmarks.cpp:58-147 | merging acts on each path alone and keeps paths unique |
| `MergeTheorems.OriginBitTellsPresence` | src/main/fmt/bookmarks.cpp:81-140 | the origin bit is set if and only if the path is in the source; other bits stay; which paths are listed |
| `MergeTheorems.AddedInOrder` | src/main/fmt/bookmarks.cpp:96-124 | the added bookmarks have the paths and the names of first occurrences, in source order, and exactly the bits of the origin and the LSP bit |
| `MergeTheorems.SurvivorsInOrder` | src/main/fmt/bookmarks.cpp:126-140 | the survivors are the marked old entries at exactly the positions that keep a bit, in increasing order, with their paths and names |
| `MergeTheorems.MarkedBits` | src/main/fmt/bookmarks.cpp:81-94 | which bits an old entry has after a merge, bit by bit |
| `MergeTheorems.ChangesCounted` | src/main/fmt/bookmarks.cpp:58-147 | the count of changes is the number of null entries, of old entries that gain or lose bits, of new paths, and of old entries that go |
| `MergeTheorems.MergeIdempotent` | src/main/fmt/bookmarks.cpp:58-147 | a second merge changes nothing and counts nothing |
| `MergeTheorems.NoChangesIffUnchanged` | src/main/fmt/bookmarks.cpp:142-144 | the count is zero if and only if the list is unchanged |
| `MergeTheorems.MergesNearlyCommute` | src/main/fmt/bookmarks.cpp:58-147 | two merges in either order list the same paths with the same bits except the LSP bit, and exactly when that one differs |
| `MergeTheorems.OrderTells` | src/main/fmt/bookmarks.cpp:58-147 | a bookmark for which the order of two merges shows in the LSP bit |
| `Url.Decode` | src/main/fmt/url.cpp:49-116 | appends the decoding of the whole string, every access to source and buffer in range; the part before a malformed escape stays appended |
| `Url.ReadBytes` | src/main/fmt/url.cpp:66-96 | reads a whole run of encoded bytes into the buffer or fails |
| `Url.Store` | src/main/fmt/url.cpp:83-92 | a full buffer grows before the byte is stored, so the write is below the capacity |
| `UrlRoundTrip.DecodeRendered` | src/main/fmt/url.cpp:39-116 | any mixed writing of a text (section 2.1 of RFC 3986) is decoded without error, and to the text if and only if no encoded character is U+0800 to U+0FFF and no encoded U+0000 is followed directly by an encoded character other than U+0000 |
| `UrlRoundTrip.LostCharacters` | src/main/io/charset.cpp:881-960 | two writings that do not come back |
| `UrlEscapes.FailsExactly` | src/main/fmt/url.cpp:49-116 | decoding succeeds if and only if two hex digits follow every percent sign, and reports corrupted data otherwise |
| `UrlEscapes.KeptBeforeRun` | src/main/fmt/url.cpp:60-104 | what stays appended of a malformed string is what is decoded of the part before the run with its first malformed escape |
| `UrlEscapes.FirstFailure` | src/main/fmt/url.cpp:60-104 | every malformed string has such a run |
| `Utf8.DecodeEncoded` | src/main/runtime/LSPString.cpp:1832-1848 | UTF-8 bytes (section 3 of RFC 3629) are decoded to the text if it is readable, and to another text otherwise |
| `Utf8.ReadEncoded` | src/main/io/charset.cpp:881-960 | one encoded character is read back with all its bytes |
| `Utf8.ZerosAfterZero` | src/main/io/charset.cpp:892-897 | the reader does not advance over a zero byte, so only zeros follow |
| `Utf8.UnreadableLead` | src/main/io/charset.cpp:907-911 | the lead byte 0xE0 is refused |
| `MalformedUtf8.StrayByte` | src/main/io/charset.cpp:900-925 | a tail byte, a lead byte of a needlessly long pair, 0xE0 and every byte from 0xF8 on is replaced alone by U+FFFD |
| `MalformedUtf8.CutShort` | src/main/io/charset.cpp:926-934 | a lead byte without room for its tails is replaced with all that is left by one U+FFFD |
| `MalformedUtf8.BrokenSequence` | src/main/io/charset.cpp:936-947 | a lead byte with too few tails is replaced with them; reading goes on at the byte that is no tail, or behind it if it is zero |
| `MalformedUtf8.WholeSequence` | src/main/io/charset.cpp:936-960 | a complete sequence gives the number that its bits encode, but U+FFFD for surrogates and for four bytes where fewer are enough |
| `MalformedUtf8.StrayEscape` | src/main/fmt/url.cpp:60-104 | a single escaped byte from 0x80 on, as in %FF, is decoded to one U+FFFD |

## Left out

- Memory: allocation does not fail, and nothing is freed; the branches for failed allocations are dropped.
- Streams: reading ends at the end of the input only, and writing does not fail.
- Floating point: a float is its bit pattern; `float_to_str`, the value of a float token and all arithmetic are parameters. The tokenizer still finds where a float ends.
- Operators of the evaluator other than `and`, `or`, `?:`, concatenation and repetition: their order of evaluation is modelled, what they compute is a parameter; algebraic laws do not hold as written (src/main/expr/evaluator.cpp:118).
- The case of letters that are neither ASCII nor Cyrillic: parameters for `towlower` and `towupper`.
- Casts of texts and floats: parameters that return a status and the value they leave; the other casts to integers and booleans are modelled. The text of a value is modelled, except that of a float.
- Environments.EvaluationRepeats: it assumes that the integer or boolean which the evaluators read of a value of another type is a function of that value. After a cast that gives up on a text the source reads what the freed text left behind (src/main/expr/types.cpp:545-548, src/main/expr/evaluator.cpp:1125-1127), so the result of a tree that uses such an index is not fixed.
- TreeEvaluation.EvaluateItems: the same assumption on an index that is no number.
- TreeEvaluation.RepeatText: the same assumption on a count that is no number; after a failed cast of a text the source reads bits of its pointer (src/main/expr/evaluator.cpp:1288-1289).
- The function table of `Variables`: `bind_func` inserts a duplicate after it updated an entry, so it is no map; calls are answered by a parameter and have no side effect on the environment.
- Names with zero characters in variable tables: such names are not strictly ordered (`Names.ComparesEqual`).
- The grammar of expressions (src/main/expr/parser.cpp) beyond names with indexes: `Templates` takes any parser of substitutions; `Substitutions` models the one of the source over any grammar.
- SubstitutionParser.ParseSubstitution: an expression that starts with something else than a word is read by a parameter, which also tells which token ended it and where the input stands behind that token.
- Tokenizers.Tokenizer.LookupNumber: finds where a float ends, but not its value.
- The table of keywords: a parameter.
- `Tokenizer::unget_token` and the typed accessors; `get_token` with tokens pending is modelled.
- Expressions.Expression.EvaluateAll: does not say what is left in the result of the root whose evaluation fails.
- Bookmarks as objects: the lists hold values here, so bookmarks that two lists share are not modelled, and the name of a bookmark is copied with it.
- Url.Decode: decodes whole strings, from the first to the last character; sub-ranges are left out.
- `Parameters`: the typed `get`, `set`, `insert` and `drop` wrappers, swapping and cloning; entries of the list are never null, as no operation adds a null one.
- The position counter of the formatter and the indexes of the scanners are not bounded by the width of `size_t`; numbers in specifiers are.
- Printing.IntToRadix and Printing.UintToRadix: each stands for two functions of the source, which differ in the radix only.
