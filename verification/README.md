# Verified model of csv-nix-tools

csv-nix-tools is a set of C programs that pass CSV streams through pipes. This
project models the parts of it whose correctness is least obvious and proves,
for all inputs and all runs, what they promise. Code that changes state in C is
a class or a method with loops here, proved against a function of its inputs;
the theorems are lemmas about those functions. `dafny verify dfyconfig.toml`
checks everything.

| files | what they model |
|---|---|
| `DiffProtocol`, `DiffSafety`, `DiffProgress` | the threads of csv-diff as a transition system: one reader per input, one gatherer, a global mutex and counter, a mutex, condition and flag per input; waits release their mutex and block in one step and may wake up spuriously, as in section 7.26 of ISO/IEC 9899:2011 |
| `CsvParse`, `CsvReader`, `CsvPrint` | the streaming parser `csv_read_all` over its growing buffer, against a recursive-descent parser of the whole stream; `csv_print_quoted` and `csv_unquot`, with the quote doubling of section 2 of RFC 4180 |
| `TreeModel`, `TreeTable`, `TreeBuild` | csv-tree: the two passes that link rows through the hash table, the recursive sum and the recursive print, over parent links that may be cyclic |
| `IntText`, `StrReplace` | `tostring` against `strtoll_safe`; `csv_str_replace` and its growing buffer |
| `HashTable`, `HashString`, `HashRuns`, `NextCounters`, `RegexCache` | the memoising hash table, the hash of its keys and whole runs of lookups, the `next` counters kept in it, and the ten-slot cache of compiled regular expressions |
| `Rpn`, `RpnFacts`, `OperLaws` | the stack machine behind csv-sql and the RPN tools, and what each of its operators leaves |
| `SqlCompile`, `SqlMeaning`, `SqlQuery`, `SqlTypes` | the compiler from SQL expressions to postfix tokens, aliases, and the predicted result types |
| `SqlOrder`, `SqlRun` | WHERE, ORDER BY and printing |

## Where the code does less than it seems to promise

Each of these has a theorem with the exact condition under which the code does
what is expected, and most have a lemma with a concrete input beside it.

- `csv_ht_get_value` computes the bucket before a possible resize and stores
  into it afterwards (`src/ht.c:161`, `src/ht.c:178`). A call keeps the table
  good if and only if it does not resize or the hash modulo the old and the new
  size agree (`GetValueKeeps`); otherwise the key just stored is lost until the
  next resize. At any moment at most one key is lost (`OnlyLostIsMissing`), and a
  key's calls are all answered with its first value if and only if it is never
  asked for while it is lost (`RightIffNeverAskedLost`).
- `next` is built on that table: it counts the calls with a name if and only if
  the name is never asked for while it is lost (`CountsIffNeverAskedLost`); the
  first time it is, the counter starts over (`NextExact`). With the hash the
  program uses the names "", "zz", "x", "x" count the last one as one again
  (`CounterStartsOver`).
- csv-tree links rows through that table: it prints the forest of its rows if
  and only if no key that is a row's key and a row's parent is asked for while
  it is lost (`ForestExact`). With the program's hash the third of the rows
  (197, parent 1189), (149, parent 197), (75, parent 149) is printed as a root
  (`ThirdRowIsCutOff`).
- `rpn_expression_type` predicts an integer for a float plus an integer
  (`FloatPlusIntIsMisjudged`); the prediction is right exactly for expressions
  that do not do this along their last operands (`PredictionSound`).
- The base 2 text of -2^63, and the octal and hexadecimal text of any negative
  number, do not read back (`BinaryReadsBack`, `TextReadsBack`).
- `csv_str_replace` ends exactly for patterns that are not empty (`LoopEnds`).
- `substr(s, 0, 0)` is all of `s` (`SubstringMeans`).
- `SELECT a + 1, b` compares `b` with the missing name of the first column, a
  null pointer (`src/sql-shared.h:43`, `UnnamedFirstColumn`). A lookup does that
  exactly if a column without a name comes before every column with the name
  looked up (`UnnamedExact`), so never while all columns have names
  (`NamedNeverNull`).
- The memory for the regular expression of LIKE is three characters for each of
  the pattern; it fits exactly for patterns of three characters or more, and of
  two if at most one of them is escaped or `%` (`LikeFits`).
- An alias of an expression with `next` is evaluated again at each use
  (`AliasOfNextCountsTwice`). An expression that evaluates has the value and
  leaves the counters it has with its aliases read as columns if and only if none
  of them stands for a column that uses `next` (`AliasExact`); other columns of
  the query, and the expression itself, may use it (`QueryMeans`).
- The comment at `src/sql.c:109` calls the abort for a WHERE that is no integer
  impossible. A condition that evaluates reaches it if and only if its type is
  not an integer (`AbortsExactly`), as in `SELECT a WHERE 'x'`
  (`TextConditionAborts`).
- With a NaN key the comparator of csv-sql does not even find a row equal to
  itself (`CmpReflexive`); without NaN it is a total preorder (`CmpPreorder`).

## How C is read

Signed 64-bit integers wrap on overflow, including the negation of -2^63;
-2^63 divided by -1 has no result; shift counts are taken modulo 64: this is
what compilers for x86-64 make of behaviour that C leaves undefined. Doubles
are opaque bits and every operation on them is a parameter; a lemma that needs
them ordered says so in its requirements. Characters are compared by code,
and the 32-bit words of a hashed key are little-endian.
A function that ends the program (`exit`, `abort`) has no result, which is
`None` or `false` here.

## Model

| member | source | states |
|---|---|---|
| DiffProtocol.ColumnDiffersAnyPair | src/diff.c:255-273 | comparing every input with input 0 only finds a difference exactly when some two inputs differ |
| DiffProtocol.CompareRows | src/diff.c:254-273 | the two nested loops with their early exit leave in `diff` exactly the columns in which some input differs, and report whether there is one |
| DiffSafety.RunInv | src/diff.c:152-309 | every state of every interleaving, spurious wakeups included, satisfies the invariant on mutex owners, counters, published rows and output |
| DiffSafety.ReaderStepInv | src/diff.c:152-206 | a step of any reader keeps the invariant |
| DiffSafety.GatherStepInv | src/diff.c:226-309 | a step of the gatherer keeps the invariant |
| DiffSafety.SpuriousWakeInv | src/diff.c:177-178 | a spurious wakeup keeps the invariant |
| DiffSafety.ComparesOneRound | src/diff.c:245-273 | whenever the gatherer compares, all inputs have published the row with the index of the current round, and the gatherer holds all their mutexes |
| DiffSafety.PublishedRowStable | src/diff.c:165-181 | between publication and consumption no step changes a published row |
| DiffSafety.EveryRunIsZip | src/diff.c:219-311 | however the threads interleave, a finished run printed exactly the sequential row-by-row zip of the shortest input's rows: one line for each input, with its number, its cells in the order of the headers, and the flags and colours of the columns that differ, for each row that is shown; it exits with 2 if lengths differ, else with 1 if some row differs and 0 otherwise, reports exactly the short inputs, and consumed each row once |
| DiffZip.ZipPrints | src/diff.c:275-304 | in terms of the inputs alone: a row is shown unless `brief`, if a cell differs or all rows are asked for; the line of input i starts with i + 1 and has its cells in header order; a flag or a colour stands exactly at the columns in which some input differs from the first, and the colours go round after seven |
| DiffSafety.ZipDiffersMeaning | src/diff.c:255-276 | the status 1 of the zip means that some column of some row is not equal in all inputs |
| DiffProgress.NoDeadlock | src/diff.c:152-181 | before the final state some step that is not a spurious wakeup is enabled: no deadlock, no lost wakeup |
| DiffProgress.WaitingGathererHasWorker | src/diff.c:226-233 | a waiting gatherer always has a reader that can run |
| DiffProgress.NextRank | src/diff.c:152-309 | every step that is not a spurious wakeup lowers a rank over remaining rows, phases and waiters; a spurious one raises it by at most 4 |
| DiffProgress.EveryRunEnds | src/diff.c:219-311 | the length of every run is bounded by the inputs and the number of spurious wakeups |
| DiffProgress.MaximalRunIsZip | src/diff.c:219-311 | a run that only spurious wakeups could continue is over and has the result of the zip, printed line by line as above |
| CsvParse.FeedAllCut | src/parse.c:182-247 | cutting the stream anywhere makes no difference |
| CsvParse.MachineIsParser | src/parse.c:182-247 | the character machine delivers exactly the rows and the status of the recursive-descent parser, for every stream and every callback |
| CsvParse.ReturnCodeMeans | src/parse.c:206-293 | the return code is 1 if the callback stopped at the last row delivered, -1 if a quote comes inside an unquoted field, and else 0 |
| CsvReader.Scan | src/parse.c:182-247 | one pass over the buffer, with its in-place NULs, column offsets and memmove per row, advances the parser by exactly the characters read; it terminates although one branch does not advance |
| CsvReader.ReadMore | src/parse.c:249-291 | a read appends the next characters of the stream, at most 100 at a time, to a buffer that grows when needed |
| CsvReader.ReadAll | src/parse.c:161-293 | reading at most 100 characters at a time into the growing buffer, the rows delivered and the return code are those of the parser of the whole stream; a failing stream delivers the rows of all but fewer than 100 of its characters |
| CsvReader.RowStep | src/parse.c:196-222 | the row handed to the callback is exactly the fields of the parser's row, as C strings in the buffer |
| CsvPrint.PrintQuoted | src/utils.c:424-452 | what is printed is the field, in quotes with its quotes doubled exactly if it has a comma, a newline or a quote |
| CsvPrint.QuoteMeans | src/utils.c:424-452 | a field without comma, newline and quote is printed as it is, any other between quotes |
| CsvPrint.DoubleLaws | src/utils.c:440-452 | character by character: a quote becomes two, anything else stays |
| CsvPrint.Unquot | src/utils.c:454-477 | unquoting succeeds exactly on text that starts and ends with a quote, and undoes the doubling |
| CsvPrint.UndoubleLaws | src/utils.c:466-474 | after a quote one character is dropped, whatever it is; text without quotes stays |
| CsvPrint.DecodeQuote | src/utils.c:424-477 | every NUL-free string survives printing and unquoting |
| CsvPrint.RoundTrip | src/utils.c:424-477 | printing any rows of n fields, parsing the text and unquoting gives the rows back |
| TreeTable.RelabelledUnique | src/tree.c:385-402 | rows with different keys get different records, whatever the table does |
| TreeTable.KeyLinks | src/tree.c:390-397 | the lookups of a parent key all answer its row's record if and only if the key is never asked for while the table has lost it |
| TreeTable.LinksExact | src/tree.c:390-407 | the records are linked as the rows are if and only if no key that is a row's and a row's parent is asked for while it is lost |
| TreeTable.ForestExact | src/tree.c:385-469 | for every hash, the forest printed is that of the rows if and only if no such key is asked for while it is lost |
| TreeTable.SoundKeepsParents | src/ht.c:157-181 | that holds whenever no lookup moves its own bucket |
| TreeTable.ThirdRowIsCutOff | src/tree.c:385-469 | with the program's hash, a row two levels below its root is printed as a root |
| TreeTransfer.SameForest | src/tree.c:199-249 | what is printed depends on the rows only through their parent links |
| TreeModel.ForestOnce | src/tree.c:456-469 | the forest printed without a filter has exactly once each row whose chain of parent links leaves the row set, and no other row, cycles or not; the links are those of the records, which `TreeTable.ForestExact` ties to the rows |
| TreeModel.WalkOnce | src/tree.c:199-249 | the walk from a row visits exactly the rows below it, each once |
| TreeModel.ForestLevels | src/tree.c:199-249 | in the forest printed the level of every row is its depth along the records' links |
| TreeModel.ForestPreorder | src/tree.c:199-249 | in the forest printed every row that is not a root follows its parent with only deeper rows in between |
| TreeModel.ForestSiblings | src/tree.c:243-248 | rows with the same parent, and roots, are printed in input order |
| TreeModel.ParentRowMeans | src/tree.c:390-407 | the parent of a row is the row whose key it names, and a row is a root if there is none |
| TreeModel.ForestFiltered | src/tree.c:204-206 | with a filter exactly the matching row and the rows linked below it are printed, with levels relative to it |
| TreeModel.ForestUnmatched | src/tree.c:456-469 | a filter that matches no row prints nothing |
| TreeModel.DepthBound | src/tree.c:243-248 | a parent chain that leaves the rows repeats no row, which bounds the recursion |
| TreeModel.SumIsWalk | src/tree.c:148-181 | a row's sum is the sum over the rows its walk visits |
| TreeModel.LeafSum | src/tree.c:148-181 | a row that is no parent has its own number as its sum |
| TreeModel.RootSumsAreTotal | src/tree.c:456-463 | in every forest the root sums add up to the total over all visited rows |
| TreeBuild.LookUp | src/tree.c:390-397 | a lookup answers the record that the run of the hash table so far answers |
| TreeBuild.LinkAndCount | src/tree.c:385-409 | after the first pass, through the hash table, every record counts exactly the rows whose parent lookup answered it and links to the record its own row's parent lookup answered |
| TreeBuild.FillChildren | src/tree.c:411-424 | after the second pass every child array has exactly the counted length and holds those rows' records, in input order; every write is inside the array |
| TreeBuild.Build | src/tree.c:385-424 | both passes build exactly the forest of the records, and a row is known as a root exactly if its parent lookup answered no row's record |
| TreeBuild.Aggregate | src/tree.c:148-181 | the sum succeeds exactly if every row below has a number and no partial sum leaves the 64-bit range; then every visited record holds the exact sum of its subtree and no other record changed |
| TreeBuild.Process | src/tree.c:199-249 | the recursive print terminates and prints the walk, with each record's sum |
| TreeBuild.CsvTree | src/tree.c:382-469 | from rows to output, for every hash: succeeds exactly if all sums stay in range, prints the forest of the records, with or without a filter, and every sum printed is exact; and the same for the rows themselves if no parent is asked for while it is lost |
| IntText.ToString | src/rpn_eval.c:19-64 | the text in each base; the base 2 loop writes exactly the binary digits and stays inside its 68 bytes |
| IntText.TextIs | src/rpn_eval.c:19-64 | the text is the sign or prefix of the base followed by the one numeral of the value: lower-case digits without a leading zero; octal and hexadecimal text is that of the value modulo 2^64 |
| IntText.StrtollSafe | src/utils.c:125-188 | returns what the reading function gives, always within 64 bits |
| IntText.NumberReads | src/utils.c:125-188 | digits of any base from 2 to 36, after a sign or none, read as the number they stand for if it has 64 bits, and are refused otherwise or if anything else follows |
| IntText.DigitValues | src/utils.c:147 | the digits of base 36, in either case |
| IntText.BinaryReadsBack | src/utils.c:125-188 | base 2 text reads back in base 0 or 2, sign and zero included, exactly for every value but -2^63 |
| IntText.TextReadsBack | src/utils.c:125-188 | text in base 2, 8, 10 or 16 reads back in base 0 as the same value exactly if the base is 10, or the base is 2 and the value not -2^63, or the value is not negative; otherwise it is refused |
| IntText.SpacesReadAsZero | src/utils.c:125-188 | leading spaces do not matter in any base, and text of spaces only, or with a bare binary prefix after them, reads as 0 |
| StrReplace.Buffer.CheckSpace | src/utils.c:70-78 | the buffer grows by exactly the requested length when needed and keeps what was used |
| StrReplace.StrReplace | src/utils.c:80-123 | returns false exactly if the pattern does not occur, with the buffer untouched; otherwise the buffer holds the replacement of all leftmost occurrences followed by NUL, and no write passes its length |
| StrReplace.ExactOccurs | src/utils.c:86-97 | a search that heeds case finds exactly the places where the pattern stands |
| StrReplace.CutsLeftmost | src/utils.c:91-122 | the occurrences replaced are leftmost and do not overlap |
| StrReplace.LeftmostUnique | src/utils.c:91-122 | there is only one such way to cut the string |
| StrReplace.LoopEnds | src/utils.c:91-122 | the loop ends exactly for a pattern that is not empty |
| HashTable.ResizeKeeps | src/ht.c:131-155 | whatever the table was, resizing doubles it, puts every entry into its own bucket, loses none, recounts the collisions exactly, and adds the number of entries to `used` once more |
| HashTable.ResizeKeepsMap | src/ht.c:131-155 | resizing keeps the map from keys to values |
| HashTable.LookupMeans | src/ht.c:161-171 | a lookup finds a key exactly when an entry has it, with that entry's value |
| HashTable.GetValueKeeps | src/ht.c:157-181 | the callback runs exactly for a new key and adds exactly its entry; the call resizes exactly for a new key with more collisions than a fifth of the size and more entries than a hundredth; the table stays good if and only if the call does not resize or the hash modulo the old and the new size agree |
| HashTable.RecomputedSlotIsGood | src/ht.c:173-178 | with the bucket computed after the resize every call would keep the table good |
| HashTable.MisplacedKeyIsLost | src/ht.c:173-178 | otherwise the stored key is not found again: the next call runs the callback again and leaves two entries for the key, or the same entry twice |
| HashTable.CallbackRunsTwice | src/ht.c:173-178 | three keys for which this happens under every hash that is odd for "x", as the program's is |
| HashString.ComputeHashStr | src/ht.c:55-74 | the two loops compute the hash of the words and then of the last bytes of the key |
| HashString.HashOfX | src/ht.c:55-74 | the program's hash of "x" is odd |
| HashString.HashOfFive | src/ht.c:55-74 | the hash of a word and a byte, the word's first character being its lowest byte |
| HashString.HashWraps | src/ht.c:55-74 | the sums are reduced modulo 4294967291 |
| HashRuns.KeyStands | src/ht.c:157-181 | after any calls that never asked for a key while it was lost, the key is absent, settled with its first value, or lost, and which of the three is told by the calls |
| HashRuns.AnswerExact | src/ht.c:157-181 | a call with a key that no earlier call asked for while it was lost is answered with the key's first value, or with a new value exactly if the key is lost now |
| HashRuns.CalledIsStored | src/ht.c:157-181 | over any run and for any hash, every key asked for so far has an entry |
| HashRuns.OnlyLostIsMissing | src/ht.c:157-181 | over any run and for any hash, every key that has an entry is found, except at most one, the key that the calls tell to be lost |
| HashRuns.RightIffNeverAskedLost | src/ht.c:157-181 | for any hash and any run, all calls with a key are answered with its first value if and only if it is never asked for while it is lost |
| HashRuns.SoundLosesNothing | src/ht.c:157-181 | a run in which no call moves its own bucket loses no key |
| HashRuns.EntriesAreCalls | src/ht.c:157-181 | every entry of the table comes from a call with its key |
| HashTable.RunGood | src/ht.c:157-181 | every table of a run is good exactly if no call of it moves its own bucket |
| HashTable.RunMemoises | src/ht.c:157-181 | over every such run, a key has the value of the first call with it and no entry otherwise |
| HashTable.RunAnswers | src/ht.c:157-181 | every call of such a run returns the value of the first call with its key |
| HashTableInPlace.CsvHt.constructor | src/ht.c:31-52 | a new table has one and a half times the requested buckets, at least one, all empty |
| HashTableInPlace.CsvHt.Linkin | src/ht.c:104-122 | links the entry behind the chain's head, counting it and the collision |
| HashTableInPlace.CsvHt.Resize | src/ht.c:131-155 | the loop over the old buckets and chains rebuilds the table that `ResizeKeeps` is about |
| HashTableInPlace.CsvHt.GetValue | src/ht.c:157-181 | the call changes the table and answers as the function that `GetValueKeeps` is about |
| NextCounters.NextExact | src/rpn_eval.c:142-153 | for any hash and a name that no earlier call asked for while it was lost, `next` returns the number of calls with the name so far, or 1 again exactly if the name is lost at that moment |
| NextCounters.CountsIffNeverAskedLost | src/rpn_eval.c:142-153 | over any run and for any hash, every call with the name returned the number of calls with it so far if and only if the name is never asked for while it is lost |
| NextCounters.NextCounts | src/rpn_eval.c:142-153 | while no call moved its own bucket, `next` counts the calls with the name |
| NextCounters.CounterStartsOver | src/rpn_eval.c:142-153 | with the program's hash, a run of three names after which a counter returns 1 a second time |
| RegexCache.Cache.Get | src/regex_cache.c:25-75 | returns what compiling afresh would; the ten slots amount to a queue that drops its oldest entry, and a failing compile on a full cache drops the oldest as well |
| RegexCache.Cache.ClearCache | src/regex_cache.c:77-93 | the cache is empty afterwards |
| RegexCache.ReleaseEvicts | src/regex_cache.c:47-52 | emptying the next slot evicts exactly the oldest entry, and the hole it leaves is at the next slot only |
| RegexCache.FillAppends | src/regex_cache.c:65-71 | filling the slot appends the entry as the newest |
| RegexCache.RunSound | src/regex_cache.c:25-93 | over every sequence of lookups and clearings the cache has at most ten entries, one for a key, each what its key compiles to |
| RegexCache.RunIsRecent | src/regex_cache.c:25-93 | the cache always holds the most recent insertions since the last clearing: eviction follows insertion order |
| Rpn.SubstringMeans | src/utils.c:700-727 | SUBSTR takes the characters from a start counted from 1, or from the end if negative, with start 0 shortening by one; length 0 from start 0 takes everything |
| RpnFacts.SumLaws | src/rpn_eval.c:553-615 | the sum, difference and product that the operators leave for two integers, left one first, are exact modulo 2^64 |
| RpnFacts.DivisionLaws | src/rpn_eval.c:616-685 | quotient and remainder fail for the same operands and otherwise satisfy the division law, truncating toward zero |
| OperLaws.FloatArithmetic | src/rpn_eval.c:553-685 | with a float among the operands arithmetic is that of floats, left operand first; a divisor of zero and strings are refused |
| RpnFacts.BitLaws | src/rpn_eval.c:686-694 | the bitwise and, or and exclusive or of two numbers share out the bits of their sum |
| RpnFacts.BitwiseBit | src/rpn_eval.c:686-694 | a bit operation acts on each bit by itself |
| OperLaws.BitOperators | src/rpn_eval.c:686-697 | each bit of what and, or and exclusive or leave, and the complement |
| OperLaws.ShiftLaws | src/rpn_eval.c:698-703 | shifting left multiplies by a power of two modulo 2^64, shifting right divides by it rounding down |
| OperLaws.IntegersOnly | src/rpn_eval.c:236-269 | bit operators and shifts refuse everything but integers |
| OperLaws.LogicLaws | src/rpn_eval.c:531-545 | and, or, exclusive or and not on 0 and 1, and refused for everything else |
| RpnFacts.ComparisonLaws | src/rpn_eval.c:981-1118 | without NaN exactly one of less, equal and greater holds, the other comparisons are their negations, and swapping operands swaps less and greater, for integers, floats, mixed operands and strings |
| OperLaws.IntComparisons | src/rpn_eval.c:981-1118 | the six comparisons leave 1 exactly if the left integer is less than, at most, more than, at least, equal to or not equal to the right one, else 0 |
| OperLaws.StringComparisons | src/rpn_eval.c:990-1117 | the same for strings, where one is before another if they agree up to a position at which the first ends or has the smaller character |
| OperLaws.FloatComparisons | src/rpn_eval.c:981-1118 | the same for floats and mixed operands by the comparisons of floats, left operand first |
| OperLaws.NoMixedComparison | src/rpn_eval.c:451-471 | a string and a number cannot be compared |
| OperLaws.StringOperators | src/rpn_eval.c:740-829 | what CONCAT, STRLEN and LIKE leave; LIKE matches its left operand against an extended, case-sensitive, anchored expression |
| OperLaws.StringsOnly | src/rpn_eval.c:283-318 | they refuse everything but strings |
| OperLaws.SubstrTakes | src/rpn_eval.c:716-739 | the lengths SUBSTR refuses and the characters it takes |
| OperLaws.IfChooses | src/rpn_eval.c:1119-1130 | IF leaves its second operand for a condition other than 0, else the third, and refuses operands of two types |
| OperLaws.IntConversions | src/rpn_eval.c:830-950 | what an integer becomes as text, float and integer |
| OperLaws.FloatConversions | src/rpn_eval.c:830-968 | what a float becomes |
| OperLaws.StringConversions | src/rpn_eval.c:830-980 | what a string becomes, and when it is refused |
| OperLaws.NoConversion | src/rpn_eval.c:379-450 | a conversion that names its source type refuses the others |
| OperLaws.BaseConversions | src/rpn_eval.c:895-920 | the four bases of INT2STRB and the bases 2 to 36 of STRB2INT, and which text TOINT reads back |
| OperLaws.FieldLaws | src/rpn_eval.c:1256-1282 | a column token leaves its own field and no other, and printed numbers and strings are read as the same value |
| OperLaws.ReplaceLaws | src/rpn_eval.c:1131-1152 | REPLACE leaves a string without the pattern alone, and else replaces the first occurrence and goes on after it, heeding case exactly if its last operand is not 0 |
| OperLaws.ReplaceNothing | src/utils.c:91-122 | an empty pattern has no result |
| OperLaws.MatchesLaws | src/rpn_eval.c:1184-1210 | which regular expression matching asks for, ignoring case exactly for a last operand of 0 |
| OperLaws.SubstituteLaws | src/rpn_eval.c:1153-1183 | the same for replacing |
| OperLaws.NextLaw | src/rpn_eval.c:1211-1220 | NEXT leaves the count of its name and the counters after it |
| OperLaws.TypesRefused | src/rpn_eval.c:270-530 | the other operators refuse operands of other types |
| RpnFacts.LikeReadsBack | src/rpn_eval.c:765-808 | the regular expression built for LIKE determines the pattern |
| RpnFacts.LikeConcat | src/rpn_eval.c:787-800 | the pattern is translated character by character |
| RpnFacts.LikeCharacter | src/rpn_eval.c:773-800 | a percent sign matches any text, twelve characters are escaped, the others stand for themselves |
| RpnFacts.LikeFits | src/rpn_eval.c:769-808 | the expression and its NUL fit the memory set aside exactly for patterns of three characters or more, and of two that do not both become two |
| RpnFacts.NumberTextNumber | src/rpn_eval.c:895-944 | INT2STRB then STR2INT gives the number back exactly if it reads back in that base |
| RpnInPlace.Machine.EvalOper | src/rpn_eval.c:207-1229 | the operator takes exactly its operands off the stack, in order, and leaves its result, or fails where the source reports an error |
| RpnInPlace.Machine.RpnEval | src/rpn_eval.c:1235-1312 | evaluates as the step-by-step run of the tokens and succeeds only with exactly one entry left |
| SqlCompile.CodeIsSubstitution | src/sql-shared.h:37-70 | compiling with aliases copied in gives the code of the expression with every alias replaced by its definition, first match first, and ends the program for the same expressions and the same reason |
| SqlMeaning.ShortCode | src/sql.y.in:112-142 | a call without its last argument compiles to the tokens of the full call, with the largest number for SUBSTR, 1 for the searches and "" for NEXT |
| SqlMeaning.ShortValue | src/sql.y.in:112-142 | and has the value of that call |
| SqlMeaning.ShortForms | src/sql.y.in:112-142 | which operators have such a form, and with how many arguments |
| SqlMeaning.ShortSubstr | src/sql.y.in:113 | SUBSTR(s, n) is the rest of s from character n on |
| SqlMeaning.NegateMeans | src/sql.y.in:90 | a minus sign negates; -2^63 stays |
| SqlMeaning.NameStandsFor | src/sql-shared.h:37-70 | a name stands for the first query column with it, or else the first input column with it, and without either is reported |
| SqlCompile.UnnamedExact | src/sql-shared.h:41-47 | a lookup compares with a null pointer exactly if a column without a name comes before every column with the name |
| SqlCompile.NamedNeverNull | src/sql-shared.h:41-47 | while all columns have names, compiling ends only with a report |
| SqlQuery.UnnamedFirstColumn | src/sql.c:147-170 | `SELECT a + 1, b` compares with a null pointer |
| SqlCompile.PostfixRuns | src/rpn_eval.c:1243-1290 | for every expression, row, counters, starting stack and following tokens, running the expression's tokens pushes exactly the value of left-to-right evaluation with the same counters, and fails exactly if evaluation fails |
| SqlCompile.CompiledEvaluates | src/rpn_eval.c:1235-1312 | compiled code never underflows the stack nor leaves entries: it evaluates to the expression's value or fails where there is none |
| SqlQuery.EvalPure | src/rpn_eval.c:1211-1220 | without `next` a value neither depends on the counters nor moves them |
| SqlQuery.EvalCalls | src/rpn_eval.c:1211-1220 | a successful evaluation calls `next` exactly as often as the operator occurs, whatever the names stand for |
| SqlQuery.ResolveCounts | src/sql-shared.h:37-70 | copying aliases in adds calls of `next` exactly if some name stands for a column that uses it |
| SqlQuery.AliasIsColumn | src/sql-shared.h:37-70 | an expression that reads no column with `next` has, with the aliases substituted, the same value and counters, or fails alike, as with each alias read as a column holding its expression's value, first match winning over header columns; columns it does not read, and the expression itself, may use `next` |
| SqlQuery.AliasExact | src/sql-shared.h:37-70 | for an expression that evaluates, that holds if and only if it reads no column with `next`; the columns' own values are the values meant (`ColumnValuesHold`), and those of columns with `next` do not matter |
| SqlQuery.PlanPlain | src/sql-shared.h:37-70 | each item makes one column, defined by the item with the columns before it substituted |
| SqlMeaning.ColumnNamed | src/sql.c:147-191 | a column has its alias as its name, or the input column's name if it is just one, or none |
| SqlMeaning.StarNames | src/sql.c:193-209 | `*` is every input column in turn under its own name |
| SqlMeaning.OtherTable | src/sql.c:211-220 | a query over another table than `input` does not compile, and no other is refused for its table |
| SqlQuery.PlanPure | src/sql-shared.h:37-70 | items without `next` make columns without `next` |
| SqlQuery.ColumnsAreItems | src/sql.c:147-191 | the substituted columns that do not use `next` have exactly the values of the items evaluated one after the other, each reading the columns before it as values: aliases through chains |
| SqlQuery.QueryMeans | src/sql.c:84-118 | from the text of any query that compiles to its code: the code of every item, of WHERE and of every sort key evaluates to the value of its text with every alias read as a column if it reads no column with `next`, and if it evaluates at all, only then |
| SqlQuery.AliasOfNextCountsTwice | src/sql-shared.h:50-56 | an alias of `next` is no column: NEXT() aliased and subtracted from itself gives -1 |
| SqlParser.Parser.PushString | src/sql-shared.h:37-70 | the alias loop and the copy loop append the tokens of the first column with the name, or else one column token |
| SqlParser.Parser.Expression | src/sql.y.in:87-144 | the grammar's actions append exactly the expression's code |
| SqlParser.Parser.ParseQuery | src/sql.y.in:70-178 | a query compiles exactly if all its names resolve and its table is `input`, and every column, condition and sort key is then the code of the expression with its names replaced; if not, the reason is the missing column, the null name or the unknown table |
| SqlParser.Parser.ColumnDone | src/sql.c:147-170 | a column without an alias keeps the header's name if it is just one input column |
| SqlParser.Parser.NamedColumnDone | src/sql.c:172-191 | a named column gets the alias and the tokens appended so far |
| SqlParser.Parser.AllColumns | src/sql.c:193-209 | `*` stands for one column per header, with the header's name |
| SqlTypes.EvalType | src/rpn_eval.c:552-1229 | every value of an expression has the type that its leaves and operators determine |
| SqlTypes.PredictedIsSpine | src/rpn_parse.c:278-357 | walking backwards from the last token finds the type of the last operand |
| SqlTypes.PredictionSound | src/rpn_parse.c:278-364 | a successful evaluation has the predicted type if and only if no arithmetic along the last operands adds an integer to a float |
| SqlTypes.UnmixedNotMisjudged | src/rpn_parse.c:329-336 | expressions whose arithmetic never has a float before an integer are predicted right |
| SqlTypes.FloatPlusIntIsMisjudged | src/rpn_parse.c:329-336 | a float plus the integer 1 is predicted an integer and evaluates to a float |
| SqlTypes.AnyProgramPrediction | src/grep-rpn.c:67-76 | any RPN text that evaluates is the code of one expression, so a filter predicted to be an integer aborts only for misjudged expressions |
| SqlOrder.Cmp | src/sql.c:293-338 | the comparator's loop computes the comparison the next rows are about |
| SqlOrder.CmpMeans | src/sql.c:293-338 | its sign is lexicographic order with the descending keys flipped: negative exactly if the first row precedes, positive exactly if the second does, 0 exactly if all keys tie |
| SqlOrder.KeyDecides | src/sql.c:301-337 | the first pair of keys that does not tie decides: -1 if the smaller one comes first and the key is ascending, or the larger one and it is descending, else 1; smaller is that of integers, of strings by their first difference, or of floats |
| SqlOrder.SameMeans | src/sql.c:313-325 | keys tie if they are the same number or string, or equal as floats |
| SqlOrder.CmpPreorder | src/sql.c:293-338 | without NaN it is reflexive, antisymmetric as a sign, and transitive |
| SqlOrder.CmpReflexive | src/sql.c:322-325 | comparing a row with itself gives 0 exactly if no key is NaN |
| SqlOrder.LineTypes | src/sql.c:304-312 | the keys of all kept lines have the types of the ORDER BY expressions, so the comparator's assertion holds |
| SqlOrder.AbortsExactly | src/sql.c:105-110 | a WHERE that evaluates reaches the abort if and only if it is not an integer expression |
| SqlOrder.TextConditionAborts | src/sql.c:105-110 | `SELECT a WHERE 'x'` compiles, and the first row aborts |
| SqlOrder.WhereJudges | src/sql.c:105-113 | the code of WHERE gives 0: the row is dropped and the counters it left stay; another integer: the row is taken with these counters; anything else ends the program |
| SqlOrder.RowTaken | src/sql.c:115-141 | a row that is taken is kept with the values of the code of its sort keys, or without ORDER BY printed with those of its columns, in their order |
| SqlOrder.PassingMeans | src/sql.c:99-113 | the rows that pass are, in input order, those for which WHERE is missing or its code gives, with the counters left by the rows before, an integer other than 0 |
| SqlOrder.RecordsThePassing | src/sql.c:99-141 | over all rows exactly these are kept or printed, each with the values computed for it |
| SqlOrder.KeepsThePassing | src/sql.c:99-139 | with ORDER BY exactly the rows that pass WHERE are kept, in input order, each judged with the counters the rows before it left; without it one line is printed for each |
| SqlOrder.PassingIsAlone | src/sql.c:99-113 | a condition without `next` judges every row by itself |
| SqlOrder.OutputIsSorted | src/sql.c:417-431 | with any correct sort the lines printed are a permutation of exactly the rows that pass WHERE, no line comes before one that should precede it, and among lines that tie on the keys before it every key runs upwards if it is ascending and downwards if it is descending |
| SqlRun.Select.NextRow | src/sql.c:99-144 | the callback evaluates WHERE, then keeps the row with its key values or prints it, exactly as the query asks, and stops where an evaluation fails or WHERE is no integer |
| SqlRun.Select.PrintRow | src/sql.c:84-97 | the columns are evaluated from left to right and printed in order |
| SqlRun.Select.PrintSorted | src/sql.c:427-431 | the kept lines are printed in the order of the sorted indices |
| SqlRun.PrintedInOrder | src/sql.c:84-97 | lines are printed one after the other, each as the values of its columns' code, the counters going from one to the next |

## Left out

- Processes, pipes, terminals, option parsing and system queries, and the tools that only fold over rows.
- Memory exhaustion, and who frees what.
- Lexing and operator precedence of the SQL grammar: expressions start as trees.
- `token_next` and `rpn_parse` (the RPN text reader); `AnyProgramPrediction` covers every token sequence they can produce.
- The text of error messages, and the order of standard error against standard output.
- csv-diff: parse errors and read errors inside a reader thread, which end the process with status 2 at an arbitrary point, and files whose columns do not match.
- csv-diff: printed lines are lists of fields; the commas between them are not.
- csv-tree: duplicate keys, which the option text excludes.
- csv-tree: the float branch of the sum, which rounds, and exits only for a field that is no number.
- csv-tree: the text of a printed row; a printed row is its number, level and sum.
- Hash chains are sequences, not linked nodes, and a callback's value is an address.
- The pointer that `csv_regex_get` returns is the compiled value, not the address of the slot that a later call may reuse.
- Floating-point arithmetic, its parsing and printing, and regular expression matching are parameters; so is lower-casing in case-insensitive replacement.
- `replace_re`, the expansion of matches in a regular expression's replacement, is part of that parameter.
- What LIKE's regular expression matches: braces in the pattern are copied, so an interval stays one.
- REPLACE with an empty pattern never returns in the source and has no result in the model.
- SqlOrder.CmpMeans: requires that no key is NaN; `CmpReflexive` shows what happens otherwise.
- Array types of columns (`int[]` and the like) abort evaluation and have no value.
- The header line that csv-sql prints.
