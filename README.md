# Cardinality-CDCL, modelled in Dafny

Cardinality-CDCL finds cardinality constraints ("at least k of these literals are true") hidden
inside CNF formulas. It rewrites them as *klauses*, the lines of a KNF file: `k b l1 … ln 0`, or a plain clause
when b = 1. It can also re-encode klauses into clauses, or check an assignment against a KNF formula. This
project models the core of that repository as Dafny functions, methods and classes, and proves what
each part promises.

Modules, in pipeline order:

- `Lits`: literals, assignments, counting true literals, klauses, and what it means for a formula
  to hold; shared by every other module.
- `Text`, `Scan`, `CnfParse`: the DIMACS reader of `cnf2knf` (`parse.cpp`). `Text` holds the
  suffix-based reading functions, `Scan` the cursor-based readers proved against them, and `CnfParse`
  `parse_cnf`, `ParseStrings` and `ParseLine`.
- `Extractor`: the clause/klause store (`klause.hpp`, `cnf2knf.hpp`), `add_klause`,
  `validate_constraint`'s renaming and the `bdd_analyze` step.
- `AmoGraph`, `DirectAmo`: the direct at-most-one engine (`direct_AMO.hpp`), which grows cliques in
  the graph of binary clauses, emits large ones and defers small ones.
- `Clusters`, `EncodedAmo`: the encoded at-most-one engine (`encoded_AMO.hpp`), which classifies
  variables, traces clusters and admits and normalises them.
- `Engines`: `run_extraction_engines` (`cnf2knf.cpp`), the engines in the order the program runs
  them.
- `Bdd`, `TermSets`, `Decoder`, `Ordering`, `Paths`: the decision-diagram oracle (`tbuddy/eval.cpp`).
  `Bdd` is an abstract BDD with the kernel operations the oracle uses. `TermSets` is bucket
  elimination. `Decoder` is the staircase decoder `cardinality_converter`. `Ordering` and `Paths`
  are the graph-based variable order with its shortest-path search.
- `Kanalyze`: the Python klause analyser (`tools/kanalyze.py`): leaf checks, layer extension,
  constraint construction and the permuter.
- `KnfToCnf`: the translator `knf2cnf.c`, covering the four encoders, the sequential counter, the
  header arithmetic and the table reader.
- `Collect`: the root-level part of the solver's garbage collection (`collect.cpp`): classifying
  clauses and cardinality constraints by their fixed literals, marking satisfied ones garbage,
  flushing false literals, shrinking constraints, protecting reasons and deleting garbage.
- `CardEncoding`, `Totalizer`: re-encoding a cardinality constraint inside the solver
  (`cardinality_encoding.cpp`), with the split encoding, the totalizer, `sort_by_phase` and the
  dispatch.
- `KnfParse`, `CheckSat`, `CheckMain`: the checker `check-sat`. `KnfParse` is its KNF parser,
  `CheckSat` the constraint store and `checkSat`/`checkMaxSat`, and `CheckMain` the composition in
  `check-sat.cpp`.
- `Partition`: check-sat's partition mode (`cnf-partition.hpp`), which splits a formula into the
  connected components of its variable graph, writes the partition file and one formula per part,
  and reconstructs a solution from the solutions of the parts.

Methods that loop or change state are proved against the specification functions beside them. The
lemmas state soundness and completeness of every encoder, round trips of the readers and writers,
and the invariants each engine keeps.

## Model

| member | source | states |
|---|---|---|
| Text.SkipDigits | Extractor/cnf2knf/src/parse.cpp:177-179 | the digit loop of ParseInteger leaves a suffix of the text that does not start with a digit |
| Text.AccumulateNonNegative | Extractor/cnf2knf/src/parse.cpp:176-179 | accumulating digits from a non-negative start never yields a negative value |
| Text.IntegerSign | Extractor/cnf2knf/src/parse.cpp:175 | ParseInteger reads a negative value only when the first symbol is '-' |
| Text.IntegerRest | Extractor/cnf2knf/src/parse.cpp:173-181 | ParseInteger always consumes its first symbol and then stops at the first non-digit |
| Text.SkipSpace | Extractor/cnf2knf/src/parse.cpp:183-187 | SkipWhitespace leaves a suffix whose first symbol is not white space (newlines included) |
| Text.SkipLineSpace | Extractor/cnf2knf/src/parse.cpp:189-193 | SkipLinespace leaves a suffix that starts with a newline or a symbol that is not white space |
| Text.ToNewline | Extractor/cnf2knf/src/parse.cpp:197-200 | the part of the line ParseLine does not collect starts at the newline, or is empty at the end of the file |
| Text.LiteralsRest | Extractor/cnf2knf/src/parse.cpp:161-171 | Parseliterals consumes at least one symbol of a non-empty text |
| Text.LiteralsNonZero | Extractor/cnf2knf/src/parse.cpp:165-170 | no literal read by Parseliterals is 0, since the 0 ends the list and is popped |
| Text.ShowNat | Extractor/cnf2knf/src/cnf2knf.cpp:208-212 | a written number is a non-empty run of decimal digits |
| Text.ShowInt | Extractor/cnf2knf/src/cnf2knf.cpp:208-212 | a written literal starts with '-' exactly when it is negative |
| Text.ShowNatFold | Extractor/cnf2knf/src/parse.cpp:177-179 | the digits of a written number accumulate back to that number |
| Text.AccumulateRun | Extractor/cnf2knf/src/parse.cpp:177-179 | the digit loop takes in exactly a run of digits and stops where the run stops |
| Text.ReadShowInt | Extractor/cnf2knf/src/parse.cpp:173-181 | ParseInteger reads back a written integer and stops right after it |
| Text.ReadShowLits | Extractor/cnf2knf/src/parse.cpp:161-171 | Parseliterals reads back a list of non-zero literals written with its closing 0, and leaves the line space after it |
| Scan.Advance | Extractor/cnf2knf/src/parse.cpp:177 | getc moves the cursor one symbol, and stays put at the end of the file |
| Scan.ParseInteger | Extractor/cnf2knf/src/parse.cpp:173-181 | the cursor loop yields the value and the rest that Text's suffix reader gives, and always advances on a non-empty text |
| Scan.SkipWhitespace | Extractor/cnf2knf/src/parse.cpp:183-187 | the cursor loop stops where the white space skip of the text stops |
| Scan.SkipLinespace | Extractor/cnf2knf/src/parse.cpp:189-193 | the cursor loop stops where the line-space skip of the text stops, at the latest at a newline |
| Scan.AfterLine | Extractor/cnf2knf/src/parse.cpp:195-203 | what follows a line is shorter than a non-empty text |
| Scan.AfterCommentLine | Extractor/cnf2knf/src/parse.cpp:201 | after a line without a newline and its newline, reading resumes right after the newline |
| Scan.ParseLine | Extractor/cnf2knf/src/parse.cpp:195-203 | returns the characters before the first newline, which contain no newline, and consumes the newline when there is one |
| Scan.ParseClause | Extractor/cnf2knf/src/parse.cpp:161-171 | the cursor loop yields the literal list and the rest that Text's suffix reader gives |
| CnfParse.Symbols | Extractor/cnf2knf/src/parse.cpp:151-156 | ParseStrings looks at exactly n symbols, past the end of the text too |
| CnfParse.Codes | Extractor/cnf2knf/src/parse.cpp:158 | a word compares symbol by symbol, one code per character |
| CnfParse.SymbolsSpell | Extractor/cnf2knf/src/parse.cpp:149-159 | the symbols read spell a word exactly when the text starts with that word; the end of the file matches no character |
| CnfParse.ParseStrings | Extractor/cnf2knf/src/parse.cpp:149-159 | succeeds exactly when the text spells s1 or s2 over the length of s1, and leaves the cursor on the last symbol taken |
| CnfParse.ScanHeader | Extractor/cnf2knf/src/parse.cpp:77-104 | the header loop finds the header exactly as the header function of the text says (comments skipped, -1 on a word other than cnf/knf, 1 when another symbol comes first) and leaves the body behind it |
| CnfParse.StatementOf | Extractor/cnf2knf/src/parse.cpp:116-131 | one body statement consumes at least one symbol |
| CnfParse.ReadStatement | Extractor/cnf2knf/src/parse.cpp:116-131 | the cursor version of one statement stores a clause exactly when the statement is not a 'd' or 'r' line, with the literals and rest the spec function gives |
| CnfParse.BodyTurn | Extractor/cnf2knf/src/parse.cpp:108-132 | one turn of the body loop advances, and the clauses of the rest of the text are this turn's clause (if any) followed by those after it |
| CnfParse.ClauseLinesSnoc | Extractor/cnf2knf/src/cnf2knf.cpp:226-229 | writing one more clause adds its line at the end of the text |
| CnfParse.OpensPlain | Extractor/cnf2knf/src/parse.cpp:110-124 | a written clause line is not skipped as white space and is not read as a comment, deletion or restoration |
| CnfParse.ReadClauseLine | Extractor/cnf2knf/src/parse.cpp:116-131 | one written clause line is read back by one statement as that clause |
| CnfParse.ReadClauseLines | Extractor/cnf2knf/src/parse.cpp:108-132 | the body loop reads written clause lines back as the clauses they were written from, as written and as corrected |
| CnfParse.BlankStatement | Extractor/cnf2knf/src/parse.cpp:116-131 | white space alone, read as a statement, stores an empty clause |
| CnfParse.BlankAfterLastComment | Extractor/cnf2knf/src/parse.cpp:108-132 | as written, a last comment line followed by white space stores an empty clause; the corrected body loop stores nothing |
| CnfParse.CommentStoresNothing | Extractor/cnf2knf/src/parse.cpp:110-113 | in the corrected body loop a comment line stores nothing, whatever white space follows it |
| Extractor.NotKlauseMeaning | Extractor/cnf2knf/src/klause.hpp:15-16 | a klause of bound at most 1 holds exactly when it is trivial or one of its literals is true, i.e. it is an ordinary clause |
| Extractor.PairLessOrder | Extractor/cnf2knf/src/cnf2knf.hpp:45-50 | compare_pair is a strict order: irreflexive, transitive, and total on distinct pairs |
| Extractor.MarkDeleted | Extractor/cnf2knf/src/cnf2knf.cpp:123-125 | the deleted flag is set on the listed ids and on nothing else; every other field is kept |
| Extractor.MarkDeletedIdempotent | Extractor/cnf2knf/src/cnf2knf.cpp:123-125 | marking the same ids twice is marking them once |
| Extractor.MarkDeletedTwice | Extractor/cnf2knf/src/cnf2knf.cpp:123-125 | marking ids1 and then ids2 is marking ids1 + ids2 (why committing two klauses with the same ids is harmless) |
| Extractor.Kept | Extractor/cnf2knf/src/cnf2knf.cpp:215-216 | the clauses kept are exactly those not deleted |
| Extractor.Numbering | Extractor/cnf2knf/src/cnf2knf.cpp:47-54 | to_normalization is defined exactly on the listed variables and sends each to its position, from first on |
| Extractor.Positions | Extractor/cnf2knf/src/cnf2knf.cpp:47-54 | from_normalization is defined exactly on first..first+n-1 and sends each number to the variable at that position |
| Extractor.NumberingAppend | Extractor/cnf2knf/src/cnf2knf.cpp:47-54 | numbering the problem variables and then the encoding variables from #P + 1 is numbering P + E in one go |
| Extractor.RenumberedEmpty | Extractor/cnf2knf/src/cnf2knf.cpp:47-50 | the loop's maps started empty are the numbering and its inverse |
| Extractor.NumberingInverse | Extractor/cnf2knf/src/cnf2knf.cpp:47-54 | for duplicate-free variables from_normalization undoes to_normalization |
| Extractor.PositionsInverse | Extractor/cnf2knf/src/cnf2knf.cpp:47-54 | for duplicate-free variables to_normalization undoes from_normalization |
| Extractor.Rename | Extractor/cnf2knf/src/cnf2knf.cpp:57-61 | each renamed literal keeps its sign and takes the new number of its variable |
| Extractor.RenameRoundTrip | Extractor/cnf2knf/src/cnf2knf.cpp:57-61 | renaming a clause to the dense numbering and mapping it back gives the clause again |
| Extractor.Normalized | Extractor/cnf2knf/src/cnf2knf.cpp:55-63 | one renamed clause per listed id, in the order of the ids |
| Extractor.MapBack | Extractor/cnf2knf/src/cnf2knf.cpp:104-109 | each analysed klause keeps its bound and flags and has its literals mapped back |
| Extractor.MapBackStep | Extractor/cnf2knf/src/cnf2knf.cpp:104-112 | mapping back one more klause appends its mapped-back copy |
| Extractor.Unnormalize | Extractor/cnf2knf/src/cnf2knf.cpp:106-109 | each literal keeps its sign and takes the original variable of its number |
| Extractor.UnnormalizeRename | Extractor/cnf2knf/src/cnf2knf.cpp:106-109 | mapping back over numbers from_normalization knows is renaming through it |
| Extractor.DefaultAmo | Extractor/cnf2knf/src/bdd_analyze.cpp:11-16 | the AMO over n data variables has their negations, in order, and bound n - 1 |
| Extractor.DefaultAmoMeaning | Extractor/cnf2knf/src/bdd_analyze.cpp:9-16 | that klause holds exactly when at most one of the data variables is true |
| Extractor.EmitMeaning | Extractor/cnf2knf/src/bdd_analyze.cpp:52-63 | the lower klause (lits, lower) and the upper klause (negated lits, ndata - upper) hold together exactly when the number of true literals lies in lower..upper |
| Extractor.CheckedConverterOrder | Extractor/cnf2knf/tbuddy/eval.cpp:389-404 | the checked decoder's bounds are ordered, except for the constantly false diagram |
| Extractor.NoDataNoKlause | Extractor/cnf2knf/src/bdd_analyze.cpp:52-63 | with no data variable nothing is emitted |
| Extractor.MarkDeletedRetires | Extractor/cnf2knf/src/cnf2knf.cpp:123-125 | marking clauses deleted only retires clauses: no clause comes back and none changes |
| Extractor.RetiredTrans | Extractor/cnf2knf/src/cnf2knf.cpp:123-125 | retiring clauses twice is retiring them |
| Extractor.ImpliedChain | Extractor/cnf2knf/src/cnf2knf.cpp:99-113 | klauses implied before and after a retirement step are implied by the original clauses together |
| Extractor.RenamePull | Extractor/cnf2knf/src/cnf2knf.cpp:57-61 | a renamed clause under the pulled-back assignment has as many true literals as the clause |
| Extractor.UnnormalizePull | Extractor/cnf2knf/src/cnf2knf.cpp:106-109 | mapping a klause back never loses true literals |
| Extractor.CommitSound | Extractor/cnf2knf/src/cnf2knf.cpp:99-113 | klauses that capture the renamed listed clauses, once mapped back, are implied by the live clauses |
| Extractor.ClauseTermsMeaning | Extractor/cnf2knf/src/bdd_analyze.cpp:35-40 | the conjunction of the clause terms holds exactly when every clause does |
| Extractor.ReducedMeaning | Extractor/cnf2knf/src/bdd_analyze.cpp:35-45 | bucket elimination over the clause terms yields the projection of the clauses on the data variables |
| Extractor.AnalyzeMeaning | Extractor/cnf2knf/src/bdd_analyze.cpp:20-65 | with the checked decoder, what bdd_analyze emits holds exactly on the data assignments that extend to a model of the clauses |
| Extractor.ParityProjected | Extractor/cnf2knf/tbuddy/eval.cpp:389-404 | the parity clauses have no encoding variable: their projection is themselves |
| Extractor.ParityMeaning | Extractor/cnf2knf/tbuddy/eval.cpp:389-404 | the parity diagram is the projection of the parity clauses |
| Extractor.ParityEmitted | Extractor/cnf2knf/tbuddy/eval.cpp:389-404 | the decoder as written accepts the parity diagram and bdd_analyze emits the clause (1 v 2 v 3); the checked decoder refuses it |
| Extractor.ParityNotCaptured | Extractor/cnf2knf/tbuddy/eval.cpp:389-404 | what the decoder as written emits for parity does not capture the parity clauses |
| Extractor.ParityWitness | Extractor/cnf2knf/tbuddy/eval.cpp:389-404 | the assignment {1, 2} satisfies the emitted clause and breaks parity |
| Extractor.NewlinesAppend | Extractor/cnf2knf/src/cnf2knf.cpp:214-230 | line counts add up over concatenated text |
| Extractor.ShowLitsOneLine | Extractor/cnf2knf/src/cnf2knf.cpp:208-212 | a written literal list holds no newline |
| Extractor.KlauseLineOne | Extractor/cnf2knf/src/cnf2knf.cpp:223 | each klause is written on exactly one line |
| Extractor.KlauseTextLines | Extractor/cnf2knf/src/cnf2knf.cpp:222-223 | the klause part has one line per klause |
| Extractor.ClauseTextLines | Extractor/cnf2knf/src/cnf2knf.cpp:226-229 | the clause part has one line per clause kept; deleted clauses are not written |
| Extractor.KnfTextCounts | Extractor/cnf2knf/src/cnf2knf.cpp:214-230 | the header count equals the number of lines written after it: klauses plus kept clauses |
| Extractor.KlauseLineReads | Extractor/cnf2knf/src/cnf2knf.cpp:223 | a written klause line reads back, after its k, as its bound and its literals |
| Extractor.ClauseLineReads | Extractor/cnf2knf/src/cnf2knf.cpp:228 | a written clause line reads back as its literals, up to the newline |
| Extractor.AddedAppend | Extractor/cnf2knf/src/parse.cpp:129 | storing the clauses of two stretches of text is storing those of the first, then of the second |
| Extractor.LitsOf | Extractor/cnf2knf/src/parse.cpp:129 | the literal lists of the stored klauses, in order |
| Extractor.ClauseTextIsLines | Extractor/cnf2knf/src/cnf2knf.cpp:226-229 | the clause part is the kept clauses written one per line |
| Extractor.ReadHeaderNumbers | Extractor/cnf2knf/src/parse.cpp:90-95 | the header numbers written read back as the variable and clause counts |
| Extractor.HeaderWord | Extractor/cnf2knf/src/parse.cpp:84-90 | the written header starts with p and the word knf, which parse_cnf accepts |
| Extractor.ReadKnfHeader | Extractor/cnf2knf/src/parse.cpp:77-104 | parse_cnf finds the header write_knf_formula writes, with its two counts, and the body after it |
| Extractor.ReadWrittenCnf | Extractor/cnf2knf/src/parse.cpp:64-135 | parse_cnf reads back what write_knf_formula writes for a formula without klauses: the variable count, the count of kept clauses and their literals in order |
| Extractor.CnfExtractor.constructor | Extractor/cnf2knf/src/cnf2knf.hpp:110-141 | the store starts with the given variable count and clauses, no klauses and zeroed statistics |
| Extractor.CnfExtractor.ReadBody | Extractor/cnf2knf/src/parse.cpp:108-132 | the body loop appends, as clauses of bound 1, exactly the statements the body function stores |
| Extractor.CnfExtractor.ParseCnf | Extractor/cnf2knf/src/parse.cpp:64-135 | returns the status of reading the text (-1 bad header word, 1 no header, 0 read); on a read it sets nvars and appends the clauses of the body; otherwise nothing changes |
| Extractor.CnfExtractor.MarkDeletedClauses | Extractor/cnf2knf/src/cnf2knf.cpp:123-125 | the clauses become MarkDeleted of the old clauses over the ids |
| Extractor.CnfExtractor.AddKlause | Extractor/cnf2knf/src/cnf2knf.hpp:169-172 | exactly one klause is appended and the listed clauses are marked deleted; nothing else changes |
| Extractor.CnfExtractor.WriteKnfFormula | Extractor/cnf2knf/src/cnf2knf.cpp:214-230 | the output is the header with the kept count plus klause count, the klauses as k lines, then the kept clauses |
| Extractor.CnfExtractor.ValidateConstraint | Extractor/cnf2knf/src/cnf2knf.cpp:20-121 | returns true exactly when klauses were analysed; then they capture the renamed clauses, are mapped back and committed with the clause ids, and the success counter goes up; otherwise nothing is added or deleted and the failure counter goes up; either way what is added is implied by the old clauses |
| Extractor.CnfExtractor.NormalizeClauses | Extractor/cnf2knf/src/cnf2knf.cpp:55-63 | the renamed clauses, one per id, with every variable in 1..#P + #E |
| Extractor.CnfExtractor.CommitAll | Extractor/cnf2knf/src/cnf2knf.cpp:104-112 | every analysed klause, mapped back, is appended, and the clause ids are marked deleted |
| Extractor.CnfExtractor.BddAnalyze | Extractor/cnf2knf/src/bdd_analyze.cpp:20-65 | as written: at most two klauses are appended and their number returned; they are what the decoder as written gives for a diagram of the projection, and they capture the clauses whenever the checked decoder accepts that diagram |
| Extractor.CnfExtractor.CheckedBddAnalyze | Extractor/cnf2knf/src/bdd_analyze.cpp:20-65 | with the checked decoder: at most two klauses are appended, their number returned, they capture the clauses projected on the data variables, and each has a bound of at least 1 and below its size |
| Extractor.EmitBounds | Extractor/cnf2knf/src/bdd_analyze.cpp:52-63 | every klause the emission writes has a bound of at least 1 and below its number of literals, and is live: a bound of 0 or of the full size is never written |
| Extractor.AnalyzedBounds | Extractor/cnf2knf/src/bdd_analyze.cpp:47-63 | on a diagram the checked decoder accepts, every emitted klause has 1 <= bound < size |
| Extractor.CnfExtractor.AnalyzeNormalized | Extractor/cnf2knf/src/cnf2knf.cpp:20-95 | the numbering and the call of bdd_analyze succeed exactly when klauses were analysed, and then they capture the renamed clauses |
| Extractor.CnfExtractor.RecordOutcome | Extractor/cnf2knf/src/cnf2knf.cpp:97-120 | on success the success counter goes up and the analysed klauses, mapped back to the original variables, are committed with the clause ids deleted; on failure only the failure counter goes up; what is added is implied by the old clauses |
| Extractor.CnfExtractor.EmitKlauses | Extractor/cnf2knf/src/bdd_analyze.cpp:52-64 | the klauses of the emission rules are appended and counted, 0 to 2 of them |
| Extractor.Normalization | Extractor/cnf2knf/src/cnf2knf.cpp:47-54 | the two maps are the numbering of P + E from 1 and its inverse |
| Extractor.NumberFrom | Extractor/cnf2knf/src/cnf2knf.cpp:47-50 | one numbering loop extends both maps |
| Extractor.RenameLits | Extractor/cnf2knf/src/cnf2knf.cpp:57-61 | the inner renaming loop yields the renamed clause |
| Extractor.UnnormalizeLits | Extractor/cnf2knf/src/cnf2knf.cpp:106-109 | the mapping-back loop yields the mapped-back literals |
| Extractor.CountKept | Extractor/cnf2knf/src/cnf2knf.cpp:215-216 | counts the clauses not deleted |
| Extractor.WriteKlauses | Extractor/cnf2knf/src/cnf2knf.cpp:222-223 | writes each klause as a k line |
| Extractor.WriteClauses | Extractor/cnf2knf/src/cnf2knf.cpp:226-229 | writes each kept clause as a line, skipping deleted ones |
| Extractor.OrderClauses | Extractor/cnf2knf/src/bdd_analyze.cpp:26-33 | the variable ordering holds every variable 1..nvar exactly once |
| Extractor.ClauseTerms | Extractor/cnf2knf/src/bdd_analyze.cpp:34-40 | one active term per clause, in order, over the ordering |
| Extractor.ReduceClauses | Extractor/cnf2knf/src/bdd_analyze.cpp:26-45 | on success the root is a diagram of the clauses projected on the data variables |
| AmoGraph.EdgeKey | Extractor/cnf2knf/src/direct_AMO.hpp:154-160 | the key of a binary clause is its two literals negated, the one of smaller variable first |
| AmoGraph.MarkDeletedShape | Extractor/cnf2knf/src/cnf2knf.cpp:123-125 | marking clauses deleted keeps every clause's literals and bound |
| AmoGraph.ConsistentIff | Extractor/cnf2knf/src/direct_AMO.hpp:162-167 | under the map invariant, a pair in order is a key exactly when it is an edge both ways |
| AmoGraph.Adjacent | Extractor/cnf2knf/src/direct_AMO.hpp:166-167 | edges are symmetric and join literals of different variables |
| AmoGraph.AddKeyConsistent | Extractor/cnf2knf/src/direct_AMO.hpp:162-167 | inserting one key and its edge both ways keeps the invariant |
| AmoGraph.IndexConsistent | Extractor/cnf2knf/src/direct_AMO.hpp:141-170 | the maps generate_maps builds satisfy the invariant: key (a, b) present iff b is a neighbour of a and a of b |
| AmoGraph.IndexSound | Extractor/cnf2knf/src/direct_AMO.hpp:144-163 | generate_maps indexes only live binary clauses, each under its own key |
| AmoGraph.IndexComplete | Extractor/cnf2knf/src/direct_AMO.hpp:144-163 | every live binary clause of two variables has its key indexed |
| AmoGraph.CutConsistent | Extractor/cnf2knf/src/direct_AMO.hpp:196-211 | removing a key and its two adjacency entries keeps the invariant |
| AmoGraph.RemoveAllKeys | Extractor/cnf2knf/src/direct_AMO.hpp:213-238 | removing the keys of a list one by one removes the set of them |
| AmoGraph.Lookup | Extractor/cnf2knf/src/direct_AMO.hpp:228-229 | the ids collected are those the keys name, in order |
| AmoGraph.BlockedGrow | Extractor/cnf2knf/src/direct_AMO.hpp:179-189 | a neighbour refused because it is not joined to some member stays refused as the clique grows |
| AmoGraph.GrowStep | Extractor/cnf2knf/src/direct_AMO.hpp:179-189 | one visit of expand_clique's loop keeps the clique pairwise joined and records why each skipped neighbour was refused |
| AmoGraph.Row | Extractor/cnf2knf/src/direct_AMO.hpp:223-229 | the pairs of one row of find_clique_clauses, in order |
| AmoGraph.RowsMembers | Extractor/cnf2knf/src/direct_AMO.hpp:217-237 | every pair collected is two clique members in order |
| AmoGraph.RowsCover | Extractor/cnf2knf/src/direct_AMO.hpp:217-237 | every pair of clique members in order is collected |
| AmoGraph.RowsCount | Extractor/cnf2knf/src/direct_AMO.hpp:217-237 | after n rows, twice the number of pairs collected is n(2k - n - 1) |
| AmoGraph.CliquePairsCount | Extractor/cnf2knf/src/direct_AMO.hpp:213-238 | a clique of k members yields k(k-1)/2 clause ids |
| AmoGraph.CliquePairsPresent | Extractor/cnf2knf/src/direct_AMO.hpp:226 | each pair of a clique sorted by variable is a key, and no pair comes twice (the assert at line 226 holds) |
| AmoGraph.RowsDistinct | Extractor/cnf2knf/src/direct_AMO.hpp:217-237 | no pair is collected twice |
| AmoGraph.AtMostOne | Extractor/cnf2knf/src/direct_AMO.hpp:240-245 | at most one literal of a list is true exactly when no two are |
| AmoGraph.BinaryClauseMeaning | Extractor/cnf2knf/src/direct_AMO.hpp:151-160 | a binary clause holds exactly when the two literals of its key are not both true |
| AmoGraph.JustifiedMeaning | Extractor/cnf2knf/src/direct_AMO.hpp:240-245 | the klause emit_AMO commits (negated clique, bound k-1) holds exactly when every binary clause it consumes holds |
| AmoGraph.CommitEquivalent | Extractor/cnf2knf/src/cnf2knf.hpp:169-172 | committing a klause equivalent to the live clauses it consumes, and deleting those, keeps the formula |
| AmoGraph.LeastKey | Extractor/cnf2knf/src/direct_AMO.hpp:71-73 | a non-empty key set has a least key under compare_pair: where clause_id_map.begin() points |
| AmoGraph.SortByAbs | Extractor/cnf2knf/src/direct_AMO.hpp:77 | the clique sorted by variable holds exactly the members of the set |
| AmoGraph.Bump | Extractor/cnf2knf/src/direct_AMO.hpp:247-250 | counting one more constraint of a size raises that entry by one and keeps the others |
| AmoGraph.KeysShrink | Extractor/cnf2knf/src/direct_AMO.hpp:63 | removing a set holding a present key leaves fewer keys, so run's loop terminates |
| AmoGraph.EmitSound | Extractor/cnf2knf/src/direct_AMO.hpp:240-245 | emitting a clique found through the index keeps the formula, and the keys left still name live clauses |
| AmoGraph.DeferredSnoc | Extractor/cnf2knf/src/direct_AMO.hpp:97-100 | setting aside a justified clique of three or four keeps the list of deferred cliques valid |
| AmoGraph.DeferredShape | Extractor/cnf2knf/src/direct_AMO.hpp:107-121 | deferred cliques stay justified while only other clauses change |
| AmoGraph.TakeValid | Extractor/cnf2knf/src/direct_AMO.hpp:213-238 | taking a clique's pairs out: they are all keys, the index shrinks and stays sound, and the ids justify the clique |
| AmoGraph.DeferValid | Extractor/cnf2knf/src/direct_AMO.hpp:87-100 | a clique of three or four whose pairs are taken out: the index shrinks and the engine invariant holds with the clique set aside |
| AmoGraph.EmitValid | Extractor/cnf2knf/src/direct_AMO.hpp:87-103 | a clique of five or more whose pairs are taken out is ready to be committed: the index shrinks and the invariant holds |
| AmoGraph.NoBinaryIndex | Extractor/cnf2knf/src/direct_AMO.hpp:141-160 | with no live binary clause generate_maps indexes nothing, so run does no work |
| AmoGraph.JoinedClique | Extractor/cnf2knf/src/direct_AMO.hpp:77 | a pairwise joined set sorted by variable is a clique holding exactly that set |
| DirectAmo.DirectAmoEngine.constructor | Extractor/cnf2knf/src/cnf2knf.hpp:197-201 | no timeout reached, zeroed statistics, nothing indexed or set aside |
| DirectAmo.DirectAmoEngine.GenerateMaps | Extractor/cnf2knf/src/direct_AMO.hpp:141-170 | the maps become the index and adjacency of the live binary clauses |
| DirectAmo.DirectAmoEngine.RemoveEdge | Extractor/cnf2knf/src/direct_AMO.hpp:196-211 | exactly the key and its two adjacency entries go; the invariant holds and the index shrinks |
| DirectAmo.DirectAmoEngine.AdjacentToAll | Extractor/cnf2knf/src/direct_AMO.hpp:180-187 | true exactly when olit is joined to every other member taken so far |
| DirectAmo.DirectAmoEngine.ExpandClique | Extractor/cnf2knf/src/direct_AMO.hpp:172-193 | the clique contains lit, is sorted by variable, its members are pairwise adjacent and adjacent to lit, and every neighbour left out is blocked by some member |
| DirectAmo.DirectAmoEngine.GrowClique | Extractor/cnf2knf/src/direct_AMO.hpp:179-189 | the loop over lit's neighbours keeps the clique joined and records each refusal |
| DirectAmo.DirectAmoEngine.FindCliqueClauses | Extractor/cnf2knf/src/direct_AMO.hpp:213-238 | the ids are those of the clique's pairs, row by row, and exactly those keys and edges are removed |
| DirectAmo.DirectAmoEngine.EmitAmo | Extractor/cnf2knf/src/direct_AMO.hpp:240-251 | exactly the AMO klause of the clique is appended, its clauses are marked deleted, and the count of constraints of its size goes up |
| DirectAmo.DirectAmoEngine.Step | Extractor/cnf2knf/src/direct_AMO.hpp:63-103 | one iteration keeps the invariant, shrinks the index, keeps the clause shapes and keeps the formula up to equivalence |
| DirectAmo.DirectAmoEngine.HandleClique | Extractor/cnf2knf/src/direct_AMO.hpp:79-103 | the size branch: a clique of two loses its edge, three or four is set aside, more is emitted; same guarantees as Step |
| DirectAmo.DirectAmoEngine.DropEdge | Extractor/cnf2knf/src/direct_AMO.hpp:79-85 | a clique of two loses its edge and the index shrinks |
| DirectAmo.DirectAmoEngine.SetAside | Extractor/cnf2knf/src/direct_AMO.hpp:97-100 | the clique and its ids are appended to the deferred lists |
| DirectAmo.DirectAmoEngine.DeferClique | Extractor/cnf2knf/src/direct_AMO.hpp:87-100 | a clique of three or four is set aside with its ids and its edges go |
| DirectAmo.DirectAmoEngine.CollectLargeClique | Extractor/cnf2knf/src/direct_AMO.hpp:87 | a clique of five or more has its ids collected and its edges removed, ready to commit |
| DirectAmo.DirectAmoEngine.EmitClique | Extractor/cnf2knf/src/direct_AMO.hpp:87-103 | a clique of five or more is replaced by its AMO klause; the formula is kept and the new klause has bound size - 1 >= 1 |
| DirectAmo.DirectAmoEngine.IndexClauses | Extractor/cnf2knf/src/direct_AMO.hpp:45 | the maps built at the start of run satisfy the invariant |
| DirectAmo.DirectAmoEngine.Run | Extractor/cnf2knf/src/direct_AMO.hpp:39-105 | run ends with the index empty or the timeout reached, keeps the clause shapes, keeps the formula (clauses plus klauses) equivalent, appends only klauses with 1 <= bound < size, and changes nothing when there is no binary clause |
| DirectAmo.DirectAmoEngine.ClearData | Extractor/cnf2knf/src/direct_AMO.hpp:34-37 | the index and the graph are emptied; the deferred cliques stay |
| DirectAmo.DirectAmoEngine.AllPresent | Extractor/cnf2knf/src/direct_AMO.hpp:115-118 | true exactly when none of the listed clauses is deleted |
| DirectAmo.DirectAmoEngine.FindSmallAmos | Extractor/cnf2knf/src/direct_AMO.hpp:107-127 | each deferred clique is emitted iff none of its clauses was consumed since; the formula stays equivalent, only deferred-clique klauses with 1 <= bound < size are appended, and with nothing deferred nothing changes |
| DirectAmo.DirectAmoEngine.TryDeferred | Extractor/cnf2knf/src/direct_AMO.hpp:111-121 | the i-th deferred clique is emitted exactly when its clauses are all live, as a klause with 1 <= bound < size |
| DirectAmo.DirectAmoEngine.Steps | Extractor/cnf2knf/src/direct_AMO.hpp:59-105 | the loop of run: it ends with the index empty or the budget spent, keeps the invariant, the shapes and the formula, grows the klauses sanely, and with an empty index changes nothing |
| DirectAmo.AmoSane | Extractor/cnf2knf/src/direct_AMO.hpp:240-245 | the AMO klause of a clique of at least two literals has bound size - 1, so appending it keeps 1 <= bound < size |
| DirectAmo.SaneGrowthTrans | Extractor/cnf2knf/src/direct_AMO.hpp:39-127 | appending only sane klauses composes over successive steps |
| DirectAmo.HoldingTrans | Extractor/cnf2knf/src/direct_AMO.hpp:39-105 | the run invariant (shape, equivalence, sane growth) is kept by one more step that keeps the same three |
| Engines.FollowsTrans | Extractor/cnf2knf/src/cnf2knf.cpp:372-426 | keeping every model composes over engines run one after another |
| Engines.EquivalentFollows | Extractor/cnf2knf/src/cnf2knf.cpp:392-417 | an engine run that keeps the formula up to equivalence keeps every model |
| Engines.EncodedFollows | Extractor/cnf2knf/src/cnf2knf.cpp:404-426 | an encoded run that only retires clauses and appends implied klauses keeps every model |
| Engines.RunEncoded | Extractor/cnf2knf/src/cnf2knf.cpp:404-410 | one encoded engine built, initialised and run keeps the clause shapes, the variable count and every model, and changes nothing when no variable qualifies as an encoding variable |
| Engines.RunExtractionEngines | Extractor/cnf2knf/src/cnf2knf.cpp:372-445 | the engines the options switch on, in order (direct, clear, encoded, small AMOs, others): every model of the input is a model of the result, the text written is the KNF of the result, and a formula with no binary clause and no encoding variable is left unchanged |
| Engines.DirectPhase | Extractor/cnf2knf/src/cnf2knf.cpp:392-400 | the direct engine, when switched on, keeps the clauses proper, leaves valid deferred cliques, keeps every model, and on an idle formula defers nothing |
| Engines.EncodedPhase | Extractor/cnf2knf/src/cnf2knf.cpp:404-410 | the encoded engine, when switched on, keeps shapes, variable count, deferred cliques and every model, and changes nothing without encoding variables |
| Engines.SmallPhase | Extractor/cnf2knf/src/cnf2knf.cpp:413-417 | emitting the deferred small cliques keeps shapes and every model, and with nothing deferred changes nothing |
| Engines.ReachedStep | Extractor/cnf2knf/src/cnf2knf.cpp:372-426 | what the engines reached so far, followed by one more phase that is idle on an idle input, is still reached |
| Clusters.OccursStep | Extractor/cnf2knf/src/encoded_AMO.hpp:153-158 | a literal occurs in the small live clauses up to n exactly when it does up to n-1 or in clause n-1 when that is small and live |
| Clusters.MarkMeaning | Extractor/cnf2knf/src/encoded_AMO.hpp:160-172 | marking a clause's literals records each variable seen, with the positive flag for a positive literal and the negative flag for a negative one |
| Clusters.ClassifiedMeaning | Extractor/cnf2knf/src/encoded_AMO.hpp:149-175 | classify_variables: a variable is classified exactly when it occurs in a live clause of at most max literals, and its flags say in which polarities |
| Clusters.HitsMeaning | Extractor/cnf2knf/src/encoded_AMO.hpp:196-201 | a clause is filed under a variable only when one of its literals is over that variable, and then under its own id |
| Clusters.OccurrencesSound | Extractor/cnf2knf/src/encoded_AMO.hpp:191-203 | every id filed under a variable is a live clause mentioning it, in ascending order |
| Clusters.OccurrencesComplete | Extractor/cnf2knf/src/encoded_AMO.hpp:191-203 | every live clause mentioning a variable is filed under it |
| Clusters.EncodingListed | Extractor/cnf2knf/src/encoded_AMO.hpp:181-203 | an encoding variable has a non-empty list of the live clauses that mention it |
| Clusters.MapsIndexed | Extractor/cnf2knf/src/encoded_AMO.hpp:177-204 | after generate_maps both maps list exactly the live clauses of each variable |
| Clusters.CoveredMono | Extractor/cnf2knf/src/encoded_AMO.hpp:229-230 | a variable mentioned by the cluster's clauses stays mentioned as clauses are added |
| Clusters.TraceListed | Extractor/cnf2knf/src/encoded_AMO.hpp:229-230 | tracing one encoding variable adds all its listed clauses, all live |
| Clusters.TraceClosed | Extractor/cnf2knf/src/encoded_AMO.hpp:229-251 | tracing one variable keeps the cluster closed: each variable met is placed as problem or encoding variable, or traced later |
| Clusters.TraceCovered | Extractor/cnf2knf/src/encoded_AMO.hpp:229-251 | every variable placed in the cluster is mentioned by its clauses or still to be traced |
| Clusters.TraceStep | Extractor/cnf2knf/src/encoded_AMO.hpp:223-252 | one turn of get_cluster's loop keeps the clause half of its invariant |
| Clusters.TraceSetsStep | Extractor/cnf2knf/src/encoded_AMO.hpp:223-252 | one turn of get_cluster's loop keeps the set half of its invariant: erased variables are the traced ones, and the problem and encoding sets stay disjoint |
| Clusters.ExpandsStep | Extractor/cnf2knf/src/encoded_AMO.hpp:274-292 | adding one problem variable's list adds exactly its eligible clauses |
| Clusters.PlaceDone | Extractor/cnf2knf/src/encoded_AMO.hpp:306-323 | the normalising scan succeeds exactly when every variable it meets is in the cluster |
| Clusters.PlaceMeaning | Extractor/cnf2knf/src/encoded_AMO.hpp:306-326 | on success every problem and encoding variable is placed once, at first sight in clause order, and both sets end empty |
| Clusters.FlattenAll | Extractor/cnf2knf/src/encoded_AMO.hpp:303-308 | every literal of the sorted cluster clauses is over the given variables exactly when every literal of every cluster clause is |
| Clusters.NormalizedCluster | Extractor/cnf2knf/src/encoded_AMO.hpp:295-327 | normalize_cluster succeeds exactly when the cluster's clauses mention only cluster variables, and then lists each problem and each encoding variable once |
| Clusters.ClusterCandidates | Extractor/cnf2knf/src/cnf2knf.cpp:55-61 | the clauses of a normalised cluster are live and over the listed variables, as validate_constraint asserts |
| Clusters.StillIndexed | Extractor/cnf2knf/src/encoded_AMO.hpp:66-131 | consuming a cluster's clauses keeps the index of the encoding variables still waiting |
| Clusters.ShrinkKeys | Extractor/cnf2knf/src/encoded_AMO.hpp:251 | erasing a present key shrinks the map, so run's loop terminates |
| Clusters.NoEncodingClassified | Extractor/cnf2knf/src/encoded_AMO.hpp:149-186 | when no variable occurs in both polarities in small live clauses, classify_variables marks none as both, so no encoding variable is found |
| EncodedAmo.EncodedAmoEngine.constructor | Extractor/cnf2knf/src/cnf2knf.hpp:197-201 | no timeout reached, zeroed statistics, empty maps, sets and lists |
| EncodedAmo.EncodedAmoEngine.Init | Extractor/cnf2knf/src/encoded_AMO.hpp:24-29 | max_clause_size is 2 and AMO is on, whatever the options |
| EncodedAmo.EncodedAmoEngine.ClassifyVariables | Extractor/cnf2knf/src/encoded_AMO.hpp:149-175 | the polarity map is the classification of the live clauses of at most two literals |
| EncodedAmo.EncodedAmoEngine.CreateEntries | Extractor/cnf2knf/src/encoded_AMO.hpp:181-188 | a variable gets an encoding entry iff seen in both polarities, a problem entry otherwise; entries start empty |
| EncodedAmo.EncodedAmoEngine.FileClause | Extractor/cnf2knf/src/encoded_AMO.hpp:195-202 | clause i is appended to the entry of each classified variable it mentions; no entry is added |
| EncodedAmo.EncodedAmoEngine.GenerateMaps | Extractor/cnf2knf/src/encoded_AMO.hpp:177-204 | both maps have the classified variables as keys, split by polarity, and each lists the live clauses mentioning its variable |
| EncodedAmo.EncodedAmoEngine.TraceClause | Extractor/cnf2knf/src/encoded_AMO.hpp:232-249 | one clause's variables are placed: unseen encoding variables are traced and problem variables collected; the sets stay disjoint |
| EncodedAmo.EncodedAmoEngine.TraceVariable | Extractor/cnf2knf/src/encoded_AMO.hpp:229-250 | all clauses listed under ev join the cluster and their variables are placed |
| EncodedAmo.EncodedAmoEngine.GetCluster | Extractor/cnf2knf/src/encoded_AMO.hpp:206-268 | the cluster starts from an encoding variable, the traced variables are erased from the map (which shrinks), the sets are disjoint, the clauses are live and cover the cluster's variables |
| EncodedAmo.EncodedAmoEngine.Admit | Extractor/cnf2knf/src/encoded_AMO.hpp:87-97 | a cluster passes the filters exactly when it is admissible (3..300 problem, at most 600 encoding, the AMO ratio and the 3 #E >= #P test past 10); then it has at least three problem variables and at most 900 variables, and in AMO mode at most four times as many as problem variables |
| EncodedAmo.EncodedAmoEngine.InCluster | Extractor/cnf2knf/src/encoded_AMO.hpp:284-289 | true exactly when every variable of the literals is in the cluster |
| EncodedAmo.EncodedAmoEngine.ExpandVariable | Extractor/cnf2knf/src/encoded_AMO.hpp:277-291 | the clause set gains exactly the eligible clauses listed under one problem variable |
| EncodedAmo.EncodedAmoEngine.ExpandCluster | Extractor/cnf2knf/src/encoded_AMO.hpp:270-293 | the clause set gains exactly the live clauses of at most two literals, over cluster variables only, listed under a problem variable |
| EncodedAmo.EncodedAmoEngine.NormalizeCluster | Extractor/cnf2knf/src/encoded_AMO.hpp:295-327 | false on an empty clause set; otherwise the result and the variable lists are those of the scan over the clauses in ascending id order |
| EncodedAmo.EncodedAmoEngine.ScanClauses | Extractor/cnf2knf/src/encoded_AMO.hpp:306-323 | the scan over the listed clauses places each variable at first sight and fails on a variable outside the cluster |
| EncodedAmo.EncodedAmoEngine.RecordConstraint | Extractor/cnf2knf/src/encoded_AMO.hpp:117-127 | the constraint count and the count of its size go up by one |
| EncodedAmo.EncodedAmoEngine.Commit | Extractor/cnf2knf/src/encoded_AMO.hpp:99-130 | expanding, normalising and validating a cluster only retires clauses and appends klauses the old clauses imply; constraints counted equal validation successes |
| EncodedAmo.EncodedAmoEngine.Validate | Extractor/cnf2knf/src/encoded_AMO.hpp:103-130 | validating a normalised cluster only retires clauses and appends implied klauses, and keeps the index of waiting variables |
| EncodedAmo.EncodedAmoEngine.Step | Extractor/cnf2knf/src/encoded_AMO.hpp:66-130 | one iteration shrinks the encoding map, keeps the index, only retires clauses and appends implied klauses |
| EncodedAmo.EncodedAmoEngine.Run | Extractor/cnf2knf/src/encoded_AMO.hpp:31-134 | run ends with the map empty or the timeout reached; the clause shapes and variable count are kept, every klause appended is implied by the original clauses, and the constraint count equals the validations that succeeded; with no encoding variable nothing changes |
| Bdd.EvalApply | Extractor/cnf2knf/tbuddy/bddop.c:571-689 | the apply recursion computes the pointwise Boolean operation: under every assignment the result's value is the operator applied to the two operands' values |
| Bdd.SupportApply | Extractor/cnf2knf/tbuddy/bddop.c:571-689 | apply introduces no variable outside the two operands' supports |
| Bdd.EvalRestrict | Extractor/cnf2knf/tbuddy/bddop.c:1519-1560 | restricting x to b yields the diagram whose value under a is the original's value under a with x set to b |
| Bdd.SupportRestrict | Extractor/cnf2knf/tbuddy/bddop.c:1519-1560 | the restricted diagram no longer mentions x and mentions nothing new |
| Bdd.EvalExist | Extractor/cnf2knf/tbuddy/bddop.c:2193-2232 | existential quantification of x holds exactly when the diagram holds for x false or for x true |
| Bdd.SupportExist | Extractor/cnf2knf/tbuddy/bddop.c:2193-2232 | the quantified diagram's support loses x and gains nothing |
| Bdd.EvalSupport | Extractor/cnf2knf/tbuddy/bddop.c:571-689 | a diagram's value depends only on the variables of its support |
| Bdd.EvalClauseNode | Extractor/cnf2knf/tbuddy/eval.cpp:133-151 | the diagram built for a clause holds exactly when at least one of its literals is true |
| Bdd.SupportClauseNode | Extractor/cnf2knf/tbuddy/eval.cpp:133-151 | the clause diagram mentions only the clause's variables |
| Decoder.HChildren | Extractor/cnf2knf/tbuddy/eval.cpp:346-358 | one high child per layer entry, a leaf standing for itself |
| Decoder.LChildren | Extractor/cnf2knf/tbuddy/eval.cpp:346-358 | one low child per layer entry, a leaf standing for itself |
| Decoder.Layers | Extractor/cnf2knf/tbuddy/eval.cpp:340-388 | after k successful rounds the layer has k + 1 entries |
| Decoder.FirstTrue | Extractor/cnf2knf/tbuddy/eval.cpp:389-392 | the result is the first index at or after the start holding the true leaf, or the length when none does |
| Decoder.LastTrue | Extractor/cnf2knf/tbuddy/eval.cpp:393-396 | scanning down to 1, the result is the last true index, or 0 when no index above 0 holds the true leaf |
| Decoder.Range | Extractor/cnf2knf/tbuddy/eval.cpp:328-336 | the literal list 1..n reported for a constant root |
| Decoder.LayerVarMeaning | Extractor/cnf2knf/tbuddy/eval.cpp:346-358 | the layer's decision variable is shared by every non-terminal entry; 0 means the whole layer is leaves |
| Decoder.StepSupport | Extractor/cnf2knf/tbuddy/eval.cpp:361-383 | every entry of the next layer is a child of, or equal to, an entry of the current layer |
| Decoder.StepConstant | Extractor/cnf2knf/tbuddy/eval.cpp:384-387 | a layer with no decision variable is one leaf repeated, and the next layer repeats the same leaf |
| Decoder.EvalSplit | Extractor/cnf2knf/tbuddy/eval.cpp:346-358 | a node labelled by x, or a leaf, evaluates to its high or low child according to x |
| Decoder.StepEval | Extractor/cnf2knf/tbuddy/eval.cpp:361-387 | entry c of a layer agrees under every assignment with entry c + [the new literal is true] of the next layer |
| Decoder.AllEqual | Extractor/cnf2knf/tbuddy/eval.cpp:384-387 | neighbouring entries all equal means every entry equals the first |
| Decoder.NextEval | Extractor/cnf2knf/tbuddy/eval.cpp:340-388 | one round keeps the root's value equal to the entry indexed by the number of true decoded literals |
| Decoder.NextMeaning | Extractor/cnf2knf/tbuddy/eval.cpp:340-388 | one round preserves the decoding invariant: layer size, supports within the root, and the counting correspondence |
| Decoder.LayersMeaning | Extractor/cnf2knf/tbuddy/eval.cpp:340-388 | after k rounds the root agrees under every assignment with the layer entry indexed by the count of true decoded literals |
| Decoder.CheckedBoundsMeaning | Extractor/cnf2knf/tbuddy/eval.cpp:389-404 | on an accepted final layer an entry is true exactly when its index lies in the reported bounds |
| Decoder.CheckedConverterMeaning | Extractor/cnf2knf/tbuddy/eval.cpp:322-405 | the corrected decoder's klause holds under an assignment exactly when the diagram does, with bounds within 0..ndata |
| Decoder.ConverterAgrees | Extractor/cnf2knf/tbuddy/eval.cpp:389-404 | the decoder as written returns the corrected decoder's klause on every diagram the corrected one accepts |
| Decoder.LayersNone | Extractor/cnf2knf/tbuddy/eval.cpp:340-388 | once a round fails, every later round count fails too |
| Decoder.LayerVarNone | Extractor/cnf2knf/tbuddy/eval.cpp:351-355 | two non-terminal entries of a prefix on different variables make the whole layer fail |
| Decoder.SplitLayer | Extractor/cnf2knf/tbuddy/eval.cpp:343-359 | the inner loop returns the shared variable with the high and low children, or fails when two entries split on different variables |
| Decoder.ShiftAll | Extractor/cnf2knf/tbuddy/eval.cpp:361-367 | phase p is compatible exactly when every position passes the shift test of the inner loop |
| Decoder.FindPhase | Extractor/cnf2knf/tbuddy/eval.cpp:361-383 | the phase found is 0 when phase 0 is compatible, else 1 when phase 1 is; none exactly when neither is |
| Decoder.NextLayer | Extractor/cnf2knf/tbuddy/eval.cpp:342-388 | one round of the layer loop computes the specification's next layer and literal list |
| Decoder.ScanBounds | Extractor/cnf2knf/tbuddy/eval.cpp:389-404 | the final scan returns the first true entry below ndata and the last one down to 1, or (1, 0) when they cross |
| Decoder.CheckedScan | Extractor/cnf2knf/tbuddy/eval.cpp:389-404 | the checked scan accepts only final layers of leaves whose true entries form one non-empty run |
| Decoder.ConverterAcceptsParity | Extractor/cnf2knf/tbuddy/eval.cpp:389-404 | the decoder as written turns odd parity of three variables into the klause 0 <= -x1 + -x2 + -x3 <= 2, which x1 = x2 = true, x3 = false satisfies while parity does not; the corrected decoder rejects it |
| Decoder.ParityLayer2 | Extractor/cnf2knf/tbuddy/eval.cpp:340-388 | the first two rounds on the parity diagram succeed with the layers given |
| Decoder.ParityLayer3 | Extractor/cnf2knf/tbuddy/eval.cpp:340-388 | all three rounds succeed, leaving the alternating final layer true, false, true, false |
| Decoder.NextEvalSplit | Extractor/cnf2knf/tbuddy/eval.cpp:361-383 | a splitting round keeps the root equal to the entry indexed by the count of true decoded literals |
| Decoder.NextEvalConstant | Extractor/cnf2knf/tbuddy/eval.cpp:384-387 | a constant round keeps the same correspondence |
| Decoder.ShiftEval | Extractor/cnf2knf/tbuddy/eval.cpp:361-387 | adding the new literal moves the index by one exactly when that literal is true |
| Decoder.ExactlyRoundTrip | Extractor/cnf2knf/tbuddy/eval.cpp:322-405 | when the checked converter accepts a diagram and reads off n literals on distinct variables, and the diagram means exactly k of those literals, the bounds are k..k (ExactlyGadget shows such a diagram for every k) |
| Decoder.AtLeastRoundTrip | Extractor/cnf2knf/tbuddy/eval.cpp:322-405 | when the checked converter accepts a diagram meaning at least k of the n literals it reads off, the bounds are k..n (AtLeastGadget shows such a diagram) |
| Decoder.AtMostRoundTrip | Extractor/cnf2knf/tbuddy/eval.cpp:322-405 | when the checked converter accepts a diagram meaning at most k of the n literals it reads off, the bounds are 0..k (AtMostGadget shows such a diagram) |
| Decoder.StaircaseMeaning | Extractor/cnf2knf/tbuddy/eval.cpp:322-405 | the reduced staircase diagram over x1..xn holds exactly when between lo and hi of x1..xn are true |
| Decoder.CellShape | Extractor/cnf2knf/tbuddy/eval.cpp:345-358 | a reduced staircase node is the false leaf when no reachable count lies in lo..hi, the true leaf when all do, and otherwise a branch on the next variable: the shapes the layer loop meets |
| Decoder.StairBranch | Extractor/cnf2knf/tbuddy/eval.cpp:384-386 | unless the staircase is constantly true, every layer before the last holds a branch, so no round finds only leaves and fails early |
| Decoder.StairStep | Extractor/cnf2knf/tbuddy/eval.cpp:342-383 | each round on the staircase finds the one shared variable x(k) and passes the phase-0 shift test (a leaf entry is its own children), so the layer loop takes the next row of cells and decodes -x(k) |
| Decoder.StaircaseLayers | Extractor/cnf2knf/tbuddy/eval.cpp:340-388 | the first k rounds on the staircase succeed, decoding -x1..-xk and leaving the row of depth-k cells |
| Decoder.StairBounds | Extractor/cnf2knf/tbuddy/eval.cpp:389-404 | the staircase's final layer is all leaves, true exactly on the run n - hi..n - lo, and the checked scan returns that run |
| Decoder.StaircaseDecodes | Extractor/cnf2knf/tbuddy/eval.cpp:322-405 | the checked converter accepts the staircase of lo..hi (unless it is constantly true) and returns the literals -x1..-xn with the bounds n - hi..n - lo |
| Decoder.ExactlyGadget | Extractor/cnf2knf/tbuddy/eval.cpp:322-405 | a diagram of exactly k of n literals on distinct variables is accepted and decodes to lower == upper == k; it meets every premise of ExactlyRoundTrip |
| Decoder.AtLeastGadget | Extractor/cnf2knf/tbuddy/eval.cpp:322-405 | a diagram of at least k of n literals is accepted and decodes to k..n |
| Decoder.AtMostGadget | Extractor/cnf2knf/tbuddy/eval.cpp:322-405 | a diagram of at most k of n literals is accepted and decodes to 0..k |
| Lits.PrefixTrueCount | Extractor/cnf2knf/tbuddy/eval.cpp:389-404 | making the first m of distinct literals true gives exactly m true literals (the witness used by the round trips) |
| Lits.CountFirst | Extractor/cnf2knf/tbuddy/eval.cpp:389-404 | when exactly the first m literals are true, min(m, size) are true |
| TermSets.LevelOf | Extractor/cnf2knf/tbuddy/eval.cpp:183-200 | a variable's level is the position, counted from 1, of its first occurrence in the variable order, or one past the order when it is absent |
| TermSets.EncLevel | Extractor/cnf2knf/tbuddy/eval.cpp:183-200 | the result is the lowest level from l on holding an encoding variable (one above ndata) of the support, and 0 exactly when no such level exists |
| TermSets.EvalConjTerms | Extractor/cnf2knf/tbuddy/eval.cpp:203-311 | the conjunction of the terms holds exactly when every live term holds |
| TermSets.EvalQuantifyEnc | Extractor/cnf2knf/tbuddy/eval.cpp:233-305 | quantifying the encoding variables of a list keeps exactly the assignments that some choice of those variables extends to a model |
| TermSets.ExistIgnored | Extractor/cnf2knf/tbuddy/eval.cpp:237-247 | quantifying a variable the function ignores changes nothing, which is why an empty bucket is skipped |
| TermSets.BucketOfMeaning | Extractor/cnf2knf/tbuddy/eval.cpp:183-200 | a diagram containing an encoding variable of the order is filed in a non-zero bucket no higher than that variable's level |
| TermSets.BucketOfShrink | Extractor/cnf2knf/tbuddy/eval.cpp:183-200 | a diagram over fewer variables is filed no lower than the one it came from |
| TermSets.SupportList | Extractor/cnf2knf/tbuddy/eval.cpp:183-200 | the support list has exactly the variables of the diagram's support |
| TermSets.Release | Extractor/cnf2knf/tbuddy/eval.cpp:58-64 | deactivating a term clears its liveness and node count and leaves every other term as it was |
| TermSets.ClauseNodePositive | Extractor/cnf2knf/tbuddy/eval.cpp:133-151 | a clause of non-zero literals becomes a diagram over positive variables only |
| TermSets.ConjLevel | Extractor/cnf2knf/tbuddy/eval.cpp:267-268 | the conjunction of two terms of bucket b is filed in a bucket not yet finished |
| TermSets.QuantLevel | Extractor/cnf2knf/tbuddy/eval.cpp:285-296 | quantifying the level-b variable out of a term of bucket b files the result above b or at 0 |
| TermSets.UnsatQuantify | Extractor/cnf2knf/tbuddy/eval.cpp:260-266 | a formula without a model keeps none when more encoding variables are quantified |
| TermSets.ConjPreserves | Extractor/cnf2knf/tbuddy/eval.cpp:250-273 | conjoining the next two entries of a bucket, releasing them and filing the result keeps the pending terms meaning the same formula |
| TermSets.QuantPreserves | Extractor/cnf2knf/tbuddy/eval.cpp:274-304 | quantifying the level variable out of a bucket's last entry makes the pending terms mean the formula with that variable quantified |
| TermSets.SkipPreserves | Extractor/cnf2knf/tbuddy/eval.cpp:237-247 | an exhausted bucket's variable occurs in no pending term, so quantifying it leaves the meaning unchanged |
| TermSets.NextPreserves | Extractor/cnf2knf/tbuddy/eval.cpp:233-236 | the end of bucket b is the start of the next bucket, with bucket 0 taken last |
| TermSets.FilingStart | Extractor/cnf2knf/tbuddy/eval.cpp:204-207 | the filing invariant holds for empty buckets |
| TermSets.FilingSkip | Extractor/cnf2knf/tbuddy/eval.cpp:211-219 | a released or constantly true term is not filed, and the filing invariant survives |
| TermSets.FilingPush | Extractor/cnf2knf/tbuddy/eval.cpp:219-228 | filing a live term in the bucket of its level keeps the filing invariant |
| TermSets.FilingFalse | Extractor/cnf2knf/tbuddy/eval.cpp:214-218 | one live constantly false term makes the conjunction of all terms unsatisfiable |
| TermSets.FilingDone | Extractor/cnf2knf/tbuddy/eval.cpp:229-233 | once every term is filed, the pending terms mean the conjunction of all live terms |
| TermSets.LastMeans | Extractor/cnf2knf/tbuddy/eval.cpp:274-284 | the single pending entry left in bucket 0 means the whole reduced formula |
| TermSets.EmptyMeans | Extractor/cnf2knf/tbuddy/eval.cpp:237-243 | an empty bucket 0 at the end means the reduced formula is valid |
| TermSets.QuantifyEncStep | Extractor/cnf2knf/tbuddy/eval.cpp:233-305 | quantifying one more level of the order adds one existential quantification, or none for a data variable |
| TermSets.TermSet.constructor | Extractor/cnf2knf/tbuddy/eval.cpp:66-83 | a new term set has no terms, root false and all counters zero |
| TermSets.TermSet.GetTerm | Extractor/cnf2knf/tbuddy/eval.cpp:120-131 | a term is found exactly when its identifier is in range and the term is live |
| TermSets.TermSet.CheckGc | Extractor/cnf2knf/tbuddy/eval.cpp:91-101 | garbage collection runs only when enough nodes are dead; it subtracts them from the total, clears them and changes nothing else |
| TermSets.TermSet.Add | Extractor/cnf2knf/tbuddy/eval.cpp:103-118 | the new term is appended live and the largest diagram size is updated; the identifier is refused (-1) once a diagram exceeds ndata times ndata nodes |
| TermSets.TermSet.AddClause | Extractor/cnf2knf/tbuddy/eval.cpp:133-151 | the appended term holds exactly when some literal of the clause does |
| TermSets.TermSet.Deactivate | Extractor/cnf2knf/tbuddy/eval.cpp:58-64 | the term is released and its node count returned as the number of dead nodes |
| TermSets.TermSet.Conjunct | Extractor/cnf2knf/tbuddy/eval.cpp:153-167 | two live terms are replaced by one term meaning their conjunction; -1 and nothing changed when either is not live |
| TermSets.TermSet.Equantify | Extractor/cnf2knf/tbuddy/eval.cpp:169-181 | a live term is replaced by one meaning it with the variable quantified; -1 and nothing changed when the term is not live |
| TermSets.TermSet.FindBucketLevel | Extractor/cnf2knf/tbuddy/eval.cpp:183-200 | the result is the bucket of the term's diagram, and -1 when the term is not live |
| TermSets.TermSet.FileTerms | Extractor/cnf2knf/tbuddy/eval.cpp:208-229 | every live non-constant term is filed by level; a live false term ends the reduction with root false, and then the formula has no model |
| TermSets.TermSet.PairStep | Extractor/cnf2knf/tbuddy/eval.cpp:250-273 | one pairing round keeps the scan invariant, or ends with root false on an unsatisfiable formula, or fails on the size limit |
| TermSets.TermSet.PairBucket | Extractor/cnf2knf/tbuddy/eval.cpp:250-273 | the pairing loop leaves at most one entry of the bucket pending, with the same meaning |
| TermSets.TermSet.QuantLast | Extractor/cnf2knf/tbuddy/eval.cpp:285-304 | quantifying the last entry of bucket b leaves the pending terms meaning the formula with the level-b variable quantified |
| TermSets.TermSet.QuantBucket | Extractor/cnf2knf/tbuddy/eval.cpp:249-304 | processing bucket b turns the meaning into the formula with the level-b variable quantified, or ends with root false on no model |
| TermSets.TermSet.SweepStep | Extractor/cnf2knf/tbuddy/eval.cpp:233-305 | after bucket b the pending terms mean the conjunction with the encoding variables of levels 1..b quantified |
| TermSets.TermSet.ReduceLast | Extractor/cnf2knf/tbuddy/eval.cpp:237-243 | bucket 0 makes its last entry the root, meaning the reduced formula; an empty bucket 0 gives root true only at verbosity 2 or more and otherwise fails |
| TermSets.TermSet.Sweep | Extractor/cnf2knf/tbuddy/eval.cpp:233-310 | on success the root holds exactly when the filed conjunction holds for some choice of the encoding variables; failure only on the size limit or an empty bucket 0 at low verbosity |
| TermSets.TermSet.BucketReduce | Extractor/cnf2knf/tbuddy/eval.cpp:203-311 | on success the root means the live terms conjoined with every encoding variable of the order quantified |
| TermSets.TermSet.CardinalityConverter | Extractor/cnf2knf/tbuddy/eval.cpp:322-405 | the decoding method succeeds exactly when the decoder as written does and returns its literals and bounds |
| TermSets.TermSet.CheckedCardinalityConverter | Extractor/cnf2knf/tbuddy/eval.cpp:322-405 | the checked decoding method succeeds exactly when the checked decoder does and returns its literals and bounds |
| Ordering.StartAsWritten | Extractor/cnf2knf/tbuddy/eval.cpp:590-591 | the start node computed in single precision from a draw of random() is always above ndata |
| Ordering.StartAsWrittenEscapes | Extractor/cnf2knf/tbuddy/eval.cpp:590-591 | each of the 64 largest draws, RAND_MAX among them, rounds r to 1.0, so the start node is one past the last encoding variable |
| Ordering.StartAsWrittenInRange | Extractor/cnf2knf/tbuddy/eval.cpp:590-591 | every smaller draw gives a start node among the encoding variables |
| Ordering.UlpExp | Extractor/cnf2knf/tbuddy/eval.cpp:590 | the exponent of the single-precision spacing: 0 below 2^24, growing by one per further bit |
| Ordering.RoundTop | Extractor/cnf2knf/tbuddy/eval.cpp:590 | every draw from 2^31 - 64 up converts to the float 2^31 |
| Ordering.RoundBelowTop | Extractor/cnf2knf/tbuddy/eval.cpp:590 | every draw below 2^31 - 64 converts to at most 2^31 - 128 |
| Ordering.RoundProduct | Extractor/cnf2knf/tbuddy/eval.cpp:591 | the rounded product nencode times r stays below nencode times 2^31 when r is at most 2^31 - 128 |
| Ordering.Start | Extractor/cnf2knf/tbuddy/eval.cpp:590-591 | the corrected start node is always an encoding variable, and equals the as-written one on every draw that does not escape |
| Ordering.PlaceEncoding | Extractor/cnf2knf/tbuddy/eval.cpp:633-641 | appending an encoding variable keeps every earlier encoding variable's data neighbours ahead of it |
| Ordering.PlaceData | Extractor/cnf2knf/tbuddy/eval.cpp:635-640 | appending a data variable keeps the neighbours-first property and the encoding part |
| Ordering.AllVariables | Extractor/cnf2knf/tbuddy/eval.cpp:642-647 | a list of distinct variables that are exactly 1..nvar has nvar entries |
| Ordering.Interleave | Extractor/cnf2knf/tbuddy/eval.cpp:633-647 | the result lists every variable 1..nvar once, keeps the encoding order given, and places each encoding variable's data neighbours before the next encoding variable |
| Ordering.PlaceRest | Extractor/cnf2knf/tbuddy/eval.cpp:642-646 | the data variables not yet placed are appended in ascending order, and nothing else |
| Ordering.PlaceBlock | Extractor/cnf2knf/tbuddy/eval.cpp:634-640 | one encoding variable is appended, then each of its data neighbours not yet placed |
| Ordering.PlaceNeighbours | Extractor/cnf2knf/tbuddy/eval.cpp:635-640 | the variables not yet placed are appended once each, in the order given, and recorded as added |
| Ordering.KeyIdentifiesPair | Extractor/cnf2knf/tbuddy/eval.cpp:440 | two pairs of encoding variables have the same key (vlow - ndata - 1) nencode + (vhigh - ndata - 1) exactly when they are the same pair |
| Ordering.KeyedPairs | Extractor/cnf2knf/tbuddy/eval.cpp:438-453 | while the key map is complete, no pair has two edges, and a pair has an edge exactly when its key is mapped |
| Ordering.GrowOne | Extractor/cnf2knf/tbuddy/eval.cpp:429-436 | a data-encoding pair adds one entry to each neighbour table |
| Ordering.GrowNone | Extractor/cnf2knf/tbuddy/eval.cpp:429-437 | a pair of two data variables, or of two encoding variables, leaves both neighbour tables as they are |
| Ordering.GridAll | Extractor/cnf2knf/tbuddy/eval.cpp:466-469 | the double loop over one neighbour set visits every ordered pair of its elements |
| Ordering.AppendKeeps | Extractor/cnf2knf/tbuddy/eval.cpp:441-449 | appending a new edge under an unused key keeps the edge list, the per-node edge index and the key map consistent |
| Ordering.Ordering.constructor | Extractor/cnf2knf/tbuddy/eval.cpp:407-414 | a new ordering has no edges and empty neighbour and edge tables of the sizes nvar - ndata and ndata |
| Ordering.Ordering.AddEdge | Extractor/cnf2knf/tbuddy/eval.cpp:441-453 | the pair gains one edge of the given weight unless it has one already; earlier edges keep their weights |
| Ordering.Ordering.AddNeighbors | Extractor/cnf2knf/tbuddy/eval.cpp:431-436 | the data variable joins the encoding variable's neighbours and the encoding variable joins the data variable's |
| Ordering.Ordering.LinkPair | Extractor/cnf2knf/tbuddy/eval.cpp:426-454 | one pair of clause variables updates the edges and neighbour tables exactly as the pair's kinds demand |
| Ordering.Ordering.LinkData | Extractor/cnf2knf/tbuddy/eval.cpp:429-436 | a data-encoding pair, in either order, grows both neighbour tables by that pair |
| Ordering.Ordering.AddClause | Extractor/cnf2knf/tbuddy/eval.cpp:416-457 | every pair of the clause's variables is linked: weight-1.0 edges between encoding variables, neighbour entries between data and encoding variables |
| Ordering.Ordering.LinkRow | Extractor/cnf2knf/tbuddy/eval.cpp:427-455 | the inner loop links the pairs (i, j) for every j after i |
| Ordering.Ordering.LinkAll | Extractor/cnf2knf/tbuddy/eval.cpp:466-484 | every pair of the neighbour set gains an edge of weight 0.75 unless it has one |
| Ordering.Ordering.LinkFrom | Extractor/cnf2knf/tbuddy/eval.cpp:467-484 | the pairs from one element to every element gain their edges |
| Ordering.Ordering.AddWeights | Extractor/cnf2knf/tbuddy/eval.cpp:460-489 | encoding variables sharing a data neighbour gain an edge of weight 0.75 unless they have one; the key map and encoding-neighbour table are then cleared |
| Ordering.Ordering.ShortestPaths | Extractor/cnf2knf/tbuddy/eval.cpp:496-560 | the settled nodes start at the source, are distinct encoding variables, come in non-decreasing distance, and each exact distance is a shortest path length; the lengths handed back are those distances truncated to whole units, as the vector<int> stores them, while the returned sum is exact; with all nodes the unreached ones follow |
| Ordering.Ordering.OrderEncoded | Extractor/cnf2knf/tbuddy/eval.cpp:575-624 | every encoding variable once: ascending below the node threshold, otherwise by shortest distance from the chosen start over the weighted graph; the hops compare the truncated farthest distance, then the exact sum |
| Ordering.Ordering.GenerateOrdering | Extractor/cnf2knf/tbuddy/eval.cpp:627-648 | the order lists 1..nvar once each, with every encoding variable's data neighbours before the next encoding variable |
| Paths.MinEntry | Extractor/cnf2knf/tbuddy/eval.cpp:511-515 | the entry taken is one of least distance, and the first such, as the front of a map ordered by distance |
| Paths.RemoveKeeps | Extractor/cnf2knf/tbuddy/eval.cpp:515 | removing the taken entry leaves every other entry in the queue |
| Paths.PopFrontier | Extractor/cnf2knf/tbuddy/eval.cpp:511-515 | taking the least entry keeps the queue invariant with the taken distance as the new floor |
| Paths.VisitSettled | Extractor/cnf2knf/tbuddy/eval.cpp:517-520 | a node taken at its current tentative distance is settled at that distance, after every node settled before it at no greater distance |
| Paths.VisitTracked | Extractor/cnf2knf/tbuddy/eval.cpp:517-520 | settling a node keeps every finite tentative distance settled or queued |
| Paths.DropTracked | Extractor/cnf2knf/tbuddy/eval.cpp:517 | dropping a stale queue entry, longer than its node's distance, loses no finite distance |
| Paths.VisitDerived | Extractor/cnf2knf/tbuddy/eval.cpp:517-533 | a node settled other than the source was reached over an edge from a node settled earlier |
| Paths.ClosedLower | Extractor/cnf2knf/tbuddy/eval.cpp:526-527 | lowering tentative distances keeps every relaxed edge relaxed |
| Paths.RelaxFrontier | Extractor/cnf2knf/tbuddy/eval.cpp:526-532 | lowering a neighbour's distance and queueing it keeps the queue invariant |
| Paths.RelaxSettled | Extractor/cnf2knf/tbuddy/eval.cpp:526-527 | a node whose distance is lowered is not settled, and settled nodes keep their distances |
| Paths.RelaxLower | Extractor/cnf2knf/tbuddy/eval.cpp:523-533 | lowering one neighbour's distance over an edge of the last settled node keeps the whole search invariant |
| Paths.Relax | Extractor/cnf2knf/tbuddy/eval.cpp:523-533 | after the edge loop every edge of the node just settled is relaxed, the search invariant holds and the termination measure has not grown |
| Paths.RelaxEdge | Extractor/cnf2knf/tbuddy/eval.cpp:524-532 | one edge: the neighbour's distance is at most the settled distance plus the edge weight afterwards, with the invariant kept |
| Paths.DropSettled | Extractor/cnf2knf/tbuddy/eval.cpp:516-517 | dropping a stale entry keeps the settled nodes settled |
| Paths.ClosedExtend | Extractor/cnf2knf/tbuddy/eval.cpp:516-535 | settling one more node keeps the edges of the earlier settled nodes relaxed |
| Paths.DoneReach | Extractor/cnf2knf/tbuddy/eval.cpp:511-538 | once the queue is empty the settled nodes are exactly those at finite distance |
| Paths.DoneTriangle | Extractor/cnf2knf/tbuddy/eval.cpp:511-538 | once the queue is empty, every edge of a settled node leads to a settled node no further than its distance plus the edge weight |
| Paths.DoneDerivable | Extractor/cnf2knf/tbuddy/eval.cpp:511-538 | once the queue is empty, every settled node but the source is reached from an earlier one at exactly that node's distance plus the edge weight |
| Paths.UnreachedFacts | Extractor/cnf2knf/tbuddy/eval.cpp:548-555 | the unreached list holds, in increasing order, exactly the encoding variables still at the infinite distance |
| Paths.SumBelowInf | Extractor/cnf2knf/tbuddy/eval.cpp:545-559 | appending nodes at the infinite distance does not change the returned sum |
| Paths.AppendDistinct | Extractor/cnf2knf/tbuddy/eval.cpp:545-555 | the settled nodes followed by the unreached ones are all distinct |
| Paths.AppendTriangle | Extractor/cnf2knf/tbuddy/eval.cpp:545-555 | appending the unreached nodes at the infinite distance keeps the triangle inequality |
| Paths.AppendDerivable | Extractor/cnf2knf/tbuddy/eval.cpp:545-555 | appending the unreached nodes keeps every finite distance derivable |
| Paths.StartSearching | Extractor/cnf2knf/tbuddy/eval.cpp:503-509 | the search starts with the source alone in the queue at distance 0 and every other node at the infinite distance nencode |
| Paths.Done | Extractor/cnf2knf/tbuddy/eval.cpp:511-538 | an emptied queue leaves a shortest-path order from the source, every length finite and the sum equal to the sum of the lengths |
| Paths.Completed | Extractor/cnf2knf/tbuddy/eval.cpp:545-558 | the finished search followed by the unreached nodes covers every encoding variable and is still a shortest-path order |
| Paths.AllSettled | Extractor/cnf2knf/tbuddy/eval.cpp:545 | as many distinct encoding variables as there are encoding variables are all of them |
| Paths.Search | Extractor/cnf2knf/tbuddy/eval.cpp:496-538 | Dijkstra's search returns a shortest-path order from the source over the finite distances, visits exactly the nodes at finite distance, and sums their lengths |
| Paths.Drain | Extractor/cnf2knf/tbuddy/eval.cpp:511-538 | the loop runs until the queue is empty with the search invariant and every settled node's edges relaxed |
| Paths.Settle | Extractor/cnf2knf/tbuddy/eval.cpp:512-537 | one round takes the least entry, settles and relaxes it when current, and strictly lowers the termination measure |
| Paths.AppendUnreached | Extractor/cnf2knf/tbuddy/eval.cpp:545-558 | the nodes still at the infinite distance are appended in increasing order at that distance, keeping the prefix and the sum |
| Kanalyze.TryExtend | tools/kanalyze.py:86-104 | an extension in a phase succeeds exactly when every node splits on the variable and the counted children are the kept children shifted by one; the next layer is one longer |
| Kanalyze.Extend | tools/kanalyze.py:106-117 | a successful extension, positive phase tried first, gives a layer one longer and a phase of 0 or 1 |
| Kanalyze.ExtendEval | tools/kanalyze.py:95-117 | entry c of a layer behaves like entry c of the next layer when the counted literal is false and like entry c + 1 when it is true |
| Kanalyze.CheckFixedMeaning | tools/kanalyze.py:126-148 | the corrected final check accepts exactly the layers of leaves that are true on one run lb..ub, or nowhere, and returns that run |
| Kanalyze.CheckAgrees | tools/kanalyze.py:126-148 | the check as written agrees with the corrected one on every accepted layer except when the only true entry is the last |
| Kanalyze.CheckMissesLast | tools/kanalyze.py:139-147 | with only the last of n + 1 leaves true, the check as written reports the bounds 0..n while the corrected check reports n..n |
| Kanalyze.Layered | tools/kanalyze.py:454-460 | extending over k variables yields k + 1 layers and k phases, each 0 or 1 |
| Kanalyze.PhaseLits | tools/kanalyze.py:480 | as many phase literals as the shorter of the variable and phase lists, as zip gives |
| Kanalyze.ExtendAll | tools/kanalyze.py:454-460 | the extension loop stops at the first failure and otherwise returns the final layer and the phases the specification function gives |
| Kanalyze.FindConstraints | tools/kanalyze.py:448-470 | the extensions, then `check` as written on the final layer, give the phases and bounds of FindSpec |
| Kanalyze.FindConstraintsFixed | tools/kanalyze.py:448-470 | the same with the corrected check, giving the phases and bounds of FindSpecFixed |
| Kanalyze.NoneStays | tools/kanalyze.py:455-458 | once an extension fails every longer variable list fails too |
| Kanalyze.SortByAbsProps | tools/kanalyze.py:156-158 | the constructor's sort by variable keeps the same literals and the same count of true ones |
| Kanalyze.MakeConstraint | tools/kanalyze.py:156-158 | the constraint keeps the bound and holds the literals, as a multiset, sorted by variable |
| Kanalyze.MakeConstraintHolds | tools/kanalyze.py:156-158 | a constraint holds exactly when at least bound of the literals it was made from are true |
| Kanalyze.PhaseLitsNegate | tools/kanalyze.py:480-484 | the literals of the upper-bound klause are those of the lower-bound klause negated |
| Kanalyze.GetConstraintsMeaning | tools/kanalyze.py:472-491 | the klauses made for bounds lb..ub hold together exactly when the number of true phase literals lies in lb..ub; lb > ub gives the empty clause |
| Kanalyze.KanalyzeMeaning | tools/kanalyze.py:448-491 | when the analysis with the corrected check succeeds, the klauses it makes hold under an assignment exactly when the diagram does |
| Kanalyze.FindSpecAgrees | tools/kanalyze.py:448-470 | wherever the corrected analysis succeeds, the analysis as written gives the same phases and bounds, unless the only true leaf is the last |
| Kanalyze.CheckAcceptsGap | tools/kanalyze.py:126-148 | `check` as written accepts the final layer false, true, false, true with the bounds 1..3, where the corrected check fails |
| Kanalyze.ParityLayered | tools/kanalyze.py:454-460 | the odd-parity diagram over x1, x2, x3 extends in the positive phase three times and ends in the layer false, true, false, true |
| Kanalyze.GapNotCaptured | tools/kanalyze.py:448-491 | on the odd-parity diagram the analysis as written succeeds with bounds 1..3, the corrected one fails, and x1 = x2 = true, x3 = false satisfies the klauses made although the diagram is false there |
| Kanalyze.KnfStringAgrees | tools/kanalyze.py:160-164 | a constraint is written as the extractor writes a klause, or a clause line when the bound is 1, and its literals read back unchanged |
| Kanalyze.PairMaps | tools/kanalyze.py:190-192 | the pairing loop builds the forward map from values to permuted values and the reverse map the other way, later pairs overwriting earlier ones |
| Kanalyze.AllKeys | tools/kanalyze.py:196-201 | the lookup loop succeeds exactly when every listed value is a key of the map |
| Kanalyze.NewPermuter | tools/kanalyze.py:180-201 | the constructor fails on unequal lengths or lists that are not permutations of each other, and otherwise builds both maps; an empty permuted list means the identity |
| Kanalyze.SameValuesByKeys | tools/kanalyze.py:196-201 | the map lookups succeed exactly when each list's values occur in the other |
| Kanalyze.PermuterInverse | tools/kanalyze.py:180-211 | over duplicate-free lists, forward and reverse undo each other |
| Kanalyze.Forward | tools/kanalyze.py:203-206 | a value is mapped exactly when it is a key of the forward map, and raises otherwise |
| Kanalyze.Reverse | tools/kanalyze.py:208-211 | a value is mapped back exactly when it is a key of the reverse map, and raises otherwise |
| CheckSat.SatCount | Tools/check-sat/check-sat.hpp:98-100 | the count of literals whose variable holds their sign never exceeds the number of literals; a variable past maxVar (get_value exits) or a literal 0 (abs(lit)/lit divides by zero) stops it instead |
| CheckSat.SatCountMeaning | Tools/check-sat/check-sat.hpp:98-100 | the count finishes exactly when every literal names a variable in 1..maxVar, and over a total assignment it is then the number of true literals |
| CheckSat.SatCountHalts | Tools/check-sat/check-sat.hpp:459-465 | a count that stops does so at the first literal not in 1..maxVar, as past maxVar when get_value exits on it and as a division by zero when it is 0 |
| CheckSat.CountedInRange | Tools/check-sat/check-sat.hpp:98-100 | a count that finishes met only variables in 1..maxVar |
| CheckSat.ClauseTally | Tools/check-sat/check-sat.hpp:96-106 | every clause is counted once, as satisfied or falsified |
| CheckSat.CardTally | Tools/check-sat/check-sat.hpp:108-124 | every klause is counted once, as satisfied or falsified |
| CheckSat.ClauseMaxTally | Tools/check-sat/check-sat.hpp:158-181 | the weighted clause tally is zero for no clauses |
| CheckSat.CardMaxTally | Tools/check-sat/check-sat.hpp:184-207 | the weighted klause tally is zero for no klauses |
| CheckSat.Assigned | Tools/check-sat/check-sat.hpp:314-332 | the reading loop keeps one entry per variable 0..maxVar |
| CheckSat.Take | Tools/check-sat/check-sat.hpp:315-331 | one field leaves the number of entries unchanged |
| CheckSat.Defaulted | Tools/check-sat/check-sat.hpp:334-336 | after reading, exactly the entries still 0 become -1 and the rest are kept |
| CheckSat.AssignedMeaning | Tools/check-sat/check-sat.hpp:314-332 | reading fails exactly when a variable in range is listed twice; otherwise variable v holds 1 when v is listed, -1 when -v is, 0 when neither |
| CheckSat.TakeMeaning | Tools/check-sat/check-sat.hpp:315-331 | one more field keeps the description of what was read, or meets an earlier field of the same variable |
| CheckSat.RepeatedSnoc | Tools/check-sat/check-sat.hpp:323-326 | a repeat in the longer list is one in the prefix or the last field meeting an earlier one |
| CheckSat.ClauseTallyMeaning | Tools/check-sat/check-sat.hpp:96-106 | over a total assignment in range, the clause loop finishes and falsifies nothing exactly when every clause holds |
| CheckSat.CardTallyMeaning | Tools/check-sat/check-sat.hpp:108-124 | the klause loop finishes and falsifies nothing exactly when every klause holds by its guard or by at least bound true literals |
| CheckSat.ClauseMaxTotal | Tools/check-sat/check-sat.hpp:214-222 | the four weighted clause counts add up to the number of clauses, so printResult's counting check passes |
| CheckSat.CardMaxTotal | Tools/check-sat/check-sat.hpp:214-222 | the four weighted klause counts add up to the number of klauses |
| CheckSat.ClauseMaxMeaning | Tools/check-sat/check-sat.hpp:158-181 | the weighted clause loop finishes, falsifies nothing exactly when every clause holds, and falsifies no hard clause exactly when every clause of top weight holds |
| CheckSat.CardMaxMeaning | Tools/check-sat/check-sat.hpp:184-207 | the same for klauses, whose guards checkMaxSat ignores |
| CheckSat.ClauseMaxAgrees | Tools/check-sat/check-sat.hpp:147-181 | checkMaxSat's clause counts, hard and soft together, are checkSat's |
| CheckSat.CountSums | Tools/check-sat/check-sat.hpp:165-180 | entering one constraint adds one to exactly one of the satisfied or falsified sides |
| CheckSat.CardMaxAgrees | Tools/check-sat/check-sat.hpp:184-207 | for klauses without a guard, checkMaxSat's counts are checkSat's |
| CheckSat.Halting | Tools/check-sat/check-sat.hpp:92-126 | counting the clauses and then the klauses stops the program exactly when one of the two loops stops |
| CheckSat.ClauseTallyHalts | Tools/check-sat/check-sat.hpp:96-106 | the clause loop stops only at a clause whose literal count stops, for that clause's reason |
| CheckSat.CardTallyHalts | Tools/check-sat/check-sat.hpp:108-124 | the klause loop stops only at a klause whose guard or literal count stops, for its reason |
| CheckSat.ClauseMaxHalts | Tools/check-sat/check-sat.hpp:158-164 | the weighted clause loop stops only at a clause whose literal count stops |
| CheckSat.CardMaxHalts | Tools/check-sat/check-sat.hpp:184-190 | the weighted klause loop stops only at a klause whose literal count stops |
| CheckSat.WhyHalted | Tools/check-sat/check-sat.hpp:98-100 | a count that divides by zero has a literal 0; one stopped by get_value has a variable past maxVar |
| CheckSat.HaltsMeaning | Tools/check-sat/check-sat.cpp:101-107 | the checking step divides by zero only when a stored constraint has a literal 0, and stops in get_value only when a stored literal or guard lies past maxVar |
| CheckSat.DefaultedTotal | Tools/check-sat/check-sat.hpp:334-336 | the defaulted assignment gives every variable 1 or -1 |
| CheckSat.KnfCheck.constructor | Tools/check-sat/check-sat.hpp:18-21 | a new checker has no weight, no soft weight and nothing stored |
| CheckSat.KnfCheck.Header | Tools/check-sat/check-sat.hpp:27-33 | the header's variable count, clause count and top weight are recorded |
| CheckSat.KnfCheck.Clause | Tools/check-sat/check-sat.hpp:35-51 | an empty clause is dropped; any other is appended with its weight, and a soft weight adds to the accumulated soft weight |
| CheckSat.KnfCheck.CardinalityConstraint | Tools/check-sat/check-sat.hpp:53-82 | an empty klause or one of bound 0 is dropped; bound 1 goes to the clauses; any other is appended with its weight and guard |
| CheckSat.KnfCheck.ParseAssignment | Tools/check-sat/check-sat.hpp:279-341 | the default format reads the fields in order, stops on a repeated variable, and otherwise leaves a total assignment of maxVar + 1 entries |
| CheckSat.KnfCheck.CountSat | Tools/check-sat/check-sat.hpp:97-100 | the inner loop computes SatCount: the true literals, or the stop at a variable past maxVar or a literal 0 |
| CheckSat.KnfCheck.CheckSat | Tools/check-sat/check-sat.hpp:92-126 | it stops where the clause loop and then the klause loop stop, and otherwise its counts are the clause and klause tallies |
| CheckSat.KnfCheck.TallyClauses | Tools/check-sat/check-sat.hpp:96-106 | the clause loop computes the clause tally, or its stop |
| CheckSat.KnfCheck.TallyCards | Tools/check-sat/check-sat.hpp:108-124 | the klause loop computes the klause tally, or its stop |
| CheckSat.KnfCheck.CardStep | Tools/check-sat/check-sat.hpp:109-123 | a set guard satisfies the klause; otherwise it holds when at least bound literals do |
| CheckSat.KnfCheck.CheckMaxSat | Tools/check-sat/check-sat.hpp:147-209 | it stops where the weighted loops stop, and otherwise its counts are the weighted clause and klause tallies |
| CheckSat.KnfCheck.MaxTallyClauses | Tools/check-sat/check-sat.hpp:158-181 | the weighted clause loop computes the weighted clause tally |
| CheckSat.KnfCheck.MaxTallyCards | Tools/check-sat/check-sat.hpp:184-207 | the weighted klause loop computes the weighted klause tally |
| CheckSat.KnfCheck.Check | Tools/check-sat/check-sat.cpp:101-107 | it stops the program where Halts says; with every variable in range the check completes without a counting error and verifies exactly the assignments satisfying every constraint; with weights, only the hard constraints hold exactly when the verdict is not NotSatisfying |
| CheckMain.Kept | Tools/check-sat/check-sat.hpp:35-82 | the store after the statements has one weight per stored clause and per stored klause |
| CheckMain.KeepHolds | Tools/check-sat/check-sat.hpp:35-82 | storing one statement adds exactly that statement's condition to what the store requires |
| CheckMain.KeptHolds | Tools/check-sat/check-sat.hpp:35-82 | the stored constraints all hold exactly when every statement of the file holds |
| CheckMain.KeptHardHolds | Tools/check-sat/check-sat.hpp:35-82 | the stored constraints of top weight hold exactly when every statement of top weight holds |
| CheckMain.KeepHardHolds | Tools/check-sat/check-sat.hpp:35-82 | storing one statement keeps one weight per constraint, and the top-weight constraints then hold exactly when they held before and the statement holds if it has top weight |
| CheckMain.KeepShape | Tools/check-sat/check-sat.hpp:35-82 | storing a statement within maxVar keeps the store within maxVar |
| CheckMain.KeptShape | Tools/check-sat/check-sat.hpp:35-82 | statements within maxVar are stored within maxVar |
| CheckMain.KeepZero | Tools/check-sat/check-sat.hpp:53-82 | storing one statement adds a literal 0 to the store exactly when the statement is stored and has one |
| CheckMain.KeptZero | Tools/check-sat/check-sat.hpp:53-82 | a stored constraint has a literal 0 exactly when a statement that is not empty and not a klause of bound 0 has one |
| CheckMain.Judgement | Tools/check-sat/check-sat.hpp:211-276 | a verdict over what the checker stored is the same verdict over the statements of the file |
| CheckMain.Load | Tools/check-sat/check-sat.cpp:82-86 | the reader hands every statement to the checker in file order, leaving the store the specification gives |
| CheckMain.CheckStatements | Tools/check-sat/check-sat.cpp:82-108 | a repeated variable in the assignment stops the program; then the run divides by zero or stops in get_value exactly where the counting over the stored constraints does; with every stored variable in range the verdict judges the file's statements under the assignment read |
| CheckMain.StopsMeaning | Tools/check-sat/check-sat.hpp:53-116 | a run divides by zero only when a statement the checker stores (not empty, not of bound 0) has a literal 0, and stops in get_value only when a stored variable lies past the header's count |
| CheckMain.CheckFile | Tools/check-sat/check-sat.cpp:43-118 | a file the reader refuses is refused; otherwise the run ends as for CheckStatements |
| Collect.FixedMeaning | cardinality-cadical/src/collect.cpp:12-28 | under an assignment extending consistent root units, a literal fixed true is true and one fixed false is false |
| Collect.CountSplit | cardinality-cadical/src/collect.cpp:213-298 | the true literals of a constraint are the fixed-true ones plus the true unfixed ones |
| Collect.CountNotFalse | cardinality-cadical/src/collect.cpp:64-81 | dropping the fixed-false literals does not change how many literals are true |
| Collect.NoTrueCount | cardinality-cadical/src/collect.cpp:64-81 | a clause without fixed-true literals splits into unfixed and fixed-false literals |
| Collect.Internal.ClauseContainsFixedLiteral | cardinality-cadical/src/collect.cpp:12-28 | returns 1 exactly when a literal is fixed true, -1 exactly when none is and one is fixed false, 0 otherwise |
| Collect.Internal.CarClauseContainsFixedLiteral | cardinality-cadical/src/collect.cpp:33-55 | returns 1 exactly when the guard is fixed true or the fixed-true literals reach the bound; -1 when not so and a literal or the guard is fixed; 0 otherwise |
| Collect.RootSatisfiedClause | cardinality-cadical/src/collect.cpp:12-28 | a clause the classifier calls satisfied holds under every extension of the root units |
| Collect.RootSatisfiedCard | cardinality-cadical/src/collect.cpp:33-55 | a cardinality constraint the classifier calls satisfied holds under every extension of the root units |
| Collect.Internal.RemoveFalsifiedLiterals | cardinality-cadical/src/collect.cpp:64-81 | with fewer than two non-false literals the clause is kept; otherwise exactly its fixed-false literals go and the rest keep their order |
| Collect.FlushMeaning | cardinality-cadical/src/collect.cpp:64-81 | flushing the false literals keeps the clause true or false under every extension of the units, and leaves at least two literals |
| Collect.Internal.CarShrink | cardinality-cadical/src/collect.cpp:213-298 | the bound drops by the number of fixed-true literals, the literals become the unfixed ones (as a multiset), a guard fixed false is dropped when watches are kept, and 1 <= bound < size after |
| Collect.ShrunkMeaning | cardinality-cadical/src/collect.cpp:213-298 | a shrunk constraint holds under an extension of the units exactly when the original does |
| Collect.ShrunkBounds | cardinality-cadical/src/collect.cpp:226-251 | a constraint the classifier sends to shrinking, with root propagation complete, gets a bound of at least 1 and below its new size |
| Collect.Internal.MarkSatisfiedClausesAsGarbage | cardinality-cadical/src/collect.cpp:306-331 | nothing changes unless units were added since the last collection; otherwise the count is recorded and each clause and constraint not yet garbage is marked garbage when satisfied or flushed or shrunk when it has a fixed literal |
| Collect.Internal.MarkClauses | cardinality-cadical/src/collect.cpp:316-321 | every clause becomes its marked form |
| Collect.Internal.MarkCards | cardinality-cadical/src/collect.cpp:325-330 | every cardinality constraint becomes its marked form |
| Collect.MarkedClauseMeaning | cardinality-cadical/src/collect.cpp:316-321 | marking one clause keeps its meaning under extensions, and marks it garbage only when it is satisfied |
| Collect.MarkedCardMeaning | cardinality-cadical/src/collect.cpp:325-330 | marking one constraint keeps its meaning under extensions |
| Collect.MarkPreservesFormula | cardinality-cadical/src/collect.cpp:306-331 | under every extension of the root units, the live constraints after marking hold exactly when they held before |
| Collect.SurvivorsExact | cardinality-cadical/src/collect.cpp:488-535 | deletion keeps exactly the constraints that are not collectable, each as often as before |
| Collect.SurvivorsLive | cardinality-cadical/src/collect.cpp:488-535 | deleting collectable garbage keeps the live formula: it holds after exactly when it held before |
| Collect.Compact | cardinality-cadical/src/collect.cpp:488-509 | the copy-down loop computes the survivors, in order |
| Collect.Internal.DeleteGarbageClauses | cardinality-cadical/src/collect.cpp:488-509 | the clauses become their survivors |
| Collect.Internal.CarDeleteGarbageClauses | cardinality-cadical/src/collect.cpp:513-535 | the cardinality constraints become their survivors |
| Collect.SetReasons | cardinality-cadical/src/collect.cpp:344-387 | the trail walk sets the reason flag on exactly the reasons of active trail literals |
| Collect.Internal.ProtectReasons | cardinality-cadical/src/collect.cpp:344-362 | flags the reason clause of every active trail literal and turns protection on |
| Collect.Internal.UnprotectReasons | cardinality-cadical/src/collect.cpp:369-387 | clears the flag on the same clauses and turns protection off |
| Collect.ProtectRoundTrip | cardinality-cadical/src/collect.cpp:344-387 | unprotecting undoes protecting when no clause was flagged before |
| Collect.ProtectedSurvive | cardinality-cadical/src/collect.cpp:344-362 | after protection, deletion keeps every reason clause of the trail |
| Partition.CoOccurSymmetric | Tools/check-sat/cnf-partition.hpp:35-55 | two variables sharing a clause or constraint is a symmetric relation |
| Partition.CoOccurNext | Tools/check-sat/cnf-partition.hpp:35-55 | the pairs joined by the first i+1 lists are those of the first i plus those of list i |
| Partition.AddStar | Tools/check-sat/cnf-partition.hpp:38-42 | one literal of a clause is joined both ways to every literal of it, and only such edges are added |
| Partition.AddList | Tools/check-sat/cnf-partition.hpp:37-43 | after one clause, v and u are adjacent exactly when they were or they share that clause |
| Partition.AddLists | Tools/check-sat/cnf-partition.hpp:35-55 | after a list of clauses, v and u are adjacent exactly when they were or they share one of them |
| Partition.MakeGraph | Tools/check-sat/cnf-partition.hpp:29-55 | the graph has one entry per variable 0..max_var, u is a neighbour of v exactly when they share a clause or cardinality constraint, and it is symmetric |
| Partition.Spread | Tools/check-sat/cnf-partition.hpp:87-97 | the neighbours of the visited variable that are unseen go on the frontier, marked -2; a neighbour 0 stops the search (the source exits) |
| Partition.Visit | Tools/check-sat/cnf-partition.hpp:83-97 | an unlabelled popped variable gets the current part and its unseen neighbours are queued |
| Partition.Explore | Tools/check-sat/cnf-partition.hpp:72-98 | the depth-first search from a start labels its whole component with the current part, and fails only when a variable is adjacent to 0 |
| Partition.NextStart | Tools/check-sat/cnf-partition.hpp:100-104 | the next start is the first variable from the given one still labelled -1, or max_var + 1 |
| Partition.NextPart | Tools/check-sat/cnf-partition.hpp:70-106 | one turn of the outer loop settles one more part and moves the start past it |
| Partition.Label | Tools/check-sat/cnf-partition.hpp:57-107 | labelling succeeds exactly when no variable in 1..max_var is adjacent to 0, and then every variable has a part in 0..Par-1, adjacent variables share their part, and parts are numbered by their smallest variable |
| Partition.LabelledComponents | Tools/check-sat/cnf-partition.hpp:29-107 | a labelling of the graph is a labelling of the formula: variables sharing a clause or constraint share their part |
| Partition.OnePart | Tools/check-sat/cnf-partition.hpp:109-127 | every literal of a clause is in the part of its first literal, so the clause belongs to exactly one part (the soft-count check never reports ERROR) |
| Partition.Select | Tools/check-sat/cnf-partition.hpp:217-241 | a clause is selected for part P exactly when one of its literals is in P, and the count is the number selected |
| Partition.Formulas | Tools/check-sat/cnf-partition.hpp:207-274 | one formula per part, holding exactly the clauses and constraints with a literal in that part, with the count the header writes |
| Partition.WriteMembers | Tools/check-sat/cnf-partition.hpp:198-202 | the variables of part i, in increasing order |
| Partition.WritePartitionFile | Tools/check-sat/cnf-partition.hpp:194-205 | the file is Par and max_var, then each part's variables with a 0 between parts |
| Partition.ReadPartitionFile | Tools/check-sat/cnf-partition.hpp:293-315 | reading sets each listed variable to the current part and moves to the next part at each 0; the last entry keeps its uninitialised value |
| Partition.ReadAllAppend | Tools/check-sat/cnf-partition.hpp:310-315 | reading a concatenation reads the first part and then the second |
| Partition.ReadMembers | Tools/check-sat/cnf-partition.hpp:310-315 | reading one part's variables labels exactly them with the current part |
| Partition.ReadListing | Tools/check-sat/cnf-partition.hpp:310-315 | reading the listing of k parts relabels every variable of those parts with its part and ends at part k-1 |
| Partition.PartitionFileRoundTrip | Tools/check-sat/cnf-partition.hpp:194-315 | reading the written partition file gives back every variable's part |
| Partition.KeepMeaning | Tools/check-sat/cnf-partition.hpp:327-335 | the literals kept from part i's solution are exactly those whose variable is in part i |
| Partition.KeepPart | Tools/check-sat/cnf-partition.hpp:327-335 | the loop over one solution keeps the literals of its part, in order |
| Partition.Reconstruct | Tools/check-sat/cnf-partition.hpp:291-337 | the output is, part by part in order, the literals of each part's solution whose variable the file puts in that part |
| Partition.CombinedRoundTrip | Tools/check-sat/cnf-partition.hpp:194-337 | reconstructing from the written partition file gives the same combined solution as from the labelling itself, for any solution lines, the terminating 0 included (entry 0 reads back as -1, so the 0 is never kept) |
| Partition.PartitionClauses | Tools/check-sat/cnf-partition.hpp:29-276 | it succeeds exactly when no variable shares a clause with variable 0; then the labelling is into components, the partition file is the listing, and each part's formula holds exactly its clauses and constraints |
| KnfParse.CardPart | Tools/check-sat/knf-parse.hpp:360-371 | reading the optional "ard" after the 'c' never lengthens the text left |
| KnfParse.NfPart | Tools/check-sat/knf-parse.hpp:373-380 | reading the "nf" of "cnf" or "knf" never lengthens the text left |
| KnfParse.Numbers | Tools/check-sat/knf-parse.hpp:382-397 | the header numbers are read, or fail only on an assertion (a count below 1) |
| KnfParse.HeaderOf | Tools/check-sat/knf-parse.hpp:339-410 | the header is read, or fails only on an incorrect type letter or a failed assertion |
| KnfParse.HeaderScan | Tools/check-sat/knf-parse.hpp:68-95 | a header the loop reads was found, and the text left is no longer than the input |
| KnfParse.AfterFraction | Tools/check-sat/knf-parse.hpp:318-324 | the fraction of a weight is consumed, never adding text |
| KnfParse.AfterWeight | Tools/check-sat/knf-parse.hpp:131-135 | reading a weight consumes at least one symbol of a non-empty text |
| KnfParse.TermsOf | Tools/check-sat/knf-parse.hpp:232-237 | a WCARD line yields at least one integer and consumes at least one symbol |
| KnfParse.TermsStep | Tools/check-sat/knf-parse.hpp:232-237 | one loop round reads one integer and stops after a 0 or a symbol that cannot start a number |
| KnfParse.RelationOf | Tools/check-sat/knf-parse.hpp:241-268 | the comparison read never lengthens the text left |
| KnfParse.ConstraintOf | Tools/check-sat/knf-parse.hpp:226-272 | a WCARD constraint consumes at least one symbol of a non-empty text |
| KnfParse.NormalizedMeaning | Tools/check-sat/knf-parse.hpp:241-268 | the at-least constraint built from a comparison holds exactly when the comparison does: at most b true becomes at least n - b of the negated literals, strict comparisons shift the bound by one |
| KnfParse.LinePart | Tools/check-sat/knf-parse.hpp:162-185 | the literal part of a line always reads and consumes at least one symbol of a non-empty text |
| KnfParse.StatementOf | Tools/check-sat/knf-parse.hpp:131-186 | one statement consumes at least one symbol, and fails only on an assertion (a negative weight or a bound below 1) |
| KnfParse.LinePartShape | Tools/check-sat/knf-parse.hpp:162-185 | every statement read outside WCARD has no literal 0 and a klause bound of at least 1 |
| KnfParse.StatementShape | Tools/check-sat/knf-parse.hpp:131-186 | every statement the body loop hands over is shaped as the checker expects |
| KnfParse.BodyShape | Tools/check-sat/knf-parse.hpp:121-187 | every statement of the body is shaped |
| KnfParse.HeaderScanShape | Tools/check-sat/knf-parse.hpp:68-95 | a header read has at least one variable and one constraint, and a top weight of at least 1 exactly when weighted |
| KnfParse.ReadKnfShape | Tools/check-sat/knf-parse.hpp:51-195 | an accepted file has a shaped header of the type requested (any for CAI), a top weight when weights are read, exactly the announced number of statements, and shaped statements |
| KnfParse.HeaderScanFixed | Tools/check-sat/knf-parse.hpp:68-90 | the corrected header loop finds a header whenever it reads one and never spins |
| KnfParse.HeaderScanFixedAgrees | Tools/check-sat/knf-parse.hpp:68-90 | wherever the header loop as written does not spin, it reads what the corrected loop reads |
| KnfParse.HeaderCommentSkipped | Tools/check-sat/knf-parse.hpp:70-76 | in the corrected loop a comment line and the white space after it are passed over as if absent |
| KnfParse.BodyOfFixed | Tools/check-sat/knf-parse.hpp:121-129 | the corrected body loop fails only on an assertion |
| KnfParse.BodyCommentSkipped | Tools/check-sat/knf-parse.hpp:123-129 | in the corrected body loop a comment line and the white space after it add no statement |
| KnfParse.BodyOfFixedAgrees | Tools/check-sat/knf-parse.hpp:121-187 | wherever no comment line is followed by white space, the body as written reads what the corrected body reads |
| KnfParse.ReadKnfFixed | Tools/check-sat/knf-parse.hpp:51-195 | the reader with both loops corrected never spins |
| KnfParse.ExampleHeaderLine | Tools/check-sat/knf-parse.hpp:78-88 | the line "p cnf 1 1" reads as a CNF header of one variable and one clause |
| KnfParse.ExampleBody | Tools/check-sat/knf-parse.hpp:121-187 | the body "-1 0" reads as the one clause -1 |
| KnfParse.ExampleEmptyClause | Tools/check-sat/knf-parse.hpp:213-223 | a blank line before "-1 0" is read as an integer 0, an empty clause |
| KnfParse.ExampleBlankBody | Tools/check-sat/knf-parse.hpp:121-187 | a comment, a blank line and "-1 0" read as two clauses as written and as one once corrected |
| KnfParse.ExampleHeaderScan | Tools/check-sat/knf-parse.hpp:68-90 | the header loop as written spins on a blank line after a comment; the corrected loop reads the header |
| KnfParse.BlankAfterHeaderComment | Tools/check-sat/knf-parse.hpp:68-90 | "c x", a blank line, "p cnf 1 1", "-1 0": the program spins as written, while the corrected reader reads the clause -1 |
| KnfParse.BlankAfterBodyComment | Tools/check-sat/knf-parse.hpp:123-129 | "p cnf 1 1", "c x", a blank line, "-1 0": an empty clause is counted as written, so the count check fails; the corrected reader reads the clause -1 |
| KnfParse.DetermineHeader | Tools/check-sat/knf-parse.hpp:339-410 | the method reads the header the specification function gives and leaves the position after it |
| KnfParse.ReadCard | Tools/check-sat/knf-parse.hpp:360-371 | the method reads the optional "ard" as the specification function does |
| KnfParse.ReadNf | Tools/check-sat/knf-parse.hpp:373-380 | the method reads the "nf" as the specification function does |
| KnfParse.HeaderNumbers | Tools/check-sat/knf-parse.hpp:382-397 | the method reads the header numbers as the specification function does |
| KnfParse.ParseDouble | Tools/check-sat/knf-parse.hpp:306-327 | the weight kept is the signed integer part, the sign test says whether the double read is negative, and at least one symbol is consumed |
| KnfParse.NegateAll | Tools/check-sat/knf-parse.hpp:255 | the in-place loop negates every literal |
| KnfParse.ReadTerms | Tools/check-sat/knf-parse.hpp:232-237 | the integer loop reads what the specification function reads |
| KnfParse.ReadRelation | Tools/check-sat/knf-parse.hpp:241-268 | the comparison is read as the specification function reads it |
| KnfParse.ParseConstraint | Tools/check-sat/knf-parse.hpp:226-272 | the method returns the constraint the specification function gives |
| KnfParse.ReadLinePart | Tools/check-sat/knf-parse.hpp:162-185 | the literal part is read as the specification function reads it |
| KnfParse.ParseStatement | Tools/check-sat/knf-parse.hpp:131-186 | one statement is read as the specification function reads it |
| KnfParse.ScanHeader | Tools/check-sat/knf-parse.hpp:68-90 | the loop before the header reads what the specification function reads, reporting the spin as Diverges |
| KnfParse.BodyStep | Tools/check-sat/knf-parse.hpp:121-187 | the body after one statement is that statement followed by the body of the rest |
| KnfParse.ReadBody | Tools/check-sat/knf-parse.hpp:121-187 | the body loop reads what the specification function reads |
| KnfParse.Parse | Tools/check-sat/knf-parse.hpp:51-195 | the whole parse returns what the specification function gives: a refusal with its reason, or the header and the statements |
| KnfToCnf.CountOmit | Tools/knf2cnf.c:19-24 | leaving out literal i removes exactly its own contribution to the count of true literals |
| KnfToCnf.TwoMeaning | Tools/knf2cnf.c:19-24 | the size clauses that each omit one literal hold exactly when at least two of the literals are true |
| KnfToCnf.UnitMeaning | Tools/knf2cnf.c:27-30 | the unit clauses hold exactly when every literal is true |
| KnfToCnf.AtLeastOne | Tools/knf2cnf.c:12-16 | a klause with bound 1 is printed as the one clause of its literals |
| KnfToCnf.AtLeastTwo | Tools/knf2cnf.c:19-24 | the printed clauses are the size clauses that each omit one literal, starting from the last |
| KnfToCnf.AtLeastAll | Tools/knf2cnf.c:27-30 | the printed clauses are one unit clause per literal, in order |
| KnfToCnf.OneFalseCount | Tools/knf2cnf.c:32-76 | at most one literal false is the same as at least size-1 literals true |
| KnfToCnf.PairsMeaning | Tools/knf2cnf.c:40-53 | the pairwise binary clauses hold exactly when at most one literal is false |
| KnfToCnf.GuardedMeaning | Tools/knf2cnf.c:55-57 | the three clauses guarded by the fresh variable hold iff the guard is true or all three first literals are |
| KnfToCnf.AllButOneSound | Tools/knf2cnf.c:32-76 | any assignment satisfying the split encoding makes at least size-1 literals true |
| KnfToCnf.AllButOneComplete | Tools/knf2cnf.c:32-76 | a model of the klause extends, on the fresh variables alone, to a model of the split encoding |
| KnfToCnf.ExtendAgrees | Tools/knf2cnf.c:55-72 | the extension that sets the fresh variables leaves every variable below the first fresh one unchanged |
| KnfToCnf.AllButOneSize | Tools/knf2cnf.c:32-76 | the split encoding of size s prints 3(s-2) clauses |
| KnfToCnf.ShiftOut | Tools/knf2cnf.c:67-69 | after the shift the array holds the literals from position 3 on, followed by the negated fresh variable |
| KnfToCnf.AtLeastAllButOne | Tools/knf2cnf.c:32-76 | the recursive printer emits exactly the split encoding of the original literals and returns the first unused fresh variable |
| KnfToCnf.PairsSmall | Tools/knf2cnf.c:40-47 | a klause of at most one literal prints no binary clause |
| KnfToCnf.DerivationsHold | Tools/knf2cnf.c:78-99 | the derivation lines printed for the split encoding hold in the extended model, so each is implied by the encoding |
| KnfToCnf.DerivationsSize | Tools/knf2cnf.c:78-99 | one derivation line is printed per fresh variable of the split encoding |
| KnfToCnf.Derivation | Tools/knf2cnf.c:78-99 | the recursive printer emits exactly those derivation lines and returns the same next fresh variable as the encoder |
| KnfToCnf.AtLeastK | Tools/knf2cnf.c:101-116 | the sequential counter prints its row clauses then its diagonal clauses and returns start + (size-bound)*bound |
| KnfToCnf.CounterSize | Tools/knf2cnf.c:101-116 | the counter prints (size-bound+1)*bound + (size-bound)*(bound-1) clauses |
| KnfToCnf.CellInjective | Tools/knf2cnf.c:106-113 | distinct cells of the counter grid get distinct fresh variables |
| KnfToCnf.RowClauseMeaning | Tools/knf2cnf.c:103-108 | a row clause holds iff the literal is true, or the previous cell is true, or the next cell is false |
| KnfToCnf.DiagClauseMeaning | Tools/knf2cnf.c:111-113 | a diagonal clause holds iff the cell is true or its diagonal successor is false |
| KnfToCnf.CellSound | Tools/knf2cnf.c:101-116 | when the counter clauses hold, a true cell (i, j) means at least i+1 of the first j+1 literals are true |
| KnfToCnf.RowSound | Tools/knf2cnf.c:103-108 | when the counter clauses hold, row i forces at least i+1 true literals in its prefix |
| KnfToCnf.CounterSound | Tools/knf2cnf.c:101-116 | any assignment satisfying the counter clauses makes at least bound literals true |
| KnfToCnf.CounterModelCell | Tools/knf2cnf.c:101-116 | in the canonical extension a cell is true exactly when its prefix count reaches its row |
| KnfToCnf.CounterComplete | Tools/knf2cnf.c:101-116 | a model of the klause extends, on the fresh variables alone, to a model of the counter clauses |
| KnfToCnf.CounterConfined | Tools/knf2cnf.c:101-116 | every counter clause uses only the klause's literals and fresh variables in [start, start + (size-bound)*bound) |
| KnfToCnf.SatOne | Tools/knf2cnf.c:254-258 | a one-clause formula holds iff its clause has a true literal |
| KnfToCnf.EncodeOneSize | Tools/knf2cnf.c:194-224 | for a proper klause the header's clause count for it is exactly the number of clauses printed |
| KnfToCnf.EncodeOneAux | Tools/knf2cnf.c:212-219 | the header reserves exactly the fresh variables used, except one unused extra for each klause routed to the split encoding |
| KnfToCnf.EncodeSize | Tools/knf2cnf.c:194-272 | over a table of proper klauses, the clause count printed equals the header's, and the variable count falls short of it by the number of split klauses |
| KnfToCnf.EncodeOneMeaning | Tools/knf2cnf.c:254-270 | whichever encoder a klause is routed to, the clauses imply the klause and every model of the klause extends to them on fresh variables only |
| KnfToCnf.HeaderCounts | Tools/knf2cnf.c:194-224 | main's first pass computes the extra variables and clauses that the header adds |
| KnfToCnf.EmitOne | Tools/knf2cnf.c:254-270 | the dispatch on bound and size prints exactly the encoding of one klause and threads the fresh-variable counter |
| KnfToCnf.Translate | Tools/knf2cnf.c:194-272 | the header counts and the printed clauses are those of the whole table, klause by klause in order |
| KnfToCnf.HeaderExact | Tools/knf2cnf.c:230-235 | with proper klauses the header's clause count is the number of clauses printed, and the last fresh variable used is the header's variable count less one per split klause |
| KnfToCnf.ReadTable | Tools/knf2cnf.c:164-191 | the table loop, word by word, gives exactly the klauses of the recursive reader, or nothing when the input ends early |
| KnfToCnf.ReadWritten | Tools/knf2cnf.c:164-191 | reading back the words of a table with non-zero literals gives that table |
| CardEncoding.SplitSound | cardinality-cadical/src/cardinality_encoding.cpp:43-103 | any assignment satisfying the split encoding makes all literals but at most one true |
| CardEncoding.SplitComplete | cardinality-cadical/src/cardinality_encoding.cpp:43-103 | a model of at-least-all-but-one extends, changing only fresh variables, to a model of the split encoding |
| CardEncoding.SplitExtendAgrees | cardinality-cadical/src/cardinality_encoding.cpp:86-101 | the values chosen for the fresh variables leave every older variable unchanged |
| CardEncoding.SplitStep | cardinality-cadical/src/cardinality_encoding.cpp:86-101 | one recursive call pushes its block, its fresh variable's definition on the derivation side, then continues on -fresh followed by the fourth literal onwards |
| CardEncoding.SplitBase | cardinality-cadical/src/cardinality_encoding.cpp:49-84 | with at most four literals the encoding and its derivation are the pairwise clauses |
| CardEncoding.SplitBlock | cardinality-cadical/src/cardinality_encoding.cpp:49-91 | one call pushes the pairwise clauses of up to four literals, or the pairs of the first three and their clauses with the fresh variable |
| CardEncoding.Encoder.SplitFullEncoding | cardinality-cadical/src/cardinality_encoding.cpp:43-103 | the pending clauses grow by exactly the split encoding (and the derivation by its lines when asked), the fresh counter advances by one per step, nothing else changes |
| CardEncoding.PhaseTrueSplit | cardinality-cadical/src/cardinality_encoding.cpp:241-254 | when the phase-true literals come first, their number is the split point |
| CardEncoding.SkipTrue | cardinality-cadical/src/cardinality_encoding.cpp:245 | the front cursor stops at the first phase-false literal or at the back cursor, keeping the partition invariant |
| CardEncoding.SkipFalse | cardinality-cadical/src/cardinality_encoding.cpp:246 | the back cursor stops at a phase-true literal or at 0, keeping the partition invariant |
| CardEncoding.SwapCloses | cardinality-cadical/src/cardinality_encoding.cpp:247-248 | swapping a misplaced pair keeps the multiset and closes the gap between the cursors |
| CardEncoding.PhaseRound | cardinality-cadical/src/cardinality_encoding.cpp:244-249 | one round of the partition loop permutes the array, keeps the invariant and strictly shrinks the distance between cursors |
| CardEncoding.PhaseSwaps | cardinality-cadical/src/cardinality_encoding.cpp:242-249 | the partition loop ends with the cursors crossed, the array a permutation of its input |
| CardEncoding.SortByPhase | cardinality-cadical/src/cardinality_encoding.cpp:241-254 | the array is permuted in place so that phase-true literals come first, and the returned split point is their number |
| CardEncoding.InsertByPerm | cardinality-cadical/src/cardinality_encoding.cpp:315-324 | inserting by key adds exactly the element to the multiset |
| CardEncoding.InsertBySorted | cardinality-cadical/src/cardinality_encoding.cpp:315-324 | inserting by key into a sorted list keeps it sorted |
| CardEncoding.SortByMeaning | cardinality-cadical/src/cardinality_encoding.cpp:315-324 | the sort used for literals gives a sorted permutation of its input |
| CardEncoding.ScoreSortedMeaning | cardinality-cadical/src/cardinality_encoding.cpp:315-318 | sorting the phase-true part (except its last element) and the phase-false part by score keeps the phase partition and the multiset |
| CardEncoding.OrderLiterals | cardinality-cadical/src/cardinality_encoding.cpp:306-324 | without a score the literals are sorted by variable; with one the phase-true literals come first and each part is sorted by decreasing score, as far as the source's ranges reach; always a permutation |
| CardEncoding.CountTruePerm | cardinality-cadical/src/cardinality_encoding.cpp:294-324 | reordering the literals does not change how many are true |
| CardEncoding.EncodingSound | cardinality-cadical/src/cardinality_encoding.cpp:331-343 | whatever order is used, any assignment satisfying the encoding makes at least bound of the constraint's literals true |
| CardEncoding.TreeSoundNegated | cardinality-cadical/src/cardinality_encoding.cpp:339-341 | a totalizer limiting the negated literals to size-bound true forces at least bound of the literals |
| CardEncoding.EncodingComplete | cardinality-cadical/src/cardinality_encoding.cpp:331-343 | a model of the constraint extends, changing only fresh variables, to a model of the encoding |
| CardEncoding.Encoder.constructor | cardinality-cadical/src/cardinality_encoding.cpp:256-262 | the encoder starts with the solver's constraints and largest variable and nothing pending |
| CardEncoding.Encoder.AddEncodingClauses | cardinality-cadical/src/cardinality_encoding.cpp:367-377 | the pending clauses are added to the formula in order and the pending list is emptied |
| CardEncoding.Encoder.AddEncodingDerivation | cardinality-cadical/src/cardinality_encoding.cpp:391-398 | the pending derivation lines are written in order and the pending list is emptied |
| CardEncoding.Encoder.EncodeOrdered | cardinality-cadical/src/cardinality_encoding.cpp:331-343 | the split encoding or the totalizer of the negated literals is appended to the pending clauses, the rest of the state unchanged |
| CardEncoding.Encoder.EncodeCardinalityConstraint | cardinality-cadical/src/cardinality_encoding.cpp:256-365 | garbage and two-literal constraints change nothing; a bound-1 constraint becomes a clause and is retired; any other is ordered, encoded from maxVar + 1, its clauses added and the constraint retired (kept with only-derivation), derivation lines written when asked |
| CardEncoding.Encoder.EncodeConstraint | cardinality-cadical/src/cardinality_encoding.cpp:294-365 | the constraint's literals are arranged, encoded, and the new state is exactly the one the dispatch promises |
| CardEncoding.Encoder.Retire | cardinality-cadical/src/cardinality_encoding.cpp:347-361 | maxVar rises to the last fresh variable, the pending clauses join the formula and the constraint is marked garbage unless only the derivation is wanted; pending derivation lines are written when asked |
| Totalizer.InitsMeaning | cardinality-cadical/src/cardinality_encoding.cpp:120-123 | the initial clauses hold exactly when each child output implies the parent output at the same position |
| Totalizer.RowMeaning | cardinality-cadical/src/cardinality_encoding.cpp:127-134 | one row of sum clauses holds exactly when left[i] and right[j] together imply mid[i+j+1], within the bound |
| Totalizer.SumsMeaning | cardinality-cadical/src/cardinality_encoding.cpp:125-134 | the sum clauses hold exactly when every such implication holds |
| Totalizer.BranchMeaning | cardinality-cadical/src/cardinality_encoding.cpp:113-146 | a node's clauses hold exactly when the merge implications and, past the bound, the unit -mid[bound] hold |
| Totalizer.BranchSound | cardinality-cadical/src/cardinality_encoding.cpp:113-157 | when the children count upward and the merge holds, the parent counts upward over the joined leaves, and past the bound at most bound leaves are true |
| Totalizer.BranchComplete | cardinality-cadical/src/cardinality_encoding.cpp:113-157 | when children and parent count their leaves exactly and at most bound leaves are true, the merge clauses hold |
| Totalizer.Leaves | cardinality-cadical/src/cardinality_encoding.cpp:185-186 | the initial nodes are the literals, one per node, in order |
| Totalizer.FlattenLeaves | cardinality-cadical/src/cardinality_encoding.cpp:185-186 | the leaves of the initial nodes are the literals |
| Totalizer.PickFlatten | cardinality-cadical/src/cardinality_encoding.cpp:192-234 | one iteration of the loop keeps every leaf exactly once, in order, among the kept, merged and remaining nodes |
| Totalizer.TreeMeaning | cardinality-cadical/src/cardinality_encoding.cpp:178-239 | the clauses the loop pushes hold exactly when every merge it performs holds |
| Totalizer.TreeSound | cardinality-cadical/src/cardinality_encoding.cpp:178-239 | when all merges hold over upward-counting nodes, more than bound leaves cannot be true |
| Totalizer.TreeComplete | cardinality-cadical/src/cardinality_encoding.cpp:178-239 | when at most bound leaves are true, some assignment changing only fresh variables satisfies every merge |
| Totalizer.TotalizerSound | cardinality-cadical/src/cardinality_encoding.cpp:178-239 | any assignment satisfying the totalizer makes at most bound of the literals true |
| Totalizer.TotalizerComplete | cardinality-cadical/src/cardinality_encoding.cpp:178-239 | an assignment with at most bound true literals extends, changing only fresh variables, to a model of the totalizer |

## Left out

Whole files:

- tools/card_extractor.py: the Python prototype of the cnf2knf pipeline. Its algorithms (direct and encoded at-most-one extraction, cluster tracing, validation) are modelled once, on the C++ version, in `Extractor`, `DirectAmo` and `EncodedAmo`. Its own admission thresholds (1000 and 2000 variables) and its `TupleCache` hash cache are not modelled.
- tools/exutil.py: the Python file helpers (`readCnf`, `doClause`, `doCard`, `finish`) that read and write CNF/KNF files for the scripts; the same formats are modelled by the C++ readers and writers (`CnfParse`, `KnfParse`, `Extractor`'s writer).
- cardinality-splitting/totalizer_splitting.py: a cube-splitting script that drives PySAT and writes files; its totalizer is a variant of the one modelled in `Totalizer`, and its cube generation and file handling are not modelled.
- tools/cleanup-small.c, Tools/knf2opb.py, Tools/pysat_encode.py, Extractor/cnf2knf/test/genknf.py: small stand-alone conversion and generation scripts over files (pysat_encode.py delegates the encoding itself to PySAT's `CardEnc`, a foreign library).
- Extractor/cnf2knf/src/ALK.hpp is not part of this model: `run_extraction_engines` never creates that engine.

Operations and details inside modelled files:

- parse.cpp: option parsing (`commandLineParseOption`, `findOption`, `parse_options`), the exception when the file cannot be opened, and `ParseString`, which nothing calls.
- cnf2knf.cpp: `main`, `process_stats`, statistics output, verbosity logging, and `flatten_vectors` (no return statement, never called). The KNF file is written as a sequence of lines.
- All verbosity logging, `log_lits`, comment output and statistics of every tool are left out.
- Timeouts (the wall clock in `run_extraction_engines`, the engines and the oracle) become step budgets: `DirectAmo.DirectAmoEngine.Run` and `EncodedAmo.EncodedAmoEngine.Run` stop after a given number of iterations, with `reachedTimeout` set.
- `random()` in `order_encoded` becomes a sequence of draws passed in (`Ordering.Start`).
- Ordering and Paths: the edge weights 1.0 and 0.75 are kept in quarter units (4 and 3), so the search's distances and their sum are exact integers and the float comparisons of eval.cpp become integer comparisons. The distances `shortest_paths` stores in its vector<int> are truncated to whole units (`Ordering.Whole`), and `order_encoded` compares those. Float rounding is modelled only where it changes the result: in `Ordering.StartAsWritten` and in that truncation.
- Bdd: the BuDDy kernel (bddop.c with its node table, cache, garbage collection, setjmp/longjmp reordering and float satcount) is an abstract tree datatype. Node identity becomes structural equality.
- TermSets: garbage collection in the BDD package is reduced to node accounting; the float ratio test of `check_gc` is not modelled. The node limit of `bucket_reduce` (more than ndata² nodes) is modelled.
- Text.IntegerValue: reads integers without C `int` overflow; a literal beyond 2^31-1 overflows in the source.
- AmoGraph.ProperClauses: the direct engine's invariant excludes tautological binary clauses (x, -x), which parse.cpp accepts; direct_AMO.hpp's `remove_edge` asserts the edge is present, which such a clause breaks, so the source does not handle them either.
- EncodedAmo: the tainted-variable loop at encoded_AMO.hpp:254-266 is left out. Its set is never filled, so its test always passes and the loop never changes which clusters are admitted.
- EncodedAmo.EncodedAmoEngine.GetCluster: does not state that every clause of the traced cluster is listed under one of its traced variables; the cluster's contents are stated, not that indexing fact.
- Extractor.Implied and Engines.Follows quantify over assignments that leave variable 0 out, since 0 is not a variable in DIMACS.
- KanalyzeMeaning: is stated for the analysis with the corrected check (`FindSpecFixed`). The analysis as written is not exact: `GapNotCaptured` shows klauses it makes that do not capture the diagram (see Findings), and `FindSpecAgrees` says where the two agree.
- Kanalyze: `generateBdd` (which drives the Python `bdd` module), `getEncodingId`, `levelize`, `buildOrder`, `ClauseGraph`, `findCorner` and the script's file handling are not modelled. The klause-building steps that read the diagram's layers are modelled.
- check-sat: `writeKnf`, `writeCai` and the CAI and LSECNF assignment formats of `parseAssignment` are left out (the default format is modelled). Weights are read as integers, not doubles. `stoi` overflow is not modelled.
- KnfToCnf: only the default build is modelled; the PAIRWISE, CNFPLUS, DERIVATION, KONLY and LINEAR variants are not. The derivation printer is modelled as a function whose output is proved implied (`KnfToCnf.DerivationsHold`). Comment lines inside the klause table, the word count of the header line and `malloc` sizing are not modelled.
- KnfToCnf.EncodeOneMeaning: requires 1 <= bound <= size. For other bounds knf2cnf's arithmetic goes outside the klause, and the model states no meaning for them.
- CardEncoding: `backtrack`, `external->init` (only `maxVar` is kept) and the solver's clause database (a list that clauses are appended to) are left out. Score tables hold integers, not doubles. `std::sort` is not stable; the model's sort is, and its contract states only a sorted permutation. `sort_unencoded_prob_vars` (cardinality_encoding.cpp:14-40) repeats the ordering modelled in `CardEncoding.OrderLiterals` on another list and is not modelled separately.
- CardEncoding.Encoder.EncodeCardinalityConstraint: requires bound <= size for a constraint that reaches the encoders. The solver never stores a larger bound, and the source would hand the totalizer a negative bound.
- Totalizer: the loop of `totalizer_full_encoding` is modelled by the function `Totalizer.Tree`, which follows its nodes and next-nodes state step by step; the vectors it copies are values.
- Extractor.CnfExtractor.ValidateConstraint: calls the analysis with the corrected decoder (see Findings), so it never commits the klause of the parity finding, which the program as written can commit.
- CheckMain.CheckFile: reads the file with the parser as written (`KnfParse.ReadKnf`), so the two parser findings below reach it. The corrected reader is `KnfParse.ReadKnfFixed`.
- Collect: clauses are values in sequences, not references into an arena, so `garbage_collection`, `copy_non_garbage_clauses`, `flush_occs`, `flush_watches`, `update_reason_references`, `check_clause_stats` and `arenaing` are not modelled; a reason is a clause index on the trail. Proof logging, statistics and logging are left out.
- Collect.Internal.CarShrink: the watch bookkeeping of `CARremove_falsified_and_satisfied_literals` (`CARswap_watched_literal`, `CARunwatch_some_literals`, `remove_watch`, the `unwatched` and `pos` fields) is not modelled. The swaps reorder the literals, so the new literals are stated as a multiset.
- Collect.Internal.MarkSatisfiedClausesAsGarbage: requires root propagation to be complete for every live cardinality constraint, because the source asserts it (collect.cpp:248-249) before shrinking.
- Collect: `protect_reasons` and `unprotect_reasons` walk the trail over ordinary clauses only. Reasons that are cardinality constraints are not modelled.
- Partition: the text of the output files is not modelled. This covers the weights, the `p wknf` header, the `k` marker with its bound, the line break after every eight literals of the combined solution and the skipped `v` tokens. Files are sequences of integers, and each part's formula is the set of clauses and constraints it selects.
- Partition: the soft-count diagnostic loop (cnf-partition.hpp:109-127) prints nothing here. `Partition.OnePart` proves that its ERROR line cannot occur.
- Partition.Label: the model does not prove that each part is connected, only that adjacent variables share a part.
- Partition.Label: a popped variable out of 1..max_var (cnf-partition.hpp:78-81) cannot occur, because a neighbour is pushed only after the check at cnf-partition.hpp:88-91. The frontier invariant of `Partition.Explore` keeps every queued variable in range. A neighbour 0 (cnf-partition.hpp:88-91) is the failure result.
- Partition.ReadPartitionFile: the loop at cnf-partition.hpp:302-304 leaves entry max_var uninitialised. The model takes its value as the parameter `unset`.

## Findings

| source | as written | input that shows it | evidently intended | confidence | as-written member | corrected member |
|---|---|---|---|---|---|---|
| Extractor/cnf2knf/tbuddy/eval.cpp:389-404 | the last layer of `cardinality_converter` takes the first and the last true leaf as the bounds without checking that the leaves between them are true | the odd-parity diagram over x1, x2, x3 (for example from the parity clauses, each widened by an encoding variable): the decoder reports at least 0 and at most 2 of -x1, -x2, -x3, which x1 = x2 = true, x3 = false satisfies although parity fails | accept only when the true leaves form one run, and fail otherwise | not executed | Decoder.ConverterAcceptsParity, Extractor.ParityNotCaptured | Decoder.CheckedConverterMeaning, Extractor.AnalyzeMeaning |
| Extractor/cnf2knf/tbuddy/eval.cpp:590-591 | `(float) random() / RAND_MAX` rounds in single precision, so the 64 largest draws (RAND_MAX among them) give r = 1.0 and the start ndata + nencode + 1, one past the last encoding variable | a draw x with RAND_MAX - 63 <= x <= RAND_MAX | a start among the encoding variables ndata + 1 .. ndata + nencode | not executed | Ordering.StartAsWrittenEscapes | Ordering.Start |
| tools/kanalyze.py:126-148 | `check` takes the first and the last true leaf as the bounds without checking that the leaves between them are true | the odd-parity diagram over x1, x2, x3, whose final layer is false, true, false, true: `check` returns (1, 3), and x1 = x2 = true, x3 = false satisfies the klauses made although parity fails | accept only when the true leaves form one run, and fail otherwise | not executed | Kanalyze.CheckAcceptsGap, Kanalyze.GapNotCaptured | Kanalyze.CheckFixedMeaning, Kanalyze.KanalyzeMeaning |
| tools/kanalyze.py:139-147 | the lower-bound loop runs over range(U), so it never looks at the last leaf; when only the last leaf is true, L stays 0 | a final layer of n + 1 leaves with only leaf n true: `check` returns (0, n) instead of (n, n), and no lower-bound klause is made | the first true leaf, including the last one | not executed | Kanalyze.CheckMissesLast | Kanalyze.CheckFixedMeaning |
| Tools/check-sat/knf-parse.hpp:68-90 | after a comment line the header loop reads a white-space character and neither skips it nor fails, so it loops forever | the text "c x\n\np cnf 1 1\n-1 0\n" | skip white space between comment lines and the header | not executed | KnfParse.BlankAfterHeaderComment | KnfParse.HeaderCommentSkipped, KnfParse.HeaderScanFixedAgrees |
| Tools/check-sat/knf-parse.hpp:123-129 | after a comment line in the body a blank line is read as a statement; `ParseInteger` reads 0, so an empty clause is counted and the count check fails | the text "p cnf 1 1\nc x\n\n-1 0\n" | skip white space after a comment line, so the file parses to its one clause | not executed | KnfParse.BlankAfterBodyComment | KnfParse.BodyCommentSkipped, KnfParse.BodyOfFixedAgrees |
| Extractor/cnf2knf/src/parse.cpp:108-132 | after a comment line the body loop skips white space and then reads literals even when the file has ended, storing an empty clause | the text "p cnf 1 1\n1 0\nc end\n\n" | a comment line followed by white space stores nothing | not executed | CnfParse.BlankAfterLastComment | CnfParse.CommentStoresNothing |

`Extractor.CnfExtractor.BddAnalyze` models `bdd_analyze` with the decoder as written, and `Extractor.ParityNotCaptured` shows a diagram on which it emits a klause that does not capture (imply) the clauses. `validate_constraint`, and with it every engine, uses the checked decoder (`Extractor.CnfExtractor.CheckedBddAnalyze`), whose klauses capture the clauses (`Extractor.AnalyzeMeaning`). The order heuristic uses `Ordering.Start`. `CheckMain.CheckFile` keeps check-sat's reader as written, so the two knf-parse findings reach the checker; `KnfParse.ReadKnfFixed` is the corrected reader, and it never diverges.
