# DAIL-SQL core, modelled in Dafny

DAIL-SQL builds few-shot prompts for text-to-SQL with a large language model, asks the model for several candidate queries, and keeps the one most candidates agree on. This project models the deterministic core of that pipeline and proves what each part promises:

- **The self-consistency vote** (`utils/post_process.py`), in modules `Denotation`, `Equivalence`, `Cleanup` and `Vote`.
  - Query results are tables of tagged scalars. A row's canonical form sorts its cells by `str(x) + str(type(x))`, a key proved injective.
  - `result_eq` is proved to answer whether some column permutation makes the two tables equal, cells being compared by their type and their text. The answer holds as lists, or as bags when order does not matter. It does not depend on which rows `get_constraint_permutation` samples. Python's equality of an `int` and a `float` of the same value is not modelled (see "Left out").
  - `get_sqls` clusters the candidates that execute by comparing each with the cluster representatives. The first member of the largest, earliest cluster wins. When no candidate executes, the first candidate wins.
  - Query execution, the directory listing and DISTINCT removal are parameters of an environment `Vote.Env`.
- **The candidate clean-up** of `ask_llm.py` (`AskLlm`): collapse white space, cut at a comment, prefix `SELECT`; then one line per candidate or one voted query per question.
- **String helpers** of `utils/utils.py` (`Utils`, on the Python string primitives of `Text`):
  - `isFloat`, `filter_json`, the key listings and the Jaccard similarity of skeletons;
  - the quote-aware `lower`, `remove_semicolon`, `double2single` and `sql_split` nested in `sql_normalization`.
- **Schema linking** (`SchemaLinking`, `CellLinking`, `MatchShift`; `utils/linking_utils/spider_match_utils.py`):
  - the n-gram sweep that links question positions to columns and tables;
  - the grouping of looked-up positions into runs for cell-value links, with the database lookups as oracles;
  - the priority resolution of competing links in `match_shift`.
- **Uses of the links** (`Application`; `utils/linking_utils/application.py`): question masking, question patterns and relevant tables.
- **Schema preprocessing** (`LinkingProcess`; `utils/linking_process.py`):
  - `PreprocessedSchema` is a class whose fields the column loop fills.
  - `SpiderEncoderV2Preproc` is a class holding the per-database cache and the per-section item lists.
- **Prompt assembly** (`PromptIcl`; `prompt/PromptICLTemplate.py`):
  - `BasicIclPrompt` is a class that greedily packs example texts in front of the target under a token budget.
  - It records how similar the kept examples are to the target.
- **Example selection** (`ExampleSelector`; `prompt/ExampleSelectorTemplate.py`):
  - `domain_mask` and `retrieve_index`;
  - the loops that walk the sorted candidates of the Cosine, Euclidean, Threshold and Skeleton selectors.
  - The question-mask and plus variants differ only in their keys, so `DistanceExamples` covers them. The pre-skeleton and question-mask pre-skeleton variants differ likewise, so `SkeletonExamples` covers them. The shift variant is `SkeletonExamples` with `fill` off.

Operations that work step by step in the source are methods with loops and invariants. Each is proved against a function that specifies it; lemmas then state the source's promises about that function. Pure code is functions and lemmas.

## Model

| member | source | states |
|---|---|---|
| Vote.SqliteFiles | utils/post_process.py:202 | a directory entry is kept exactly when it is listed and its name contains `.sqlite` |
| Vote.GetExecOutput | utils/post_process.py:183-211 | the call ends in the `TypeError` exactly when DISTINCT removal succeeds and the directory has no `.sqlite` file; a query the SQL tokenizer cannot parse yields an exception result |
| Vote.FirstMatch | utils/post_process.py:241-246 | the cluster a result joins is the first from `id` on whose representative's result is equivalent to it; every cluster before it is not equivalent |
| Vote.Place | utils/post_process.py:241-248 | a successful candidate joins the first matching cluster or opens a new one; clusters stay non-empty and hold only successful candidates |
| Vote.Clusters | utils/post_process.py:231-248 | after all candidates, clusters are non-empty and hold only candidates that executed |
| Vote.InsertBySize | utils/post_process.py:249 | inserting a cluster adds exactly that cluster to the bag of clusters |
| Vote.InsertKeepsDescending | utils/post_process.py:249 | inserting into a size-descending list keeps it size-descending |
| Vote.InsertBounded | utils/post_process.py:249 | inserting keeps every cluster within a common size bound |
| Vote.SortBySize | utils/post_process.py:249 | `sort(key=len, reverse=True)` gives a permutation of the clusters with non-increasing sizes |
| Vote.FirstLargest | utils/post_process.py:249-253 | the index of a cluster no other cluster outsizes, with every earlier cluster strictly smaller |
| Vote.SortHead | utils/post_process.py:249-253 | the stable sort puts the first of the largest clusters first |
| Vote.SelectCandidates | utils/post_process.py:218-224 | the first `select_number` candidates when `1 <= select_number <= len`, otherwise all of them |
| Vote.SelectAll | utils/post_process.py:215-224 | one truncated candidate list per item, in order |
| Vote.VoteQuestion | utils/post_process.py:226-253 | the answer for one question equals the specification `Winner`: crash, first candidate, or representative of the largest cluster |
| Vote.JoinCluster | utils/post_process.py:238-248 | the inner loop places the candidate as `Place` does, and every clustered query has a recorded denotation |
| Vote.GetSqls | utils/post_process.py:214-257 | one chosen query per item, equal to that item's winner, or else the error of the first item that raises, every earlier item having a winner |
| Vote.Successful | utils/post_process.py:231-238 | the candidates kept are exactly those that execute and return rows |
| Vote.FlattenJoin | utils/post_process.py:244 | appending a query to a cluster adds exactly it to all clustered queries |
| Vote.FlattenOpen | utils/post_process.py:248 | opening a cluster adds exactly the query to all clustered queries |
| Vote.ClustersCover | utils/post_process.py:231-248 | every successful candidate sits in exactly one cluster and nothing else is clustered (as bags) |
| Vote.ClustersEmpty | utils/post_process.py:250 | there is no cluster exactly when no candidate succeeds |
| Vote.MembersMatchRepresentative | utils/post_process.py:241-246 | every member's result is equivalent to its cluster representative's |
| Vote.RepresentativesDiffer | utils/post_process.py:247-248 | no two representatives have equivalent results |
| Vote.WinnerIsFirstLargest | utils/post_process.py:249-253 | the chosen query is the representative of the first largest cluster |
| Vote.FallbackToFirst | utils/post_process.py:250-251 | when no candidate returns rows, the first candidate is chosen |
| Vote.NoneSucceed | utils/post_process.py:236-237 | with every candidate failing, no candidate is successful |
| Text.Strip | utils/post_process.py:17 | `strip()` returns an infix of its input that neither starts nor ends with white space, and what it cuts off on either side is white space |
| Text.CutAt | utils/post_process.py:17 | `split("/*")[0]` is the longest prefix before the first `/*`, and holds none |
| Text.SplitWsWords | ask_llm.py:82 | the pieces of `split()` are non-empty and free of white space |
| Text.JoinWords | ask_llm.py:82 | joining such pieces with one space gives a single-spaced string without edge spaces |
| Cleanup.ProcessDuplication | utils/post_process.py:16-18 | the result is a prefix of the stripped query, contains no `/*`, does not start with white space, and is the whole stripped query when it had no comment |
| Cleanup.NoGapIsAbsent | utils/post_process.py:175-177 | the scan-based absence test agrees with substring absence |
| Cleanup.GlueRemoves | utils/post_process.py:176 | after `replace(c + " =", c + "=")`, `c + " ="` no longer occurs |
| Cleanup.GlueKeepsAbsent | utils/post_process.py:176 | one replacement never creates the gap of another operator |
| Cleanup.PostprocessCloses | utils/post_process.py:175-177 | `postprocess` leaves none of `> =`, `< =`, `! =` behind |
| Cleanup.PostprocessIdentity | utils/post_process.py:175-177 | a query with none of the three gaps comes back unchanged |
| AskLlm.Collapse | ask_llm.py:82 | `" ".join(sql.replace("\n", " ").split())` is single-spaced, holds no white space other than plain spaces, and neither starts nor ends with a space |
| AskLlm.CleanShape | ask_llm.py:82-90 | a cleaned candidate starts with SELECT and holds no newline, no two spaces in a row and no comment opener |
| AskLlm.CleanSpacing | ask_llm.py:82-83 | cutting a collapsed query at its first comment keeps it single-spaced |
| AskLlm.NoCommentAfterPrefix | ask_llm.py:85-90 | prefixing SELECT adds no comment opener |
| AskLlm.LeadingSpaceUnreachable | ask_llm.py:87-88 | the `startswith(" ")` branch can never be taken after the clean-up |
| AskLlm.SelectUntouched | ask_llm.py:85-86 | a query already starting with SELECT is written as it is |
| AskLlm.CleanOne | ask_llm.py:97-105 | the step-by-step clean-up of one candidate computes the cleaned candidate |
| AskLlm.CleanAll | ask_llm.py:79-90 | with one sample, one cleaned line is written per returned candidate, in order |
| AskLlm.CleanedSnoc | ask_llm.py:96-105 | cleaning one more candidate appends its cleaned form |
| AskLlm.CleanedAt | ask_llm.py:95-105 | cleaning keeps the number of candidates and cleans each in place |
| AskLlm.VoteOne | ask_llm.py:94-110 | one question's candidates are cleaned and voted on with `get_sqls` |
| AskLlm.Questions | ask_llm.py:93-94 | `zip` pairs responses with database ids, as many as the shorter list |
| AskLlm.VoteBatch | ask_llm.py:91-113 | with several samples, the batch writes the winners in question order, or stops with the first vote's exception |
| AskLlm.VoteAt | ask_llm.py:94-110 | the vote on the `i`-th question of the batch |
| AskLlm.WrittenAllOk | ask_llm.py:112-113 | when every vote succeeds, the lines written are the winners in order |
| AskLlm.WrittenPrefix | ask_llm.py:94-113 | what is written for the first `k` questions does not depend on the later ones |
| AskLlm.WrittenFirstRaise | ask_llm.py:110 | the first vote that raises ends the batch with its error |
| AskLlm.WrittenOkPrefix | ask_llm.py:94-113 | answers that all succeed are written out in full |
| AskLlm.WrittenRaisedSticks | ask_llm.py:110 | once a vote raises, the rest of the batch is not reached |
| AskLlm.WrittenLines | ask_llm.py:112-113 | a batch that completes writes one line per question, its winner |
| AskLlm.WrittenError | ask_llm.py:110 | a batch that raises does so with the error of its first raising vote |
| Denotation.SortKeyInjective | utils/post_process.py:31 | the key `str(x) + str(type(x))` determines the cell: no two distinct cells share a key |
| Denotation.ScalarLeTotalOrder | utils/post_process.py:31 | ordering cells by their key is a total order with no ties between distinct cells |
| Denotation.InsertBy | utils/post_process.py:31 | inserting a cell adds exactly that cell to the bag |
| Denotation.InsertSorted | utils/post_process.py:31 | inserting into a sorted row keeps it sorted |
| Denotation.SortBy | utils/post_process.py:31 | `sorted` returns its input's cells, in order |
| Denotation.SortedUnique | utils/post_process.py:31 | two sorted rows with the same cells are equal, so sorting is canonical |
| Denotation.UnorderRow | utils/post_process.py:30-31 | `unorder_row` returns the row's cells sorted by key |
| Denotation.UnorderRowInvariant | utils/post_process.py:30-31 | two rows have the same canonical form exactly when they hold the same bag of cells |
| Denotation.PermuteTuple | utils/post_process.py:25-27 | cell `k` of the permuted row is cell `perm[k]` of the row, and the length is kept |
| Denotation.PermuteAll | utils/post_process.py:114 | each row of the table is permuted, and the row count is kept |
| Denotation.PermuteKeepsCells | utils/post_process.py:25-27 | permuting by a column permutation keeps the bag of cells |
| Denotation.ToSet | utils/post_process.py:44 | `set(s)` holds exactly the rows of `s` |
| Denotation.Range | utils/post_process.py:62 | `set(range(n))` holds exactly `0..n-1`, `n` of them |
| Denotation.Elems | utils/post_process.py:109 | `set(perm)` holds exactly the entries of `perm` |
| Denotation.NoRepeatsCard | utils/post_process.py:109 | a tuple without repeats passes `len(p) == len(set(p))` |
| Denotation.PermHitsAll | utils/post_process.py:109 | a repeat-free tuple of `n` columns below `n` uses every column |
| Denotation.Unordered | utils/post_process.py:39-40 | every row of the table is put in canonical form, and the row count is kept |
| Denotation.UnorderedPermuted | utils/post_process.py:38-40 | permuting columns leaves every canonical row unchanged |
| Denotation.UnorderedSets | utils/post_process.py:42-44 | tables with the same set of rows have the same set of canonical rows |
| Denotation.QuickRejNecessary | utils/post_process.py:34-44 | whenever a column permutation makes the tables match, `quick_rej` accepts them |
| Equivalence.MultisetEq | utils/post_process.py:48-58 | `multiset_eq` answers true exactly when the two lists are the same bag, cells compared by type and text |
| Equivalence.SubBagSameSize | utils/post_process.py:49-58 | a sub-bag of the same size is the whole bag, which is why counting down without going negative suffices |
| Equivalence.ColumnSets | utils/post_process.py:103 | set `c` holds exactly the values in column `c` of the first table |
| Equivalence.GetConstraintPermutation | utils/post_process.py:61-75 | one candidate set per column; with at most three columns every column is allowed, otherwise a column survives exactly when each sampled row's cell lies in the target column's set |
| Equivalence.PruneColumn | utils/post_process.py:72-74 | a candidate is kept exactly when the sampled row's cell is in the column's set |
| Equivalence.Members | utils/post_process.py:65 | the ascending list holds exactly the members below `n` |
| Equivalence.Prefix | utils/post_process.py:65 | the tuples are exactly `h` followed by one of the tails |
| Equivalence.Extend | utils/post_process.py:65 | the tuples are exactly a head followed by one of the tails |
| Equivalence.Product | utils/post_process.py:65 | `product(*cs)` yields exactly the tuples whose `k`-th entry lies in set `k` |
| Equivalence.ResultEq | utils/post_process.py:79-124 | `result_eq` answers whether some column permutation makes the tables equal (as lists, or as bags when order does not matter), cells compared by type and text, whatever rows are sampled |
| Equivalence.FirstAccepted | utils/post_process.py:108-124 | the loop finds a candidate exactly when some enumerated tuple is accepted |
| Equivalence.TryPermutation | utils/post_process.py:109-123 | one iteration accepts exactly a repeat-free tuple that makes the tables match |
| Equivalence.ElemsCard | utils/post_process.py:109 | `len(p) == len(set(p))` holds only for tuples without repeats |
| Equivalence.EmptyEquivalent | utils/post_process.py:80-81 | two empty results are equivalent |
| Equivalence.EquivalentShape | utils/post_process.py:84-91 | equivalent tables have the same numbers of rows and of columns |
| Equivalence.EquivalentPassesQuickRej | utils/post_process.py:34-44 | `quick_rej` never rejects equivalent tables: it is a necessary condition |
| Equivalence.SingleColumn | utils/post_process.py:111-112 | with one column, skipping the permutation changes nothing |
| Equivalence.AcceptedIsWitness | utils/post_process.py:115-123 | an accepted tuple witnesses equivalence |
| Equivalence.WitnessSurvives | utils/post_process.py:71-74 | a witness permutation is never pruned by a sampled row |
| Equivalence.WitnessEnumerated | utils/post_process.py:108-124 | whenever the tables are equivalent, some enumerated tuple is accepted |
| Equivalence.WitnessInProduct | utils/post_process.py:61-75 | a witness lies in the product of the pruned constraints |
| Equivalence.EquivalentReflexive | utils/post_process.py:79-124 | every result is equivalent to itself |
| Equivalence.SameBagEquivalent | utils/post_process.py:115-123 | equal bags of rows are equivalent when order does not matter |
| Equivalence.OrderedImpliesUnordered | utils/post_process.py:115-123 | equivalence with order implies equivalence without it |
| Utils.Unsigned | utils/utils.py:398-399 | one leading minus sign is dropped, and nothing else changes |
| Utils.IsFloatShape | utils/utils.py:397-408 | `isFloat` accepts exactly an optional minus sign followed by digits, or digits, one dot and digits |
| Utils.PiecesNoDot | utils/utils.py:401-408 | without a dot, the single piece must be a digit run |
| Utils.PiecesOneDot | utils/utils.py:401-408 | with one dot, both sides must be digit runs |
| Utils.PiecesTwoDots | utils/utils.py:401-403 | with two dots or more, `isFloat` refuses |
| Utils.SplitOneDot | utils/utils.py:401 | splitting on the only dot gives the two sides |
| Utils.NegativeIntIsFloat | utils/utils.py:390-408 | every string `isNegativeInt` accepts, `isFloat` accepts too |
| Utils.FloatRejectsTrailingDot | utils/utils.py:405-407 | `"1."` is refused: its empty second piece is not a digit run |
| Utils.FloatRejectsLeadingDot | utils/utils.py:405-407 | `".5"` is refused: its empty first piece is not a digit run |
| Utils.FloatRejectsTwoDots | utils/utils.py:402-403 | `"1.2.3"` is refused |
| Utils.FloatAcceptsSigned | utils/utils.py:397-408 | `"-1.5"` is accepted |
| Utils.FilterJson | utils/utils.py:135-144 | a result starts with `{` and ends with `}`; the error is `None` |
| Utils.FilterJsonSpec | utils/utils.py:135-144 | `filter_json` succeeds exactly when some `{` precedes some `}`, and then returns the infix from the first `{` to the last `}` |
| Utils.GetPrimaryKey | utils/utils.py:117-123 | the loop returns the names of the rows whose field 5 is 1, in row order |
| Utils.PkNamesMembers | utils/utils.py:120-122 | a name is listed exactly when some row carries it with field 5 equal to 1 |
| Utils.FormatForeignKey | utils/utils.py:101-108 | one entry per row, entry `i` formatted from row `i` |
| Utils.ForeignKeyTextShape | utils/utils.py:106 | each entry starts with `(` and the table name and ends with `)` |
| Utils.SkeletonTokens | utils/utils.py:412-413 | `split(" ")` never returns an empty list |
| Utils.ListToDict | utils/utils.py:416-420 | the dictionary counts every token, and its keys are the distinct tokens |
| Utils.JaccardSimilarity | utils/utils.py:411-429 | the intersection is the size of the common sub-bag of the two token bags, the union the total minus it |
| Utils.SumCommon | utils/utils.py:424-427 | summing the smaller count over the first dictionary's keys gives the common sub-bag's size |
| Utils.MinSumIsIntersection | utils/utils.py:424-427 | the sum of the smaller multiplicities over all keys of one bag is the size of the bags' intersection |
| Utils.CommonBounded | utils/utils.py:428 | the intersection is no larger than either bag |
| Utils.JaccardRange | utils/utils.py:428-429 | the union is at least 1 and the intersection never exceeds it, so the similarity lies in [0, 1], and it is symmetric |
| Utils.JaccardOne | utils/utils.py:411-429 | the similarity is 1 exactly when the two token bags are equal |
| Utils.Lowered | utils/utils.py:194-209 | lowering keeps the length |
| Utils.Lower | utils/utils.py:194-209 | the character loop lowers exactly the characters outside single-quoted spans |
| Utils.LoweredQuotes | utils/utils.py:203-207 | lowering never creates or removes a quote, so quoted spans stay where they were |
| Utils.LoweredIdempotent | utils/utils.py:194-209 | lowering twice is lowering once, and quoted text is never touched |
| Utils.RemoveSemicolon | utils/utils.py:212-215 | the result is the input or the input less its last character, shorter exactly when it ended in `;` |
| Utils.RemoveSemicolonInverse | utils/utils.py:212-215 | only one semicolon goes: appending one and removing it gives the input back |
| Utils.Double2Single | utils/utils.py:218-219 | no double quote remains, the length is kept, and every other character is kept |
| Utils.Double2SingleFixed | utils/utils.py:218-219 | a string is unchanged exactly when it holds no double quote, and the replacement is idempotent |
| Utils.ReplaceShrinks | utils/utils.py:230-231 | replacing two spaces by one never lengthens the string, and shortens it while any pair remains |
| Utils.Squeeze | utils/utils.py:230-231 | after the collapsing loop no two spaces in a row remain |
| Utils.SqueezeSpaces | utils/utils.py:230-231 | the collapsing loop terminates with the collapsed string |
| Utils.SqlSplit | utils/utils.py:229-253 | `sql_split` returns the tokens of the collapsed, stripped string |
| Utils.TokenLoop | utils/utils.py:233-253 | the token loop returns the tokens of its string |
| Utils.ScanQuoted | utils/utils.py:237-245 | the quoted branch copies the opening quote, the text up to the next quote and that quote when present |
| Utils.ScanWord | utils/utils.py:246-251 | the unquoted branch copies up to the next space and skips the spaces after it |
| Utils.CopyUntilSpace | utils/utils.py:247-249 | the copy stops at the next space or the end |
| Utils.SkipSpaces | utils/utils.py:250-251 | the skip stops at the next non-space or the end |
| Utils.TokenShape | utils/utils.py:235-252 | every token is a quoted segment starting with a quote, or holds no space |
| Utils.QuoteFreeTokens | utils/utils.py:246-252 | without quotes, the tokens are the string split on single spaces |
| Utils.QuoteFreeSplit | utils/utils.py:229-253 | for input without single quotes, `sql_split` is: collapse spaces, strip, split on a space |
| Utils.QuotedThenWord | utils/utils.py:243-252 | a quoted segment followed by a space leaves an empty token behind it |
| SchemaLinking.PartialMatchSpec | utils/linking_utils/spider_match_utils.py:19-28 | a partial match is neither a stopword nor a punctuation mark, and its text begins the schema text, as the `assert x_str in y_str` promises |
| SchemaLinking.ExactIsPartial | utils/linking_utils/spider_match_utils.py:19-36 | an exact match of a word-bounded text that is no stopword or punctuation is also a partial match |
| SchemaLinking.PartialEndsAtWord | utils/linking_utils/spider_match_utils.py:24 | the trailing `\b` makes a partial match end at a word end of the schema text |
| SchemaLinking.JoinHead | utils/linking_utils/spider_match_utils.py:31-32 | joining tokens puts the first token first, then a space or the end |
| SchemaLinking.ExactMatchIsEquality | utils/linking_utils/spider_match_utils.py:30-36 | over non-empty, space-free tokens, `exact_match` is equality of the token lists |
| SchemaLinking.HitMeans | utils/linking_utils/spider_match_utils.py:53-79 | a recorded comparison is an n-gram window that the loops visit, covers the position and matches the item |
| SchemaLinking.LinkedMeans | utils/linking_utils/spider_match_utils.py:51-81 | a key is linked exactly when some compared n-gram of length 1 to 5 covers the position and matches the item |
| SchemaLinking.ExactlyLinkedMeans | utils/linking_utils/spider_match_utils.py:59-67 | a key is linked exactly-matching exactly when some such n-gram matches the item exactly |
| SchemaLinking.ExactStaysExact | utils/linking_utils/spider_match_utils.py:69-79 | an exact flag is never overwritten by a later window |
| SchemaLinking.SweepReflects | utils/linking_utils/spider_match_utils.py:51-80 | after every prefix of the windows, a key is present iff an earlier window links it, with the exact flag iff one links it exactly |
| SchemaLinking.MarkAll | utils/linking_utils/spider_match_utils.py:62-63 | every covered key is set to the flag, the other keys are kept |
| SchemaLinking.MarkAbsent | utils/linking_utils/spider_match_utils.py:72-74 | every covered key not yet present gets the flag, present keys are kept |
| SchemaLinking.ExactPass | utils/linking_utils/spider_match_utils.py:60-67 | the exact pass of one window writes the exact flag on exactly the covered keys of the matching items |
| SchemaLinking.PartialPass | utils/linking_utils/spider_match_utils.py:70-79 | the partial pass of one window fills in the partial flag on the covered keys of the matching items that are still absent |
| SchemaLinking.ScanWindow | utils/linking_utils/spider_match_utils.py:55-79 | one window is skipped when blank, otherwise it runs the exact passes and then the partial passes |
| SchemaLinking.ScanLength | utils/linking_utils/spider_match_utils.py:54-79 | all windows of one length, left to right |
| SchemaLinking.ComputeSchemaLinking | utils/linking_utils/spider_match_utils.py:18-81 | the result is the full sweep: a key is present iff some compared n-gram covering the position matches the item, carries the exact flag iff one matches exactly, never names column 0, and names a question position |
| CellLinking.NumDateTag | utils/linking_utils/spider_match_utils.py:138-139 | `column.type.upper()` is `NUMBER` exactly for number columns and `TIME` exactly for time columns |
| CellLinking.MatchIds | utils/linking_utils/spider_match_utils.py:129-144 | `match_q_ids` is strictly increasing and lists only positions already visited |
| CellLinking.MatchIdsAre | utils/linking_utils/spider_match_utils.py:130-144 | `match_q_ids` holds exactly the looked-up, non-numeric positions whose partial lookup found rows |
| CellLinking.NumberNeverCell | utils/linking_utils/spider_match_utils.py:136-144 | a numeric token never enters `match_q_ids` |
| CellLinking.NumDateIds | utils/linking_utils/spider_match_utils.py:136-139 | the numeric positions linked to a column are the looked-up numeric tokens, for number and time columns only |
| CellLinking.RunStart | utils/linking_utils/spider_match_utils.py:146-150 | a run starts where the previous index does not continue it |
| CellLinking.RunEnd | utils/linking_utils/spider_match_utils.py:147-149 | a run ends at the first index that does not continue it, or at the end |
| CellLinking.RunWordsAreTokens | utils/linking_utils/spider_match_utils.py:150-151 | `tokens[q_f:q_t]` is exactly the tokens at the run's positions |
| CellLinking.Consecutive | utils/linking_utils/spider_match_utils.py:148 | inside a run the positions go up by one |
| CellLinking.SameRun | utils/linking_utils/spider_match_utils.py:145-159 | two indices of one run share its bounds and its flag |
| CellLinking.CollectMatches | utils/linking_utils/spider_match_utils.py:129-144 | the token loop of one column yields `match_q_ids` and adds exactly that column's numeric links |
| CellLinking.TokenStep | utils/linking_utils/spider_match_utils.py:131-144 | what one token adds: nothing when skipped, a numeric link, or a partial hit |
| CellLinking.MarkRange | utils/linking_utils/spider_match_utils.py:154-158 | positions `q_f` to `q_t - 1` of the column get the flag, other keys are kept |
| CellLinking.RunWritten | utils/linking_utils/spider_match_utils.py:150-159 | writing one run's flag over its positions extends the runs written so far |
| CellLinking.GroupRuns | utils/linking_utils/spider_match_utils.py:145-159 | each maximal run of consecutive positions is looked up as a whole, and all its positions get the run's flag |
| CellLinking.RangeIsRun | utils/linking_utils/spider_match_utils.py:150-154 | the range `q_f..q_t` holds exactly the run's positions |
| CellLinking.ComputeCellValueLinking | utils/linking_utils/spider_match_utils.py:84-162 | column 0 is skipped; a position is cell-linked iff its partial lookup found rows, with the exact flag iff its maximal run exact-matches as a whole; numeric tokens go, by type, to number and time columns only |
| MatchShift.GroupsAreRelevant | utils/linking_utils/spider_match_utils.py:167-178 | the grouped positions are exactly those with some column or table match |
| MatchShift.AddsStep | utils/linking_utils/spider_match_utils.py:168-172 | one key adds its pair `(flag, id)` to its position's group |
| MatchShift.AddPairs | utils/linking_utils/spider_match_utils.py:168-177 | one dictionary loop adds every key's pair to its position's group |
| MatchShift.GroupByPosition | utils/linking_utils/spider_match_utils.py:167-182 | `q_id_to_match` groups both dictionaries' pairs by position, as sets |
| MatchShift.PairLeTotalOrder | utils/linking_utils/spider_match_utils.py:184 | Python's order on `(len, q_id)` tuples is total |
| MatchShift.DistinctOnce | utils/linking_utils/spider_match_utils.py:181-183 | a list without a repeated position holds each pair once |
| MatchShift.SortedStaysDistinct | utils/linking_utils/spider_match_utils.py:184 | sorting keeps each position once |
| MatchShift.Prioritize | utils/linking_utils/spider_match_utils.py:180-184 | `priority` lists each grouped position once with its group size, sorted by size then position |
| MatchShift.ExactOf | utils/linking_utils/spider_match_utils.py:189-192 | the exact matches are exactly the pairs of the group with an exact flag |
| MatchShift.Pick | utils/linking_utils/spider_match_utils.py:188-199 | what a position keeps is part of its group, and never empty for a non-empty group |
| MatchShift.Chosen | utils/linking_utils/spider_match_utils.py:187-206 | every position reached keeps part of its own group |
| MatchShift.ChosenAt | utils/linking_utils/spider_match_utils.py:187-199 | each position keeps what it picks against the pairs taken before it |
| MatchShift.NotYetChosen | utils/linking_utils/spider_match_utils.py:187 | a position not yet reached keeps nothing |
| MatchShift.WriteMatches | utils/linking_utils/spider_match_utils.py:200-205 | each kept pair goes to the dictionary of its flag |
| MatchShift.CollectExact | utils/linking_utils/spider_match_utils.py:189-192 | the collecting loop yields the exact matches |
| MatchShift.Advance | utils/linking_utils/spider_match_utils.py:187-199 | one position keeps its pick, and `matches` grows only when nothing was shared |
| MatchShift.ResolveOne | utils/linking_utils/spider_match_utils.py:188-205 | one turn keeps the position's pick, updates `matches` and records the kept pairs |
| MatchShift.Resolve | utils/linking_utils/spider_match_utils.py:185-205 | the priority loop records exactly what every position keeps |
| MatchShift.FilterCells | utils/linking_utils/spider_match_utils.py:207-213 | cell matches survive exactly at positions with no schema match, unchanged |
| MatchShift.GroupsOneFlag | utils/linking_utils/spider_match_utils.py:167-182 | from well-flagged inputs, a group holds at most one column flag and one table flag per id |
| MatchShift.GroupsUnique | utils/linking_utils/spider_match_utils.py:167-182 | `q_id_to_match` does not depend on the order the dictionaries are read in |
| MatchShift.PriorityUnique | utils/linking_utils/spider_match_utils.py:184 | the sorted priority list does not depend on the order positions were listed in |
| MatchShift.WrittenUnique | utils/linking_utils/spider_match_utils.py:200-205 | what is kept fixes the new dictionaries, whatever order `res` is read in |
| MatchShift.KeptAreInputs | utils/linking_utils/spider_match_utils.py:165-215 | every kept entry is an entry of the input dictionaries, with its flag |
| MatchShift.RelevantKeepsOne | utils/linking_utils/spider_match_utils.py:187-205 | every position with a schema match keeps at least one |
| MatchShift.MatchShiftLinks | utils/linking_utils/spider_match_utils.py:165-215 | `match_shift` keeps, per position in priority order, a non-empty part of its input matches, and drops cell matches at positions with a schema match |
| Application.Masked | utils/linking_utils/application.py:15-22 | `mask` keeps the number of tokens |
| Application.Mask | utils/linking_utils/application.py:15-22 | the loop replaces exactly the listed positions by the tag and keeps every other token |
| Application.MaskedUnion | utils/linking_utils/application.py:58-66 | two masks with the same tag are one mask of both position sets |
| Application.MaskedOverride | utils/linking_utils/application.py:24-32 | the later mask wins over the earlier one |
| Application.MaskedTokens | utils/linking_utils/application.py:24-32 | a schema-linked position carries the mask tag, a value-linked one the value tag, any other keeps its token |
| Application.ShiftIrrelevant | utils/linking_utils/application.py:13-32 | shifting the links first does not change the masked question |
| Application.MaskQuestion | utils/linking_utils/application.py:6-33 | one example's masked question is the masked tokens joined with spaces |
| Application.MaskQuestionsWithSchemaLinking | utils/linking_utils/application.py:3-35 | one masked question per example, in order |
| Application.QuestionPattern | utils/linking_utils/application.py:41-67 | one example's pattern masks every linked position with `_` |
| Application.QuestionPatterns | utils/linking_utils/application.py:38-69 | one pattern per example, in order |
| Application.LinkedTables | utils/linking_utils/application.py:84-96 | the linked tables are table ids, and include every matched table and the table of every matched column |
| Application.AddColumnTables | utils/linking_utils/application.py:84-96 | the column loops add the tables of the matched columns |
| Application.AddTableIds | utils/linking_utils/application.py:88-91 | the table loop adds each matched table |
| Application.ListOfSet | utils/linking_utils/application.py:98 | `list(set(xs))` lists each element once and nothing else |
| Application.ListsTablesSound | utils/linking_utils/application.py:98-102 | the names are table names, every linked table is named, each once; all names when none is linked |
| Application.RelevantNamesSound | utils/linking_utils/application.py:84-102 | an example's relevant names are its linked tables' names, or all names when none is linked |
| Application.DistinctCard | utils/linking_utils/application.py:98-100 | a list without repeats is as long as its set |
| Application.NameTables | utils/linking_utils/application.py:98-102 | the ids are the linked tables once each, and the names list them |
| Application.RelevantTableNames | utils/linking_utils/application.py:81-102 | one example's relevant table ids and names |
| Application.MentionedTables | utils/linking_utils/application.py:107-113 | the gold tables are exactly the table names some token of the lowered query names |
| Application.AddMentioned | utils/linking_utils/application.py:110-112 | the inner loop adds the tables one token names |
| Application.MentionedByNames | utils/linking_utils/application.py:110-112 | only table names are collected |
| Application.AnyMissing | utils/linking_utils/application.py:115-118 | the loop reports a miss exactly when some gold table is not among the relevant names |
| Application.MissCount | utils/linking_utils/application.py:115-118 | there are no more bad cases than examples |
| Application.RelevantFor | utils/linking_utils/application.py:75-118 | one example's relevant names, and whether it is a bad case |
| Application.GetRelevantTables | utils/linking_utils/application.py:72-120 | one relevant-name list per example; the total grows by the number of examples, the bad count by the examples missing a gold table |
| LinkingProcess.ColumnName | utils/linking_process.py:46-64 | a column name is the type token, the name tokens and, when asked, the table separator and table name |
| LinkingProcess.ColumnNames | utils/linking_process.py:65 | one name per column seen |
| LinkingProcess.ColumnNameShape | utils/linking_process.py:50-64 | each name starts with `<type:`, as `preprocess_item` asserts, then the column's tokens, then the separator when the table is included |
| LinkingProcess.TableNames | utils/linking_process.py:83-86 | `table_names` lists each table's tokens in table order |
| LinkingProcess.ColumnNamesStep | utils/linking_process.py:65 | one more column appends its name |
| LinkingProcess.ColumnToTable | utils/linking_process.py:67-68 | `column_to_table` has an entry for exactly the columns seen |
| LinkingProcess.ColumnToTableStep | utils/linking_process.py:67-68 | one more column records its table, or `None` |
| LinkingProcess.TableToColumnsMeans | utils/linking_process.py:69-71 | each table lists exactly the indices of its columns, increasing |
| LinkingProcess.BoundsMeans | utils/linking_process.py:72-74 | the bounds are increasing and are exactly the columns whose table differs from the last one recorded |
| LinkingProcess.SameTableWithinRun | utils/linking_process.py:72-74 | between two bounds the table does not change |
| LinkingProcess.ForeignKeysMeans | utils/linking_process.py:76-77 | `foreign_keys` maps each referencing column's id to the referenced column's id, and holds nothing else |
| LinkingProcess.ForeignKeyTablesMeans | utils/linking_process.py:76-78 | `foreign_keys_tables` relates a table to exactly the tables its columns reference |
| LinkingProcess.AllPrimaryKeysMeans | utils/linking_process.py:92-95 | with the issue-16 fix, an id is listed exactly when some table has it as a primary key |
| LinkingProcess.RepeatedMeans | utils/linking_process.py:96-100 | without the fix, each of the last table's keys is repeated once per table, in a row |
| LinkingProcess.Expected | utils/linking_process.py:80-81 | an accepted schema has one more bound than tables and one name per column |
| LinkingProcess.PreprocessedSchema.constructor | utils/linking_process.py:17-26 | every field starts empty |
| LinkingProcess.PreprocessedSchema.AddColumn | utils/linking_process.py:45-78 | one turn of the column loop records column `i` in every field and leaves the table names and keys alone |
| LinkingProcess.PreprocessedSchema.RecordColumn | utils/linking_process.py:46-71 | the column's name, table and place in its table's list are recorded |
| LinkingProcess.PreprocessedSchema.RecordBound | utils/linking_process.py:72-74 | a bound is appended exactly where the table changes |
| LinkingProcess.PreprocessedSchema.RecordForeignKey | utils/linking_process.py:76-78 | the column's foreign key, if any, is recorded in both foreign-key fields |
| LinkingProcess.PreprocessSchemaUncached | utils/linking_process.py:33-102 | fails exactly when the bounds do not match the tables or there is no last table; otherwise fills a fresh record with the preprocessing of the schema |
| LinkingProcess.BoundsLength | utils/linking_process.py:72-74 | a bound is recorded at most once per column |
| LinkingProcess.AcceptedHasColumns | utils/linking_process.py:72-89 | a schema that passes the bounds assertion and has a last table has at least one column |
| LinkingProcess.CellColumns | utils/linking_process.py:160 | cell-value linking sees one column per schema column |
| LinkingProcess.WithoutTypes | utils/linking_process.py:154 | `col[1:]` keeps one name per column |
| LinkingProcess.SpiderEncoderV2Preproc.constructor | utils/linking_process.py:107-137 | the settings are stored, and no item or schema is held |
| LinkingProcess.SpiderEncoderV2Preproc.PreprocessSchema | utils/linking_process.py:180-186 | a cached database id returns its record unchanged, whatever schema is passed; otherwise the record is built and cached, or the call fails and caches nothing |
| LinkingProcess.SpiderEncoderV2Preproc.PreprocessItem | utils/linking_process.py:149-178 | returns nothing exactly when the database id is not cached and its schema fails to preprocess; the cache is updated as `_preprocess_schema` does; otherwise the item keeps its question tokens, takes its schema fields from the preprocessing of the schema first cached under that id, and carries the schema links (the sweeps of `compute_schema_linking` over the column names without type token and the table names) and the cell-value links of `compute_cell_value_linking` when switched on, empty ones otherwise |
| LinkingProcess.SchemaLinks | utils/linking_process.py:152-157 | the assertion on the first column name holds for every accepted schema, and the links are the column and table sweeps of `compute_schema_linking`, or empty when switched off |
| LinkingProcess.CellLinks | utils/linking_process.py:159-162 | the cell-value links meet every clause of `compute_cell_value_linking`'s result over the schema's columns, or are empty when switched off |
| LinkingProcess.BuildFrom | utils/linking_process.py:150-178 | the returned dictionary holds the question tokens, the record's fields and the links as switched on |
| LinkingProcess.BuildItem | utils/linking_process.py:163-178 | the dictionary's schema fields are the record's, its question fields the item's tokens, and its link fields the links given |
| LinkingProcess.SpiderEncoderV2Preproc.AddItem | utils/linking_process.py:142-144 | the schema cache changes as in `preprocess_item`; the preprocessed item, which means what `preprocess_item` promises, is appended to its section, and nothing is added when preprocessing fails |
| LinkingProcess.SpiderEncoderV2Preproc.AppendText | utils/linking_process.py:144 | appending to a section of the default dictionary |
| LinkingProcess.SpiderEncoderV2Preproc.ClearItems | utils/linking_process.py:146-147 | every item is forgotten; the schema cache stays |
| PromptIcl.RatioInUnit | utils/utils.py:428-429 | the quotient of an intersection by a union no smaller lies in [0, 1], and is 1 exactly when they are equal |
| PromptIcl.JaccardParts | utils/utils.py:411-428 | the union is at least 1 and at least the intersection |
| PromptIcl.Similarity | utils/utils.py:411-429 | `jaccard_similarity` lies in [0, 1] |
| PromptIcl.SimilaritySymmetric | utils/utils.py:411-429 | `jaccard_similarity` is symmetric |
| PromptIcl.SimilarityOne | utils/utils.py:411-429 | the similarity is 1 exactly when the two token bags agree |
| PromptIcl.Scores | prompt/PromptICLTemplate.py:15-17 | one score per string |
| PromptIcl.ScoresSnoc | prompt/PromptICLTemplate.py:16-17 | scoring one more string appends its score |
| PromptIcl.SimilarityTo | prompt/PromptICLTemplate.py:17 | every similarity to the target lies in [0, 1] |
| PromptIcl.Similarities | prompt/PromptICLTemplate.py:15-17 | one similarity per example, each in [0, 1] |
| PromptIcl.SimilaritiesSnoc | prompt/PromptICLTemplate.py:16-17 | one more example appends its similarity |
| PromptIcl.SimilarityRow | prompt/PromptICLTemplate.py:15-17 | the loop computes each example's similarity to the target, in order |
| PromptIcl.SimilarityOf | prompt/PromptICLTemplate.py:17 | one call of `jaccard_similarity` |
| PromptIcl.Skeletons | prompt/PromptICLTemplate.py:17 | one query skeleton per example |
| PromptIcl.Patterns | prompt/PromptICLTemplate.py:35 | one question pattern per example |
| PromptIcl.SumInUnit | prompt/PromptICLTemplate.py:22 | a sum of entries in [0, 1] lies between 0 and their number |
| PromptIcl.FlattenMeans | prompt/PromptICLTemplate.py:22 | flattening keeps entries in [0, 1] and is empty exactly when every row is |
| PromptIcl.MeanOrOne | prompt/PromptICLTemplate.py:20-24 | 1 with nothing recorded; no mean (NaN) exactly when every recorded list is empty; otherwise a mean in [0, 1] |
| PromptIcl.SumInUnitIf | prompt/PromptICLTemplate.py:22 | the mean of entries in [0, 1] lies in [0, 1] |
| PromptIcl.Texts | prompt/PromptICLTemplate.py:69 | one formatted text per chosen example |
| PromptIcl.PackInRange | prompt/PromptICLTemplate.py:56-76 | only examples the loop has looked at are chosen |
| PromptIcl.DoneSticks | prompt/PromptICLTemplate.py:75-76 | after the break, further examples change nothing |
| PromptIcl.PackIncreasing | prompt/PromptICLTemplate.py:56-73 | the chosen examples keep the selector's order |
| PromptIcl.PackFits | prompt/PromptICLTemplate.py:65-73 | each chosen example fitted the budget with the ones chosen before it |
| PromptIcl.PackCount | prompt/PromptICLTemplate.py:75-76 | at most `NUM_EXAMPLE` are chosen, and the loop breaks exactly when that many are |
| PromptIcl.PackGrows | prompt/PromptICLTemplate.py:56-76 | looking further only appends later examples |
| PromptIcl.PackStep | prompt/PromptICLTemplate.py:67-76 | one step appends the example exactly when it fits, and breaks on reaching the count |
| PromptIcl.VisitedTakenIffFits | prompt/PromptICLTemplate.py:65-73 | an example the loop reaches is chosen exactly when it fits after the ones chosen before |
| PromptIcl.StopsAfter | prompt/PromptICLTemplate.py:75-76 | after the break no later example is chosen or reached |
| PromptIcl.Picked | prompt/PromptICLTemplate.py:56-76 | the kept examples are indices of the selector's list |
| PromptIcl.PickedMeans | prompt/PromptICLTemplate.py:56-76 | the kept examples are in the selector's order, each fitted with those kept before, at most `NUM_EXAMPLE`, and a reached example is kept exactly when it fits |
| PromptIcl.Chosen | prompt/PromptICLTemplate.py:73 | one item per chosen index, in the order of the indices; the selectors of `prompt/ExampleSelectorTemplate.py` pick their training examples with it too |
| PromptIcl.ChosenSnoc | prompt/PromptICLTemplate.py:69-73 | keeping one more example appends it and its text |
| PromptIcl.ForwardText | prompt/PromptICLTemplate.py:65 | the text counted for an example is the prompt with that example kept too |
| PromptIcl.ResponseMeans | prompt/PromptICLTemplate.py:90 | the response is the single-spaced query less its first seven characters, and is single-spaced |
| PromptIcl.ResponseDropsSelect | prompt/PromptICLTemplate.py:90 | a query starting with `SELECT ` is given back without it |
| PromptIcl.NoneVisited | prompt/PromptICLTemplate.py:59-60 | no reached example is from the target's database when none before the stop is |
| PromptIcl.OtherDbSnoc | prompt/PromptICLTemplate.py:59-60 | one more example from another database extends the check |
| PromptIcl.TracksSnoc | prompt/PromptICLTemplate.py:65-73 | keeping an example keeps the lists and the count in step; the count is the forward count |
| PromptIcl.Finish | prompt/PromptICLTemplate.py:56-79 | at the loop's end the kept examples are the chosen ones and no reached example broke the cross-domain assertion |
| PromptIcl.PackExamples | prompt/PromptICLTemplate.py:56-76 | the loop fails exactly when cross-domain mode reaches an example of the target's database, and otherwise leaves the kept texts, examples and token count of the chosen examples |
| PromptIcl.BasicIclPrompt.constructor | prompt/PromptICLTemplate.py:9-12 | both similarity lists start empty |
| PromptIcl.BasicIclPrompt.RecordExampleQuality | prompt/PromptICLTemplate.py:14-18 | one more list is recorded: each example's skeleton similarity to the target |
| PromptIcl.BasicIclPrompt.RecordPatternSimilarity | prompt/PromptICLTemplate.py:32-36 | one more list is recorded: each example's pattern similarity to the target |
| PromptIcl.BasicIclPrompt.ExampleQuality | prompt/PromptICLTemplate.py:20-24 | 1 with nothing recorded, otherwise the mean of the recorded similarities, in [0, 1] |
| PromptIcl.BasicIclPrompt.PatternSimilarity | prompt/PromptICLTemplate.py:38-42 | 1 with nothing recorded, otherwise the mean of the recorded similarities, in [0, 1] |
| PromptIcl.BasicIclPrompt.Format | prompt/PromptICLTemplate.py:44-97 | with no examples wanted, the target alone; otherwise fails exactly on the cross-domain assertion, else the prompt of the chosen examples, its token count, the cleaned response, and one similarity list more of each kind |
| ExampleSelector.DbIds | prompt/ExampleSelectorTemplate.py:12 | one database id per training example |
| ExampleSelector.Range | prompt/ExampleSelectorTemplate.py:36 | `list(range(n))` lists `0..n-1` in order |
| ExampleSelector.CrossIndexesMeans | prompt/ExampleSelectorTemplate.py:24 | the cross-domain positions are increasing, each has another database, and every position of another database is among them |
| ExampleSelector.DomainMask | prompt/ExampleSelectorTemplate.py:19-21 | one candidate per cross-domain position |
| ExampleSelector.DomainMaskMeans | prompt/ExampleSelectorTemplate.py:19-21 | `domain_mask` keeps exactly the candidates at positions of another database, in order |
| ExampleSelector.RetrieveIndex | prompt/ExampleSelectorTemplate.py:23-26 | each position maps back to a training index of another database, and distinct positions to distinct indices |
| ExampleSelector.MaskThenRetrieve | prompt/ExampleSelectorTemplate.py:19-26 | picking from the masked candidates equals picking the originals at the retrieved indices |
| ExampleSelector.MaskRange | prompt/ExampleSelectorTemplate.py:19-24 | masking `range(len(db_ids))` gives the cross-domain positions |
| ExampleSelector.Room | prompt/ExampleSelectorTemplate.py:76-77 | the loop appends at least one, and fills up to `num_example` when below it |
| ExampleSelector.KeptSnoc | prompt/ExampleSelectorTemplate.py:69-75 | one more candidate is appended unless passed over |
| ExampleSelector.KeptPrefix | prompt/ExampleSelectorTemplate.py:69-77 | a prefix of the order keeps a prefix of what the whole order keeps |
| ExampleSelector.KeptMembers | prompt/ExampleSelectorTemplate.py:69-75 | the kept candidates are exactly the candidates of the order not passed over |
| ExampleSelector.KeptDistinct | prompt/ExampleSelectorTemplate.py:69-75 | no candidate is kept twice |
| ExampleSelector.KeptSorted | prompt/ExampleSelectorTemplate.py:67-75 | the kept candidates keep the sort's key order |
| ExampleSelector.SelectLoop | prompt/ExampleSelectorTemplate.py:68-77 | the loop returns the candidates not passed over, in sorted order, stopping once `num_example` are taken |
| ExampleSelector.BreakSelects | prompt/ExampleSelectorTemplate.py:76-77 | breaking once enough are taken returns the selection |
| ExampleSelector.KeptOfSort | prompt/ExampleSelectorTemplate.py:67-75 | over a whole sort, the kept candidates are in key order, none twice, none passed over, and every candidate not passed over is kept |
| ExampleSelector.PrefixOf | prompt/ExampleSelectorTemplate.py:76-77 | a prefix keeps the key order and distinctness |
| ExampleSelector.AddedMeans | prompt/ExampleSelectorTemplate.py:178-199 | one pass keeps what was taken before and adds candidates in key order, none twice, none passed over, none with a worse key than a candidate it left out, and fewer than it had room for only when none is left |
| ExampleSelector.PrefixNearest | prompt/ExampleSelectorTemplate.py:67-77 | breaking early leaves out only candidates whose key is no better than every one taken |
| ExampleSelector.SameDb | prompt/ExampleSelectorTemplate.py:104-106 | one skip flag per training example |
| ExampleSelector.DistanceExamples | prompt/ExampleSelectorTemplate.py:92-111 | the picks are the loop's selection over the sorted distances; no eligible example left out is nearer than a pick; nearest first, none twice, at most `num_example` (one when it is 0), none of the target's database in cross-domain mode, and fewer only when every other one was excluded |
| ExampleSelector.SameDbOrQuestion | prompt/ExampleSelectorTemplate.py:70-74 | one skip flag per training example |
| ExampleSelector.CosineExamples | prompt/ExampleSelectorTemplate.py:57-79 | the picks are the loop's selection over the similarities sorted in reverse; no eligible example left out is more similar than a pick; most similar first, none asking the target's question, none twice, within the count, and fewer only when every other one was excluded |
| ExampleSelector.SameDbOrFar | prompt/ExampleSelectorTemplate.py:138-140 | one skip flag per training example |
| ExampleSelector.ThresholdExamples | prompt/ExampleSelectorTemplate.py:126-149 | the picks are the loop's selection; no example within distance 0.85 left out is nearer than a pick; nearest first, none twice, within the count, and fewer only when every other one was excluded |
| ExampleSelector.Skeletons | prompt/ExampleSelectorTemplate.py:183 | one query skeleton per training example |
| ExampleSelector.SkeletonSkip | prompt/ExampleSelectorTemplate.py:180-196 | one skip flag per training example |
| ExampleSelector.SkeletonExamples | prompt/ExampleSelectorTemplate.py:166-201 | the picks are the first pass over the skeleton-similar examples, followed by the second pass over the others when it runs; within the count, none twice, none of the target's database in cross-domain mode, every skeleton-similar pick before every other, on each side of the threshold nearest first and no example left out on that side nearer than a pick there, and with a second pass fewer than `num_example` only when every example of another database was taken |
| ExampleSelector.OnePass | prompt/ExampleSelectorTemplate.py:176-187 | the first pass alone yields only skeleton-similar picks, nearest first, none nearer left out among the similar ones |
| ExampleSelector.TwoPasses | prompt/ExampleSelectorTemplate.py:176-199 | the first pass's similar picks, then the second pass's dissimilar ones, together keep the promise, nearest on each side |
| ExampleSelector.PassesSides | prompt/ExampleSelectorTemplate.py:176-199 | a pick is skeleton-similar exactly when the first pass took it, and is never of the target's database in cross-domain mode |
| ExampleSelector.PassesOrder | prompt/ExampleSelectorTemplate.py:176-199 | the two passes pick nothing twice and each comes nearest first |
| ExampleSelector.PassesCover | prompt/ExampleSelectorTemplate.py:176-199 | a first pass that falls short takes every similar candidate, and the two passes together fall short only when every example of another database was taken |

## Left out

- Scalar (`Denotation.Scalar`): a cell is its type tag and its `str()` text, and two cells are equal only when both agree. Python's `2 == 2.0` holds and both hash alike, so its `==`, `set`, `in` and `Counter` merge an `int` and a `float` of the same value; the model keeps them apart. `result_eq([(2,)], [(2.0,)], False)` is `True` in Python and false here. Python's cross-type equality also makes `quick_rej` stricter than `result_eq`: `[(2, 2.5)]` and `[(2.0, 2.5)]` match under the identity permutation, yet `unorder_row` sorts their cells differently (by `"2<class 'int'>"` and `"2.0<class 'float'>"`), so `quick_rej` rejects them. The lemmas below hold for the model's structural cell equality only.
- ResultEq: answers as Python would only for tables that never hold an `int` and a `float` of equal value (see Scalar above).
- MultisetEq: the bag comparison treats `2` and `2.0` as different cells, unlike Python's `Counter` (see Scalar above).
- ToSet: `set(s)` merges rows that differ only by an `int` against an equal `float`; the model's set does not (see Scalar above).
- QuickRejNecessary: holds for structural cell equality; with Python's numeric equality, `quick_rej` can reject tables that match (see Scalar above).
- EquivalentPassesQuickRej: as QuickRejNecessary, it holds for structural cell equality only (see Scalar above).
- ColumnSets: Python's column sets merge an `int` and an equal `float`; the model's do not (see Scalar above).
- GetConstraintPermutation: its pruning tests membership with structural equality, where Python's `in` equates `2` with `2.0` (see Scalar above).
- PruneColumn: as GetConstraintPermutation, membership is structural (see Scalar above).
- IsFloatShape: digits are the ASCII digits `0`-`9`; Python's `str.isdigit`, behind `isFloat` and `isNegativeInt`, also accepts other Unicode digits such as `"²"` or `"٣"`.
- IsDigits (`Text.IsDigits`): ASCII digits only, as for IsFloatShape above.
- Executing SQL, listing the database directory, the asyncio time-out and the SQL tokenizer behind `remove_distinct` are parameters of `Vote.Env`. `remove_distinct` may fail, which gives an exception result.
- `random.choice` in `get_constraint_permutation` is a parameter of draws. `result_eq` is proved independent of them. `RandomExampleSelector` (`random.sample`) is not modelled. Its unqualified calls to `domain_mask` and `retrieve_index` would raise a `NameError`.
- Floats: similarities are exact rationals (`real`), and `jaccard_similarity` is modelled as its intersection and union.
- `np.mean` of an empty list (NaN) is `None`.
- Embeddings, cosine and Euclidean distances, and the Plus selector's distance arithmetic are not modelled. A selector receives one key per training example.
- Python's `sorted` is not modelled either: a selector receives the candidate order it produced (`IsSortOf`). The order among equal keys is therefore not modelled.
- A selector's skip test is precomputed for every index. In particular, the skeleton selectors' Jaccard similarity is evaluated for all examples, not only for those the loop reaches.
- The example formatters, the token counter and the selector itself are parameters of `BasicIclPrompt.Format`. `scope_factor` only reaches the selector, so it does not appear.
- `get_example_quality_for_each` is not modelled; it is a per-row mean over the same recorded lists.
- White space, `lower()`, `isdigit()` and the regular expression `\b` are restricted to ASCII.
- The English stopword list is a parameter.
- `string.punctuation` is written out.
- The database `LIKE` lookups and `float(word)` in `compute_cell_value_linking` are oracles of `CellLinking.Db`.
- The assertion `column.orig_name == "*"` on column 0 is not modelled; column 0 is skipped.
- In `CellLinking`, a column without a table uses the empty table name.
- Link dictionaries are keyed by `(position, id)` pairs rather than by `"q,c"` strings, so the `split(',')` parsing is not modelled.
- Python's dictionary iteration order and the order of `list(set(...))` are left open. Results that could depend on them are proved not to (`MatchShift.GroupsUnique`, `MatchShift.PriorityUnique`, `MatchShift.WrittenUnique`), or are stated for every order (`Application.ListOfSet`).
- `MatchShift.MatchShiftLinks` requires link dictionaries whose flags match their kind (column flags in the column dictionary, table flags in the table dictionary), as `compute_schema_linking` produces them.
- The bert path and word-embedding tokenisation of `linking_process.py` are not modelled: tokens are the presplit ones.
- `validate_item`, `save`, `load` and `dataset` are file I/O and are not modelled.
- `foreign_keys_tables` is kept as sets; their conversion to sorted lists is not modelled.
- Keys written as `str(id)` are kept as numbers.
- `LinkingProcess.SpiderEncoderV2Preproc.PreprocessSchema` caches the record's field values rather than the object, so aliasing between the cached record and the returned one is not modelled.
- `get_primary_key` and `format_foreign_key` work over the rows a `PRAGMA` query returned; the query itself is I/O.
- `sql2skeleton`, `white_space_fix`, `remove_table_alias`, `add_asc` and the other rewrites built on the SQL parser or regular expressions are not modelled.
- `ask_llm.py`: argument parsing, file handling, the model calls and their error handling, and the token count are not modelled. The batch is given as the responses and the database ids.
- On a missing `.sqlite` file, `get_exec_output` returns `None`, which `get_sqls` cannot unpack, so the vote ends in a `TypeError` (`Vote.Error.MissingDatabase`).
