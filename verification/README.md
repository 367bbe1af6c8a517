# C-value / NC-value term extraction, modelled in Dafny

This project models the scoring core of `c_nc_csv.py`, a Japanese technical-term
extractor. The input is a list of pre-tokenised texts, each a run of
`surface/tag/extra ` groups written by a morphological analyser. The pipeline
has five stages:

1. It parses each text into a tag list and a surface list. The parser is the lazy
   pattern `(.+?/.+?/.+?) ` followed by `split("/")` (module `Labels`).
2. It scores every candidate term by its C-value. A term that no other term
   contains scores `log2(num_word) * frequency`. A nested term is discounted by
   the mean frequency of the terms that contain it (module `CValue`).
3. It scans every sentence forward and then backward with a word buffer, and
   records context words: a word next to a candidate term that is not itself a
   term (module `ContextWords`). The buffer is kept only while the tags match the
   partial-term pattern (module `Patterns`).
4. It inverts the context-word table into a context factor per term: a weighted
   count of the context words seen with it (module `ContextFactor`).
5. It computes `NC = 0.8 * C + 0.2 * cf` and returns the `k` best terms under a
   stable descending sort (module `Ranking`).

Python dictionaries are insertion-ordered association sequences with distinct
keys (module `Tables`). The ranking breaks ties by dictionary order, so that
order is part of the model.

The passes that work step by step are methods with loops:
- the parser;
- both context scans, with their string buffers and the table they update;
- the inversion and summing of the context table.

Each method is proved against a specification function of its inputs:
- `Record` of a sequence of writes, for the context scans;
- `Group` of the weighted contributions, for the inversion;
- `TagsOf` and `SurfacesOf`, for the parser.

The properties the source relies on are proved as lemmas about those functions.
The C-value table, the NC-value table and the ranking are functions, because the
source computes each as a fresh dictionary per key or as a sort.

The model reproduces the code as written, including two behaviours worth
knowing about:

- **Lines 80 and 103.** The guard tests the *term* against the keys of the
  context table, but those keys are context words and no context word is a term.
  So the test always passes and every write replaces the word's entry with
  `[[term, 1]]`; the `elif` branches at lines 82-83 and 105-106 never run. The
  last association for a context word therefore replaces any earlier one
  (`RecordLastWins`).
- **Line 102.** The backward scan tests `next_tag`, the variable the forward scan
  left behind, not `prev_tag`, although the comment at line 91 says this pass
  adds the context words *before* the term. The test therefore has the same
  outcome for every step of the backward scan. When it fails, the backward scan
  records nothing (`StaleTagSilencesBackwardScan`).

Line 108 matches the accumulated tags against the partial pattern. The model
decides this match with a small automaton (`Patterns.Accepts`), which is proved
equal to the pattern (`PartialIsAutomaton`, `BufferEndByPattern`).

## Model

| member | source | states |
|---|---|---|
| Tables.Put | c_nc_csv.py:81 | `d[k] = v`: the table keeps distinct keys, an existing key keeps its slot and takes the new value, and a new key is appended at the end |
| Tables.PutLookup | c_nc_csv.py:81 | after `d[k] = v`, `k` maps to `v`, every other key keeps its value, and the keys are the old keys plus `k` |
| Tables.IndexOf | c_nc_csv.py:130 | a present key has exactly one slot: the first slot holding it |
| Tables.LookupAt | c_nc_csv.py:136 | reading the key at slot `i` of a table with distinct keys gives that slot's value |
| Patterns.CategoryOf | c_nc_csv.py:55-56 | a tag takes one of the pattern categories exactly when it is one of the five tags the patterns name |
| Patterns.PartialPattern | c_nc_csv.py:56 | the partial-term pattern, one disjunct per alternative; it only matches non-empty tag sequences |
| Patterns.FullPattern | c_nc_csv.py:55 | the full-term pattern, one disjunct per alternative; every match spans at least two tags |
| Patterns.PartialShape | c_nc_csv.py:56 | the seven alternatives of the partial pattern collapse to `N+` or `(P\|J)(N\|D\|S)*` |
| Patterns.PartialIsAutomaton | c_nc_csv.py:56 | the four-state automaton accepts exactly the tag sequences that match the partial pattern |
| Patterns.RunFrom | c_nc_csv.py:56 | from the noun state the automaton survives exactly all-noun input, from the head state exactly noun/adverb/suffix input, and the dead state never leaves |
| Patterns.PartialPair | c_nc_csv.py:76-89 | the forward scan's two-tag window keeps the buffer exactly for NN, PN, PD, PS, JN, JD and JS |
| Patterns.FullIsPartial | c_nc_csv.py:55-56 | every tag sequence matching the full-term pattern also matches the partial one |
| Patterns.PartialIsFullPrefix | c_nc_csv.py:55-56 | the partial pattern holds exactly of the non-empty prefixes of full-term tag sequences |
| Labels.FindAll | c_nc_csv.py:22 | `findall` restarts after each match and its space, or one character on when none starts here; a group and its space take at least six characters, so a text yields at most a sixth of its length in groups |
| Labels.FindFrom | c_nc_csv.py:15 | the lazy scan for a character finds its first occurrence from a position on, or the end of the text |
| Labels.MatchEnd | c_nc_csv.py:15 | a match of `(.+?/.+?/.+?) ` at the start of the text exists iff this returns one, and the one returned is the shortest |
| Labels.FindAllSlashes | c_nc_csv.py:22-23 | every group `findall` returns has at least two slashes, so the split always yields a surface and a tag |
| Labels.SplitGroup | c_nc_csv.py:23 | the surface and tag are the slash-free fields before the first and second slashes of the group |
| Labels.SurfacesOf | c_nc_csv.py:22-25 | one surface per group found |
| Labels.TagsOf | c_nc_csv.py:22-24 | one tag per group found |
| Labels.AllTags | c_nc_csv.py:17-26 | one tag list per text |
| Labels.AllSurfaces | c_nc_csv.py:17-27 | one token list per text |
| Labels.ParseText | c_nc_csv.py:18-25 | the inner loop builds exactly the tag and surface lists of the groups of one text, in order |
| Labels.MorphologicalLabels | c_nc_csv.py:11-29 | one tag list and one token list per text, equally long within each text, holding the tag and surface of every group found, in order |
| Labels.MatchesOneGroup | c_nc_csv.py:15 | a well-formed group followed by a space is matched exactly up to that space |
| Labels.FindAllGroupThenRest | c_nc_csv.py:22 | `findall` on a well-formed group plus a space plus more text returns that group and then the groups of the rest |
| Labels.SplitInner | c_nc_csv.py:23 | splitting a well-formed group gives back its surface and its tag |
| Labels.FindAllRender | c_nc_csv.py:22 | `findall` on rendered groups followed by any text returns those groups and then that text's groups |
| Labels.NoSpaceNoGroups | c_nc_csv.py:15 | a text without a space contains no group |
| Labels.FindAllRendered | c_nc_csv.py:22 | `findall` on a rendered text returns exactly its groups |
| Labels.ParseRendered | c_nc_csv.py:11-29 | a text written from well-formed groups, each followed by a space, parses to exactly those surfaces and tags, in order |
| Labels.LastGroupNeedsSpace | c_nc_csv.py:15 | a final group with no trailing space is not recognised |
| CValue.TotalFrequency | c_nc_csv.py:48 | `total_fb` is at least the frequency of each containing term |
| CValue.CValueOf | c_nc_csv.py:44-49 | one term's C-value; with `log2(num_word) >= 0`, containing terms can only lower it below `log2(num_word) * frequency` |
| CValue.CValueTable | c_nc_csv.py:39-49 | the C-value table has exactly the frequency table's keys, in the same order, each scored from its own entry and its own containing terms |
| CValue.NonNestedCValue | c_nc_csv.py:44-46 | a term that no other term contains scores `log2(num_word) * frequency` |
| CValue.NestedCValue | c_nc_csv.py:47-49 | a nested term scores `log2(num_word) * (frequency - mean)`, where `mean` is the mean frequency of its containing terms |
| CValue.MeanIsAverage | c_nc_csv.py:48-49 | `(1 / m) * total_fb` times `m` is the total frequency of the containing terms, and it is never negative |
| CValue.NestingOnlyDiscounts | c_nc_csv.py:44-49 | when `log2(num_word) >= 0`, nesting never raises a term's score above its un-nested score |
| CValue.SingleWordScoresZero | c_nc_csv.py:46-49 | a one-word term scores 0, since `log2(1) = 0` |
| CValue.NestedExample | test_c_nc.py:58 | the sample's nested terms (counts 3, 2, 1; lengths 2, 3, 4) score 1.5, `log2(3)` and 2.0 |
| ContextWords.ForwardWrites | c_nc_csv.py:70-83 | the writes of the forward steps of one sentence from step `i` on: at most one per step |
| ContextWords.BackwardWrites | c_nc_csv.py:95-106 | the writes of the backward steps of one sentence from step `i` down: at most one per step |
| ContextWords.Writes | c_nc_csv.py:66-112 | every write of both scans in source order; each records a candidate term against a word that is not a term |
| ContextWords.ContextTableOf | c_nc_csv.py:63-114 | the table the writes leave behind: a dictionary none of whose keys is a candidate term |
| ContextWords.RecordKeepsKeysNotTerms | c_nc_csv.py:78-81 | writes that only store non-term words never make a term a key |
| ContextWords.Record | c_nc_csv.py:78-83 | applying writes keeps the context table's keys distinct |
| ContextWords.RecordLastWins | c_nc_csv.py:80-83 | every write overwrites: a word is a key iff it was one or some write named it, and the last write for it decides its value |
| ContextWords.RecordAppend | c_nc_csv.py:66-112 | performing two runs of writes one after the other is performing their concatenation |
| ContextWords.RunStart | c_nc_csv.py:75-89 | the forward buffer of step `i` starts at or before `i` |
| ContextWords.RunStartMeaning | c_nc_csv.py:85-89 | the forward buffer spans a maximal run of kept two-tag windows: every window in it matches, and the one before it does not |
| ContextWords.LastPairTagMeaning | c_nc_csv.py:71-73 | after the forward scan `next_tag` is unbound iff no sentence has two tokens; otherwise it is the last tag of the last sentence that has |
| ContextWords.LastPairTagExtends | c_nc_csv.py:71-73 | a sentence with two or more tokens sets `next_tag` to its last tag, and a shorter one leaves it unchanged |
| ContextWords.LastPairTagFound | c_nc_csv.py:95-102 | if some sentence has two tokens, `next_tag` is bound when the backward scan reads it |
| ContextWords.BufferEnd | c_nc_csv.py:98-112 | the backward buffer of step `i` spans positions `i + 1` up to some end within the sentence |
| ContextWords.BufferEndByPattern | c_nc_csv.py:108-112 | the backward buffer is kept exactly when its accumulated tags match the partial pattern |
| ContextWords.PutKeepsKeysNotTerms | c_nc_csv.py:78-81 | storing a word that is not a term keeps every key a non-term |
| ContextWords.Associate | c_nc_csv.py:78-83 | the shared write: a candidate term next to a non-term word with a context tag stores `[[term, 1]]` for the word; otherwise the table is unchanged. Keys stay non-terms, so the `elif` is dead |
| ContextWords.ForwardSentence | c_nc_csv.py:68-89 | one sentence of the forward scan performs exactly its forward writes and leaves `next_tag` at its last tag when it has two or more tokens |
| ContextWords.RunAdvance | c_nc_csv.py:75-89 | step `i` appends word `i` to the buffer, and the buffer survives to step `i + 1` iff the window `tags[i], tags[i + 1]` matches |
| ContextWords.ForwardStep | c_nc_csv.py:75-83 | forward step `i` performs exactly the write for its buffered term and the next word |
| ContextWords.ForwardPass | c_nc_csv.py:66-89 | the forward scan performs every sentence's forward writes in order, keeps keys non-terms, and leaves `next_tag` as `LastPairTag` |
| ContextWords.ForwardPassStep | c_nc_csv.py:66-89 | after each sentence the forward scan's table and `next_tag` match the writes and tag of the sentences so far |
| ContextWords.BackwardSentence | c_nc_csv.py:93-112 | one sentence of the backward scan performs exactly its backward writes, each admitted by the same stale-tag test |
| ContextWords.BufferAdvance | c_nc_csv.py:98-99 | step `i` prepends word `i` and its tag to the buffers, and step `i - 1` sees them iff the tags still match the partial pattern |
| ContextWords.BackwardStep | c_nc_csv.py:101-106 | backward step `i` performs exactly the write for its buffered term and the previous word |
| ContextWords.BackwardPass | c_nc_csv.py:92-112 | the backward scan continues from the forward table and performs every sentence's backward writes, each admitted by the stale `next_tag` |
| ContextWords.BuildContextWordsTable | c_nc_csv.py:54-114 | the context-word table is what the writes of both scans leave behind, with the frequency table's keys as the terms |
| ContextWords.LastTermFor | c_nc_csv.py:80-83 | the last write naming a word, if any, and no write names it otherwise |
| ContextWords.ForwardWritesSound | c_nc_csv.py:78-79 | every forward write pairs a candidate term with a non-term word |
| ContextWords.BackwardWritesSound | c_nc_csv.py:101-102 | every backward write pairs a candidate term with a non-term word |
| ContextWords.AllWritesSound | c_nc_csv.py:66-112 | every write of both scans pairs a candidate term with a non-term word |
| ContextWords.ContextTableMeaning | c_nc_csv.py:63-114 | a word is a key iff some write named it; its value is `[[t, 1]]` for the last such term `t`, which is a term, and the word is not |
| ContextWords.ContextTableShape | c_nc_csv.py:78-83 | every entry is `word: [[term, 1]]`, with `term` a candidate term and `word` not one |
| ContextWords.NoBackwardWrites | c_nc_csv.py:102 | when the stale tag fails the test, the backward scan writes nothing |
| ContextWords.StaleTagSilencesBackwardScan | c_nc_csv.py:92-112 | unless the last tag of the last sentence with two or more tokens is a noun, adjective or verb tag, the table is exactly the forward scan's |
| ContextWords.ContextExample | test_c_nc.py:61-62 | one sentence, 5 / ミリメートル / 角 / 程度 / に tagged as four nouns and a particle, with the sample's three 5ミリメートル terms as candidates, gives `{'角': [['5ミリメートル', 1]], '程度': [['5ミリメートル角', 1]]}`; the sample's other ten terms add no context words |
| ContextWords.ExampleForwardWrites | c_nc_csv.py:66-89 | on the sample sentence the forward scan writes 角 for 5ミリメートル and then 程度 for 5ミリメートル角 |
| ContextFactor.EntryContributions | c_nc_csv.py:129-133 | one context word makes one contribution per associated term, for the same terms in the same order |
| ContextFactor.ContextFactorOf | c_nc_csv.py:124-136 | the context-factor table: the grouped lists replaced by their sums, a dictionary with one entry per term |
| ContextFactor.Group | c_nc_csv.py:130-133 | grouping keeps the inverse table's keys distinct |
| ContextFactor.GroupMeaning | c_nc_csv.py:130-133 | after grouping, a term is a key iff it was one or some contribution names it, and its list sums to its old sum plus its contributions |
| ContextFactor.GroupOne | c_nc_csv.py:130-133 | one append creates or extends the term's list by exactly the new value |
| ContextFactor.ContributionsSum | c_nc_csv.py:127-133 | the contributions to a term sum to its weighted count `Σ len(list) / num_terms * count` |
| ContextFactor.ContributionsMention | c_nc_csv.py:127-131 | some contribution names a term iff some context word is associated with it |
| ContextFactor.ContextFactorMeaning | c_nc_csv.py:124-136 | the factor table's keys are exactly the associated terms, each once, and each maps to its weighted count |
| ContextFactor.AddAssociations | c_nc_csv.py:129-133 | the inner loop for one context word groups exactly that word's contributions |
| ContextFactor.GroupContributions | c_nc_csv.py:127-133 | the first loop groups every contribution of every context word, in table order |
| ContextFactor.SumLists | c_nc_csv.py:135-136 | each term's list is replaced by its sum, with keys and order unchanged |
| ContextFactor.InvertContextTable | c_nc_csv.py:124-138 | the result is the factor table: distinct keys that are exactly the associated terms, each with its weighted count |
| ContextFactor.BuildContextFactorTable | c_nc_csv.py:117-138 | the factor table of the corpus's context-word table, with `num_terms` the size of the frequency table; the division is safe because a non-empty context table implies a non-empty frequency table |
| ContextFactor.FactorIsCount | c_nc_csv.py:128-136 | with one `[t, 1]` per context word, a term's factor is its number of context words over `num_terms` |
| ContextFactor.PipelineFactorIsCount | c_nc_csv.py:120-136 | for the table the pipeline builds, `cf(t)` is the number of context words recorded with `t`, over `num_terms` |
| ContextFactor.TwoContextWords | c_nc_csv.py:124-136 | two context words, each recorded once for a different term, give each term the factor `1 / num_terms` |
| ContextFactor.FactorExample | c_nc_csv.py:124-136 | the sample's two context words with 13 terms give each term the factor 1/13 |
| Ranking.NcValueTable | c_nc_csv.py:147-152 | the NC-value table has exactly the C-value table's keys, in the same order |
| Ranking.NcValueSplit | c_nc_csv.py:149-152 | a term without a factor gets exactly `0.8 * c`; a term with one gets `0.8 * c + 0.2 * cf` |
| Ranking.NoFactorLost | c_nc_csv.py:145-152 | every term with a context factor is a frequency-table key, so none is dropped from the NC-value table |
| Ranking.BuildNcValueTable | c_nc_csv.py:141-154 | the NC-value table of the corpus has exactly the frequency table's keys |
| Ranking.Insert | c_nc_csv.py:172 | one insertion step of the stable descending sort; it adds exactly one entry |
| Ranking.SortDescending | c_nc_csv.py:172 | `sorted(..., key=score, reverse=True)` as insertion sort; it keeps the number of entries |
| Ranking.InsertPermutes | c_nc_csv.py:172 | inserting adds exactly one entry |
| Ranking.InsertDescending | c_nc_csv.py:172 | inserting into a non-increasing table keeps it non-increasing |
| Ranking.SortDescendingMeaning | c_nc_csv.py:172 | the sort is a permutation of the table and is non-increasing by score |
| Ranking.SortedMembers | c_nc_csv.py:172 | every sorted entry is an entry of the table |
| Ranking.InsertWithScore | c_nc_csv.py:172 | inserting an entry places it in front of the equal-score entries that come after it |
| Ranking.SortIsStable | c_nc_csv.py:172 | equal scores keep their table order |
| Ranking.WithScoreMembers | c_nc_csv.py:172 | the entries with a given score are exactly the table's entries with that score |
| Ranking.StableSortUnique | c_nc_csv.py:172 | two non-increasing arrangements that order each score's entries the same way are equal, so the sort is exactly Python's stable `sorted(..., reverse=True)` |
| Ranking.SliceLength | c_nc_csv.py:173 | `s[:k]` keeps at most `len(s)` entries: exactly `k` when `0 <= k <= len(s)`, all when `k >= len(s)`, all but the last `-k` when `k < 0`, and none when `-k > len(s)` |
| Ranking.TopTerms | c_nc_csv.py:170-174 | the keys of the first `k` sorted entries; as many as `s[:k]` keeps |
| Ranking.TopTermsMeaning | c_nc_csv.py:170-174 | the result has the slice's length; it holds distinct table keys ordered best first, and no term left out scores above one taken |
| Ranking.BeforeInWithScore | c_nc_csv.py:172 | two entries with the same score keep their relative order among the entries with that score |
| Ranking.BeforeFromWithScore | c_nc_csv.py:172 | order among the entries with one score is order in the whole table |
| Ranking.TopTermsKeepTableOrder | c_nc_csv.py:172-173 | when two extracted terms have equal NC-values, the one returned first comes first in the table |
| Ranking.TopTermsRanked | c_nc_csv.py:170-174 | the extracted terms rank the table: higher NC-value first, ties in table order, and no term left out scores above one taken |
| Ranking.TopTermsAreBest | c_nc_csv.py:172-173 | every entry left out scores at most the score of every entry taken |
| Ranking.SortedKeysDistinct | c_nc_csv.py:172 | sorting a table with distinct keys keeps its keys distinct |
| Ranking.SortedEntryScore | c_nc_csv.py:172-173 | each sorted entry carries its term's own NC-value |
| Ranking.ExtractTerms | c_nc_csv.py:170-174 | `extract_terms_from` returns the `k` best terms of the NC-value table: distinct frequency-table keys, as many as `s[:k]` keeps, ranked by NC-value with ties in table order, and no term left out scores above one returned |
| Ranking.NcValueExample | test_c_nc.py:65-78 | the sample's three nested terms score `0.8 * 1.5 + 0.2 / 13`, `0.8 * log2(3) + 0.2 / 13` and 1.6 |
| Ranking.TopTermsExample | c_nc_csv.py:170-174 | three terms with increasing scores are returned in reverse order |
| Ranking.TopOneExample | c_nc_csv.py:173 | `k = 1` returns only the best term |
| Ranking.RankingExample | c_nc_csv.py:170-174 | restricted to the sample's three 5ミリメートル terms and their two context words, with `num_terms = 13` as in the whole sample, `k = 20` returns the longest term first and the shortest last |

## Left out

- `c_nc.py` is not part of this model. It wraps a foreign tagger, and its main
  code refers to names that are not defined.
- The frequency table and the containing-term table come from
  `build_frequency_table` and `build_containing_term_table`, which are not part
  of this model. They are parameters, and `CValue.Consistent` states what the
  C-value pass needs of them:
  - keys are distinct;
  - every term spans at least one word;
  - every term has an entry in the containing-term table;
  - every containing term is a frequency-table key.
- The source recomputes the frequency table in several functions from the same
  texts. The model passes it once.
- `math.log2` is the parameter `lg`. Lemmas that need a value of it state it as
  a precondition.
- Floating-point arithmetic is modelled as exact real arithmetic. Rounding and
  summation order are not modelled.
- File and serialisation I/O is left out: `collect_tokenized_texts` (lines
  157-167), `write_results` (lines 177-210),
  `get_kth_best_candidate_terms_from_csv` (lines 213-224) and the `__main__`
  driver.
- Tags are atomic symbols mapped to categories. The source concatenates raw tag
  strings before matching them (lines 76 and 99), so an unusual tag whose text
  happens to spell a pattern tag could match there but not in the model.
- The source overwrites each list of the inverse table with its sum in place
  (line 136). The model builds a second table with the same keys in the same
  order (`ContextFactor.SumLists`).
- The source would raise `NameError` if the backward scan read an unbound
  `next_tag`. That cannot happen, so the model has no error path for it
  (`ContextWords.LastPairTagFound`).
- The full-term pattern (line 55) is defined and never used. The model states
  how it relates to the partial pattern and does not use it either.
