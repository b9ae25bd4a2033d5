# Scopus journals by SNIP quartile — a Dafny model

The script `notebooks/scopus_journals_Q1-Q2.research.py` labels every journal
of the Scopus source list with a SNIP quartile. It works in five steps:

1. It deduplicates the source list by source id and left-pads short ISSNs with
   zeros to eight characters.
2. It keeps the CWTS journal indicators of source type `Journal` for 2020.
3. It builds two lookup tables, one keyed by print ISSN and one by E-ISSN. The
   keys have their hyphens stripped, and the first row with a given key wins.
4. It joins each source row against them:
   - It probes the row's print ISSNs first, then its E-ISSNs.
   - Each field is split on single spaces into candidates.
   - The first hit of a pass supplies the SNIP and its lower bound.
   - An unmatched row keeps zero.
5. It labels every row `Q1`, `Q1*`, `Q2`, `Q2*` or `Other` against the 2020
   boundaries. Then it counts the rows per label.

The model is split into these modules:

- `Results`: the `Option` and `Result` types.
- `Issn`: padding, hyphen stripping, and Python's `str.split(' ')`.
- `Tables`: the two input tables, deduplication and the journal/year filter.
- `Index`: the two first-write-wins indices built by one loop.
- `Join`: the two-pass join.
- `Quartile`: the threshold lookup, `get_quartile`, and the `groupby` count.
- `Pipeline`: the whole run, from raw tables to labelled rows.

Each module is in a `.dfy` file of the same name in lower case.

The model follows the code as written, including three places where the code
does something other than what it evidently sets out to do:

- **Which hit wins in the join.** The flag `found_in_issn` (lines 56 and 62)
  shows the E-ISSN pass was meant to run only when no print ISSN matched. But
  the guard `if ~found_in_issn:` (line 65) applies Python's bitwise `~` to a
  bool, which gives -1 or -2, both truthy, so the E-ISSN pass always runs and
  an E-ISSN hit overwrites a print hit.
  - `Join.JoinRow` models the code, and the pipeline uses it.
  - `Join.JoinRowPrintFirst` models the reading of the guard as "not found".
  - `Join.JoinVariantsDiffer` states exactly when the two differ.
- **What the padding measures.** The padding (lines 15-16) measures the
  whole field, not each identifier in it. A field of 8 or more characters is
  left alone even when an identifier in it is short
  (`Issn.PadKeepsLongFieldCandidates`). A shorter field gets its zeros only
  in front of its first identifier (`Issn.PadFrontCandidateOnly`).
- **Hyphens in the source list.** Only the reference table's ISSNs lose their
  hyphens (lines 31-32). The source list's ISSNs are compared as they are, so
  a source candidate with a hyphen never matches
  (`Join.UnstrippedCandidateNeverMatches`).

A missing 2020 threshold row makes the script fail at `.values[0]`. The model
returns an error result for this case, `MissingThresholds(2020)`.

## Model

| member | source | states |
|---|---|---|
| Issn.Pad | notebooks/scopus_journals_Q1-Q2.research.py:15-16 | the absent marker `-` and any value of 8 or more characters stay unchanged; a shorter value becomes exactly 8 characters, ending in the value, with only `0` before it |
| Issn.PadIsPadded | notebooks/scopus_journals_Q1-Q2.research.py:15-16 | padding always yields a padded value, and padding a second time changes nothing |
| Issn.PadPreservesValue | notebooks/scopus_journals_Q1-Q2.research.py:15-16 | padding an all-digit identifier keeps it all-digit and keeps the number it denotes |
| Issn.PadExamples | notebooks/scopus_journals_Q1-Q2.research.py:15-16 | `123` pads to `00000123`, and `-` stays `-` |
| Issn.PadFrontCandidateOnly | notebooks/scopus_journals_Q1-Q2.research.py:15-16 | padding a short field puts all its zeros in front of its first space-separated identifier and leaves the others as they were |
| Issn.PadKeepsLongFieldCandidates | notebooks/scopus_journals_Q1-Q2.research.py:15-16 | a field of 8 or more characters keeps all its identifiers unchanged, however short each one is |
| Issn.StripHyphens | notebooks/scopus_journals_Q1-Q2.research.py:31-32 | the result has no hyphen and is no longer than the input |
| Issn.StripHyphensFixes | notebooks/scopus_journals_Q1-Q2.research.py:31-32 | a value without hyphens is unchanged by stripping |
| Issn.StripHyphensAppend | notebooks/scopus_journals_Q1-Q2.research.py:31-32 | stripping distributes over concatenation, so the other characters keep their order |
| Issn.StripHyphensIdempotent | notebooks/scopus_journals_Q1-Q2.research.py:31-32 | stripping twice is stripping once |
| Issn.StripSeparator | notebooks/scopus_journals_Q1-Q2.research.py:31-32 | the hyphenated form `a-b` of two hyphen-free halves becomes `ab` |
| Issn.Split | notebooks/scopus_journals_Q1-Q2.research.py:53-55 | splitting on a space gives at least one piece, and no piece contains a space |
| Issn.JoinSplit | notebooks/scopus_journals_Q1-Q2.research.py:53-55 | rejoining the pieces with single spaces gives back the original field, empty pieces from double spaces included |
| Issn.SplitJoin | notebooks/scopus_journals_Q1-Q2.research.py:53-55 | space-free pieces joined with single spaces split back into exactly those pieces |
| Issn.SplitNoSpace | notebooks/scopus_journals_Q1-Q2.research.py:53-55 | a field without spaces is one candidate, itself |
| Issn.Candidates | notebooks/scopus_journals_Q1-Q2.research.py:52-55 | the absent marker gives no candidates; any other field gives at least one space-free candidate, and rejoining them gives back the field |
| Tables.Dedup | notebooks/scopus_journals_Q1-Q2.research.py:14 | exactly one row per distinct source id, namely the row where the id first appears, in order of first appearance |
| Tables.DistinctIdsCount | notebooks/scopus_journals_Q1-Q2.research.py:14 | a list with pairwise distinct ids has as many ids as rows |
| Tables.FilterEligible | notebooks/scopus_journals_Q1-Q2.research.py:22 | a row survives if and only if it is of type `Journal` and year 2020; no row is added |
| Tables.FilterEligibleAppend | notebooks/scopus_journals_Q1-Q2.research.py:22 | filtering a concatenation is the concatenation of the filtered parts, so the filter keeps relative order |
| Index.Insert | notebooks/scopus_journals_Q1-Q2.research.py:34-44 | an empty key is skipped; an existing key keeps its entry; a new non-empty key gets the row's entry |
| Index.BuildIndex | notebooks/scopus_journals_Q1-Q2.research.py:30-44 | a key is in the index if and only if it is non-empty and some row offers it; the first row offering a key supplies its entry |
| Index.BuildIndices | notebooks/scopus_journals_Q1-Q2.research.py:30-44 | the single loop that writes both indices gives each index exactly as if it were built alone |
| Index.IndexKeysAreClean | notebooks/scopus_journals_Q1-Q2.research.py:31-40 | every index key is non-empty and free of hyphens |
| Index.IndexIgnoresOtherColumns | notebooks/scopus_journals_Q1-Q2.research.py:30-44 | an index depends only on its own ISSN column and the two metrics |
| Index.EligibleKeysOnly | notebooks/scopus_journals_Q1-Q2.research.py:22-44 | every key in an index comes from a journal row of 2020 |
| Index.UnofferedKeyAbsent | notebooks/scopus_journals_Q1-Q2.research.py:22-44 | a key that no journal row of 2020 offers is not in the index |
| Index.FilteredIndexStep | notebooks/scopus_journals_Q1-Q2.research.py:22-44 | appending a reference row writes it into the index if it is eligible and otherwise changes nothing |
| Index.FirstEligibleWins | notebooks/scopus_journals_Q1-Q2.research.py:22-44 | for a key shared by several journal rows of 2020 in the unfiltered table, the index holds the first such row's SNIP and lower bound |
| Join.FirstHit | notebooks/scopus_journals_Q1-Q2.research.py:58-63 | no position if and only if no candidate is in the index; otherwise the position of a candidate in the index with none before it |
| Join.Lookup | notebooks/scopus_journals_Q1-Q2.research.py:58-70 | no entry if and only if no candidate matches; otherwise the entry of the first matching candidate |
| Join.BitNot | notebooks/scopus_journals_Q1-Q2.research.py:65 | `~` of a bool is `-b - 1`, which is never zero, so it is always truthy |
| Join.JoinRow | notebooks/scopus_journals_Q1-Q2.research.py:48-70 | an E-ISSN hit decides the values; without one, a print hit decides them; without either, the row keeps zero |
| Join.JoinRowPrintFirst | notebooks/scopus_journals_Q1-Q2.research.py:56-70 | the guard read as "not found": a print hit decides; otherwise an E-ISSN hit; otherwise zero |
| Join.JoinVariantsDiffer | notebooks/scopus_journals_Q1-Q2.research.py:56-70 | the code and its reading as "not found" disagree if and only if both passes hit and the two hits carry different values |
| Join.AbsentFieldsJoinToZero | notebooks/scopus_journals_Q1-Q2.research.py:48-55 | a row with both ISSN fields absent keeps zero |
| Join.UnstrippedCandidateNeverMatches | notebooks/scopus_journals_Q1-Q2.research.py:51-67 | an empty candidate or one containing a hyphen is never in an index |
| Join.ElectronicOverridesPrintExample | notebooks/scopus_journals_Q1-Q2.research.py:58-70 | a row whose print ISSN and E-ISSN both hit takes the E-ISSN values under the code, but the print values under the "not found" reading |
| Quartile.LookupThresholds | notebooks/scopus_journals_Q1-Q2.research.py:74-77 | nothing if and only if no row has the year; otherwise the boundaries of the first row of that year |
| Quartile.Classify | notebooks/scopus_journals_Q1-Q2.research.py:79-92 | each label holds if and only if its own test passes and every earlier test fails, with inclusive boundaries |
| Quartile.ClassifyMonotone | notebooks/scopus_journals_Q1-Q2.research.py:79-92 | raising the SNIP and the lower bound never gives a worse label |
| Quartile.StarMeansPointEstimate | notebooks/scopus_journals_Q1-Q2.research.py:79-92 | a starred label implies the SNIP is strictly above its lower bound |
| Quartile.UnmatchedIsOther | notebooks/scopus_journals_Q1-Q2.research.py:48-92 | a row left at the zeros of lines 48-49 is labelled `Other` by `get_quartile` when both boundaries are positive |
| Quartile.ClassifyBoundaryExamples | notebooks/scopus_journals_Q1-Q2.research.py:83-90 | the five boundary cases of the rule at 3.0 and 1.5, one per label |
| Quartile.Count | notebooks/scopus_journals_Q1-Q2.research.py:96 | a label's count is the number of rows carrying it (its multiplicity in the label column): at most the number of rows, and positive if and only if the label occurs |
| Quartile.CountsSumToTotal | notebooks/scopus_journals_Q1-Q2.research.py:96 | the five counts add up to the number of rows |
| Quartile.OrderFollowsNames | notebooks/scopus_journals_Q1-Q2.research.py:96 | the order `Other`, `Q1`, `Q1*`, `Q2`, `Q2*` is the string order of the label names |
| Quartile.Summary | notebooks/scopus_journals_Q1-Q2.research.py:96-98 | one group per label that occurs and none for a label that does not; each group carries its label's count; groups are sorted by name; the counts sum to the number of rows |
| Pipeline.PrepareSources | notebooks/scopus_journals_Q1-Q2.research.py:14-16 | one row per distinct source id, the padded first occurrence, in order of first appearance, with both ISSN fields padded |
| Pipeline.Annotate | notebooks/scopus_journals_Q1-Q2.research.py:48-95 | the same rows in the same order, each with its joined values and the label those values get |
| Pipeline.Run | notebooks/scopus_journals_Q1-Q2.research.py:74-95 | fails if and only if no threshold row has year 2020; otherwise one output row per distinct source id |
| Pipeline.RunRows | notebooks/scopus_journals_Q1-Q2.research.py:14-95 | every output row is the padded first occurrence of a distinct source id, in order; it carries the join's values over the filtered indices and the label under the first 2020 threshold row |
| Pipeline.RunSummaryIsComplete | notebooks/scopus_journals_Q1-Q2.research.py:95-98 | the summary counts of a run add up to the number of distinct source ids |
| Pipeline.HyphenatedIssnMatches | notebooks/scopus_journals_Q1-Q2.research.py:30-95 | in a run of one source against one 2020 journal, both without an E-ISSN, where the source's print ISSN (space-free, 8 or more characters) is the journal's hyphenated print ISSN without the hyphen, the source gets that journal's SNIP and lower bound and the label they earn |
| Pipeline.EndToEndExample | notebooks/scopus_journals_Q1-Q2.research.py:14-95 | source `12345678` against journal `1234-5678` with SNIP 4.0 and lower bound 3.5, under boundaries 3.0 and 1.5, is labelled `Q1` with those values |

## Left out

- Reading and writing CSV files (lines 8, 18, 74 and 99) and column selection. The model starts from rows already read.
- Missing cells in the source list are modelled as already replaced by `-` (the `fillna` of lines 11-14).
- Missing cells in the reference table are not modelled. The script would fail on them in `.replace`, and every reference ISSN here is a string.
- The display-precision option (line 6). It only affects printing.
- SNIP values are exact reals, not floating point. NaN is not modelled. In the script a row whose SNIP and lower bound are both NaN fails every comparison and ends up `Other`.
- pandas mechanics such as `reset_index`, the integer dtype of the zero-initialised columns and `.loc` writes are not modelled. The model keeps the values and the row order they produce.
- The `groupby` summary counts rows by label. It does not model pandas' exclusion of null source ids, because source ids are integers here.
- Pipeline.Run: its own contract states only the failure condition and the row count. The per-row content is stated by `Pipeline.RunRows`.
