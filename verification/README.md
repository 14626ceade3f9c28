# Dataset post-processing: term translation and label normalisation

A Dafny model of the text-rewriting core of `dataset/pipeline/step4_fix_dataset.py`.
That script runs once over a dataset with a train split and a test split. In each
record's `output` field it does two things:

- it rewrites English medical terms into Korean ones (`translate_text`);
- it canonicalises the inner text of a `<label>…</label>` tag (`fix_output_label`).

It then rebuilds each split's `output` column and reports how many records changed.

The model has six modules:

- `Wrappers` (`wrappers.dfy`): `Option`. An absent `output` is `None`.
- `Seqs` (`seqs.dfy`): general facts about slices and concatenation that the proofs share.
- `TermTranslator` (`term_translator.dfy`): `translate_text`.
  - One substitution pass is `re.sub(r'\bKEY\b', VALUE, text, flags=re.IGNORECASE)`. It is
    modelled as a left-to-right character scan (`SubFrom`). It is also modelled as the
    search-splice-resume loop `re.sub` actually runs (`Search`, `SubBySearch`). The two
    are proved equal.
  - The application order is Python's stable `sorted(..., key=len, reverse=True)`. It is
    modelled as a functional insertion sort (`SortByKeyLength`). This sort is proved to be
    the only longest-first order that keeps the table order among keys of equal length.
  - The translation (`Translate`) folds one pass per entry over the text, in that order.
    `TranslateInStableOrder` states this for any order that is longest-first and stable.
- `LabelNormalizer` (`label_normalizer.dfy`): `fix_output_label`.
  - `re.search(r'<label>(.*?)</label>', s)` is `SearchLabel`. It is built on the lazy
    closing-tag scan `FindClose`. `TagAt` is a declarative description of a match, and
    `SearchLabel` is proved to return the leftmost one, and `SearchFindsFirstTag` shows
    that a tag with no opening tag before it is the one returned.
  - `LABEL_MAPPING.get(x, x)` is `Lookup`.
  - `str.replace` is `ReplaceAll`.
  - `FixLabel` puts these together.
- `DatasetProcessor` (`dataset_processor.dfy`): the per-split loop of `process_dataset`.
  - `ProcessRecord` is the loop body: the same falsy test, translation, label
    normalisation and comparison with the original.
  - `ProcessSplit` is a method with the same loop and the same changed-counter.
  - `ProcessDataset` handles both splits, rebuilds the columns and computes the summary
    counts.
- `Examples` (`examples.dfy`): worked examples of `translate_text`, `fix_output_label` and one
  split, proved with concrete tables.

The two things `re` takes from Unicode are parameters, bundled in
`TermTranslator.CharTables`:

- which characters are in `\w`;
- the case fold IGNORECASE compares under.

The examples use `AsciiHangulWord`/`AsciiFold`. For text made only of ASCII characters and
Hangul syllables, these agree with Python's tables.

The term table is a `seq<(string, string)>` in dict insertion order, because that order
decides the result among keys of equal length. The label map is a `map<string, string>`.
Both are parameters: the configuration module that defines them is not part of this model.

`fix_output_label` calls `str.replace` without a count. So it rewrites every literal copy
of the captured `<label>INNER</label>` tag, not only the first (see
`LabelNormalizer.FixLabelMapped`).

## Model

| member | source | states |
|---|---|---|
| TermTranslator.Search | dataset/pipeline/step4_fix_dataset.py:26-27 | the leftmost position at or after `pos` where the key matches case-insensitively between two word boundaries; no position at all when it returns none |
| TermTranslator.ScanEqualsSearch | dataset/pipeline/step4_fix_dataset.py:26-27 | the character scan gives the same text as `re.sub`'s loop: copy up to the leftmost match, insert the value, resume after the match |
| TermTranslator.CopyRun | dataset/pipeline/step4_fix_dataset.py:26-27 | characters at which no match starts are copied unchanged and in order |
| TermTranslator.PassWithoutMatchIsIdentity | dataset/pipeline/step4_fix_dataset.py:26-27 | a pass in which the key has no boundary-delimited match returns the text unchanged |
| TermTranslator.LeftmostMatchReplaced | dataset/pipeline/step4_fix_dataset.py:26-27 | the leftmost match is replaced by the value verbatim, the text before it is kept, and the pass goes on right after the matched span (matches do not overlap) |
| TermTranslator.CaseInsensitive | dataset/pipeline/step4_fix_dataset.py:26 | two keys that are equal under the case fold rewrite every text the same way |
| TermTranslator.Insert | dataset/pipeline/step4_fix_dataset.py:23 | inserting an entry adds exactly that entry, keeps the sequence longest-first, and puts the entry ahead of the others with the same key length |
| TermTranslator.SortByKeyLength | dataset/pipeline/step4_fix_dataset.py:22-23 | the order is longest key first, is a permutation of the table (each entry applied exactly once), and keeps table order among keys of equal length |
| TermTranslator.StableOrderIsUnique | dataset/pipeline/step4_fix_dataset.py:23 | two longest-first sequences with the same entries, in the same order for each key length, are equal |
| TermTranslator.SortIsStableSort | dataset/pipeline/step4_fix_dataset.py:23 | every longest-first order that keeps table order among equal lengths is exactly the order the passes use |
| TermTranslator.ApplyAllAppend | dataset/pipeline/step4_fix_dataset.py:24-27 | passes compose left to right: running one order and then another is running their concatenation |
| TermTranslator.ApplyAllIdentity | dataset/pipeline/step4_fix_dataset.py:24-27 | a sequence of passes none of whose keys matches the text returns the text |
| TermTranslator.Translate | dataset/pipeline/step4_fix_dataset.py:16-19 | absent text stays absent, present text stays present, and empty text is returned as is |
| TermTranslator.TranslateWithoutTermsIsIdentity | dataset/pipeline/step4_fix_dataset.py:16-29 | text in which no table key occurs between word boundaries is returned unchanged |
| TermTranslator.TranslateInStableOrder | dataset/pipeline/step4_fix_dataset.py:20-29 | for every order that is longest-first and keeps table order among keys of equal length, the translation of the text is that order's passes applied one after the other |
| LabelNormalizer.FindClose | dataset/pipeline/step4_fix_dataset.py:38 | the lazy `(.*?)</label>` scan returns the first closing tag that is reached without a newline; it returns none only if every closing tag is preceded by a newline |
| LabelNormalizer.SearchLabel | dataset/pipeline/step4_fix_dataset.py:38-39 | the span returned is a tag match and no match starts further left; none is returned only when the text contains no tag match at all |
| LabelNormalizer.SearchFindsFirstTag | dataset/pipeline/step4_fix_dataset.py:38-39 | a tag match with no opening tag anywhere before it is the match the search returns |
| LabelNormalizer.TagCloseIsUnique | dataset/pipeline/step4_fix_dataset.py:38 | a tag start determines its closing position |
| LabelNormalizer.FindCloseOfTag | dataset/pipeline/step4_fix_dataset.py:38 | for any tag match, the lazy scan from its opening tag finds that match's closing tag |
| LabelNormalizer.CapturedInnerIsShortest | dataset/pipeline/step4_fix_dataset.py:38-40 | the captured label contains neither a newline nor `</label>` |
| LabelNormalizer.CapturedTagFirstOccurrence | dataset/pipeline/step4_fix_dataset.py:38-44 | the literal `<label>CAPTURED</label>` occurs where the match starts and nowhere to its left |
| LabelNormalizer.EarlierCopyIsATag | dataset/pipeline/step4_fix_dataset.py:38 | every literal copy of a newline-free tag is a place where a match starts |
| LabelNormalizer.OccursInSuffix | dataset/pipeline/step4_fix_dataset.py:44 | occurrences in a suffix are the occurrences in the whole text, shifted |
| LabelNormalizer.CopyBeforeOccurrence | dataset/pipeline/step4_fix_dataset.py:44 | `str.replace` copies the text before the first occurrence unchanged |
| LabelNormalizer.ReplaceWithoutOccurrence | dataset/pipeline/step4_fix_dataset.py:44 | `str.replace` returns a text that does not contain the pattern unchanged |
| LabelNormalizer.ReplaceFirstOccurrence | dataset/pipeline/step4_fix_dataset.py:44 | `str.replace` rewrites the first occurrence, keeps the text before it, and goes on after it, so every non-overlapping occurrence is rewritten |
| LabelNormalizer.ReplaceWithItself | dataset/pipeline/step4_fix_dataset.py:42-44 | replacing a pattern with itself changes nothing |
| LabelNormalizer.FixLabel | dataset/pipeline/step4_fix_dataset.py:32-35 | absent output stays absent, present output stays present, and empty output is returned as is |
| LabelNormalizer.FixLabelWithoutTag | dataset/pipeline/step4_fix_dataset.py:34-39 | output with no tag match whose inner part is free of newlines is returned unchanged |
| LabelNormalizer.FixLabelUnmapped | dataset/pipeline/step4_fix_dataset.py:40-44 | a captured label that is not a key of the label map leaves the output unchanged |
| LabelNormalizer.FixLabelMapped | dataset/pipeline/step4_fix_dataset.py:40-44 | for a mapped label the text before the first tag is kept, that tag gets the mapped label, and every later literal copy of the tag is rewritten too |
| DatasetProcessor.Transform | dataset/pipeline/step4_fix_dataset.py:75-84 | an absent or empty output is kept; other outputs stay present after translation and then label normalisation |
| DatasetProcessor.ProcessRecord | dataset/pipeline/step4_fix_dataset.py:75-87 | the record's new value is its transform; it counts as changed exactly when that value differs from the original, and never when the original is absent or empty |
| DatasetProcessor.Differing | dataset/pipeline/step4_fix_dataset.py:86-87 | the counter never exceeds the number of records |
| DatasetProcessor.CountOneMore | dataset/pipeline/step4_fix_dataset.py:86-89 | one more record adds one to the count exactly when its value changed |
| DatasetProcessor.DifferingCountsChanges | dataset/pipeline/step4_fix_dataset.py:86-87 | the counter equals the number of positions whose value changed |
| DatasetProcessor.ProcessSplit | dataset/pipeline/step4_fix_dataset.py:71-91 | the new column is as long as the split; position i holds the transform of record i; `changed` is the number of changed positions; an absent or empty record is never counted |
| DatasetProcessor.WithOutputs | dataset/pipeline/step4_fix_dataset.py:125-129 | after the column rebuild, record i holds new value i and all its other columns unchanged |
| DatasetProcessor.ProcessDataset | dataset/pipeline/step4_fix_dataset.py:98-142 | both splits keep their length and order; each record gets its transformed output with other columns untouched; per-split totals and changed counts match; 0 <= unchanged <= total |
| DatasetProcessor.ChangedAtMostAll | dataset/pipeline/step4_fix_dataset.py:140-142 | the changed count is at most the total, so the unchanged count is non-negative |
| Examples.LongestKeyFirst | dataset/pipeline/step4_fix_dataset.py:22-27 | with keys "cancer" and "skin cancer", "skin cancer risk" becomes "피부암 risk", not "skin 암 risk" |
| Examples.WordBoundaryRespected | dataset/pipeline/step4_fix_dataset.py:25-27 | key "rash" leaves "crash course" unchanged |
| Examples.CaseInsensitiveMatch | dataset/pipeline/step4_fix_dataset.py:26-27 | key "Eczema" rewrites "eczema flare" to "습진 flare", keeping the value's own text |
| Examples.UnmappedLabelPassesThrough | dataset/pipeline/step4_fix_dataset.py:38-44 | with map {"A": "X"}, "<label>B</label> text" is unchanged |
| Examples.MappedLabelReplaced | dataset/pipeline/step4_fix_dataset.py:38-44 | with map {"A": "X"}, "pre <label>A</label> post" becomes "pre <label>X</label> post" |
| Examples.SplitEndToEnd | dataset/pipeline/step4_fix_dataset.py:74-89 | the three-record split becomes ["피부암 found", None, "<label>new</label> ok"] with two changed records |

## Left out

- Loading and saving the dataset (`load_from_disk`, `save_to_disk`) are I/O and are not modelled. The column swap (`remove_columns`/`add_column`) is modelled as building a new sequence of records (`WithOutputs`).
- Progress bars (`tqdm`), all console output and `main` with its fixed paths are observational only or entry-point glue, so they are not modelled.
- The contents of `MEDICAL_TERMS` and `LABEL_MAPPING` are not modelled. The configuration module that defines them is not part of this model, so the tables are explicit parameters.
- Python's Unicode `\w` class and its IGNORECASE folding are not spelled out. They are the parameters in `CharTables`, and matching is modelled as equality of folded characters. Special IGNORECASE equivalences between more than two characters are not modelled.
- `TermTranslator.Translate` requires non-empty keys. An empty key would make `re.sub` insert the value at every word boundary, and the model does not cover that case.
- Backslash escapes in `re.sub` replacement strings are not modelled. Values are inserted literally, which is what happens when a value contains no backslash.
- An `output` that is a truthy non-string value is not modelled, because `re.search` would raise on it. `output` is an `Option<string>`.
- Idempotence of the whole transform is not proved. It depends on the contents of the term table and label map: for example, it fails if a replacement value contains a key.
