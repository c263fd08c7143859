# Fill-in-the-middle sample pipeline for Java: a Dafny model

This project models the data-preparation core of a pipeline that fine-tunes a
code model on Java. The pipeline works in two stages:

1. **Quality filter.** Each source file is scored on four counts: license,
   naming, documentation and structure. Only files that clear all four
   thresholds go on.
2. **Sample synthesis.** From each admitted file, the synthesizer draws
   "hole" lines among the lines a comment-aware line classifier calls valid
   code. For each hole it emits a fill-in-the-middle (FIM) sample:
   - the input is a prompt holding up to ten lines of context on each side
     of the hole, framed by the sentinels `<｜fim▁begin｜>`, `<｜fim▁hole｜>`
     and `<｜fim▁end｜>`;
   - the target output is the hole line itself.

   Samples come either as flat "alpaca" records or as two-turn "sharegpt"
   conversations. The running total of samples is deduplicated on its
   (input, output) pair.

The project has these modules:

| module | what it holds |
|---|---|
| `Text` (text.dfy) | The Python string operations the core relies on: `strip()` with Python's exact whitespace set, `split('\n')`, `'\n'.join`, `startswith` and the substring test. |
| `Outcome` (outcome.dfy) | The two exceptions the core can raise: a missing key and an unsupported format. |
| `LineClassifier` (line_classifier.dfy) | The two-state line classifier and the scan over a file that threads its block-comment flag. |
| `Samples` (samples.dfy) | The sample shapes, deduplication as a specification function and as a loop, and the driver's extend-then-deduplicate pattern. |
| `Synthesizer` (synthesizer.dfy) | The sample generator. It is a method whose two loops (classification, then sampling) are methods of their own, proved against the functions `ValidIndices`, `DrawnPairs` and `Run`. |
| `Quality` (quality.dfy) | The quality evaluator and the admission filter. |

How the model stands in for parts of the original:

- **Random choice of holes.** The generator picks holes with `random.choice`.
  In the model this is Dafny's arbitrary choice `:|`, and a ghost
  out-parameter records the holes drawn. Every property is then proved for
  every possible sequence of draws.
- **Regular expressions.** The quality evaluator consumes what eight regular
  expressions (seven compiled patterns and the word pattern) find in the
  file. Those findings arrive as a `PatternFindings` record.
- **Floating-point scores.** Scores are `real`.

## Model

| member | source | states |
|---|---|---|
| LineClassifier.IsValidCodeLine | data/utils.py:19-56 | A line is never valid while the scan is inside a block comment, and a valid line always leaves the scan outside a comment. |
| LineClassifier.ClassificationCharacterised | data/utils.py:26-56 | The classifier's verdict without its order of tests. A line is valid exactly when all of these hold: the scan is not in a comment; the stripped line is non-empty; it starts with neither `/*` nor `//`; it is not one of the punctuation-only lines. After the line, the scan is in a comment exactly when either it was and the stripped line lacks `*/`, or it was not and the stripped line starts with `/*`. |
| LineClassifier.InsideBlockComment | data/utils.py:29-33 | Inside a block comment no line is valid. The comment ends exactly on a line whose stripped text has an occurrence of `*/`. |
| LineClassifier.Scan | data/utils.py:86-96 | The scan over a file collects only indices of lines that exist. |
| LineClassifier.ValidIndicesExactly | data/utils.py:89-96 | An index is collected exactly when it names a line that the classifier calls valid in the block-comment state the scan reaches it in. |
| LineClassifier.BlockCommentFile | data/utils.py:29-37 | In a file that opens a block comment on its first line and does not close it on any line before the last, no line is valid. The scan ends inside the comment unless the last line is a later line than the first and closes it. |
| LineClassifier.OneLineCommentHidesNextLine | data/utils.py:36-37 | In any file, a line that starts with `/*` while the scan is outside a comment leaves the scan inside a comment, even when that line also closes it with `*/`; so the line after it is never collected. |
| LineClassifier.OneLineCommentExample | data/utils.py:36-37 | For the file `/* note */` followed by `int x = 1;`, no line is collected. |
| Synthesizer.CollectValidIndices | data/utils.py:86-96 | The classification loop's collected indices equal `ValidIndices` of the lines. The keyword test in the loop appends the index in both branches, so it does not change the result. |
| Samples.InContents | data/utils.py:64-70 | A pair is among a list's (input, output) keys exactly when some sample carries it. |
| Samples.ContentsSnoc | data/utils.py:68-70 | Appending a sample adds exactly its key to the set of keys. |
| Samples.Dedup | data/utils.py:58-71 | Deduplication keeps only flat records and never lengthens the list. |
| Samples.DedupContents | data/utils.py:58-71 | Deduplication keeps every (input, output) key of its input and no key twice. |
| Samples.DedupKeepsFirstOccurrences | data/utils.py:64-71 | Deduplication is exactly the order-preserving filter that keeps the first sample with each key. |
| Samples.DedupOfDistinct | data/utils.py:64-71 | A list whose keys are already distinct comes back unchanged. |
| Samples.DedupIdempotent | data/utils.py:58-71 | Deduplicating twice equals deduplicating once. |
| Samples.DedupIncremental | data/utils.py:58-71 | Deduplicate a list, append a batch, deduplicate again: the result equals deduplicating the whole concatenation once. |
| Samples.ExtendAndDedup | data/new_process_data.py:35-47 | The driver's running total is made of flat records and is never longer than all batches together; `Samples.ExtendAndDedupIsDedupOfAll` pins it down. |
| Samples.ExtendAndDedupIsDedupOfAll | data/new_process_data.py:35-47 | The driver extends its running total with each file's batch and deduplicates after each one. The result equals deduplicating all batches once at the end. |
| Samples.DeduplicateSamples | data/utils.py:58-71 | The loop fails with a missing `input` key exactly when some sample is a conversation record. Otherwise it returns `Dedup` of the samples. |
| Text.Strip | data/utils.py:26 | Python's `strip()` never lengthens its input; the lemmas below state what it removes. |
| Text.TrimStartKeepsSuffix | data/utils.py:84 | Leading-whitespace removal keeps a suffix that does not start with whitespace. Everything it drops is whitespace. |
| Text.TrimEndKeepsPrefix | data/utils.py:84 | Trailing-whitespace removal keeps a prefix that does not end with whitespace. Everything it drops is whitespace. |
| Text.StripRemovesOuterSpace | data/utils.py:84 | `strip()` returns a slice of its input with only whitespace on either side of it. The result is empty, or it starts and ends with a non-whitespace character. |
| Text.StripEmptyIffAllSpace | data/filter.py:21 | A text strips to nothing exactly when it is all whitespace. |
| Text.StripUnchanged | data/utils.py:26 | A text with no whitespace at either end is its own strip. |
| Text.StartsWithConcat | data/utils.py:36-40 | `startswith` holds exactly when the text is the pattern followed by some text, and then the pattern is also a substring of the text. |
| Text.Contains | data/utils.py:30 | The substring test holds only when the pattern fits in the text, and always for the empty pattern; `Text.ContainsExactly` characterises it. |
| Text.ContainsExactly | data/utils.py:30 | The substring test holds exactly when the pattern occurs at some index. |
| Text.ContainsFirstChar | data/utils.py:30 | A text that contains a non-empty pattern contains the pattern's first character. |
| Text.Split | data/utils.py:84 | `split('\n')` yields at least one piece, and no piece holds a newline. |
| Text.Join | data/utils.py:116 | `'\n'.join` starts with its first part and is at least as long as its `len(parts) - 1` separators; `Text.JoinSplit` and `Text.SplitJoin` make it the inverse of `split('\n')`. |
| Text.JoinSplit | data/utils.py:84 | Joining the pieces of a split with newlines gives back the text. |
| Text.SplitJoin | data/utils.py:116 | Splitting newline-free pieces joined by newlines gives back the pieces. |
| Synthesizer.FimInput | data/utils.py:112-116 | Every prompt starts with the begin sentinel and a newline and ends with a newline and the end sentinel; `Synthesizer.FimInputLayout` gives its full line layout. |
| Synthesizer.FimInputLayout | data/utils.py:112-116 | Each prompt, split into lines, is: the begin sentinel; the `min(h, 10)` lines before the hole; the hole sentinel; the `min(n-h-1, 10)` lines after the hole; the end sentinel. An empty window shows as one empty line, and the hole line is in neither window. |
| Synthesizer.SplitWindow | data/utils.py:116 | A window of newline-free lines joined by newlines, then a newline and more text, splits into the window's lines (one empty line for an empty window) followed by the split of the rest. |
| Synthesizer.FramedLines | data/utils.py:116 | Markers and windows joined by newlines split back into the markers and windows, with an empty window becoming one empty line. |
| Synthesizer.Package | data/utils.py:124-138 | Packaging succeeds exactly for the formats `alpaca` and `sharegpt`, otherwise fails with `ValueError("Unsupported format type")`; a packaged sample carries the given (input, output) pair in the shape the format names. |
| Synthesizer.Run | data/utils.py:119-140 | The only error the sampling loop can raise is the unsupported-format error; `Synthesizer.RunFails`, `Synthesizer.RunEmits` and `Synthesizer.RunKeys` give the rest. |
| Synthesizer.DrawnPairsSnoc | data/utils.py:109-119 | One more draw appends its hole's (prompt, line) pair. |
| Synthesizer.RunSnoc | data/utils.py:119-140 | One more pair through the sampling loop: skipped if it was already emitted, otherwise packaged and appended, or the unsupported-format error. |
| Synthesizer.DrawnPairAt | data/utils.py:109-117 | Draw `k` carries the prompt and line of hole `k`. |
| Synthesizer.RunFails | data/utils.py:124-138 | The sampling loop fails exactly when at least one hole is drawn and the format is neither `alpaca` nor `sharegpt`. The failure is `ValueError("Unsupported format type")`. |
| Synthesizer.RunEmits | data/utils.py:102-140 | A successful sampling loop emits at most one sample per draw and at least one when anything was drawn (the first draw is never a repeat), each in the requested shape, and no key twice. |
| Synthesizer.RunKeys | data/utils.py:119-140 | The keys a successful sampling loop emits are exactly the keys of the draws: a repeated draw adds nothing and no draw is lost. |
| Synthesizer.DrawSamples | data/utils.py:102-142 | The sampling loop draws no holes when fewer than 20 lines are valid. On success it draws exactly `max(num_samples_per_code, 0)` holes. Every hole is a valid index, and the result is `Run` over the drawn (prompt, line) pairs. |
| Synthesizer.GenerateCodeCompletionSamples | data/utils.py:74-142 | Defaults are three samples in the `alpaca` shape. Fails exactly when holes are due (at least 20 valid lines and `num_samples_per_code > 0`) and the format is neither `alpaca` nor `sharegpt`, and then with `ValueError("Unsupported format type")`. On success it draws exactly `max(num_samples_per_code, 0)` holes when due and none otherwise, and returns at most `num_samples_per_code` samples and at least one when holes are due, each in the requested shape, with no (input, output) key twice, each the prompt and line of a drawn hole on a line the classifier called valid. It is the sampling loop run over holes drawn among the valid lines. |
| Synthesizer.GeneratedSamples | data/utils.py:74-142 | What one call returns, from the generator's contract alone: an error exactly when holes are due under an unknown format; at most `num_samples_per_code` samples; none when fewer than 20 lines are valid and at least one when holes are due; no key twice; each sample in the requested shape; each sample the prompt and line of a drawn hole, on a line the classifier called valid in the state the scan reached it in. |
| Quality.IsCamelCase | data/filter.py:39-40 | The type-name rule holds exactly when `re.match` of `[A-Z][a-zA-Z0-9]*` succeeds, i.e. some prefix of the name is a word of the pattern. |
| Quality.IsSnakeCase | data/filter.py:42-43 | The method- and variable-name rule holds exactly when `re.match` of `[a-z][a-zA-Z0-9_]*` succeeds. |
| Quality.CountCompliant | data/filter.py:48-54 | The count of compliant names never exceeds the number of names. |
| Quality.CompliantFraction | data/filter.py:48-54 | The compliant share of a non-empty name list lies in [0, 1]. |
| Quality.AllCompliant | data/filter.py:48-54 | Every name is counted exactly when every name satisfies the rule. |
| Quality.NamingScore | data/filter.py:45-57 | The naming score (the sum of the compliant shares of the non-empty name lists, divided by `max(checks, 1)`) lies in [0, 1]; its other properties are the three lemmas below. |
| Quality.NamingScoreRange | data/filter.py:45-57 | The naming score lies in [0, 1], and it is 0 when no names were found. |
| Quality.NamingSkipsEmptyLists | data/filter.py:47-57 | Empty name lists are left out of the mean: with only one non-empty list, the score is that list's share. |
| Quality.NamingPerfect | data/filter.py:45-57 | When some names were found and all follow their rule, the naming score is 1. |
| Quality.DocQuality | data/filter.py:59-64 | The documentation score lies in [0, 1]. It is 0 exactly when there are no documentation words and positive otherwise. |
| Quality.StructureScore | data/filter.py:66-74 | The structure score lies in [0, 1]; `Quality.StructureThreshold` gives its admission threshold. |
| Quality.StructureThreshold | data/filter.py:66-74 | The structure score lies in [0, 1]. It reaches 0.8 exactly when both an import line and a type declaration are present. |
| Quality.EvaluateCodeQuality | data/filter.py:19-76 | All four scores lie in [0, 1]. |
| Quality.BlankTextScoresZero | data/filter.py:21-22 | A whitespace-only text scores 0 on all four counts. |
| Quality.LicenseIsBinary | data/filter.py:32 | The license score is 0 or 1. On a text that is not blank, it is 1 exactly when a license phrase was found. |
| Quality.FilterHighQuality | data/filter.py:79-86 | The four-way threshold test; its properties are stated by `Quality.FilterMonotone`, `Quality.AdmissionNeeds` and `Quality.AdmissionFromFindings`. |
| Quality.FilterMonotone | data/filter.py:79-86 | Raising scores never turns an admission into a rejection. |
| Quality.AdmissionNeeds | data/filter.py:79-86 | An admitted text is not blank, and it has a license phrase, an import line, a type declaration and documentation words. |
| Quality.AdmissionFromFindings | data/filter.py:19-86 | For a text that is not blank, admission holds exactly when all of these hold: a license phrase, an import line and a type declaration are found; the documentation score is at least 0.05; the naming score is at least 0.5. |

## Left out

- The regular expressions of the quality evaluator: license, class,
  method, variable, package, import, javadoc and word patterns. Their
  findings are an input record (`Quality.PatternFindings`), because a regex
  engine is outside this model.
- Floating-point rounding: scores are exact `real`s.
  - `Quality.DocQuality` computes the same formula, including the `1e-6`.
  - IEEE rounding of the division is not modelled.
- `random.choice`: drawn by `:|`, with no distribution. The ghost `holes`
  out-parameter records the draws.
- Logging: `log`, `print` and the `ENABLE_LOGGING` switch produce output
  only and are not modelled.
- The command-line driver `data/new_process_data.py`:
  - argument parsing, dataset loading and JSON output are I/O and are left
    out;
  - the first-stage loop that stops after the first admitted file is a
    debugging shortcut and is left out;
  - the driver's extend-then-deduplicate pattern is modelled as
    `Samples.ExtendAndDedup`.
- Dictionaries: samples are the datatype `Samples.Sample`.
  - The `alpaca` shape is a record with `instruction`, `input` and `output`.
  - The `sharegpt` shape is a two-turn record with `humanValue` and
    `gptValue`.
  - Reading `sample["input"]` from a conversation is the `KeyError` case of
    `Samples.DeduplicateSamples`.
- Synthesizer.GenerateCodeCompletionSamples: the priority test at
  data/utils.py:93-96 appends the index in both branches, so the model has a
  single append.
- Synthesizer.GenerateCodeCompletionSamples: its two loops are separate
  methods, `Synthesizer.CollectValidIndices` and `Synthesizer.DrawSamples`.
  Both loops are the same as in the source.
- The one-line `/* ... */` comment is modelled as written. The classifier
  stays inside a block comment after such a line, and
  `LineClassifier.OneLineCommentHidesNextLine` shows the consequence.
