# Shipment email extraction and scoring — a Dafny model

The repository is a batch pipeline for freight-forwarding emails:

- `extract.py` asks a language model to turn each email into an
  `ExtractedShipment` record (`schemas.py`). It makes up to three attempts
  (at most two retries, after sleeps of 2 and then 4 seconds). It falls back to an all-null record when every
  attempt fails.
- `evaluate.py` scores the extracted records against a hand-labelled ground
  truth, field by field.
- `fix_ground_truth.py` corrects one ground-truth label: the incoterm of
  `EMAIL_006` becomes `FCA`.
- `test_ground_truth.py` checks that the correction is in place.

This project models the deterministic logic around the model call and the
file I/O, and proves what that logic promises.

Modules and files:

- `options.dfy` (`Options`) holds the `Option` type used for "may fail".
- `json_value.dfy` (`JsonValue`) defines JSON values as the scripts see them: `Null`, `Bool`, `Num` (exact reals), `Str`, and `Other` for lists and objects, kept by their printed form. A dictionary is a `map<string, Value>`.
- `py_text.dfy` (`PyText`) models `str.strip()` (Python's whitespace set), `str.lower()`, `str.startswith`, `split("\n")` and `"\n".join`. It proves that splitting and joining are inverse to each other.
- `py_round.dfy` (`PyRound`) models `round(x, 2)` as round-half-to-even on the exact value.
- `schemas.dfy` (`Schemas`) defines the `Shipment` record, with its required `id`, optional fields and defaults. `model_validate` becomes `Validate`, a shape check, and `model_dump` becomes `Dump`.
- `extract.dfy` (`Extract`) covers:
  - the port-reference block, built by an imperative loop;
  - code-fence stripping;
  - normalisation of the parsed reply;
  - one attempt, and the retry loop as a method that returns the record, the delays slept and the number of calls;
  - the fallback record;
  - the per-email batch loop.
- `evaluate.dfy` (`Evaluate`) covers:
  - `values_equal`;
  - the ground-truth index;
  - the scoring loop, as a method proved against counting functions;
  - the zero-guarded percentages.
- `fix_ground_truth.dfy` (`FixGroundTruth`) models the ground-truth file as a class whose correction method updates the records in place and counts writes.
- `ground_truth_check.dfy` (`GroundTruthCheck`) models the first-match sanity check and the exit status.

The completion service is replaced by a `Reply` per attempt: the call raised
(`CallFailed`), or it answered with some text. `json.loads` and `float(str)`
are parameters of type `Library`: partial functions supplied by the caller.
Any exception in an attempt makes that attempt fail.

`round(1.005, 2)` is 1.0 both on exact values, where 1.005 is a tie that
goes to the even hundredth, and on IEEE doubles, where `1.005` is stored
just below 1.005. So `values_equal(1.005, 1.0)` is true, as
`Evaluate.NumericSamples` proves.

## Model

| member | source | states |
|---|---|---|
| Schemas.Validate | schemas.py:8-20 | A record validates only when `id` is present and a string; the record's id is that string. |
| Schemas.ValidateAccepts | schemas.py:11-20 | A dictionary validates exactly when `id` holds a string, each of the six string fields is absent, null or a string, each number field is absent, null or a number, and `is_dangerous`, if present, is a boolean. |
| Schemas.ValidateReadsFields | schemas.py:11-20 | Each field of a validated record is read from its own key: the string or number stored there, `None` when absent or null; `is_dangerous` is true exactly when the key holds `true`. |
| Schemas.IdIsRequired | schemas.py:11 | `id` has no default: a dictionary without it never validates. |
| Schemas.AbsentFieldsTakeDefaults | schemas.py:12-20 | Every absent optional string or number field is null; an absent `is_dangerous` is false. |
| Schemas.Dump | schemas.py:8-20 | The dumped dictionary has exactly the ten field names as keys. |
| Schemas.DumpKeepsId | schemas.py:11 | The dumped dictionary carries the record's id under `id`. |
| Schemas.DumpValidates | schemas.py:8-20 | Validating a dumped record gives the same record back (dump/validate round trip). |
| Extract.FirstPosition | extract.py:38-41 | The index of the first entry having a code; it equals the length exactly when no entry has that code. |
| Extract.PortReference | extract.py:33-43 | The dedup loop over `seen`/`lines` yields the `"\n"`-join of one `"  code -> name"` line per first occurrence. |
| Extract.FirstOccurrences | extract.py:36-42 | The deduplicated entries are never more than the input entries. |
| Extract.FirstOccurrencesCoverCodes | extract.py:38-42 | The deduplicated entries have exactly the codes of the input. |
| Extract.FirstOccurrencesDistinct | extract.py:40-41 | No code appears on two lines. |
| Extract.FirstOccurrencesKeepFirstName | extract.py:40-42 | Each line is the first entry with its code, so the first name seen for that code wins. |
| Extract.FirstOccurrencesInOrder | extract.py:38-42 | The lines follow the order in which codes first appear. |
| Extract.LineHasNoNewline | extract.py:42 | A line holds no newline when its code and name hold none. |
| Extract.OneLinePerCode | extract.py:42-43 | The joined block (no trailing newline) splits back into exactly the per-code lines. |
| Extract.StripFence | extract.py:72-78 | A reply not starting with a fence is left unchanged. |
| Extract.FenceLineIsFirst | extract.py:72-74 | If the text starts with a fence, so does its first line; the inner `startswith` test always holds. |
| Extract.StripFenceLine | extract.py:76 | The closing-fence test holds for a bare fence line. |
| Extract.StripFenceFenced | extract.py:72-78 | On text starting with a fence the first line is always dropped. The last remaining line is dropped exactly when, stripped, it is a fence. What is left is joined with newlines. |
| Extract.FencedBodyRoundTrip | extract.py:72-78 | Opening fence with any info string, a body, then a closing fence: fence stripping returns the body exactly. |
| Extract.UnclosedFence | extract.py:72-78 | Without a closing fence only the opening line is dropped, and the body is returned exactly. |
| Extract.ToFloat | extract.py:83-85 | `float()` of null or of a list or object never succeeds; of a boolean or a number it always does. |
| Extract.Normalise | extract.py:81-85 | Succeeds iff weight and volume are each absent, null or convertible. The id becomes the email id. Keys are the input's plus `id`. Other keys are unchanged. Weight and volume are rounded to 2 decimals when present and non-null, and otherwise left as they were. |
| Extract.NormaliseIdempotent | extract.py:81-85 | Normalising a normalised dictionary changes nothing. |
| Extract.RoundedIsFixed | extract.py:82-85 | Rounding a field already rounded to 2 decimals leaves the dictionary unchanged. |
| Extract.Attempt | extract.py:61-86 | A successful attempt always carries the email's id, whatever the service replied. |
| Extract.AttemptRoundsNumbers | extract.py:82-86 | In a successful record, weight and volume are null exactly when the reply left them out or gave null; otherwise each is the reply's value rounded to 2 decimals. |
| Extract.Fallback | extract.py:92-104 | The fallback record is the one a dictionary holding only the id validates to: every optional field null and `is_dangerous` false. |
| Extract.FirstSuccess | extract.py:60-91 | The first successful outcome from a given attempt on carries the email's id. |
| Extract.FirstSuccessStep | extract.py:60-88 | A failed attempt passes on to the next; a successful attempt decides the outcome. |
| Extract.Extracted | extract.py:58-104 | Whatever the replies, the returned record has the email's id; when no attempt succeeds it is the all-null fallback. |
| Extract.Delays | extract.py:58-91 | The j-th delay slept is 2 · 2^j. |
| Extract.DelaysAreTwoThenFour | extract.py:24-91 | With three attempts the delays slept are 2 then 4 and no more. |
| Extract.ExtractOne | extract.py:58-104 | 1 to 3 calls. Every call before the last failed. The sleeps are the first `calls - 1` backoff delays, so none follows the final attempt. A success returns its record at once. Otherwise all three attempts failed and the fallback is returned. The result is `Extracted`. |
| Extract.ExtractAll | extract.py:115-119 | One dumped record per email, in input order, each carrying that email's id. |
| Evaluate.ValuesEqual | evaluate.py:30-41 | `values_equal` holds exactly when both sides have the same comparison key: null, a number rounded to 2 decimals (bools count as 0/1), a stripped lower-cased string, or the printed form. |
| Evaluate.ValuesEqualIsEquivalence | evaluate.py:30-41 | `values_equal` is reflexive, symmetric and transitive. |
| Evaluate.NullEqualsOnlyNull | evaluate.py:31-34 | None equals only None, on either side. |
| Evaluate.NumericSamples | evaluate.py:35-38 | `True == 1` and `0 == False` through the numeric branch; `True != False`; 1.004 and 1.005 (a tie, rounded to even) match 1.0; 1.006 does not. |
| Evaluate.NumericAgreesWithNormalisation | evaluate.py:37-38 | Scoring reads a boolean or number as the same float that extraction converts it to (`True` is 1.0, `False` 0.0). |
| Evaluate.TextSamples | evaluate.py:39-40 | `"FOB "` matches `"fob"`. |
| Evaluate.TextIsNotNumber | evaluate.py:37-41 | A string never equals a number. |
| Evaluate.IndexById | evaluate.py:50 | The index exists exactly when every ground-truth record has an `id` (otherwise a KeyError) and that id is not a list or an object (otherwise a TypeError, as such values cannot be hashed). |
| Evaluate.IndexHoldsEveryId | evaluate.py:50 | Every ground-truth id is a key, and each key maps to a record with that id. |
| Evaluate.IndexKeepsLast | evaluate.py:50 | For a duplicated id the last record wins. |
| Evaluate.RecordHits | evaluate.py:60-64 | A record gains at most one hit per field. |
| Evaluate.FieldHitsAtMostMatched | evaluate.py:61-63 | For every field, correct ≤ count. |
| Evaluate.FieldSumsToTotal | evaluate.py:61-64 | The sum of per-field hits over the fields equals the total of correct fields. |
| Evaluate.CorrectTotalLastField | evaluate.py:60-64 | Adding a field to the list adds exactly that field's hits to the total. |
| Evaluate.ZeroFieldsZeroTotal | evaluate.py:60-64 | With no fields nothing is counted. |
| Evaluate.UnmatchedRecordIsSkipped | evaluate.py:56-58 | An output record whose id is not in the ground truth changes no counter. |
| Evaluate.MatchedRecordCountsNine | evaluate.py:59-65 | A matched record adds exactly 9 to `field_total` and at most 9 to `correct_total`. |
| Evaluate.SumOverFieldHits | evaluate.py:61-64 | Summing per-field counters that equal the per-field hits gives the hit total. |
| Evaluate.SumOverConstant | evaluate.py:61-65 | Summing a counter that is the same for every field gives that value times the number of fields. |
| Evaluate.SumOverMonotone | evaluate.py:61-63 | If every correct ≤ count, then the sum of correct ≤ the sum of counts. |
| Evaluate.FieldsDistinct | evaluate.py:9-19 | The nine field names are distinct. |
| Evaluate.CountRecord | evaluate.py:60-65 | The inner loop adds 1 to every field count, 1 to each field's correct count when its values match, the number of matches to `correct_total`, and 9 to `field_total`. |
| Evaluate.CountersConsistent | evaluate.py:61-65 | Counters equal to the counting functions satisfy every report invariant. |
| Evaluate.CountersStep | evaluate.py:55-65 | The counting functions on one more record: unchanged if unmatched, one more count and per-field hits if matched. |
| Evaluate.AgreesSkip | evaluate.py:56-58 | Skipping an unmatched record keeps the counters equal to the counting functions. |
| Evaluate.AgreesCount | evaluate.py:59-65 | Counting a matched record field by field keeps the counters equal to the counting functions. |
| Evaluate.Score | evaluate.py:48-65 | No result exactly when indexing the ground truth fails or some output record's id is a list or an object (the `in` test raises TypeError). Otherwise each field count is the number of matched records, and each field's correct count is the number of them whose values match. `field_total` is 9 × matched and `correct_total` is the total of matches. The report is `Consistent`: totals are sums of per-field counters, and correct ≤ count. |
| Evaluate.Percent | evaluate.py:70-72 | A zero denominator gives 0; otherwise the exact ratio × 100. It lies in [0, 100] when correct ≤ count. |
| Evaluate.ReportPercentagesInRange | evaluate.py:66-73 | Every per-field percentage and the overall percentage of a consistent report lie in [0, 100]. |
| Evaluate.ExactRecordScoresNine | evaluate.py:55-65 | A dumped record scored against itself hits all 9 fields. |
| Evaluate.RecordHitsReflexive | evaluate.py:60-64 | A record scored against itself hits every listed field. |
| Evaluate.FallbackScoresOnlyDangerous | evaluate.py:60-64 | Against a label with all 8 other fields non-null, the fallback record can score only on `is_dangerous`. |
| Evaluate.FallbackMissesOptional | evaluate.py:31-64 | A record that is null where the label is not scores nothing on those fields. |
| FixGroundTruth.FirstWithId | fix_ground_truth.py:29-30 | The position of the first record with the id, no earlier record having it; or none when no record has it. |
| FixGroundTruth.FirstWithIdUnique | fix_ground_truth.py:29-35 | A record with the id and none before it is the first match. |
| FixGroundTruth.GroundTruthFile.FixEmail006Incoterm | fix_ground_truth.py:18-46 | Returns true iff some record has id `EMAIL_006`. The records become the patched list. The file is written once when true, and never when false. |
| FixGroundTruth.Patched | fix_ground_truth.py:29-35 | The correction keeps the number of records, and leaves the list as it is when no record has id `EMAIL_006`. |
| FixGroundTruth.PatchedChangesOnlyTarget | fix_ground_truth.py:29-35 | Same length and order; every record except the first `EMAIL_006` one is unchanged. |
| FixGroundTruth.PatchedSetsIncoterm | fix_ground_truth.py:31-32 | The corrected record's incoterm is `FCA` whatever it was. Its keys are the old keys plus `incoterm`. Every other field, the id included, is unchanged. |
| FixGroundTruth.PatchedLeavesLaterDuplicates | fix_ground_truth.py:30-35 | Because of the `break`, later records with the same id are left alone. |
| FixGroundTruth.PatchedAbsent | fix_ground_truth.py:37-39 | Without an `EMAIL_006` record nothing changes. |
| FixGroundTruth.PatchedIdempotent | fix_ground_truth.py:18-46 | Applying the correction twice equals applying it once. |
| GroundTruthCheck.Email006Check | test_ground_truth.py:10-25 | The check passes iff the first `EMAIL_006` record has incoterm `FCA`; with no such record it fails. |
| GroundTruthCheck.CheckFailsWhenAbsent | test_ground_truth.py:24-25 | No `EMAIL_006` record: the check fails. |
| GroundTruthCheck.CheckIgnoresLaterRecords | test_ground_truth.py:14-22 | Records after the first match never affect the verdict. |
| GroundTruthCheck.CheckPassesAfterFix | test_ground_truth.py:14-22 | After the correction the check passes iff there was an `EMAIL_006` record to correct. |
| GroundTruthCheck.ExitCode | test_ground_truth.py:28-30 | The exit status is 0 exactly when the first `EMAIL_006` record exists and its incoterm is `FCA`, and 1 otherwise. |
| GroundTruthCheck.ExitCodeAfterFix | test_ground_truth.py:28-30 | Run on the corrected records, the script exits with 0 exactly when there was an `EMAIL_006` record to correct. |
| PyText.Strip | evaluate.py:40 | `strip()` never lengthens a string. |
| PyText.StripTrims | evaluate.py:40 | `strip()` returns a cut with only whitespace around it and no whitespace at its ends. |
| PyText.StripCharacterised | evaluate.py:40 | Any such cut is the result of `strip()`. |
| PyText.Lower | evaluate.py:40 | `lower()` keeps the length and folds each character. |
| PyText.Split | extract.py:73 | `split("\n")` yields at least one piece, even for the empty string. |
| PyText.SplitPiecesHaveNoNewline | extract.py:73 | No piece of `split("\n")` holds a newline. |
| PyText.Join | extract.py:43 | `"\n".join` puts one separator fewer than there are lines (no trailing newline), and the result starts with the first line. |
| PyText.StartsWithPointwise | extract.py:72-74 | `startswith(p)` holds exactly when the string is at least as long as `p` and agrees with it character by character. |
| PyText.JoinSplit | extract.py:73-78 | Joining the pieces of a split gives back the string. |
| PyText.SplitJoin | extract.py:73-78 | Splitting a join of newline-free lines gives back the lines. |
| PyText.SplitSingleLine | extract.py:73 | A string without newlines splits into itself alone. |
| PyText.SplitAppend | extract.py:73 | Splitting at a newline splits each side separately. |
| PyRound.RoundHalfEven | evaluate.py:38 | The nearest integer, ties going to the even one. |
| PyRound.RoundHalfEvenUnique | evaluate.py:38 | That integer is unique. |
| PyRound.Round2Idempotent | extract.py:83-85 | Rounding to 2 decimals twice is rounding once. |
| PyRound.Round2 | evaluate.py:38 | `round(x, 2)` is a whole number of hundredths, at most 0.005 away from `x`. |

## Left out

- The completion-service client, the network call, `load_dotenv`, and the `GROQ_API_KEY` check with its exit (extract.py:11-12, 17, 62-70, 107-111) are foreign calls and environment I/O. Each attempt's outcome is a `Reply` parameter instead.
- The prompts (`prompts.py`, and `build_user_prompt` with `email.get("subject", "")` and `email.get("body", "")`) are fixed text templates with nothing to prove. prompts.py is not part of this model.
- `time.sleep` is a real-time side effect. The delays are returned as the `sleeps` sequence instead.
- JSON reading and writing, file opening, `OUTPUT_PATH.exists()`, and the `GROUND_TRUTH_PATH`/`INPUT_PATH` constants are I/O. The port list, emails, output and ground truth are parameters. The ground-truth file is a class field, and its saves are a counter. `json.loads` and `float(str)` are caller-supplied partial functions.
- Console output (`print`) and the `.1f` percentage formatting are left out. `Percent` gives the exact ratio that is then formatted.
- `Schemas.Validate` omits Pydantic's lax coercion for `is_dangerous`: Pydantic accepts `"true"`/`"false"` and `1`/`0` (and similar spellings) as booleans, the model accepts only a JSON boolean, so such a reply succeeds in the script but fails here. No other coercion changes an outcome: an integer is a `Num` and validates as a float, and numeric strings for weight and volume are already converted by `Normalise` before validation.
- `Library` and `Value` hold exact reals, so NaN and the infinities cannot be represented. `json.loads` accepts `NaN`/`Infinity` and `float("nan")`/`float("inf")` succeed in Python, where the model's attempt fails instead. `float()` of an integer too large for a double raises `OverflowError` in Python, which the model does not have. A NaN weight would also make `values_equal` non-reflexive (NaN != NaN), which lies outside `Evaluate.ValuesEqualIsEquivalence`.
- `PyRound.Round2` works on exact reals, not IEEE doubles. Values whose decimal and binary forms round differently (such as 2.675) are not modelled.
- `PyText.Lower` folds ASCII letters only. Python's full Unicode case mapping is not modelled.
- Nested JSON values (lists, objects) are `Other` with their printed form. `values_equal` compares them by that form, not structurally.
- `Evaluate.IndexById` keys the index by `Value`. Python's hashing, in which `True`, `1` and `1.0` are the same dictionary key, is not modelled. Unhashable ids (lists, objects) are modelled: they make `IndexById` and `Score` fail, as the TypeError does.
- A missing `"id"` in an input email, an `item["code"]`/`item['name']` KeyError in the port list, and non-dictionary records are not modelled. The model assumes well-formed input lists: an email's id and a port entry's code and name are strings (`Email.id`, `PortEntry` fields). With a non-string email id in the script, every attempt fails validation (`id: str`) and building the fallback record at extract.py:93 then raises uncaught; the model cannot express that input.
- `last_error` in `extract_one` is assigned but never read, so it is not modelled.
- `Extract.Normalise`: the in-place update of the parsed `raw` dictionary is modelled on values, since the dictionary is local to one attempt and does not outlive it.
- `Evaluate.IndexById`: the `by_id` dictionary comprehension is modelled as a function, because it has no loop of its own in the source.

