# Kafka Connect system-test helpers, modelled in Dafny

The Kafka Connect system tests drive a cluster of Connect workers through
its REST API and then judge the outcome with a few small helpers. This
project models those helpers and proves what they decide:

- **Connector properties parser** (`_config_dict_from_props`, and the same
  expression inline in `_start_connector`). It turns a `key=value`
  properties text into the configuration map sent to the REST API
  (module `ConnectorProps`, with the string operations it relies on in
  `Text`).
- **Connector status checks** (`_has_state`, `_all_tasks_have_state`,
  `is_running`, `is_paused`). The distributed test polls these while it
  waits for a connector and all of its tasks to be `RUNNING` or `PAUSED`
  (module `ConnectorStatus`).
- **Delivery audit of the bounce test.** This is the loop that checks,
  task by task, the sequence numbers reported by the verifiable source and
  sink connectors: nothing is missing, no duplicates after a clean bounce,
  the sink is not ahead of the source, and both sides' largest sequence
  numbers reach 1000 (module `SeqnoAudit`). The loop is the imperative method
  `AuditDelivery`. It is proved equal to the functional specification
  `Audit`, and the properties of the audit are lemmas about `Audit`.
- **Output check** (`validate_output`, `_validate_file_output`). It
  compares the set of input lines with the set of stripped lines of the
  file sink's output on every worker node (module `OutputValidation`).

The source is Python 2:

- `str.strip()` on a byte string removes ASCII whitespace (space, tab,
  line feed, carriage return, vertical tab, form feed).
- `max([])` raises. A task with no sequence numbers on a side therefore
  aborts the audit; the model has the outcome `EmptySeqnos` for this.
- `dict()` raises on the first element that is not a pair. The model's
  parse result is `Err(BadElement(index, length))`.

The distributed test describes itself as "validating the total output is
identical to the input" (connect_distributed_test.py:31-32). The code
compares the set of input lines with the set of output lines, so a line
delivered twice, or in another order, goes unnoticed; the model follows the
code, and `ValidateIgnoresRepeats` proves that repeated output lines are
not noticed.

## Model

| member | source | states |
|---|---|---|
| Text.TrimStart | tests/kafkatest/tests/connect/connect_rest_test.py:165 | the result is a suffix of the input, does not start with whitespace, and everything dropped was whitespace |
| Text.TrimEnd | tests/kafkatest/tests/connect/connect_rest_test.py:165 | the result is a prefix of the input, does not end with whitespace, and everything dropped was whitespace |
| Text.Strip | tests/kafkatest/tests/connect/connect_rest_test.py:165 | `line.strip()` has no outer whitespace, and is empty exactly when the line is all whitespace |
| Text.StripInfix | tests/kafkatest/tests/connect/connect_rest_test.py:165 | `line.strip()` is the slice of the line between two positions, with only whitespace before the first and from the second on |
| Text.StripFixesTrimmed | tests/kafkatest/tests/connect/connect_rest_test.py:165 | stripping leaves a line unchanged exactly when it has no outer whitespace |
| Text.StripIdempotent | tests/kafkatest/tests/connect/connect_rest_test.py:165 | stripping twice is stripping once |
| Text.SplitLines | tests/kafkatest/tests/connect/connect_rest_test.py:165 | `props.split('\n')` gives at least one piece, and no piece holds a line feed |
| Text.SplitLinesCons | tests/kafkatest/tests/connect/connect_rest_test.py:165 | a line-feed-free piece followed by a line feed is split off as one line |
| Text.SplitLinesSingle | tests/kafkatest/tests/connect/connect_rest_test.py:165 | a text without line feeds is one line |
| Text.JoinSplitLines | tests/kafkatest/tests/connect/connect_rest_test.py:165 | joining the pieces with line feeds gives back the text |
| Text.SplitJoinLines | tests/kafkatest/tests/connect/connect_rest_test.py:165 | splitting a join of line-feed-free pieces gives back the pieces |
| ConnectorProps.KeptLines | tests/kafkatest/tests/connect/connect_rest_test.py:165 | the filter keeps exactly the lines that are non-blank after stripping and do not start with `#`, stripped; each kept line is non-empty, does not start with `#`, and has no outer whitespace |
| ConnectorProps.KeptLinesAppend | tests/kafkatest/tests/connect/connect_rest_test.py:165 | filtering a concatenation filters each part |
| ConnectorProps.SplitAtFirst | tests/kafkatest/tests/connect/connect_rest_test.py:165 | `split('=', 1)` gives one piece exactly when there is no `=`; otherwise two pieces, the first free of `=`, that join with `=` to the line |
| ConnectorProps.SplitAtFirstUnique | tests/kafkatest/tests/connect/connect_rest_test.py:165 | a key without `=`, then `=`, then any value (which may hold `=`), splits back into that key and that value |
| ConnectorProps.Dict | tests/kafkatest/tests/connect/connect_rest_test.py:165 | `dict()` fails exactly when some element is not a pair, and reports the first such element and its length |
| ConnectorProps.DictKeys | tests/kafkatest/tests/connect/connect_rest_test.py:165 | on pairs, `dict()` succeeds, and its keys are exactly the first items |
| ConnectorProps.DictLastWins | tests/kafkatest/tests/connect/connect_rest_test.py:165 | a key maps to the value of its last pair |
| ConnectorProps.ParseProps | tests/kafkatest/tests/connect/connect_rest_test.py:164-165 | `_config_dict_from_props` fails only at a kept line without `=`, reporting it as a one-element list, and succeeds only when every kept line has `=`; `ParseFailsIff`, `ParseEntries`, `ParseLine` and `RoundTrip` state the rest |
| ConnectorProps.ParseFailsIff | tests/kafkatest/tests/connect/connect_rest_test.py:164-165 | parsing fails exactly when some kept line has no `=`; the error names the first such line and a one-element split |
| ConnectorProps.ParseEntries | tests/kafkatest/tests/connect/connect_rest_test.py:164-165 | on success every kept line holds `=`, no key holds `=`, and the keys are exactly the kept lines' text before their first `=` |
| ConnectorProps.ParseLine | tests/kafkatest/tests/connect/connect_distributed_test.py:79 | a kept line `key=value` maps `key` to `value` unless a later kept line has the same key; whitespace next to `=` is kept |
| ConnectorProps.SplitRendered | tests/kafkatest/tests/connect/connect_rest_test.py:165 | a rendered text splits into its `k=v` lines plus a final empty piece |
| ConnectorProps.RenderedLineKept | tests/kafkatest/tests/connect/connect_rest_test.py:165 | a `k=v` line with a renderable key and value survives the filter, unchanged by stripping |
| ConnectorProps.KeptRendered | tests/kafkatest/tests/connect/connect_rest_test.py:165 | all rendered lines survive the filter unchanged |
| ConnectorProps.RenderParse | tests/kafkatest/tests/connect/connect_rest_test.py:165 | reading back a rendering keeps every line, and each line splits into its entry's key and value |
| ConnectorProps.DictOfListing | tests/kafkatest/tests/connect/connect_rest_test.py:165 | `dict()` of `[k, m[k]]` over any listing of the keys of `m` (repeats allowed) is `m` |
| ConnectorProps.RoundTrip | tests/kafkatest/tests/connect/connect_rest_test.py:164-165 | a config with renderable keys and values, written as `k=v` lines in any key order, parses back to itself |
| ConnectorStatus.ReduceAndAll | tests/kafkatest/tests/connect/connect_distributed_test.py:99 | `reduce(operator.and_, bs, init)` is true exactly when `init` and every element are true |
| ConnectorStatus.HasState | tests/kafkatest/tests/connect/connect_distributed_test.py:88-89 | `_has_state` is false for an absent status; `HasStateUnique` shows at most one state holds for a status, and `IsRunning` and `IsPaused` give its closed forms |
| ConnectorStatus.HasStateUnique | tests/kafkatest/tests/connect/connect_distributed_test.py:88-89 | a status has at most one state for which `_has_state` holds |
| ConnectorStatus.AllTasksHaveState | tests/kafkatest/tests/connect/connect_distributed_test.py:91-99 | false for an absent status and for a task count other than the expected one; otherwise true exactly when every task is in the state, vacuously so with no tasks |
| ConnectorStatus.IsRunning | tests/kafkatest/tests/connect/connect_distributed_test.py:88-103 | true exactly when the status is present, the connector is `RUNNING`, and the expected number of tasks are all `RUNNING` |
| ConnectorStatus.IsPaused | tests/kafkatest/tests/connect/connect_distributed_test.py:88-107 | true exactly when the status is present, the connector is `PAUSED`, and the expected number of tasks are all `PAUSED` |
| ConnectorStatus.RunningExcludesPaused | tests/kafkatest/tests/connect/connect_distributed_test.py:101-107 | no status is both running and paused |
| SeqnoAudit.Seqnos | tests/kafkatest/tests/connect/connect_distributed_test.py:295 | the collected sequence numbers are no more than the records |
| SeqnoAudit.SeqnosMembers | tests/kafkatest/tests/connect/connect_distributed_test.py:295 | a value is collected exactly when some counted record carries it; on the sink side only flushed records count |
| SeqnoAudit.SeqnosSingle | tests/kafkatest/tests/connect/connect_distributed_test.py:295 | one record contributes its sequence number exactly when it is the task's (and, on the sink, flushed) |
| SeqnoAudit.SeqnosAppend | tests/kafkatest/tests/connect/connect_distributed_test.py:295 | the comprehension keeps record order: collecting over a concatenation is collecting over each part in turn |
| SeqnoAudit.MaxIsGreatest | tests/kafkatest/tests/connect/connect_distributed_test.py:298 | `max` is an element and no element exceeds it |
| SeqnoAudit.MissingBelowExact | tests/kafkatest/tests/connect/connect_distributed_test.py:301 | the missing values are exactly those below the bound that the task lacks, strictly ascending |
| SeqnoAudit.RepeatedBelowExact | tests/kafkatest/tests/connect/connect_distributed_test.py:302 | the repeated values below a bound are exactly those counted more than once, strictly ascending |
| SeqnoAudit.DuplicatesExact | tests/kafkatest/tests/connect/connect_distributed_test.py:300-302 | the duplicates are exactly the values counted more than once, strictly ascending and each once |
| SeqnoAudit.SideErrors | tests/kafkatest/tests/connect/connect_distributed_test.py:304-311 | one side of one task appends at most two errors |
| SeqnoAudit.SideErrorsEmpty | tests/kafkatest/tests/connect/connect_distributed_test.py:298-311 | one side reports nothing exactly when no value below its maximum is missing and, unless duplicates are allowed, no value repeats |
| SeqnoAudit.SideErrorsKinds | tests/kafkatest/tests/connect/connect_distributed_test.py:304-311 | one side reports only missing and duplicate sequence numbers of its own side and task |
| SeqnoAudit.SideErrorsMissing | tests/kafkatest/tests/connect/connect_distributed_test.py:301-307 | a missing-numbers error is reported exactly when some value below the maximum is absent, whatever else is reported; it carries exactly those values, ascending, so the maximum is never missing |
| SeqnoAudit.DuplicateReported | tests/kafkatest/tests/connect/connect_distributed_test.py:308-311 | the duplicate error is reported exactly when duplicates are not allowed and the duplicate list is non-empty, and it carries that list |
| SeqnoAudit.SideErrorsDuplicates | tests/kafkatest/tests/connect/connect_distributed_test.py:302-311 | a duplicate error is reported exactly when duplicates are not allowed and some value is held more than once, whatever else is reported; it carries exactly those values, ascending |
| SeqnoAudit.SideErrorsCount | tests/kafkatest/tests/connect/connect_distributed_test.py:301-311 | a side reports at most one missing-numbers error and one duplicate error, each exactly when its condition holds |
| SeqnoAudit.MatchErrors | tests/kafkatest/tests/connect/connect_distributed_test.py:333-340 | the match checks report nothing exactly when the sink maximum is at most the source maximum and both are at least 1000; `SinkAhead` exactly when the sink is ahead; `TooFewMessages` exactly when either maximum is below 1000; each at most once |
| SeqnoAudit.TaskErrors | tests/kafkatest/tests/connect/connect_distributed_test.py:293-340 | one task appends at most six errors |
| SeqnoAudit.TaskErrorsEmpty | tests/kafkatest/tests/connect/connect_distributed_test.py:293-340 | a task reports nothing exactly when both sides pass, the sink is not ahead, and both maxima reach 1000 |
| SeqnoAudit.TaskErrorsNoDuplicates | tests/kafkatest/tests/connect/connect_distributed_test.py:290 | with duplicates allowed, a task never reports duplicates |
| SeqnoAudit.CheckTask | tests/kafkatest/tests/connect/connect_distributed_test.py:295-318 | the loop body aborts exactly when a side of the task has no sequence numbers, naming the source side when the source has none |
| SeqnoAudit.AuditStep | tests/kafkatest/tests/connect/connect_distributed_test.py:293 | auditing one more task is one more step of the loop |
| SeqnoAudit.AbortIsFinal | tests/kafkatest/tests/connect/connect_distributed_test.py:298 | once `max()` has raised, later tasks do not change the outcome |
| SeqnoAudit.SuccessIffNoErrors | tests/kafkatest/tests/connect/connect_distributed_test.py:288-340 | a completed loop has `success` false exactly when it appended an error |
| SeqnoAudit.AbortsAtFirst | tests/kafkatest/tests/connect/connect_distributed_test.py:293-318 | the loop aborts exactly when its body does for some task, and then at the first such task |
| SeqnoAudit.RunPasses | tests/kafkatest/tests/connect/connect_distributed_test.py:288-340 | the loop ends with success and no errors exactly when the body reported nothing for every task |
| SeqnoAudit.RunErrorsFromTasks | tests/kafkatest/tests/connect/connect_distributed_test.py:289-340 | every collected error was reported for some task |
| SeqnoAudit.RunCollectsAll | tests/kafkatest/tests/connect/connect_distributed_test.py:289-340 | a loop that ran to the end collected every error its body reported, in task order, and nothing else |
| SeqnoAudit.RunSameResults | tests/kafkatest/tests/connect/connect_distributed_test.py:293 | the loop depends only on what its body reports for the tasks it runs |
| SeqnoAudit.Audit | tests/kafkatest/tests/connect/connect_distributed_test.py:288-340 | on completion `success` is false exactly when an error was appended; `AuditPasses`, `AuditAborts`, `AuditReportsMissing`, `AuditReportsDuplicates`, `UncleanIgnoresDuplicates` and `AuditIgnoresUnflushed` state the rest |
| SeqnoAudit.AuditAborts | tests/kafkatest/tests/connect/connect_distributed_test.py:295-318 | the audit aborts exactly when some task lacks sequence numbers on a side, and then at the first such task, naming the side |
| SeqnoAudit.CheckTaskPasses | tests/kafkatest/tests/connect/connect_distributed_test.py:293-340 | one task reports nothing exactly when it has sequence numbers on both sides and passes |
| SeqnoAudit.AuditPasses | tests/kafkatest/tests/connect/connect_distributed_test.py:288-340 | the audit succeeds with no errors exactly when every task has sequence numbers on both sides and passes every check |
| SeqnoAudit.UncleanIgnoresDuplicates | tests/kafkatest/tests/connect/connect_distributed_test.py:290 | after an unclean bounce no duplicate error is ever reported |
| SeqnoAudit.TaskErrorsBySide | tests/kafkatest/tests/connect/connect_distributed_test.py:298-330 | a task's missing and duplicate errors carry its number, and those of one side are exactly that side's errors |
| SeqnoAudit.AuditSideErrors | tests/kafkatest/tests/connect/connect_distributed_test.py:288-330 | in a completed audit, the missing and duplicate errors collected for one side of one task are exactly that side's errors |
| SeqnoAudit.AuditReportsMissing | tests/kafkatest/tests/connect/connect_distributed_test.py:301-307 | a completed audit reports missing numbers for a side of a task exactly when some value below that side's maximum is absent |
| SeqnoAudit.AuditReportsDuplicates | tests/kafkatest/tests/connect/connect_distributed_test.py:300-311 | a completed audit reports duplicates for a side of a task exactly when the bounce was clean and some value occurs more than once |
| SeqnoAudit.Flushed | tests/kafkatest/tests/connect/connect_distributed_test.py:315 | keeps exactly the flushed sink records |
| SeqnoAudit.SeqnosFlushed | tests/kafkatest/tests/connect/connect_distributed_test.py:315 | dropping unflushed records leaves each task's sink sequence numbers unchanged |
| SeqnoAudit.AuditIgnoresUnflushed | tests/kafkatest/tests/connect/connect_distributed_test.py:315 | the audit is the same with the unflushed sink records removed |
| SeqnoAudit.CheckSide | tests/kafkatest/tests/connect/connect_distributed_test.py:298-311 | one side's checks append exactly that side's errors and clear `success` exactly when they append one |
| SeqnoAudit.CheckMatch | tests/kafkatest/tests/connect/connect_distributed_test.py:333-340 | the match checks append exactly their errors and clear `success` exactly when they append one |
| SeqnoAudit.AuditDelivery | tests/kafkatest/tests/connect/connect_distributed_test.py:288-340 | the loop computes `Audit` (including the abort when `max()` raises), and on completion `success` is false exactly when an error was appended |
| OutputValidation.ChainMembers | tests/kafkatest/tests/connect/connect_distributed_test.py:357 | `itertools.chain` holds exactly the lines of its groups |
| OutputValidation.OutputLinesMembers | tests/kafkatest/tests/connect/connect_distributed_test.py:357-359 | the output lines are exactly the stripped lines some node wrote |
| OutputValidation.SameSet | tests/kafkatest/tests/connect/connect_distributed_test.py:360 | `set(a) == set(b)` holds exactly when each sequence contains every element of the other |
| OutputValidation.ValidateOutput | tests/kafkatest/tests/connect/connect_distributed_test.py:353-360 | the check passes exactly when every input line is an output line and every output line is an input line |
| OutputValidation.ValidateOutputExact | tests/kafkatest/tests/connect/connect_rest_test.py:148-154 | the check passes exactly when every input line is the stripped form of some line a node wrote, and every line any node wrote strips to an input line; input lines are not stripped |
| OutputValidation.StripAllAppend | tests/kafkatest/tests/connect/connect_distributed_test.py:358 | stripping line by line distributes over concatenation |
| OutputValidation.OutputLinesChain | tests/kafkatest/tests/connect/connect_distributed_test.py:357-359 | the output lines are the stripped lines of all node files chained together |
| OutputValidation.ValidateIgnoresNodes | tests/kafkatest/tests/connect/connect_distributed_test.py:355-360 | how the lines are spread over nodes does not matter: the answer is the one for a single node holding them all |
| OutputValidation.ValidateSameLines | tests/kafkatest/tests/connect/connect_distributed_test.py:357-360 | node files whose stripped lines form the same set, in any order or multiplicity, get the same answer |
| OutputValidation.ValidateSameInput | tests/kafkatest/tests/connect/connect_distributed_test.py:354 | input lists that hold the same lines get the same answer |
| OutputValidation.OutputLinesAppend | tests/kafkatest/tests/connect/connect_distributed_test.py:357-359 | the output lines of two groups of nodes are the first group's followed by the second's |
| OutputValidation.ValidateIgnoresRepeats | tests/kafkatest/tests/connect/connect_distributed_test.py:354-360 | writing every output line twice does not change the answer, so repeated delivery is not detected |
| OutputValidation.UnreadableNodeContributesNothing | tests/kafkatest/tests/connect/connect_rest_test.py:156-162 | with no node file readable, a non-empty input fails the check |

## Left out

- REST calls, SSH, the polling (`wait_until`), service start and stop, the
  worker bounces, logging, `mark_for_collect`, the console consumer and the
  final `assert success`. They are I/O or test orchestration. The helpers
  take the values those produce (the status, the reported records, the
  file lines) as parameters.
- `_connector_status`: the REST call is outside the model. A failed call is
  the `None` it returns, and the status checks take the result as an
  `Option`.
- Error message text: each appended message is a constructor of
  `AuditError` carrying the same numbers the format string prints.
- `KeyError` on records or status documents that lack `task`, `seqno`,
  `state` or `connector`: the datatypes always have these fields. The
  sink's `'flushed' in msg` becomes the boolean `flushed`.
- The `render()` templating of connector properties: the parser takes the
  rendered text.
- `num_tasks` is fixed at 3 in the test. Here it is the `numTasks`
  parameter.
- Sequence numbers are `nat`. The verifiable connectors number from 0, and
  negative numbers are not modelled.
- SeqnoAudit.Seqnos: its own contract states only a bound; which values
  are collected, in which order and how often, is stated by
  `SeqnosMembers`, `SeqnosSingle` and `SeqnosAppend`.
- SeqnoAudit.SideErrors: its own contract states only a bound; what it
  reports, and how often, is stated by the `SideErrors…` lemmas.
- SeqnoAudit.TaskErrors: its own contract states only a bound; when it is
  empty is stated by `TaskErrorsEmpty`.
- Strings are sequences of characters. Python 2 byte strings and their
  encodings are not modelled; only the ASCII whitespace that `strip()`
  removes from a byte string matters here.
- Unicode whitespace: when the rendered properties or the file lines are
  `unicode` rather than byte strings, `unicode.strip()` also removes the
  separators `\x1c`–`\x1f`, `\x85`, `\xa0` and the other Unicode spaces;
  the model strips only the six ASCII whitespace characters.
