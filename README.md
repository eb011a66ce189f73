# Event-triggered video sampler: a Dafny model of its decision logic

This project models the core of `record.py`, the video sampler of a camera node. The sampler either takes and uploads a clip on every iteration of a loop (periodic mode) or does so whenever a trigger condition over live topic values becomes true (event mode). Everything that touches the camera, ffmpeg, the message bus or the clocks is turned into an input. What remains is modelled and proved:

- **Topic extraction** (`TopicParser`). The regex `\b[a-z]\w+` is modelled as a character scanner (`ScanTokens`). The `list.remove` loops are modelled as `RemoveAll`, and `ExtractTopics` combines the two. Separate lemmas prove that the scanner finds exactly the regex matches, in source order. Here a match is a maximal run of ASCII word characters that starts with a lowercase letter and is at least two characters long. The lemmas also prove that every `or` and every `and` is removed, while every other token keeps all its occurrences.
- **Frame-rate rule** (`Resampling`). `need_resampling` is modelled on exact reals over the outcome of reading the probed frame rate.
- **Sampling loops** (`Sampler`). The `run_on_event` loop becomes the class `EventSampler`. Its fields are the topic table, the subscriptions made, and the samples, uploads and sleeps so far. Its methods mirror the source's set-up, ingest, evaluate, reset and loop step. Each loop iteration is specified by the pure function `StepRun`, and a run over a sequence of messages by `Run`. The lemmas about `Run` cover four things: every iteration either samples and uploads once or sleeps once; every upload carries its sample's timestamp; the loop is fail-closed; and the test scenario `temp > 30` behaves as expected. `run_periodically` is a loop over one sample-clock reading per iteration.

Inputs that replace I/O:
- a message is `Message(name, value, timestamp)`, and it is checked against `now`, an integer count of nanoseconds that stands for `time.time() * 1e9`;
- `clock` stands for `get_timestamp()`, and `skipNanos` for `int(skip_second * 1e9)`;
- the condition's `eval` is an abstract `Evaluator` that maps the condition and the table to `Option<bool>`. `None` means `eval` raised, and `Some(b)` gives the truthiness of its result;
- unbounded `while True` loops run over a finite sequence of events (event mode) or of clock readings (periodic mode).

Behaviour of the code that a reader might not expect, and that the model follows:
- the topic list is not deduplicated. Duplicates collapse only in the table's keys, and `subscribe` is called once per occurrence;
- after a trigger fires, the table is replaced by the empty map; it is not zeroed. A condition whose evaluation looks up a topic not received since the reset raises `NameError` and counts as false. One that short-circuits before that lookup (`x > 1 or y > 2` after a fresh `x=5`) can still fire. A topic named like a Python builtin (`min`, `id`) finds the builtin, because `eval` adds `__builtins__` to the dict. The abstract evaluator leaves all of this open;
- staleness is checked when a message arrives, not when the condition is evaluated. A stale message is dropped, and values already in the table never age out;
- `take_sample` always returns success, so the `return 1` branches of both loops can never be reached (`assert false` marks them in `EventSampler.Step` and `RunPeriodically`). A failing ffmpeg run raises an exception, which ends the process;
- there are no sample-count or "continuous" options: both loops run until the process is stopped;
- `need_resampling` is defined but never called by `record.py`.

## Model

| member | source | states |
|---|---|---|
| TopicParser.RunEnd | record.py:16 | the greedy `\w+` stops at the first non-word character or at the end of the text, with only word characters before it |
| TopicParser.MatchAt | record.py:16 | an attempt of `\b[a-z]\w+` at position i succeeds exactly when a match (`IsMatch`) starts at i, and it returns that match's end |
| TopicParser.FindAll | record.py:16 | every span found by `findall` from position i is a match that starts at or after i; the spans are in source order and do not overlap |
| TopicParser.FindAllComplete | record.py:16 | every match that starts at or after i is among the spans found from i, so `findall` misses no match |
| TopicParser.Tokens | record.py:16 | no contract; the texts of the spans `FindAll` finds from position 0, in order: the list `re.findall` returns |
| TopicParser.TokenAt | record.py:16 | the k-th token is the text of the k-th match: at least two ASCII word characters, starting with a lowercase letter, and not preceded by a word character |
| TopicParser.ScanTokens | record.py:16 | the character scanner returns exactly the list of `re.findall` matches |
| TopicParser.FirstIndex | record.py:20 | the position `list.remove` searches for holds the keyword, and no earlier position does |
| TopicParser.RemoveFirst | record.py:20 | `list.remove` drops exactly one occurrence of the keyword and does not change what a full removal of it leaves |
| TopicParser.RemoveFirstAt | record.py:20 | the occurrence `list.remove` deletes is the first one; the elements before and after it stay in order |
| TopicParser.Without | record.py:17-22 | after removing a keyword it no longer occurs; every other token keeps its number of occurrences and no new token appears |
| TopicParser.WithoutEach | record.py:17-22 | after removing each keyword in turn, none of them remains, and every other token keeps its number of occurrences |
| TopicParser.RemoveAll | record.py:18-22 | repeating `remove` until `ValueError` leaves the list with every occurrence of the keyword deleted |
| TopicParser.Topics | record.py:15-23 | no contract; the tokens with every `or` and then every `and` removed: what `extract_topics` returns |
| TopicParser.TopicsExact | record.py:15-23 | the topics contain no `or` and no `and`, keep every other match with all of its duplicates, and are all identifiers that start with a lowercase letter |
| TopicParser.ExtractTopics | record.py:15-23 | `extract_topics` returns the regex matches in order with every `or` and `and` removed and nothing else removed |
| Resampling.NeedResampling | record.py:29-36 | a failed read of the frame rate never asks for resampling; otherwise resampling is asked for exactly when the rate differs from the target by more than 10% of the target |
| Resampling.AtTargetNoResampling | record.py:33 | a clip already at a non-negative target rate is not resampled |
| Resampling.NegativeTargetAlwaysResamples | record.py:33 | with a negative target the tolerance band is empty, so every successful probe asks for resampling |
| Sampler.ReplaceChar | record.py:75 | `str.replace` of one character keeps the length, replaces every occurrence and changes nothing else |
| Sampler.TableKey | record.py:75 | the key has the name's length, contains no dot, and agrees with the name at every position that is not a dot |
| Sampler.BusTopic | record.py:78 | the subscribed topic has the key's length, contains no underscore, and agrees with the key at every position that is not an underscore |
| Sampler.SubscriptionRoundTrip | record.py:75-84 | a key without dots, mapped to its bus topic and back to a key, gives the same key, so a message on a subscribed topic updates that topic's entry |
| Sampler.TopicsHaveNoDot | record.py:75-84 | extracted topics contain no dots, so every subscribed topic's messages land on its own table key |
| Sampler.InitialTable | record.py:74-77 | the starting table has exactly the extracted topics as keys, each with the value 0.0 |
| Sampler.IsFresh | record.py:83 | no contract; a message counts as fresh when `now` is at most 5 s (5 000 000 000 ns) past its timestamp |
| Sampler.Ingested | record.py:81-84 | a message older than 5 s leaves the table unchanged; a fresh one sets key `name.replace('.', '_')` to its value (subscribed or not) and leaves every other key unchanged |
| Sampler.TakeSample | record.py:42-68 | reference definition of what `take_sample` returns: success, the final clip, and the sample clock plus the skip offset as timestamp. Its ensures spell out the body and are used by the loop proofs; they are not a property proved about the source |
| Sampler.StepRun | record.py:80-114 | reference definition of one loop iteration. When the condition holds on the updated table, one sample and one upload with the sample's timestamp are made and the table becomes empty. Otherwise, including an evaluation that raised, the loop only sleeps. Its ensures spell out the body; the properties proved are the `Run` lemmas below |
| Sampler.Run | record.py:80-114 | no contract; `StepRun` applied to each message in turn, oldest first |
| Sampler.RunAccounting | record.py:80-114 | over a run, each message yields either one sample plus one upload or one sleep; every sample is uploaded; earlier uploads are kept |
| Sampler.RunUploadsStamped | record.py:93-105 | the k-th upload of a run comes from a message at which the condition fired on the table built so far. It is the final clip, stamped with that message's sample clock plus the skip offset. It was made when the run had made exactly k uploads, so uploads follow the order of the messages that caused them |
| Sampler.FailClosedRun | record.py:86-114 | when the evaluator never yields true, because it raises or answers false, no sample or upload happens and the loop sleeps once per message |
| Sampler.EventSampler.constructor | record.py:73-78 | set-up rewrites dots in the condition to underscores, sets every extracted topic to 0.0 and no other key, and subscribes once per occurrence under the name with underscores turned back into dots |
| Sampler.EventSampler.Subscribe | record.py:76-78 | the set-up loop builds the zeroed table and one subscription per name, in order |
| Sampler.EventSampler.Ingest | record.py:81-84 | receiving a message updates the table as `Ingested` says |
| Sampler.EventSampler.Evaluate | record.py:87-91 | the condition counts as fired exactly when the evaluation returns true; an evaluation that raises counts as not fired |
| Sampler.EventSampler.Reset | record.py:111-112 | after a sample the table is the empty map |
| Sampler.EventSampler.Step | record.py:80-114 | one loop iteration changes the sampler's state exactly as `StepRun` says |
| Sampler.RunOnEvent | record.py:71-115 | set-up followed by one iteration per message leaves the sampler in the state `Run` gives from the zeroed table |
| Sampler.RunPeriodically | record.py:118-140 | each iteration samples and uploads once with that sample's timestamp; the loop sleeps for the interval after each iteration only when the interval is positive |
| Sampler.TempScenario | record.py:80-114 | with condition `temp > 30`, the messages temp=20 and then temp=31 cause exactly one sample, after the second; a later stale message does not fire again, because the emptied table no longer holds `temp` |

## Left out

- Unicode: `\w` and `\b` are restricted to ASCII word characters. Python also treats non-ASCII letters and digits as word characters.
- The ffmpeg commands, their execution and the intermediate file paths (record.py:44-66) are foreign I/O. The model covers only runs in which both transcodes complete. A failing run raises an exception that escapes both loops and ends the process; this is not modelled.
- `resolve_device`, `get_timestamp` and the float product `int(skip_second * 1e9)` (record.py:40-42) are replaced by the integer inputs `clock` and `skipNanos`.
- `ffmpeg.probe` (record.py:27) is outside the `try`, so its failure escapes `need_resampling`; this is not modelled. Reading `r_frame_rate` and evaluating that string (record.py:30-33) is modelled only by its outcome, `Option<real>`.
- Resampling.NeedResampling: computes on exact reals, so float rounding of `0.9 * target` and `1.1 * target` at the edges of the band is not captured.
- Sampler.Ingested: the staleness test in the source is float arithmetic on `time.time() * 1e9`; the model uses exact integers.
- Python's `eval` of the condition (record.py:89) becomes an abstract evaluator. This includes its insertion of `__builtins__` into the topic dict.
- The message bus (`Plugin`, `subscribe`, `get`, `upload_file`) appears only as the logs it would receive: subscription names, uploads and sleeps. The blocking `plugin.get()` becomes a finite sequence of messages, and `time.sleep` becomes a count or a list of durations.
- Message values are modelled as reals, while the bus can carry other Python values. Their truthiness under `eval` is left to the evaluator.
- The `print` logging and the command-line parsing in `__main__` (record.py:143-176) are glue. An empty `-condition` selects periodic mode, and any other value selects event mode.
