# Evaluation monitor — Dafny model

This project models the monitor of an intrusion-detection evaluation harness. The monitor
sends a corpus of labelled probe packets to the classifier under test. It then listens for
the verdict packets the classifier sends back and records each verdict on the probe it
belongs to. Once every probe has a verdict, it reports how many probes were classified
correctly, the false-positive rate and the false-negative rate.

Two modules:

- `TestData` (`test_data.dfy`): the probe corpus. A `DataPoint` holds the probe packet,
  its ground-truth label `malicious` and an optional `prediction`. The module also gives the
  derived views (completed, correct, malicious, benign, false positive, false negative) as
  filters, and the lookup `DpForPkt`. The repository's `test_data` module is not part of this
  model. Its queries are modelled by what their names say:
  - "completed" means a prediction is set;
  - "correct" means the prediction equals the label;
  - a false positive is a benign probe predicted malicious;
  - a false negative is a malicious probe predicted benign;
  - lookup returns the first record whose packet matches, or nothing.
- `Monitor` (`monitor.dfy`): the monitor itself.
  - The pure side is a set of functions over the corpus: handling one verdict
    (`ApplyVerdict`), a run of verdicts (`ApplyAll`), completion (`AllCompleted`), the
    report (`ComputeReport`) and its rates (`ToRate`). Lemmas state what these guarantee.
  - The class `Monitor` holds the corpus as an `array<DataPoint>` by reference, as the
    Python monitor holds its `test_data`.
  - `HandlePkt` updates that array in place, and `Sniff` is the listener delivering verdicts.
  - The transport is a log: `trace` records one `Sent` event per probe sent and a
    `ListenStarted` event when the listener starts.

The listener thread is modelled sequentially. Its work is a series of `HandlePkt` calls in
arrival order, which is `ApplyAll`. Verdicts that arrive before the listener is started are
lost: `Sniff` changes nothing while `listening` is false. This is the race that `run()` has,
because it sends every probe before it starts the listener.

Two consequences of the code are proved:

- A probe's prediction is overwritten by every matching verdict, so the last verdict wins
  (`PredictionIsLastVerdict`).
- With first-match lookup, a later, distinct record with the same packet is never reached. It
  keeps its prediction forever (`ShadowedRecordUnchanged`). If it has none, the pass can never
  complete (`DuplicateNeverCompletes`).

## Model

| member | source | states |
|---|---|---|
| `TestData.DpForPkt` | monitor/monitor.py:46 | lookup by packet: the result is the index of the first record with that packet, and there is no result exactly when no record has it |
| `TestData.Filter` | monitor/monitor.py:65-70 | a derived view keeps only records satisfying its predicate, keeps every record that does, and is no longer than the corpus; the views `completed_dps()`, `correct_dps()`, `malicious_dps()`, `benign_dps()`, `false_positive_dps()` and `false_negative_dps()` are `CompletedDps`, `CorrectDps`, `MaliciousDps`, `BenignDps`, `FalsePositiveDps` and `FalseNegativeDps`, each `Filter` by the matching predicate |
| `TestData.FilterMultiset` | monitor/monitor.py:65-70 | a derived view holds each record satisfying its predicate exactly as many times as the corpus does, and no other record, so the `len` taken of it counts those records |
| `TestData.FilterKeepsAll` | monitor/monitor.py:60 | a view has as many records as the corpus exactly when every record satisfies its predicate, which is the length comparison `completed()` makes |
| `TestData.FilterMonotone` | monitor/monitor.py:67-70 | a view by a stronger predicate is never larger, which is why false positives never outnumber the benign probes or false negatives the malicious ones |
| `TestData.FilterSplit` | monitor/monitor.py:67-68 | two predicates that split every record between them split the count |
| `TestData.FilterSplit3` | monitor/monitor.py:66-70 | three predicates that put every record in exactly one class split the count three ways |
| `Monitor.ToRate` | monitor/monitor.py:14 | the rate is the sentinel exactly when the denominator is zero, so no division happens then; otherwise it is the fraction num/denom with a positive denominator |
| `Monitor.AllCompleted` | monitor/monitor.py:59-60 | `completed()` holds exactly when every record has a prediction; an empty corpus is complete |
| `Monitor.ApplyVerdict` | monitor/monitor.py:44-52 | a verdict sets the prediction of the first record with its packet to its value, every other record stays as it was, and a verdict matching no record changes nothing; the number of records, every packet, every label and every prediction already set are kept |
| `Monitor.ApplyAll` | monitor/monitor.py:30-31 | the listener handling a run of verdicts keeps the number of records, every packet and every label |
| `Monitor.LastVerdictFor` | monitor/monitor.py:51-52 | the last verdict about a packet in a run: none exactly when no verdict is about it, otherwise the value of a verdict about it after which no other verdict is about it |
| `Monitor.Dispatches` | monitor/monitor.py:39-42 | one send per record, in corpus order, each carrying that record's packet |
| `Monitor.ComputeReport` | monitor/monitor.py:65-79 | the counts and rates `show_results` reports, each count at most the number of records; how the counts and rates relate is proved in ReportCounts and ReportRates |
| `Monitor.ReportCounts` | monitor/monitor.py:62-70 | in the report of a completed pass, total sent is the number of records, malicious plus benign is total sent, false positives are at most the benign probes, false negatives at most the malicious ones, and correct plus false positives plus false negatives is total sent |
| `Monitor.ReportRates` | monitor/monitor.py:77-79 | accuracy, false-negative and false-positive rates are the sentinel exactly when total sent, malicious and benign respectively are zero; otherwise each is its count over that denominator and is at most one |
| `Monitor.PredictionsPersist` | monitor/monitor.py:51-52 | once a record has a prediction, no run of verdicts removes it |
| `Monitor.CompletedStaysCompleted` | monitor/monitor.py:51-60 | a completed pass stays completed whatever verdicts follow |
| `Monitor.PredictionIsLastVerdict` | monitor/monitor.py:44-52 | for a record with no earlier record of the same packet, the prediction after a run of verdicts is the last verdict about its packet, or its earlier prediction when none is about it |
| `Monitor.ShadowedRecordUnchanged` | monitor/monitor.py:46-52 | a distinct record with an earlier record of the same packet is never changed by any run of verdicts |
| `Monitor.EveryProbeAnsweredCompletes` | monitor/monitor.py:44-60 | with distinct packets, a run of verdicts containing one for every probe completes the pass |
| `Monitor.DuplicateNeverCompletes` | monitor/monitor.py:46-60 | with a packet held by two distinct records, the later of which has no prediction, no run of verdicts completes the pass |
| `Monitor.TwoProbeScenario` | monitor/monitor.py:62-79 | probes A (malicious) and B (benign), both judged malicious: the pass completes with 2 sent, 1 correct, 1 malicious, 1 benign, 1 false positive, 0 false negatives, accuracy 1/2, false-negative rate 0/1, false-positive rate 1/1 |
| `Monitor.EmptyCorpusReport` | monitor/monitor.py:59-79 | an empty corpus is complete at once and every rate of its report is the sentinel |
| `Monitor.Monitor.constructor` | monitor/monitor.py:23-33 | the monitor refers to the given corpus, has not started listening and has sent nothing |
| `Monitor.Monitor.Send` | monitor/monitor.py:35-42 | the transport log grows by exactly one send per record, in corpus order, and the corpus is untouched |
| `Monitor.Monitor.HandlePkt` | monitor/monitor.py:44-52 | the corpus is updated in place to the result of handling that verdict |
| `Monitor.Monitor.Listen` | monitor/monitor.py:56-57 | the listener is running afterwards; it is started, and logged, only if it was not running before |
| `Monitor.Monitor.Sniff` | monitor/monitor.py:30-31 | a running listener applies the arrivals in order; arrivals before it runs are lost |
| `Monitor.Monitor.Completed` | monitor/monitor.py:59-60 | `completed()` is AllCompleted of the current array: it holds exactly when every record in it has a prediction |
| `Monitor.Monitor.ShowResults` | monitor/monitor.py:62-70 | requires a completed pass; the report is the one derived from the current records, and correct plus false positives plus false negatives is the number of records |
| `Monitor.Monitor.Run` | monitor/monitor.py:82-84 | every probe is sent, in corpus order, before the listener is started |

## Left out

- Packet construction, `sendp`, `sniff` with its `seer` filter and decoding the `Seer` header are left out. They are network I/O and a wire format. A verdict is the decoded pair `Verdict(malicious, data)`, and sending is an entry in `trace`.
- The listener thread and its daemon flag are not modelled as concurrency. The model runs verdict handling as a sequence in arrival order (`Sniff`, `ApplyAll`). It does not capture interleavings of reads and writes between threads.
- Monitor.Monitor.Listen: starting a thread twice raises an exception in `monitor.py`. Here a second call returns `false` and changes nothing.
- Monitor.ToRate: the percentage value (float division, times 100, rounded to two places) is left out. A defined rate is kept as the exact fraction `Ratio(num, den)`.
- Printing, log levels and `to_pred` are left out. They are presentation only and do not affect state.
- The dummy fixtures `DUMMY_DATA_POINTS` and `DUMMY_TEST_DATA`, the default `send_fn` and the `__main__` entry point are left out. The constructor takes the corpus explicitly.
- Records are values. A corpus that lists the same `Data_point` object more than once is not modelled. In `monitor.py` one write at line 52 updates every position that holds that object. So `ShadowedRecordUnchanged` and `DuplicateNeverCompletes` are about distinct records with equal packets.
- The internals of `test_data` are not part of this model. Its queries are defined by the meaning of their names. The model assumes `dp_for_pkt` returns the first record whose packet matches, and that a found record is truthy in the `if dp:` test.
- Send failures are left out. The transport is best-effort, and an exception from `send_fn` would simply propagate.
