/**
 The evaluation monitor: it sends every labelled probe to the intrusion
 detection system under test, listens for the verdict packets that system
 emits, records each verdict on the probe it belongs to, and reports accuracy,
 false-positive and false-negative counts once every probe has a verdict.

 The pure part (verdict correlation, completion, the report and its rates) is
 stated as functions over the corpus; the class `Monitor` holds the corpus by
 reference and updates it in place, as the Python monitor does.
 */
module Monitor {
  import opened TestData

  /** A decoded verdict packet: the classifier's prediction and the probe it is about. */
  datatype Verdict = Verdict(malicious: bool, data: Packet)

  /** What the monitor does to the outside world: one send per probe, and starting the listener. */
  datatype Event = Sent(pkt: Packet) | ListenStarted

  /** A rate is the sentinel `Undefined` or the exact fraction num / den (as a percentage when shown). */
  datatype Rate = Undefined | Ratio(num: nat, den: nat)

  datatype Report = Report(
    totalSent: nat,
    totalCorrect: nat,
    numMalicious: nat,
    numBenign: nat,
    numFalsePos: nat,
    numFalseNeg: nat,
    accuracy: Rate,
    falseNegativeRate: Rate,
    falsePositiveRate: Rate)

  /** The rate num / denom, or the sentinel when the denominator is zero (no division happens then). */
  function ToRate(num: nat, denom: nat): (r: Rate)
    ensures r.Undefined? <==> denom == 0
    ensures r.Ratio? ==> r.num == num && r.den == denom > 0
  {
    if denom == 0 then Undefined else Ratio(num, denom)
  }

  /** The pass is complete when the completed records are all the records. */
  predicate AllCompleted(dps: seq<DataPoint>)
    ensures AllCompleted(dps) <==> forall i :: 0 <= i < |dps| ==> dps[i].prediction.Some?
  {
    FilterKeepsAll(dps, IsCompleted);
    |CompletedDps(dps)| == |dps|
  }

  /**
   Handling one verdict: the first record whose packet matches gets the
   verdict's prediction; nothing else changes, and nothing at all changes when
   no record matches.
   */
  function ApplyVerdict(dps: seq<DataPoint>, v: Verdict): (r: seq<DataPoint>)
    ensures |r| == |dps|
    ensures forall j :: 0 <= j < |dps| && IsFirstMatch(dps, j, v.data) ==>
              r[j] == dps[j].(prediction := Some(v.malicious))
    ensures forall j :: 0 <= j < |dps| && !IsFirstMatch(dps, j, v.data) ==> r[j] == dps[j]
    ensures (forall j :: 0 <= j < |dps| ==> dps[j].pkt != v.data) ==> r == dps
    ensures forall j :: 0 <= j < |dps| ==> r[j].pkt == dps[j].pkt && r[j].malicious == dps[j].malicious
    ensures forall j :: 0 <= j < |dps| && dps[j].prediction.Some? ==> r[j].prediction.Some?
  {
    match DpForPkt(dps, v.data)
    case Some(i) => dps[i := dps[i].(prediction := Some(v.malicious))]
    case None => dps
  }

  /** The listener handling `vs` in arrival order. */
  function ApplyAll(dps: seq<DataPoint>, vs: seq<Verdict>): (r: seq<DataPoint>)
    ensures |r| == |dps|
    ensures forall j :: 0 <= j < |dps| ==> r[j].pkt == dps[j].pkt && r[j].malicious == dps[j].malicious
  {
    if vs == [] then dps
    else ApplyVerdict(ApplyAll(dps, vs[..|vs| - 1]), vs[|vs| - 1])
  }

  /** The prediction of the last verdict in `vs` about `key`, if there is one. */
  function LastVerdictFor(vs: seq<Verdict>, key: Packet): (r: Option<bool>)
    ensures r.None? <==> forall k :: 0 <= k < |vs| ==> vs[k].data != key
    ensures r.Some? ==> exists k :: 0 <= k < |vs| && vs[k].data == key && vs[k].malicious == r.value &&
                           forall m :: k < m < |vs| ==> vs[m].data != key
  {
    if vs == [] then None
    else if vs[|vs| - 1].data == key then Some(vs[|vs| - 1].malicious)
    else LastVerdictFor(vs[..|vs| - 1], key)
  }

  /** The probes sent, one per record, in corpus order. */
  function Dispatches(dps: seq<DataPoint>): (r: seq<Event>)
    ensures |r| == |dps|
    ensures forall i :: 0 <= i < |dps| ==> r[i] == Sent(dps[i].pkt)
  {
    if dps == [] then []
    else Dispatches(dps[..|dps| - 1]) + [Sent(dps[|dps| - 1].pkt)]
  }

  /** The report `show_results` prints. Its properties are ReportCounts and ReportRates. */
  function ComputeReport(dps: seq<DataPoint>): (r: Report)
    requires AllCompleted(dps)
    ensures r.totalCorrect <= r.totalSent && r.numMalicious <= r.totalSent && r.numBenign <= r.totalSent
    ensures r.numFalsePos <= r.totalSent && r.numFalseNeg <= r.totalSent
  {
    var totalSent := |dps|;
    var totalCorrect := |CorrectDps(dps)|;
    var numMalicious := |MaliciousDps(dps)|;
    var numBenign := |BenignDps(dps)|;
    var numFalsePos := |FalsePositiveDps(dps)|;
    var numFalseNeg := |FalseNegativeDps(dps)|;
    Report(totalSent, totalCorrect, numMalicious, numBenign, numFalsePos, numFalseNeg,
           ToRate(totalCorrect, totalSent),
           ToRate(numFalseNeg, numMalicious),
           ToRate(numFalsePos, numBenign))
  }

  /** How the counts of a completed pass relate to each other. */
  lemma ReportCounts(dps: seq<DataPoint>)
    requires AllCompleted(dps)
    ensures var r := ComputeReport(dps);
      && r.totalSent == |dps|
      && r.numMalicious + r.numBenign == r.totalSent
      && r.numFalsePos <= r.numBenign
      && r.numFalseNeg <= r.numMalicious
      && r.totalCorrect + r.numFalsePos + r.numFalseNeg == r.totalSent
  {
    FilterSplit(dps, IsMalicious, IsBenign);
    FilterMonotone(dps, IsFalsePositive, IsBenign);
    FilterMonotone(dps, IsFalseNegative, IsMalicious);
    forall i | 0 <= i < |dps|
      ensures ExactlyOne(IsCorrect(dps[i]), IsFalsePositive(dps[i]), IsFalseNegative(dps[i]))
    {
      var d := dps[i];
      assert d.prediction.Some?;
      if d.prediction.value == d.malicious {
        assert IsCorrect(d) && !IsFalsePositive(d) && !IsFalseNegative(d);
      } else if d.malicious {
        assert !IsCorrect(d) && !IsFalsePositive(d) && IsFalseNegative(d);
      } else {
        assert !IsCorrect(d) && IsFalsePositive(d) && !IsFalseNegative(d);
      }
    }
    FilterSplit3(dps, IsCorrect, IsFalsePositive, IsFalseNegative);
  }

  /**
   Each rate is the sentinel exactly when its denominator is zero, and
   otherwise a fraction between 0 and 1 over the right denominator.
   */
  lemma ReportRates(dps: seq<DataPoint>)
    requires AllCompleted(dps)
    ensures var r := ComputeReport(dps);
      && (r.accuracy.Undefined? <==> |dps| == 0)
      && (r.falseNegativeRate.Undefined? <==> r.numMalicious == 0)
      && (r.falsePositiveRate.Undefined? <==> r.numBenign == 0)
      && (r.accuracy.Ratio? ==> r.accuracy == Ratio(r.totalCorrect, r.totalSent))
      && (r.falseNegativeRate.Ratio? ==> r.falseNegativeRate == Ratio(r.numFalseNeg, r.numMalicious))
      && (r.falsePositiveRate.Ratio? ==> r.falsePositiveRate == Ratio(r.numFalsePos, r.numBenign))
      && (r.accuracy.Ratio? ==> r.accuracy.num <= r.accuracy.den)
      && (r.falseNegativeRate.Ratio? ==> r.falseNegativeRate.num <= r.falseNegativeRate.den)
      && (r.falsePositiveRate.Ratio? ==> r.falsePositiveRate.num <= r.falsePositiveRate.den)
  {
    ReportCounts(dps);
  }

  /** Once a record has a prediction it keeps one, whatever verdicts follow. */
  lemma {:induction false} PredictionsPersist(dps: seq<DataPoint>, vs: seq<Verdict>, i: nat)
    requires i < |dps| && dps[i].prediction.Some?
    ensures ApplyAll(dps, vs)[i].prediction.Some?
  {
    if vs != [] {
      PredictionsPersist(dps, vs[..|vs| - 1], i);
    }
  }

  /** A completed pass stays completed under any further verdicts. */
  lemma {:induction false} CompletedStaysCompleted(dps: seq<DataPoint>, vs: seq<Verdict>)
    requires AllCompleted(dps)
    ensures AllCompleted(ApplyAll(dps, vs))
  {
    forall i | 0 <= i < |dps| ensures ApplyAll(dps, vs)[i].prediction.Some? {
      PredictionsPersist(dps, vs, i);
    }
  }

  /**
   For a record with no earlier record of the same packet, the prediction after
   a run of verdicts is the last verdict about its packet (last write wins), or
   what it was before when no verdict is about it.
   */
  lemma {:induction false} PredictionIsLastVerdict(dps: seq<DataPoint>, vs: seq<Verdict>, i: nat)
    requires i < |dps| && IsFirstMatch(dps, i, dps[i].pkt)
    ensures LastVerdictFor(vs, dps[i].pkt).Some? ==>
              ApplyAll(dps, vs)[i].prediction == Some(LastVerdictFor(vs, dps[i].pkt).value)
    ensures LastVerdictFor(vs, dps[i].pkt).None? ==> ApplyAll(dps, vs)[i].prediction == dps[i].prediction
  {
    if vs != [] {
      var prefix, v := vs[..|vs| - 1], vs[|vs| - 1];
      PredictionIsLastVerdict(dps, prefix, i);
      var t := ApplyAll(dps, prefix);
      assert IsFirstMatch(t, i, t[i].pkt);
      if v.data == dps[i].pkt {
        assert IsFirstMatch(t, i, v.data);
      } else {
        assert !IsFirstMatch(t, i, v.data);
      }
    }
  }

  /**
   A distinct record with an earlier record of the same packet is never
   reached by lookup, so no verdict ever changes it.
   */
  lemma {:induction false} ShadowedRecordUnchanged(dps: seq<DataPoint>, vs: seq<Verdict>, i: nat, j: nat)
    requires i < j < |dps| && dps[i].pkt == dps[j].pkt
    ensures ApplyAll(dps, vs)[j] == dps[j]
  {
    if vs != [] {
      var prefix := vs[..|vs| - 1];
      ShadowedRecordUnchanged(dps, prefix, i, j);
      assert !IsFirstMatch(ApplyAll(dps, prefix), j, vs[|vs| - 1].data);
    }
  }

  /** With distinct packets, a verdict for every probe completes the pass. */
  lemma {:induction false} EveryProbeAnsweredCompletes(dps: seq<DataPoint>, vs: seq<Verdict>)
    requires forall i, j :: 0 <= i < j < |dps| ==> dps[i].pkt != dps[j].pkt
    requires forall i :: 0 <= i < |dps| ==> exists k :: 0 <= k < |vs| && vs[k].data == dps[i].pkt
    ensures AllCompleted(ApplyAll(dps, vs))
  {
    forall i | 0 <= i < |dps| ensures ApplyAll(dps, vs)[i].prediction.Some? {
      PredictionIsLastVerdict(dps, vs, i);
    }
  }

  /** With a packet held by two distinct records, the later one without a prediction, no run of verdicts completes the pass. */
  lemma DuplicateNeverCompletes(dps: seq<DataPoint>, vs: seq<Verdict>, i: nat, j: nat)
    requires i < j < |dps| && dps[i].pkt == dps[j].pkt && dps[j].prediction.None?
    ensures !AllCompleted(ApplyAll(dps, vs))
  {
    ShadowedRecordUnchanged(dps, vs, i, j);
  }

  /**
   A two-probe pass: a malicious probe "A" and a benign probe "B", both called
   malicious. One correct, one false positive, no false negative.
   */
  lemma TwoProbeScenario()
    ensures var s := ApplyAll([DataPoint([0x41], true, None), DataPoint([0x42], false, None)],
                              [Verdict(true, [0x41]), Verdict(true, [0x42])]);
      && AllCompleted(s)
      && ComputeReport(s) == Report(2, 1, 1, 1, 1, 0, Ratio(1, 2), Ratio(0, 1), Ratio(1, 1))
  {
  }

  /** The empty corpus is complete at once, and every rate of its report is the sentinel. */
  lemma EmptyCorpusReport()
    ensures AllCompleted([])
    ensures var r := ComputeReport([]);
      r.totalSent == 0 && r.accuracy == r.falseNegativeRate == r.falsePositiveRate == Undefined
  {
  }

  /**
   The monitor object. `dps` is the corpus, held by reference and updated in
   place; `listening` says whether the listener thread has been started;
   `trace` logs what the monitor has done through its transport, in order.
   */
  class Monitor {
    const dps: array<DataPoint>
    var listening: bool
    var trace: seq<Event>

    constructor (testData: array<DataPoint>)
      ensures dps == testData && !listening && trace == []
    {
      dps := testData;
      listening := false;
      trace := [];
    }

    /** Sends every probe once, in corpus order. */
    method Send()
      modifies this`trace
      ensures trace == old(trace) + Dispatches(dps[..])
    {
      var i := 0;
      while i < dps.Length
        invariant 0 <= i <= dps.Length
        invariant trace == old(trace) + Dispatches(dps[..i])
      {
        assert dps[..i + 1][..i] == dps[..i];
        trace := trace + [Sent(dps[i].pkt)];
        i := i + 1;
      }
      assert dps[..dps.Length] == dps[..];
    }

    /** The listener's callback for one decoded verdict packet. */
    method HandlePkt(v: Verdict)
      modifies dps
      ensures dps[..] == ApplyVerdict(old(dps[..]), v)
    {
      var found := DpForPkt(dps[..], v.data);
      if found.Some? {
        var i := found.value;
        dps[i] := dps[i].(prediction := Some(v.malicious));
      }
    }

    /** Starts the listener thread; a thread starts at most once, so a second call fails and changes nothing. */
    method Listen() returns (started: bool)
      modifies this`listening, this`trace
      ensures started == !old(listening)
      ensures listening
      ensures trace == old(trace) + (if started then [ListenStarted] else [])
    {
      started := !listening;
      if started {
        listening := true;
        trace := trace + [ListenStarted];
      }
    }

    /**
     The listener thread receiving `arrivals` in order: each is handled once the
     listener is running; verdicts that arrive before it starts are lost.
     */
    method Sniff(arrivals: seq<Verdict>)
      modifies dps
      ensures dps[..] == if listening then ApplyAll(old(dps[..]), arrivals) else old(dps[..])
    {
      if listening {
        var k := 0;
        while k < |arrivals|
          invariant 0 <= k <= |arrivals|
          invariant dps[..] == ApplyAll(old(dps[..]), arrivals[..k])
        {
          assert arrivals[..k + 1][..k] == arrivals[..k];
          HandlePkt(arrivals[k]);
          k := k + 1;
        }
        assert arrivals[..k] == arrivals;
      }
    }

    /** `completed()`: every record of the current corpus has a prediction. */
    predicate Completed()
      reads dps
      ensures Completed() <==> forall i :: 0 <= i < dps.Length ==> dps[i].prediction.Some?
    {
      AllCompleted(dps[..])
    }

    /** The report of a completed pass; asking before completion is a failed assertion in `monitor.py`. */
    method ShowResults() returns (r: Report)
      requires Completed()
      ensures r == ComputeReport(dps[..])
      ensures r.totalCorrect + r.numFalsePos + r.numFalseNeg == r.totalSent == dps.Length
    {
      ReportCounts(dps[..]);
      r := ComputeReport(dps[..]);
    }

    /** Sends every probe, then starts listening. */
    method Run() returns (started: bool)
      modifies this`listening, this`trace
      ensures started == !old(listening) && listening
      ensures trace == old(trace) + Dispatches(dps[..]) + (if started then [ListenStarted] else [])
    {
      Send();
      started := Listen();
    }
  }
}
