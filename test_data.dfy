/**
 The labelled probe corpus the monitor evaluates against (the `test_data`
 module of the repository). Its queries are modelled by what their names say:
 a data point is "completed" once it carries a prediction, "correct" when the
 prediction equals its ground-truth label, and so on. Each derived view is a
 filter over the current records, so it is always consistent with them.
 */
module TestData {

  /** The bytes of a probe packet. The packet itself is the correlation key. */
  type Packet = seq<bv8>

  datatype Option<+T> = None | Some(value: T)

  /** One probe: its packet, its immutable ground truth and the verdict seen so far. */
  datatype DataPoint = DataPoint(pkt: Packet, malicious: bool, prediction: Option<bool>)

  predicate IsCompleted(dp: DataPoint) { dp.prediction.Some? }
  predicate IsCorrect(dp: DataPoint) { dp.prediction == Some(dp.malicious) }
  predicate IsMalicious(dp: DataPoint) { dp.malicious }
  predicate IsBenign(dp: DataPoint) { !dp.malicious }
  /** A benign probe the classifier called malicious. */
  predicate IsFalsePositive(dp: DataPoint) { !dp.malicious && dp.prediction == Some(true) }
  /** A malicious probe the classifier called benign. */
  predicate IsFalseNegative(dp: DataPoint) { dp.malicious && dp.prediction == Some(false) }

  /** The records of `dps` that satisfy `p`, in corpus order. */
  function Filter(dps: seq<DataPoint>, p: DataPoint -> bool): (r: seq<DataPoint>)
    ensures |r| <= |dps|
    ensures forall d :: d in r ==> d in dps && p(d)
    ensures forall i :: 0 <= i < |dps| && p(dps[i]) ==> dps[i] in r
  {
    if dps == [] then []
    else (if p(dps[0]) then [dps[0]] else []) + Filter(dps[1..], p)
  }

  function CompletedDps(dps: seq<DataPoint>): (r: seq<DataPoint>) { Filter(dps, IsCompleted) }
  function CorrectDps(dps: seq<DataPoint>): (r: seq<DataPoint>) { Filter(dps, IsCorrect) }
  function MaliciousDps(dps: seq<DataPoint>): (r: seq<DataPoint>) { Filter(dps, IsMalicious) }
  function BenignDps(dps: seq<DataPoint>): (r: seq<DataPoint>) { Filter(dps, IsBenign) }
  function FalsePositiveDps(dps: seq<DataPoint>): (r: seq<DataPoint>) { Filter(dps, IsFalsePositive) }
  function FalseNegativeDps(dps: seq<DataPoint>): (r: seq<DataPoint>) { Filter(dps, IsFalseNegative) }

  /** `i` is the first record whose packet is `key`. */
  predicate IsFirstMatch(dps: seq<DataPoint>, i: int, key: Packet)
  {
    0 <= i < |dps| && dps[i].pkt == key && forall j :: 0 <= j < i ==> dps[j].pkt != key
  }

  /** Lookup by packet: the index of the first matching record, or None. */
  function DpForPkt(dps: seq<DataPoint>, key: Packet): (r: Option<nat>)
    ensures r.Some? ==> IsFirstMatch(dps, r.value, key)
    ensures r.None? <==> forall j :: 0 <= j < |dps| ==> dps[j].pkt != key
  {
    if dps == [] then None
    else if dps[0].pkt == key then Some(0)
    else match DpForPkt(dps[1..], key)
      case Some(i) => Some(i + 1)
      case None => None
  }

  /**
   A view holds each record satisfying its predicate exactly as often as the
   corpus does, and no other record: its length counts those records.
   */
  lemma {:induction false} FilterMultiset(dps: seq<DataPoint>, p: DataPoint -> bool)
    ensures forall d :: multiset(Filter(dps, p))[d] == if p(d) then multiset(dps)[d] else 0
  {
    if dps != [] {
      FilterMultiset(dps[1..], p);
      assert dps == [dps[0]] + dps[1..];
    }
  }

  /** Filtering keeps every record exactly when every record satisfies the predicate. */
  lemma {:induction false} FilterKeepsAll(dps: seq<DataPoint>, p: DataPoint -> bool)
    ensures |Filter(dps, p)| == |dps| <==> forall i :: 0 <= i < |dps| ==> p(dps[i])
  {
    if dps != [] {
      FilterKeepsAll(dps[1..], p);
      assert forall i :: 1 <= i < |dps| ==> dps[i] == dps[1..][i - 1];
      if !p(dps[0]) {
        assert |Filter(dps, p)| == |Filter(dps[1..], p)| <= |dps| - 1;
      }
    }
  }

  /** A weaker predicate never selects fewer records. */
  lemma {:induction false} FilterMonotone(dps: seq<DataPoint>, p: DataPoint -> bool, q: DataPoint -> bool)
    requires forall i :: 0 <= i < |dps| ==> p(dps[i]) ==> q(dps[i])
    ensures |Filter(dps, p)| <= |Filter(dps, q)|
  {
    if dps != [] {
      assert forall i :: 1 <= i < |dps| ==> dps[i] == dps[1..][i - 1];
      FilterMonotone(dps[1..], p, q);
    }
  }

  /** Two predicates that split every record between them split the count too. */
  lemma {:induction false} FilterSplit(dps: seq<DataPoint>, p: DataPoint -> bool, q: DataPoint -> bool)
    requires forall i :: 0 <= i < |dps| ==> p(dps[i]) != q(dps[i])
    ensures |Filter(dps, p)| + |Filter(dps, q)| == |dps|
  {
    if dps != [] {
      assert forall i :: 1 <= i < |dps| ==> dps[i] == dps[1..][i - 1];
      FilterSplit(dps[1..], p, q);
    }
  }

  predicate ExactlyOne(a: bool, b: bool, c: bool)
  {
    (if a then 1 else 0) + (if b then 1 else 0) + (if c then 1 else 0) == 1
  }

  /** Three predicates that put every record in exactly one class split the count three ways. */
  lemma {:induction false} FilterSplit3(dps: seq<DataPoint>, p: DataPoint -> bool, q: DataPoint -> bool, t: DataPoint -> bool)
    requires forall i :: 0 <= i < |dps| ==> ExactlyOne(p(dps[i]), q(dps[i]), t(dps[i]))
    ensures |Filter(dps, p)| + |Filter(dps, q)| + |Filter(dps, t)| == |dps|
  {
    if dps != [] {
      assert forall i :: 1 <= i < |dps| ==> dps[i] == dps[1..][i - 1];
      FilterSplit3(dps[1..], p, q, t);
      assert ExactlyOne(p(dps[0]), q(dps[0]), t(dps[0]));
    }
  }
}
