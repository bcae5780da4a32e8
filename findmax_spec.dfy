/** What FindMax sends: after each received request, the running maximum
    of the numbers received so far, where the running maximum starts at 0. */
module FindMaxSpec {
  import opened Base
  import opened Calculatorpb

  /** One iteration's update of the accumulator: `if num > max { max = num }`. */
  function Step(acc: int32, num: int32): int32 {
    if num > acc then num else acc
  }

  /** The accumulator after folding `reqs` into `acc`. */
  function Fold(acc: int32, reqs: seq<FindMaxRequest>): int32
    decreases |reqs|
  {
    if reqs == [] then acc else Fold(Step(acc, reqs[0].num), reqs[1..])
  }

  /** The responses sent while folding `reqs` into `acc`: one after each
      request, carrying the accumulator at that point. */
  function RepliesFrom(acc: int32, reqs: seq<FindMaxRequest>): seq<FindMaxResponse>
    decreases |reqs|
  {
    if reqs == [] then []
    else
      var next := Step(acc, reqs[0].num);
      [FindMaxResponse(next)] + RepliesFrom(next, reqs[1..])
  }

  /** The accumulator after `reqs`, starting from 0 as the handler does. */
  function Peak(reqs: seq<FindMaxRequest>): int32 {
    Fold(0, reqs)
  }

  /** The responses a FindMax call sends for `reqs`. */
  function Replies(reqs: seq<FindMaxRequest>): seq<FindMaxResponse> {
    RepliesFrom(0, reqs)
  }

  /** `m` is the larger of `acc` and every number in `reqs`. */
  ghost predicate IsMaxFrom(m: int32, acc: int32, reqs: seq<FindMaxRequest>) {
    && acc <= m
    && (forall j :: 0 <= j < |reqs| ==> reqs[j].num <= m)
    && (m == acc || exists j :: 0 <= j < |reqs| && reqs[j].num == m)
  }

  /** `m` is the larger of 0 and every number in `reqs`. */
  ghost predicate IsPeakOf(m: int32, reqs: seq<FindMaxRequest>) {
    IsMaxFrom(m, 0, reqs)
  }

  lemma {:induction false} FoldIsMaximum(acc: int32, reqs: seq<FindMaxRequest>)
    ensures IsMaxFrom(Fold(acc, reqs), acc, reqs)
    decreases |reqs|
  {
    if reqs != [] {
      var next := Step(acc, reqs[0].num);
      FoldIsMaximum(next, reqs[1..]);
      var m := Fold(acc, reqs);
      forall j | 0 <= j < |reqs|
        ensures reqs[j].num <= m
      {
        if j > 0 {
          assert reqs[j] == reqs[1..][j - 1];
        }
      }
      if m != acc && m != next {
        var j :| 0 <= j < |reqs[1..]| && reqs[1..][j].num == m;
        assert reqs[j + 1].num == m;
      }
    }
  }

  /** The accumulator is at least 0 and every number received, and it is
      0 or one of those numbers. */
  lemma PeakIsMaximum(reqs: seq<FindMaxRequest>)
    ensures IsPeakOf(Peak(reqs), reqs)
  {
    FoldIsMaximum(0, reqs);
  }

  /** The accumulator is exactly the larger of 0 and the maximum of the
      numbers received: nothing else satisfies that description. */
  lemma PeakCharacterized(m: int32, reqs: seq<FindMaxRequest>)
    ensures IsPeakOf(m, reqs) <==> m == Peak(reqs)
  {
    FoldIsMaximum(0, reqs);
  }

  lemma {:induction false} RepliesFromAt(acc: int32, reqs: seq<FindMaxRequest>)
    ensures |RepliesFrom(acc, reqs)| == |reqs|
    ensures forall i :: 0 <= i < |reqs| ==>
              RepliesFrom(acc, reqs)[i].max == Fold(acc, reqs[..i + 1])
    decreases |reqs|
  {
    if reqs != [] {
      var next := Step(acc, reqs[0].num);
      RepliesFromAt(next, reqs[1..]);
      forall i | 0 <= i < |reqs|
        ensures RepliesFrom(acc, reqs)[i].max == Fold(acc, reqs[..i + 1])
      {
        assert reqs[..i + 1][1..] == reqs[1..][..i];
        if i > 0 {
          assert reqs[1..][..i] == reqs[1..][..(i - 1) + 1];
        }
      }
    }
  }

  /** Exactly one response per request, and response `i` carries the
      accumulator after the first `i + 1` requests. */
  lemma RepliesAt(reqs: seq<FindMaxRequest>)
    ensures |Replies(reqs)| == |reqs|
    ensures forall i :: 0 <= i < |reqs| ==> Replies(reqs)[i].max == Peak(reqs[..i + 1])
  {
    RepliesFromAt(0, reqs);
  }

  /** Receiving more requests never lowers the accumulator. */
  lemma {:induction false} FoldGrows(acc: int32, reqs: seq<FindMaxRequest>, k: nat)
    requires k <= |reqs|
    ensures Fold(acc, reqs[..k]) <= Fold(acc, reqs)
    decreases |reqs|
  {
    if k == 0 {
      FoldIsMaximum(acc, reqs);
    } else {
      assert reqs[..k][1..] == reqs[1..][..k - 1];
      FoldGrows(Step(acc, reqs[0].num), reqs[1..], k - 1);
    }
  }

  /** The responses form a non-decreasing sequence. */
  lemma RepliesNonDecreasing(reqs: seq<FindMaxRequest>, i: nat, j: nat)
    requires i <= j < |reqs|
    ensures |Replies(reqs)| == |reqs|
    ensures Replies(reqs)[i].max <= Replies(reqs)[j].max
  {
    RepliesAt(reqs);
    var upto := reqs[..j + 1];
    assert upto[..i + 1] == reqs[..i + 1];
    FoldGrows(0, upto, i + 1);
  }

  /** When no number received is positive every response is 0: the
      accumulator starts at 0, not at the first number. */
  lemma NonPositiveInputsGiveZero(reqs: seq<FindMaxRequest>)
    requires forall j :: 0 <= j < |reqs| ==> reqs[j].num <= 0
    ensures |Replies(reqs)| == |reqs|
    ensures forall i :: 0 <= i < |reqs| ==> Replies(reqs)[i].max == 0
  {
    RepliesAt(reqs);
    forall i | 0 <= i < |reqs|
      ensures Replies(reqs)[i].max == 0
    {
      PeakIsMaximum(reqs[..i + 1]);
    }
  }

  /** The numbers the client sends, 5, 10, 12, 3, 4, are answered with
      5, 10, 12, 12, 12. */
  lemma ClientExample()
    ensures Replies([FindMaxRequest(5), FindMaxRequest(10), FindMaxRequest(12),
                     FindMaxRequest(3), FindMaxRequest(4)])
         == [FindMaxResponse(5), FindMaxResponse(10), FindMaxResponse(12),
             FindMaxResponse(12), FindMaxResponse(12)]
  {
  }
}
