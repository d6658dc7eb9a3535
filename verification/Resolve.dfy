/** spec/resolve.go: endpoints are scored concurrently, one goroutine each, and the first one of
    maximal score is chosen. */
module Resolve {
  import opened Prelude
  import opened Specs

  /** What a scorer returns for one endpoint: an error or a score. */
  datatype Verdict = Bad | Score(value: int)

  /** How ChooseEndpoint ends: ErrAllEndpointsBad, an index, or the panic "unreachable". */
  datatype Choice = AllBad | Picked(index: nat) | Panic

  /** maxI and maxScore after the first `n` verdicts. */
  function Best(vs: seq<Verdict>, n: nat): (b: (int, int))
    requires n <= |vs|
  {
    if n == 0 then (-1, -1)
    else
      var (i, score) := Best(vs, n - 1);
      match vs[n-1]
      case Bad => (i, score)
      case Score(s) => if s > score then (n - 1, s) else (i, score)
  }

  lemma {:induction false} BestMeans(vs: seq<Verdict>, n: nat)
    requires n <= |vs|
    ensures var (i, score) := Best(vs, n);
      && -1 <= i < n
      && (i == -1 ==> score == -1)
      && (i >= 0 ==>
            score >= 0 && vs[i] == Score(score) && forall k | 0 <= k < i && vs[k].Score? :: vs[k].value < score)
      && (forall k | 0 <= k < n && vs[k].Score? :: vs[k].value <= score)
  {
    if n > 0 {
      BestMeans(vs, n - 1);
    }
  }

  function ChoiceOf(vs: seq<Verdict>): Choice {
    if forall k | 0 <= k < |vs| :: vs[k].Bad? then AllBad
    else
      BestMeans(vs, |vs|);
      var i := Best(vs, |vs|).0;
      if i == -1 then Panic else Picked(i)
  }

  /** The least index of maximal score among the endpoints without an error. */
  ghost predicate FirstMaximum(vs: seq<Verdict>, i: nat) {
    && i < |vs|
    && vs[i].Score?
    && (forall k | 0 <= k < |vs| && vs[k].Score? :: vs[k].value <= vs[i].value)
    && (forall k | 0 <= k < i && vs[k].Score? :: vs[k].value < vs[i].value)
  }

  /** The choice is the first maximum; it is refused exactly when every endpoint errs; and the
      panic marked unreachable is reached exactly when all the scores there are, are negative. */
  lemma ChoiceMeans(vs: seq<Verdict>)
    ensures ChoiceOf(vs) == AllBad <==> forall k | 0 <= k < |vs| :: vs[k].Bad?
    ensures ChoiceOf(vs).Picked? ==> FirstMaximum(vs, ChoiceOf(vs).index)
    ensures ChoiceOf(vs) == Panic
            <==> (exists k | 0 <= k < |vs| :: vs[k].Score?)
                 && forall k | 0 <= k < |vs| && vs[k].Score? :: vs[k].value < 0
    ensures forall i: nat | FirstMaximum(vs, i) && vs[i].value >= 0 :: ChoiceOf(vs) == Picked(i)
  {
    BestMeans(vs, |vs|);
    forall i: nat | FirstMaximum(vs, i) && vs[i].value >= 0 ensures ChoiceOf(vs) == Picked(i) {
      var b := Best(vs, |vs|).0;
      assert vs[b].Score? && vs[i].Score?;
    }
  }

  /** Every index below `n` occurs, and no other. */
  ghost predicate Schedule(order: seq<nat>, n: nat) {
    && (forall i | 0 <= i < n :: i in order)
    && (forall k | 0 <= k < |order| :: order[k] < n)
  }

  /** ChooseEndpoint. `order` is the order in which the goroutines write their results; the
      outcome does not depend on it. */
  method ChooseEndpoint(d: CensoredDevice, verdicts: seq<Verdict>, order: seq<nat>)
    returns (choice: Choice, d': CensoredDevice)
    requires |verdicts| == |d.endpoints| && Schedule(order, |verdicts|)
    ensures choice == ChoiceOf(verdicts)
    ensures d' == if choice.Picked? then d.(endpointIndex := choice.index, chosen := true) else d
  {
    var n := |d.endpoints|;
    var scores := new int[n](_ => 0);
    var errs := new bool[n](_ => false);
    for k := 0 to |order|
      invariant forall l | 0 <= l < k :: errs[order[l]] == verdicts[order[l]].Bad?
      invariant forall l | 0 <= l < k && verdicts[order[l]].Score? :: scores[order[l]] == verdicts[order[l]].value
    {
      var i := order[k];
      match verdicts[i] {
        case Bad => scores[i], errs[i] := 0, true;
        case Score(s) => scores[i], errs[i] := s, false;
      }
    }
    // wg.Wait(): every goroutine has written.
    forall i | 0 <= i < n
      ensures errs[i] == verdicts[i].Bad? && (verdicts[i].Score? ==> scores[i] == verdicts[i].value)
    {
      assert i in order;
      var l :| 0 <= l < |order| && order[l] == i;
    }
    d' := d;
    var ok := false;
    for i := 0 to n
      invariant forall k | 0 <= k < n ::
        errs[k] == verdicts[k].Bad? && (verdicts[k].Score? ==> scores[k] == verdicts[k].value)
      invariant ok <==> exists k | 0 <= k < i :: !verdicts[k].Bad?
    {
      if !errs[i] {
        ok := true;
      }
    }
    if !ok {
      return AllBad, d;
    }
    var maxI, maxScore := -1, -1;
    for i := 0 to n
      invariant forall k | 0 <= k < n ::
        errs[k] == verdicts[k].Bad? && (verdicts[k].Score? ==> scores[k] == verdicts[k].value)
      invariant (maxI, maxScore) == Best(verdicts, i)
    {
      if errs[i] {
        continue;
      }
      if scores[i] > maxScore {
        maxI, maxScore := i, scores[i];
      }
    }
    BestMeans(verdicts, n);
    if maxI == -1 {
      return Panic, d;
    }
    return Picked(maxI), d.(endpointIndex := maxI, chosen := true);
  }
}
