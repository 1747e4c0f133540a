/** Asking the kernel for an exact number of interrupt vectors. */
module Msix {
  import opened Types

  const NO_SPACE := -28

  /** What is asked for at call k, when each answer so far was taken as the next request. */
  function Request(nvec: int, answers: seq<int>, k: nat): int
    requires k <= |answers|
  {
    if k == 0 then nvec else answers[k - 1]
  }

  /** The first n answers each offer at least what was asked for. */
  ghost predicate Offered(nvec: int, answers: seq<int>, n: nat)
    requires n <= |answers|
  {
    forall k: nat {:trigger answers[k]} :: k < n ==> answers[k] > 0 && answers[k] >= Request(nvec, answers, k)
  }

  lemma {:induction false} NeverLowered(nvec: int, answers: seq<int>, n: nat)
    requires n <= |answers| && Offered(nvec, answers, n)
    ensures forall k: nat {:trigger Request(nvec, answers, k)} :: k <= n ==> nvec <= Request(nvec, answers, k) <= Request(nvec, answers, n)
  {
    if n > 0 { NeverLowered(nvec, answers, n - 1); }
  }

  /** How a run of offers goes on, or ends. */
  lemma OfferedStep(nvec: int, answers: seq<int>, n: nat)
    requires n < |answers| && Offered(nvec, answers, n)
    ensures Offered(nvec, answers, n + 1) <==> answers[n] > 0 && answers[n] >= Request(nvec, answers, n)
    ensures !Offered(nvec, answers, n + 1) ==> !Offered(nvec, answers, |answers|)
  {
  }

  /** The last request is the first one exactly if nothing more was ever offered. */
  lemma ExactIff(nvec: int, answers: seq<int>, n: nat)
    requires n <= |answers| && Offered(nvec, answers, n)
    ensures Request(nvec, answers, n) == nvec <==> forall k :: 0 <= k < n ==> answers[k] == nvec
    ensures n > 0 ==> answers[0] >= nvec
  {
    NeverLowered(nvec, answers, n);
    assert forall k :: 0 <= k < n ==> answers[k] == Request(nvec, answers, k + 1);
  }

  /**
   * pci_enable_msix_exact against a kernel giving these answers: `rc` is None if it is still asking when they run out.
   * It never returns a positive value and never lowers its request. It goes on asking exactly as long as it is offered
   * at least what it asks for, so a kernel that only ever offers less is asked once. It returns 0 with the vectors
   * of the last request, which are exactly as many as wanted exactly if nothing more was ever offered.
   */
  method EnableExact(nvec: int, answers: seq<int>) returns (rc: Option<int>, requests: seq<int>)
    ensures |requests| <= |answers| && forall k :: 0 <= k < |requests| ==> requests[k] == Request(nvec, answers, k) >= nvec
    ensures forall k :: 0 <= k < |requests| ==> requests[k] == if k == 0 then nvec else answers[k - 1]
    ensures forall k :: 0 <= k < |requests| - 1 ==> 0 < answers[k] && requests[k] <= answers[k]
    ensures rc.None? <==> Offered(nvec, answers, |answers|)
    ensures rc.None? ==> |requests| == |answers|
    ensures rc.Some? ==> requests != [] && Offered(nvec, answers, |requests| - 1) && rc.value <= 0
    ensures rc.Some? ==> var (asked, answer) := (requests[|requests| - 1], answers[|requests| - 1]);
              && (rc.value == 0 <==> answer == 0)
              && (answer > 0 ==> answer < asked && rc.value == -28)
              && (answer < 0 ==> rc.value == answer)
    ensures rc == Some(0) ==>
              (requests[|requests| - 1] == nvec <==> forall k :: 0 <= k < |requests| - 1 ==> answers[k] == nvec)
    ensures (forall k :: 0 <= k < |answers| ==> answers[k] < nvec) && answers != [] ==> rc.Some? && |requests| == 1
  {
    hide Offered;
    requests := [];
    var n := nvec;
    OfferedNothing(nvec, answers);
    for k := 0 to |answers|
      invariant |requests| == k && n == Request(nvec, answers, k) && Offered(nvec, answers, k)
      invariant forall j :: 0 <= j < k ==> requests[j] == Request(nvec, answers, j)
      invariant forall j :: 0 <= j < k ==> 0 < answers[j] && requests[j] <= answers[j]
    {
      NeverLowered(nvec, answers, k);
      OfferedStep(nvec, answers, k);
      ExactIff(nvec, answers, k);
      requests := requests + [n];
      var answer := answers[k];
      if answer < 0 {
        return Some(answer), requests;
      } else if answer > 0 {
        if answer < n {
          return Some(NO_SPACE), requests;
        }
        n := answer;
      } else {
        return Some(0), requests;
      }
    }
    NeverLowered(nvec, answers, |answers|);
    ExactIff(nvec, answers, |answers|);
    rc := None;
  }

  lemma OfferedNothing(nvec: int, answers: seq<int>)
    ensures Offered(nvec, answers, 0)
  {
  }
}
