/** Collision-safe names: a loop over used names that escalates until it finds a free one. */
module NameAllocation {
  import opened Decimals

  /** The names tried in turn: the base itself, then base_2, base_3, ... */
  function Candidate(base: string, k: nat): string {
    if k < 2 then base else base + "_" + NatText(k)
  }

  lemma CandidateInjective(base: string, j: nat, k: nat)
    requires 1 <= j && 1 <= k && Candidate(base, j) == Candidate(base, k)
    ensures j == k
  {
    var prefix := base + "_";
    if j >= 2 && k >= 2 {
      assert Candidate(base, j)[|prefix|..] == NatText(j);
      assert Candidate(base, k)[|prefix|..] == NatText(k);
      NatTextInjective(j, k);
    }
  }

  /** The first candidate from k on that is not used; ends because every failed try was used once. */
  function FirstFree(base: string, used: set<string>, k: nat): string
    decreases |used|
  {
    if Candidate(base, k) in used then
      assert |used - {Candidate(base, k)}| < |used|;
      FirstFree(base, used - {Candidate(base, k)}, k + 1)
    else Candidate(base, k)
  }

  /** FirstFree is the least free candidate. */
  lemma {:induction false} FirstFreeIsLeast(base: string, used: set<string>, k: nat) returns (m: nat)
    requires k >= 1
    ensures m >= k && FirstFree(base, used, k) == Candidate(base, m) && Candidate(base, m) !in used
    ensures forall j :: k <= j < m ==> Candidate(base, j) in used
    decreases |used|
  {
    var c := Candidate(base, k);
    if c in used {
      m := FirstFreeIsLeast(base, used - {c}, k + 1);
      if Candidate(base, m) == c {
        CandidateInjective(base, m, k);
      }
    } else {
      m := k;
    }
  }

  lemma FirstFreeIsFree(base: string, used: set<string>, k: nat)
    requires k >= 1
    ensures FirstFree(base, used, k) !in used
  {
    var m := FirstFreeIsLeast(base, used, k);
  }

  /** Shows that the escalation loop stops: the tried names are distinct and all used. */
  lemma {:induction false} TriedNames(base: string, used: set<string>, start: nat, k: nat) returns (tried: set<string>)
    requires 1 <= start <= k
    requires forall j :: start <= j < k ==> Candidate(base, j) in used
    ensures tried <= used && |tried| == k - start
    ensures forall name :: name in tried ==> exists j :: start <= j < k && name == Candidate(base, j)
    decreases k
  {
    if k == start {
      tried := {};
    } else {
      tried := TriedNames(base, used, start, k - 1);
      var next := Candidate(base, k - 1);
      if next in tried {
        var j :| start <= j < k - 1 && next == Candidate(base, j);
        CandidateInjective(base, j, k - 1);
      }
      tried := tried + {next};
    }
  }

  lemma TriesBounded(base: string, used: set<string>, start: nat, k: nat)
    requires 1 <= start <= k
    requires forall j :: start <= j < k ==> Candidate(base, j) in used
    ensures k - start <= |used|
  {
    var tried := TriedNames(base, used, start, k);
    assert used == tried + (used - tried);
  }

  lemma {:induction false} FirstFreeSkips(base: string, used: set<string>, start: nat, k: nat)
    requires 1 <= start <= k
    requires forall j :: start <= j < k ==> Candidate(base, j) in used
    requires Candidate(base, k) !in used
    ensures FirstFree(base, used, start) == Candidate(base, k)
  {
    var m := FirstFreeIsLeast(base, used, start);
    assert m <= k;
  }

  /** The escalation loop of the allocators: `first` is tried before base_2, base_3, ... */
  method Escalate(first: string, base: string, used: set<string>) returns (name: string)
    ensures name == if first !in used then first else FirstFree(base, used, 2)
    ensures name !in used
  {
    FirstFreeIsFree(base, used, 2);
    name := first;
    var escalation := 2;
    while name in used
      invariant 2 <= escalation
      invariant forall j :: 2 <= j < escalation ==> j == escalation - 1 || Candidate(base, j) in used
      invariant escalation == 2 ==> name == first
      invariant escalation > 2 ==> first in used && name == Candidate(base, escalation - 1)
      decreases |used| + 3 - escalation
    {
      TriesBounded(base, used, 2, if escalation == 2 then 2 else escalation);
      name := base + "_" + NatText(escalation);
      escalation := escalation + 1;
    }
    if escalation > 2 {
      FirstFreeSkips(base, used, 2, escalation - 1);
    }
  }
}
