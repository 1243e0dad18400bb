/**
 * Slug disambiguation shared by the browser's slugger and the back-office form handlers:
 * a base slug is tried first, then `base-1`, `base-2`, … until one is not taken.
 */
module Slugs {
  import opened Text

  /** The `i`-th slug tried for a base slug: the base itself, then `base-1`, `base-2`, … */
  function Candidate(base: string, i: nat): string
  {
    if i == 0 then base else base + "-" + NatToString(i)
  }

  lemma CandidateInjective(base: string, i: nat, j: nat)
    ensures Candidate(base, i) == Candidate(base, j) ==> i == j
  {
    if i != 0 && j != 0 && Candidate(base, i) == Candidate(base, j) {
      var p := base + "-";
      assert NatToString(i) == Candidate(base, i)[|p|..];
      assert NatToString(j) == Candidate(base, j)[|p|..];
      NatToBaseInjective(i, j, 10);
    }
  }

  /** The first `n` candidates are `n` distinct strings. */
  lemma {:induction false} CandidatesCount(base: string, n: nat)
    ensures |set j | 0 <= j < n :: Candidate(base, j)| == n
    decreases n
  {
    if n > 0 {
      CandidatesCount(base, n - 1);
      var before := set j | 0 <= j < n - 1 :: Candidate(base, j);
      var c := Candidate(base, n - 1);
      CandidateFresh(base, n - 1);
      CandidatesGrow(base, n - 1);
    }
  }

  lemma CandidateFresh(base: string, n: nat)
    ensures Candidate(base, n) !in set j | 0 <= j < n :: Candidate(base, j)
  {
    forall j | 0 <= j < n
      ensures Candidate(base, j) != Candidate(base, n)
    {
      CandidateInjective(base, j, n);
    }
  }

  lemma CandidatesGrow(base: string, n: nat)
    ensures (set j | 0 <= j < n + 1 :: Candidate(base, j))
      == (set j | 0 <= j < n :: Candidate(base, j)) + {Candidate(base, n)}
  {
  }

  /** Pigeonhole: among the first `|used| + 1` candidates one is free. */
  lemma SomeCandidateFree(base: string, used: set<string>)
    ensures exists j :: 0 <= j <= |used| && Candidate(base, j) !in used
  {
    var n := |used| + 1;
    var cs := set j | 0 <= j < n :: Candidate(base, j);
    CandidatesCount(base, n);
    if forall j :: 0 <= j <= |used| ==> Candidate(base, j) in used {
      assert cs <= used;
      SubsetCard(cs, used);
      assert false;
    }
  }

  lemma SubsetCard<T>(a: set<T>, b: set<T>)
    requires a <= b
    ensures |a| <= |b|
  {
    assert b == a + (b - a);
  }

  function FirstFree(base: string, used: set<string>, i: nat): (r: nat)
    requires i <= |used| + 1
    requires exists j :: i <= j <= |used| && Candidate(base, j) !in used
    ensures i <= r <= |used| && Candidate(base, r) !in used
    ensures forall j :: i <= j < r ==> Candidate(base, j) in used
    decreases |used| + 1 - i
  {
    if Candidate(base, i) !in used then i
    else
      assert exists j :: i + 1 <= j <= |used| && Candidate(base, j) !in used by {
        var j :| i <= j <= |used| && Candidate(base, j) !in used;
        assert j != i;
      }
      FirstFree(base, used, i + 1)
  }

  /** The first candidate of `base` that is not in `taken`. */
  function Disambiguate(base: string, taken: set<string>): (r: string)
    ensures r !in taken
    ensures base !in taken ==> r == base
    ensures exists n ::
      && 0 <= n <= |taken| && r == Candidate(base, n)
      && (forall j :: 0 <= j < n ==> Candidate(base, j) in taken)
  {
    SomeCandidateFree(base, taken);
    Candidate(base, FirstFree(base, taken, 0))
  }

  /**
   * The handlers' probing loop: the base slug if it is free, otherwise `base-i` for
   * i = 1, 2, … until a probe reports the file absent. `taken` is the set of slugs
   * whose file the probe reports present.
   */
  method ProbeSlug(base: string, taken: set<string>) returns (slug: string)
    ensures slug == Disambiguate(base, taken)
  {
    slug := base;
    if base in taken {
      SomeCandidateFree(base, taken);
      ghost var first := FirstFree(base, taken, 0);
      var i: nat := 1;
      while Candidate(base, i) in taken
        invariant 1 <= i <= first
        decreases first - i
      {
        i := i + 1;
      }
      assert i == first by {
        if i < first {
          assert false;
        }
      }
      slug := base + "-" + NatToString(i);
    }
  }
}
