/**
 * Progress notices: an exporter reports its running count whenever the
 * count reaches a multiple of a fixed step.
 */
module Progress {

  lemma MulAtLeast(k: int, e: int)
    requires k >= 1 && e > 0
    ensures k * e >= e
  {
    assert (k - 1) * e >= 0;
  }

  /** Quotient and remainder are unique. */
  lemma DivUnique(a: int, e: int, q: int, r: int)
    requires e > 0 && a == q * e + r && 0 <= r < e
    ensures a / e == q && a % e == r
  {
    var q', r' := a / e, a % e;
    assert a == q' * e + r' && 0 <= r' < e;
    if q' > q {
      MulAtLeast(q' - q, e);
    } else if q' < q {
      MulAtLeast(q - q', e);
    }
  }

  /** Counting one more entity adds one multiple of `every` exactly when the new count is one. */
  lemma CountStep(n: nat, every: nat)
    requires n > 0 && every > 0
    ensures n / every == (n - 1) / every + (if n % every == 0 then 1 else 0)
  {
    var q, r := (n - 1) / every, (n - 1) % every;
    assert n - 1 == q * every + r && 0 <= r < every;
    if r == every - 1 {
      assert n == (q + 1) * every;
      DivUnique(n, every, q + 1, 0);
    } else {
      assert n == q * every + (r + 1);
      DivUnique(n, every, q, r + 1);
    }
  }

  /**
   * The counts reported after `n` entities: the earlier ones, then `n`
   * itself when it is a multiple of `every`.
   */
  function ProgressMarks(n: nat, every: nat): seq<nat>
    requires every > 0
  {
    if n == 0 then [] else ProgressMarks(n - 1, every) + (if n % every == 0 then [n] else [])
  }

  /**
   * One notice whenever the count reaches a multiple of `every`: the counts
   * reported after `n` entities are exactly the multiples of `every` in
   * 1..n, ascending, and there are `n / every` of them.
   */
  lemma {:induction false} ProgressMarksSpec(n: nat, every: nat)
    requires every > 0
    ensures var marks := ProgressMarks(n, every);
      (forall k :: k in marks <==> 1 <= k <= n && k % every == 0) &&
      (forall i, j :: 0 <= i < j < |marks| ==> marks[i] < marks[j]) &&
      |marks| == n / every
  {
    if n > 0 {
      ProgressMarksSpec(n - 1, every);
      var before := ProgressMarks(n - 1, every);
      assert forall i :: 0 <= i < |before| ==> before[i] < n by {
        forall i | 0 <= i < |before| ensures before[i] < n {
          assert before[i] in before;
        }
      }
      CountStep(n, every);
    }
  }

  /** Counting one more entity appends a notice exactly when the new count is a multiple of `every`. */
  lemma ProgressStep(n: nat, every: nat)
    requires every > 0
    ensures ProgressMarks(n + 1, every) == ProgressMarks(n, every) + (if (n + 1) % every == 0 then [n + 1] else [])
  {
  }

  /** No notice before the first full step: fewer than `every` entities give none. */
  lemma NoNoticeBeforeFirstStep(n: nat, every: nat)
    requires 0 < every && n < every
    ensures ProgressMarks(n, every) == []
  {
    ProgressMarksSpec(n, every);
  }
}
