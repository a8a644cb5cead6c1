/** One generation of the engine as a function of the buffer: the commit phase
    (`incrementTime` on every slot) followed by the compute phase (every live
    slot's future value rewritten by the rule from the committed values of the
    slots its topology offsets reach, in topology order). `Grid.Update` is
    proved to produce exactly `Step`. */
module Generation {
  import opened Cells

  /** Every slot can be read without dereferencing a null pointer. */
  predicate AllReadable<T>(cs: seq<Cell<T>>)
  {
    forall k :: 0 <= k < |cs| ==> Readable(cs[k])
  }

  /** From every live slot, every offset lands inside the buffer. */
  predicate NeighborsInside<T>(cs: seq<Cell<T>>, nbh: seq<int>)
  {
    forall k, j :: 0 <= k < |cs| && cs[k].Live? && 0 <= j < |nbh| ==> 0 <= k + nbh[j] < |cs|
  }

  /** Two buffers with the same halo/live layout. */
  ghost predicate SameLayout<T>(a: seq<Cell<T>>, b: seq<Cell<T>>)
  {
    |a| == |b| && forall k :: 0 <= k < |a| ==> (a[k].Live? <==> b[k].Live?) && (a[k].Halo? ==> a[k] == b[k])
  }

  /** The commit phase: `incrementTime` on every slot. */
  function CommitAll<T>(cs: seq<Cell<T>>): (r: seq<Cell<T>>)
    ensures SameLayout(cs, r)
  {
    seq(|cs|, k requires 0 <= k < |cs| => IncrementTime(cs[k]))
  }

  /** The values the scratch vector holds for slot k: the current value of the
      slot each offset reaches, in topology order. */
  function Gather<T>(cs: seq<Cell<T>>, nbh: seq<int>, shared: T, k: nat): (ns: seq<T>)
    requires AllReadable(cs) && NeighborsInside(cs, nbh)
    requires k < |cs| && cs[k].Live?
    ensures |ns| == |nbh|
    ensures forall j :: 0 <= j < |nbh| && cs[k + nbh[j]].Halo? ==> ns[j] == shared
  {
    seq(|nbh|, j requires 0 <= j < |nbh| => Get(cs[k + nbh[j]], shared))
  }

  /** One call of `update()`. */
  function Step<T>(cs: seq<Cell<T>>, nbh: seq<int>, shared: T, rule: (T, seq<T>) -> T): (r: seq<Cell<T>>)
    requires AllReadable(cs) && NeighborsInside(cs, nbh)
    ensures SameLayout(cs, r)
  {
    var c := CommitAll(cs);
    assert AllReadable(c) && NeighborsInside(c, nbh);
    var r := seq(|c|, k requires 0 <= k < |c| =>
      if c[k].Halo? then c[k] else WithFuture(c[k], rule(c[k].future, Gather(c, nbh, shared, k))));
    assert forall k :: 0 <= k < |r| ==>
      r[k] == if c[k].Halo? then c[k] else WithFuture(c[k], rule(c[k].future, Gather(c, nbh, shared, k)));
    r
  }

  /** Two buffers every slot of which reads the same. */
  ghost predicate ReadsAs<T>(a: seq<Cell<T>>, b: seq<Cell<T>>, shared: T)
  {
    |a| == |b| && forall m :: 0 <= m < |a| ==>
      Readable(a[m]) && Readable(b[m]) && Get(a[m], shared) == Get(b[m], shared)
  }

  /** Overwriting a slot with a cell that reads the same keeps two buffers
      reading alike. */
  lemma ReadsAsUpdate<T>(a: seq<Cell<T>>, b: seq<Cell<T>>, shared: T, i: nat, c: Cell<T>)
    requires ReadsAs(a, b, shared) && i < |a| && Readable(c) && Get(c, shared) == Get(a[i], shared)
    ensures ReadsAs(a[i := c], b, shared)
  {
  }

  // ---------------------------------------------------------------------------

  /** Slot k of a step, as the compute loop produces it from the committed
      buffer. */
  lemma StepAt<T>(cs: seq<Cell<T>>, nbh: seq<int>, shared: T, rule: (T, seq<T>) -> T, k: nat)
    requires AllReadable(cs) && NeighborsInside(cs, nbh) && k < |cs|
    ensures AllReadable(CommitAll(cs)) && NeighborsInside(CommitAll(cs), nbh)
    ensures |Step(cs, nbh, shared, rule)| == |cs|
    ensures var c := CommitAll(cs);
      Step(cs, nbh, shared, rule)[k]
        == if c[k].Halo? then c[k]
           else WithFuture(c[k], rule(c[k].future, Gather(c, nbh, shared, k)))
  {
  }

  lemma CommitKeepsSafety<T>(cs: seq<Cell<T>>, nbh: seq<int>)
    requires AllReadable(cs) && NeighborsInside(cs, nbh)
    ensures AllReadable(CommitAll(cs)) && NeighborsInside(CommitAll(cs), nbh)
  {
  }

  /** A step keeps the layout: halo slots are left exactly as they were, live
      slots stay live, and nothing becomes unreadable. */
  lemma StepKeepsHalo<T>(cs: seq<Cell<T>>, nbh: seq<int>, shared: T, rule: (T, seq<T>) -> T)
    requires AllReadable(cs) && NeighborsInside(cs, nbh)
    ensures SameLayout(cs, Step(cs, nbh, shared, rule))
    ensures AllReadable(Step(cs, nbh, shared, rule))
    ensures NeighborsInside(Step(cs, nbh, shared, rule), nbh)
  {
    var c, r := CommitAll(cs), Step(cs, nbh, shared, rule);
    assert |r| == |cs|;
    forall k | 0 <= k < |cs| ensures (cs[k].Live? <==> r[k].Live?) && (cs[k].Halo? ==> cs[k] == r[k]) {
      if cs[k].Halo? {
        assert r[k] == c[k];
      } else {
        assert r[k] == WithFuture(c[k], rule(c[k].future, Gather(c, nbh, shared, k)));
      }
    }
  }

  /** After a step, every live slot's current value is the future value it held
      before the step: reading right after `update()` shows what was committed
      at its start. Its new future is the rule applied to that committed value
      and to the committed values of its neighbours. */
  lemma StepCommitsThenComputes<T>(cs: seq<Cell<T>>, nbh: seq<int>, shared: T, rule: (T, seq<T>) -> T, k: nat)
    requires AllReadable(cs) && NeighborsInside(cs, nbh)
    requires k < |cs| && cs[k].Live?
    ensures Step(cs, nbh, shared, rule)[k].Live?
    ensures Step(cs, nbh, shared, rule)[k].value == cs[k].future
    ensures Step(cs, nbh, shared, rule)[k].future
         == rule(cs[k].future, seq(|nbh|, j requires 0 <= j < |nbh| => Get(IncrementTime(cs[k + nbh[j]]), shared)))
  {
    var c := CommitAll(cs);
    assert Step(cs, nbh, shared, rule)[k] == WithFuture(c[k], rule(c[k].future, Gather(c, nbh, shared, k)));
    assert Gather(c, nbh, shared, k) == seq(|nbh|, j requires 0 <= j < |nbh| => Get(IncrementTime(cs[k + nbh[j]]), shared));
  }

  /** The compute phase writes only future values: every slot's current value
      after the step is the one the commit phase left there. */
  lemma StepKeepsCurrent<T>(cs: seq<Cell<T>>, nbh: seq<int>, shared: T, rule: (T, seq<T>) -> T, k: nat)
    requires AllReadable(cs) && NeighborsInside(cs, nbh) && k < |cs|
    ensures |Step(cs, nbh, shared, rule)| == |cs|
    ensures Readable(Step(cs, nbh, shared, rule)[k])
    ensures Step(cs, nbh, shared, rule)[k].Halo? <==> cs[k].Halo?
    ensures Get(Step(cs, nbh, shared, rule)[k], shared) == Get(IncrementTime(cs[k]), shared)
  {
    var c := CommitAll(cs);
    if cs[k].Live? {
      assert Step(cs, nbh, shared, rule)[k] == WithFuture(c[k], rule(c[k].future, Gather(c, nbh, shared, k)));
    }
  }

  /** The step is synchronous: it depends on the buffer only through what the
      commit phase leaves, so the order in which slots are computed, and any
      future value overwritten by the commit, cannot matter. */
  lemma StepReadsOnlyCommitted<T>(a: seq<Cell<T>>, b: seq<Cell<T>>, nbh: seq<int>, shared: T, rule: (T, seq<T>) -> T)
    requires AllReadable(a) && NeighborsInside(a, nbh)
    requires AllReadable(b) && NeighborsInside(b, nbh)
    requires CommitAll(a) == CommitAll(b)
    ensures Step(a, nbh, shared, rule) == Step(b, nbh, shared, rule)
  {
  }

  /** Locality: a live slot's new future is fixed by its own committed value and
      the committed values at its offsets; nothing else in the buffer matters. */
  lemma StepIsLocal<T>(a: seq<Cell<T>>, b: seq<Cell<T>>, nbh: seq<int>, shared: T, rule: (T, seq<T>) -> T, k: nat)
    requires AllReadable(a) && NeighborsInside(a, nbh)
    requires AllReadable(b) && NeighborsInside(b, nbh)
    requires |a| == |b| && k < |a| && a[k].Live? && b[k].Live? && a[k].future == b[k].future
    requires forall j :: 0 <= j < |nbh| ==>
      Get(IncrementTime(a[k + nbh[j]]), shared) == Get(IncrementTime(b[k + nbh[j]]), shared)
    ensures Step(a, nbh, shared, rule)[k] == Step(b, nbh, shared, rule)[k]
  {
    var ca, cb := CommitAll(a), CommitAll(b);
    assert Gather(ca, nbh, shared, k) == Gather(cb, nbh, shared, k);
  }

  /** Every live slot holds the same value in both buffers. */
  ghost predicate Settled<T>(cs: seq<Cell<T>>)
  {
    forall k :: 0 <= k < |cs| && cs[k].Live? ==> cs[k].future == cs[k].value
  }

  /** With a rule that leaves the cell's value as it is, a step from a settled
      buffer changes nothing, and any buffer is settled after one step; so
      repeated updates leave every value unchanged. */
  lemma NoOpRuleIsStable<T>(cs: seq<Cell<T>>, nbh: seq<int>, shared: T, rule: (T, seq<T>) -> T)
    requires AllReadable(cs) && NeighborsInside(cs, nbh)
    requires forall x, ns :: rule(x, ns) == x
    ensures Settled(Step(cs, nbh, shared, rule))
    ensures Settled(cs) ==> Step(cs, nbh, shared, rule) == cs
  {
    var r := Step(cs, nbh, shared, rule);
    var c := CommitAll(cs);
    forall k | 0 <= k < |r| && r[k].Live? ensures r[k].future == r[k].value {
      if c[k].Live? {
        assert r[k] == WithFuture(c[k], rule(c[k].future, Gather(c, nbh, shared, k)));
      }
    }
    if Settled(cs) {
      forall k | 0 <= k < |cs| ensures r[k] == cs[k] {
        if cs[k].Live? {
          var c := CommitAll(cs);
          assert r[k] == WithFuture(c[k], rule(c[k].future, Gather(c, nbh, shared, k)));
        }
      }
    }
  }

  /** `n` calls of `update()`. */
  function Steps<T>(cs: seq<Cell<T>>, nbh: seq<int>, shared: T, rule: (T, seq<T>) -> T, n: nat): (r: seq<Cell<T>>)
    requires AllReadable(cs) && NeighborsInside(cs, nbh)
    ensures SameLayout(cs, r) && AllReadable(r) && NeighborsInside(r, nbh)
    decreases n
  {
    if n == 0 then cs
    else
      StepKeepsHalo(cs, nbh, shared, rule);
      Steps(Step(cs, nbh, shared, rule), nbh, shared, rule, n - 1)
  }

  lemma {:induction false} NoOpRuleManySteps<T>(cs: seq<Cell<T>>, nbh: seq<int>, shared: T, rule: (T, seq<T>) -> T, n: nat)
    requires AllReadable(cs) && NeighborsInside(cs, nbh) && Settled(cs)
    requires forall x, ns :: rule(x, ns) == x
    ensures Steps(cs, nbh, shared, rule, n) == cs
  {
    if n > 0 {
      NoOpRuleIsStable(cs, nbh, shared, rule);
      NoOpRuleManySteps(cs, nbh, shared, rule, n - 1);
    }
  }
}
