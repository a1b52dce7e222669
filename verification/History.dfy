/** One place that holds at most one value, over a run in which each step may write it. */
module History {
  import opened Base

  /** `states[k]` is what stands before step `k`, `writes[k]` what that step writes, if anything. */
  ghost predicate Follows<V>(states: seq<Option<V>>, writes: seq<Option<V>>) {
    && |states| == |writes| + 1
    && forall k | 0 <= k < |writes| :: states[k + 1] == if writes[k].Some? then writes[k] else states[k]
  }

  predicate Untouched<V>(writes: seq<Option<V>>, i: nat, j: nat)
    requires i <= j <= |writes|
  {
    forall k | i <= k < j :: writes[k].None?
  }

  lemma {:induction false} StaysSince<V>(states: seq<Option<V>>, writes: seq<Option<V>>, i: nat, j: nat)
    requires Follows(states, writes) && i <= j <= |writes|
    ensures Untouched(writes, i, j) ==> states[j] == states[i]
    ensures states[i].Some? ==> states[j].Some?
  {
    if i < j {
      StaysSince(states, writes, i, j - 1);
    }
  }

  /** The last step from `i` on and before `j` that wrote. */
  function LastWrite<V>(writes: seq<Option<V>>, i: nat, j: nat): (last: Option<nat>)
    requires i <= j <= |writes|
    ensures last.Some? ==> i <= last.value < j && writes[last.value].Some? && Untouched(writes, last.value + 1, j)
    ensures last.None? <==> Untouched(writes, i, j)
  {
    if i == j then None else if writes[j - 1].Some? then Some(j - 1) else LastWrite(writes, i, j - 1)
  }

  /** What stands is what stood, or else what was written last. */
  lemma StandsSince<V>(states: seq<Option<V>>, writes: seq<Option<V>>, i: nat, j: nat)
    requires Follows(states, writes) && i <= j <= |writes|
    ensures states[j] == match LastWrite(writes, i, j)
                         case None => states[i]
                         case Some(k) => writes[k]
  {
    match LastWrite(writes, i, j)
    case None => StaysSince(states, writes, i, j);
    case Some(k) => StaysSince(states, writes, k + 1, j);
  }

  /** One more than the last step before `k` that wrote; 0 if none did. */
  function Origin<V>(writes: seq<Option<V>>, k: nat): (c: nat)
    requires k <= |writes|
    ensures c <= k && Untouched(writes, c, k)
    ensures c > 0 ==> writes[c - 1].Some?
  {
    if k == 0 then 0 else if writes[k - 1].Some? then k else Origin(writes, k - 1)
  }

  /** No two values that ever stand here have the same stamp. */
  ghost predicate Distinct<V>(states: seq<Option<V>>, writes: seq<Option<V>>, stamp: V -> int)
    requires Follows(states, writes)
  {
    && (forall i, j | 0 <= i < j < |writes| && writes[i].Some? && writes[j].Some? ::
          stamp(writes[i].value) != stamp(writes[j].value))
    && (forall i | 0 <= i < |writes| && writes[i].Some? && states[0].Some? ::
          stamp(writes[i].value) != stamp(states[0].value))
  }

  lemma StandsSinceOrigin<V>(states: seq<Option<V>>, writes: seq<Option<V>>, k: nat)
    requires Follows(states, writes) && k <= |writes|
    ensures var c := Origin(writes, k);
            states[k] == if c == 0 then states[0] else writes[c - 1]
  {
    StaysSince(states, writes, Origin(writes, k), k);
  }

  /** Where stamps are distinct, equal stamps mean that nothing was written in between. */
  lemma EqualStampsMeanUntouched<V>(states: seq<Option<V>>, writes: seq<Option<V>>, stamp: V -> int, i: nat, j: nat)
    requires Follows(states, writes) && Distinct(states, writes, stamp)
    requires i <= j <= |writes| && states[i].Some? && states[j].Some?
    requires stamp(states[i].value) == stamp(states[j].value)
    ensures Untouched(writes, i, j)
  {
    StandsSinceOrigin(states, writes, i);
    StandsSinceOrigin(states, writes, j);
    assert Origin(writes, i) <= Origin(writes, j);
  }
}
