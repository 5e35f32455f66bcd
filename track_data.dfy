/**
 The per-track record of time spent adsorbed on surfaces: the duration of the
 latest adsorption and the running total over the track's history.
 */
module TrackData {
  import Effusion

  /** Sum of a sequence of durations. */
  function Sum(ts: seq<real>): real {
    if ts == [] then 0.0 else ts[0] + Sum(ts[1..])
  }

  lemma {:induction false} SumAppend(ts: seq<real>, t: real)
    ensures Sum(ts + [t]) == Sum(ts) + t
  {
    if ts == [] {
      assert ts + [t] == [t];
    } else {
      assert (ts + [t])[1..] == ts[1..] + [t];
      SumAppend(ts[1..], t);
    }
  }

  /** Durations that are never negative add up to a total that is not negative. */
  lemma {:induction false} SumNonNegative(ts: seq<real>)
    requires forall k :: 0 <= k < |ts| ==> ts[k] >= 0.0
    ensures Sum(ts) >= 0.0
  {
    if ts != [] {
      SumNonNegative(ts[1..]);
    }
  }

  /**
   Auxiliary track information. The initial values of the two durations are
   not fixed here; `base` is the total at the point from which `stickings`
   records every duration passed to `SetTimeSticked`.
   */
  class EffusionTrackData {
    /** The owning process: kept for reference, never changed by the setters. */
    var effusionProcess: Effusion.EffusionProcess?
    var timeSticked: real
    var totalTimeSticked: real

    ghost var base: real
    ghost var stickings: seq<real>

    /** The total is the base plus every duration set since. */
    ghost predicate RunningSum()
      reads this
    {
      totalTimeSticked == base + Sum(stickings)
    }

    /**
     Anchors the history at the current total, whatever it is, so that the
     running sum holds from here on; the real fields are left as they are.
     */
    ghost method StartHistory()
      modifies this`base, this`stickings
      ensures base == totalTimeSticked && stickings == []
      ensures RunningSum()
    {
      base := totalTimeSticked;
      stickings := [];
    }

    /** Records the latest adsorption time and adds it to the total. */
    method SetTimeSticked(t: real)
      modifies this`timeSticked, this`totalTimeSticked, this`stickings
      ensures timeSticked == t
      ensures totalTimeSticked == old(totalTimeSticked) + t
      ensures stickings == old(stickings) + [t]
      ensures old(RunningSum()) ==> RunningSum()
      ensures t >= 0.0 ==> totalTimeSticked >= old(totalTimeSticked)
    {
      timeSticked := t;
      totalTimeSticked := totalTimeSticked + timeSticked;
      stickings := stickings + [t];
      SumAppend(old(stickings), t);
    }

    method GetTimeSticked() returns (t: real)
      ensures t == timeSticked
    {
      t := timeSticked;
    }

    /**
     Overwrites the total alone; the running-sum invariant survives exactly
     when the new total happens to equal the running sum.
     */
    method SetTotalTimeSticked(x: real)
      modifies this`totalTimeSticked
      ensures totalTimeSticked == x
      ensures RunningSum() <==> x == base + Sum(stickings)
    {
      totalTimeSticked := x;
    }

    method GetTotalTimeSticked() returns (x: real)
      ensures x == totalTimeSticked
    {
      x := totalTimeSticked;
    }
  }

  /**
   Two adsorptions in a row: the total grows by both durations and the getter
   then reads the second.
   */
  method SetTimeStickedTwice(d: EffusionTrackData, t1: real, t2: real) returns (latest: real)
    modifies d`timeSticked, d`totalTimeSticked, d`stickings
    ensures d.totalTimeSticked == old(d.totalTimeSticked) + t1 + t2
    ensures d.timeSticked == t2 && latest == t2
    ensures d.stickings == old(d.stickings) + [t1, t2]
    ensures old(d.RunningSum()) ==> d.RunningSum()
  {
    d.SetTimeSticked(t1);
    d.SetTimeSticked(t2);
    latest := d.GetTimeSticked();
  }

  /**
   While the running sum holds and every recorded duration is non-negative,
   the total never falls below the base.
   */
  lemma TotalAtLeastBase(d: EffusionTrackData)
    requires d.RunningSum()
    requires forall k :: 0 <= k < |d.stickings| ==> d.stickings[k] >= 0.0
    ensures d.totalTimeSticked >= d.base
  {
    SumNonNegative(d.stickings);
  }
}
