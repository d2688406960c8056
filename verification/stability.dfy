/**
 * The per-camera detection stability tracker: `check_condition` of the video
 * track.  A detection counter is a multiset of object classes; the tracker
 * keeps a baseline (the last change it reported), a candidate (the last
 * counter that differed from the baseline) and a streak of consecutive
 * frames on which the candidate was seen.  A change is reported once the
 * streak reaches `RequiredStabilityFrames`.
 */
module Stability {

  import opened Optional
  import opened ClassEnum

  /** `required_stability_frames`. */
  const RequiredStabilityFrames: nat := 5

  /** `previous_counter`, `last_detected_counter` and `change_stable_count`. */
  datatype Tracker = Tracker(baseline: Counter, candidate: Counter, streak: nat)

  /** The state the video track starts with: two empty counters and no streak. */
  const Fresh: Tracker := Tracker(multiset{}, multiset{}, 0)

  /** One frame's input: the detection counter and the confidences collected with it. */
  datatype Observation<C> = Observation(counter: Counter, confidences: seq<C>)

  /**
   * `check_condition(current, confidences)`: the tracker after the call and
   * whether a stable change is to be reported.
   */
  function CheckCondition<C>(t: Tracker, current: Counter, confidences: seq<C>): (r: (Tracker, bool))
    // the streak never reaches the threshold once a call returns
    ensures r.0.streak < RequiredStabilityFrames
    // a frame equal to the baseline clears the streak and changes nothing else
    ensures current == t.baseline ==>
      r == (t.(streak := 0), false)
    // a frame that differs from both baseline and candidate starts a new candidate
    ensures current != t.baseline && current != t.candidate ==>
      r == (Tracker(t.baseline, current, 1), false)
    // a frame repeating the candidate extends the streak, or completes it
    ensures current != t.baseline && current == t.candidate && t.streak + 1 < RequiredStabilityFrames ==>
      r == (t.(streak := t.streak + 1), false)
    ensures current != t.baseline && current == t.candidate && t.streak + 1 >= RequiredStabilityFrames ==>
      r == (Tracker(current, current, 0), |confidences| > 0)
    // a report always moves the baseline to the reported counter
    ensures r.1 ==> current != t.baseline && r.0.baseline == current && |confidences| > 0
  {
    if current != t.baseline then
      var t1 :=
        if current == t.candidate then t.(streak := t.streak + 1)
        else t.(streak := 1, candidate := current);
      if t1.streak >= RequiredStabilityFrames then
        (t1.(baseline := current, streak := 0), |confidences| > 0)
      else
        (t1, false)
    else
      (t.(streak := 0), false)
  }

  function Step<C>(t: Tracker, o: Observation<C>): Tracker
  {
    CheckCondition(t, o.counter, o.confidences).0
  }

  function Fires<C>(t: Tracker, o: Observation<C>): bool
  {
    CheckCondition(t, o.counter, o.confidences).1
  }

  /** The tracker after feeding it `obs` in order, one frame at a time. */
  function Run<C>(t: Tracker, obs: seq<Observation<C>>): Tracker
  {
    if obs == [] then t else Step(Run(t, obs[..|obs| - 1]), obs[|obs| - 1])
  }

  /** Whether the last frame of `obs` (fed after the ones before it) reports a change. */
  predicate FiresLast<C>(t: Tracker, obs: seq<Observation<C>>)
    requires obs != []
  {
    Fires(Run(t, obs[..|obs| - 1]), obs[|obs| - 1])
  }

  /** The report flag of every frame of `obs`, in order. */
  function Reports<C>(t: Tracker, obs: seq<Observation<C>>): (r: seq<bool>)
    ensures |r| == |obs|
  {
    if obs == [] then [] else Reports(t, obs[..|obs| - 1]) + [FiresLast(t, obs)]
  }

  /**
   * What a streak of k means: the last k frames all carried the candidate
   * counter, and it differs from the baseline.
   */
  ghost predicate StreakWitnessed<C>(t: Tracker, obs: seq<Observation<C>>)
  {
    && t.streak <= |obs|
    && (t.streak > 0 ==> t.candidate != t.baseline)
    && forall i :: |obs| - t.streak <= i < |obs| ==> obs[i].counter == t.candidate
  }

  lemma {:induction false} StreakHistory<C>(obs: seq<Observation<C>>)
    ensures StreakWitnessed(Run(Fresh, obs), obs)
  {
    if obs != [] {
      var prefix := obs[..|obs| - 1];
      var o := obs[|obs| - 1];
      StreakHistory(prefix);
      var t := Run(Fresh, prefix);
      var t' := Step(t, o);
      assert t' == Run(Fresh, obs);
      if o.counter != t.baseline && o.counter == t.candidate && t.streak + 1 < RequiredStabilityFrames {
        forall i | |obs| - t'.streak <= i < |obs|
          ensures obs[i].counter == t'.candidate
        {
          if i < |obs| - 1 {
            assert obs[i] == prefix[i];
          }
        }
      }
    }
  }

  /** A report is only ever made after five identical frames in a row. */
  lemma ReportNeedsFiveEqualFrames<C>(obs: seq<Observation<C>>)
    requires obs != [] && FiresLast(Fresh, obs)
    ensures |obs| >= RequiredStabilityFrames
    ensures forall i :: |obs| - RequiredStabilityFrames <= i < |obs| ==> obs[i].counter == obs[|obs| - 1].counter
    ensures |obs[|obs| - 1].confidences| > 0
  {
    var prefix := obs[..|obs| - 1];
    StreakHistory(prefix);
    var t := Run(Fresh, prefix);
    assert t.streak == RequiredStabilityFrames - 1;
    forall i | |obs| - RequiredStabilityFrames <= i < |obs|
      ensures obs[i].counter == obs[|obs| - 1].counter
    {
      if i < |obs| - 1 {
        assert obs[i] == prefix[i];
      }
    }
  }

  /** A sequence in which no frame repeats its predecessor's counter never reports. */
  lemma {:induction false} FlickerNeverReports<C>(obs: seq<Observation<C>>)
    requires forall i :: 0 < i < |obs| ==> obs[i].counter != obs[i - 1].counter
    ensures forall b :: b in Reports(Fresh, obs) ==> !b
  {
    if obs != [] {
      var prefix := obs[..|obs| - 1];
      FlickerNeverReports(prefix);
      if FiresLast(Fresh, obs) {
        ReportNeedsFiveEqualFrames(obs);
        assert false;
      }
    }
  }

  /** Feeding one more frame extends the run by exactly one step. */
  lemma RunSnoc<C>(t: Tracker, obs: seq<Observation<C>>, o: Observation<C>)
    ensures Run(t, obs + [o]) == Step(Run(t, obs), o)
    ensures Reports(t, obs + [o]) == Reports(t, obs) + [Fires(Run(t, obs), o)]
  {
    assert (obs + [o])[..|obs|] == obs;
  }

  /** Running two sequences one after the other is running their concatenation. */
  lemma {:induction false} RunAppend<C>(t: Tracker, xs: seq<Observation<C>>, ys: seq<Observation<C>>)
    ensures Run(t, xs + ys) == Run(Run(t, xs), ys)
    ensures Reports(t, xs + ys) == Reports(t, xs) + Reports(Run(t, xs), ys)
  {
    if ys == [] {
      assert xs + ys == xs;
    } else {
      var init := ys[..|ys| - 1];
      var y := ys[|ys| - 1];
      assert ys == init + [y];
      assert xs + ys == (xs + init) + [y];
      RunAppend(t, xs, init);
      RunSnoc(t, xs + init, y);
      RunSnoc(Run(t, xs), init, y);
    }
  }

  /** `n` copies of one frame. */
  function Repeat<T>(x: T, n: nat): (r: seq<T>)
    ensures |r| == n
    ensures forall i :: 0 <= i < n ==> r[i] == x
  {
    if n == 0 then [] else Repeat(x, n - 1) + [x]
  }

  /** A frame repeating a counter other than the baseline either reports it or extends its streak. */
  lemma RepeatedFrame<C>(t: Tracker, o: Observation<C>)
    requires o.counter != t.baseline && |o.confidences| > 0
    ensures Fires(t, o) ==> Step(t, o).baseline == o.counter
    ensures !Fires(t, o) ==>
      && Step(t, o).baseline == t.baseline
      && Step(t, o).candidate == o.counter
      && Step(t, o).streak >= 1
      && (t.candidate == o.counter ==> Step(t, o).streak >= t.streak + 1)
  {
  }

  /** A frame equal to the baseline neither reports nor moves the baseline. */
  lemma BaselineFrame<C>(t: Tracker, o: Observation<C>)
    requires o.counter == t.baseline
    ensures !Fires(t, o) && Step(t, o).baseline == t.baseline
  {
  }

  /** How many of the flags are set. */
  function Count(bs: seq<bool>): (k: nat)
    ensures k <= |bs|
  {
    if bs == [] then 0 else Count(bs[..|bs| - 1]) + (if bs[|bs| - 1] then 1 else 0)
  }

  lemma CountSnoc(bs: seq<bool>, b: bool)
    ensures Count(bs + [b]) == Count(bs) + (if b then 1 else 0)
  {
    assert (bs + [b])[..|bs|] == bs;
  }

  /**
   * Where the tracker `st` can stand after n repeats of `o` from `t`, having
   * reported `count` times.
   */
  ghost predicate RepeatState<C>(t: Tracker, o: Observation<C>, n: nat, st: Tracker, count: nat)
  {
    || (count == 0 && st.baseline == t.baseline && (n > 0 ==> st.candidate == o.counter && st.streak >= n))
    || (count == 1 && st.baseline == o.counter)
  }

  lemma RepeatStep<C>(t: Tracker, o: Observation<C>, n: nat, st: Tracker, count: nat)
    requires o.counter != t.baseline && |o.confidences| > 0
    requires RepeatState(t, o, n, st, count)
    ensures RepeatState(t, o, n + 1, Step(st, o), count + if Fires(st, o) then 1 else 0)
  {
    if st.baseline == o.counter {
      BaselineFrame(st, o);
    } else {
      RepeatedFrame(st, o);
    }
  }

  lemma {:induction false} RepeatedFramesInvariant<C>(t: Tracker, o: Observation<C>, n: nat)
    requires o.counter != t.baseline && |o.confidences| > 0
    ensures RepeatState(t, o, n, Run(t, Repeat(o, n)), Count(Reports(t, Repeat(o, n))))
  {
    if n > 0 {
      var prev := Repeat(o, n - 1);
      assert Repeat(o, n) == prev + [o];
      RepeatedFramesInvariant(t, o, n - 1);
      RunSnoc(t, prev, o);
      var st := Run(t, prev);
      CountSnoc(Reports(t, prev), Fires(st, o));
      RepeatStep(t, o, n - 1, st, Count(Reports(t, prev)));
    }
  }

  /**
   * However the tracker stands, a counter other than the baseline seen on
   * five or more consecutive frames with detections is reported exactly once
   * and becomes the baseline.
   */
  lemma RepeatedFramesReportOnce<C>(t: Tracker, o: Observation<C>, n: nat)
    requires o.counter != t.baseline && |o.confidences| > 0
    requires n >= RequiredStabilityFrames
    ensures Count(Reports(t, Repeat(o, n))) == 1
    ensures Run(t, Repeat(o, n)).baseline == o.counter
  {
    RepeatedFramesInvariant(t, o, n);
    assert Run(t, Repeat(o, n)).streak < RequiredStabilityFrames;
  }

  lemma {:induction false} NewCandidateStreak<C>(t: Tracker, o: Observation<C>, n: nat)
    requires o.counter != t.baseline && (t.streak == 0 || t.candidate != o.counter)
    requires 0 < n < RequiredStabilityFrames
    ensures Run(t, Repeat(o, n)) == Tracker(t.baseline, o.counter, n)
    ensures Reports(t, Repeat(o, n)) == Repeat(false, n)
  {
    var prev := Repeat(o, n - 1);
    assert Repeat(o, n) == prev + [o];
    assert Repeat(false, n) == Repeat(false, n - 1) + [false];
    RunSnoc(t, prev, o);
    if n > 1 {
      NewCandidateStreak(t, o, n - 1);
    } else {
      assert prev == [];
    }
  }

  /**
   * When no streak on the counter is running, five equal frames report on
   * the fifth one exactly (provided it carries detections), and leave the
   * counter as baseline.
   */
  lemma FifthFrameReports<C>(t: Tracker, o: Observation<C>)
    requires o.counter != t.baseline && (t.streak == 0 || t.candidate != o.counter)
    ensures Reports(t, Repeat(o, 5)) == [false, false, false, false, |o.confidences| > 0]
    ensures Run(t, Repeat(o, 5)) == Tracker(o.counter, o.counter, 0)
  {
    NewCandidateStreak(t, o, 4);
    RunSnoc(t, Repeat(o, 4), o);
  }

  /** From the fresh state, `{}` then five `{A:1}` report once, on the last frame. */
  lemma ExampleOneChange<C>(conf: C)
    ensures var none := Observation(multiset{}, []);
      var a := Observation(multiset{PaperBox}, [conf]);
      var obs := [none, a, a, a, a, a];
      && Reports(Fresh, obs) == [false, false, false, false, false, true]
      && Run(Fresh, obs).baseline == multiset{PaperBox}
  {
    var none := Observation(multiset{}, []);
    var a := Observation(multiset{PaperBox}, [conf]);
    RunSnoc(Fresh, [], none);
    assert Run(Fresh, [none]) == Fresh;
    FifthFrameReports(Fresh, a);
    RunAppend(Fresh, [none], Repeat(a, 5));
    assert [none] + Repeat(a, 5) == [none, a, a, a, a, a];
  }

  /** Alternating `{A:1}` and `{B:1}` never reports. */
  lemma ExampleAlternating<C>(conf: C)
    ensures var a := Observation(multiset{PaperBox}, [conf]);
      var b := Observation(multiset{Tree}, [conf]);
      forall r :: r in Reports(Fresh, [a, b, a, b, a]) ==> !r
  {
    var a := Observation(multiset{PaperBox}, [conf]);
    var b := Observation(multiset{Tree}, [conf]);
    var obs := [a, b, a, b, a];
    forall i | 0 < i < |obs|
      ensures obs[i].counter != obs[i - 1].counter
    {
      assert PaperBox in obs[i].counter || PaperBox in obs[i - 1].counter;
    }
    FlickerNeverReports(obs);
  }

  /** Counters are compared as multisets, so the order in which classes were counted is irrelevant. */
  lemma ExampleOrderIndependent<C>(t: Tracker, confs: seq<C>)
    ensures CheckCondition(t, multiset([PaperBox, Tree, Tree]), confs)
         == CheckCondition(t, multiset([Tree, PaperBox, Tree]), confs)
  {
    assert multiset([PaperBox, Tree, Tree]) == multiset([Tree, PaperBox, Tree]);
  }

  /**
   * A stable change to "no detections" moves the baseline without a report,
   * so the same detection returning later is reported again.
   */
  lemma ExampleSilentClear<C>(conf: C)
    ensures var a := Observation(multiset{PaperBox}, [conf]);
      var none := Observation(multiset{}, []);
      var obs := Repeat(a, 5) + Repeat(none, 5);
      && Reports(Fresh, obs) == [false, false, false, false, true, false, false, false, false, false]
      && Run(Fresh, obs) == Tracker(multiset{}, multiset{}, 0)
      && Reports(Run(Fresh, obs), Repeat(a, 5)) == [false, false, false, false, true]
  {
    var a := Observation(multiset{PaperBox}, [conf]);
    var none := Observation(multiset{}, []);
    FifthFrameReports(Fresh, a);
    var t := Run(Fresh, Repeat(a, 5));
    FifthFrameReports(t, none);
    RunAppend(Fresh, Repeat(a, 5), Repeat(none, 5));
    FifthFrameReports(Run(t, Repeat(none, 5)), a);
  }

  // ---------------------------------------------------------------------------
  // Reference machine: the same rule with the candidate cleared whenever the
  // streak drops to zero.  The tracker keeps a stale candidate instead; the
  // lemmas below show that the difference is never observable.
  // ---------------------------------------------------------------------------

  datatype Reference = Reference(baseline: Counter, candidate: Option<Counter>, streak: nat)

  const FreshReference: Reference := Reference(multiset{}, None, 0)

  function ReferenceStep<C>(m: Reference, o: Observation<C>): (r: (Reference, bool))
  {
    if o.counter == m.baseline then
      (Reference(m.baseline, None, 0), false)
    else if m.candidate == Some(o.counter) then
      if m.streak + 1 >= RequiredStabilityFrames then
        (Reference(o.counter, None, 0), |o.confidences| > 0)
      else
        (m.(streak := m.streak + 1), false)
    else
      (Reference(m.baseline, Some(o.counter), 1), false)
  }

  /** The simulation relation: same baseline and streak, same candidate while a streak is running. */
  ghost predicate Simulates(t: Tracker, m: Reference)
  {
    && t.baseline == m.baseline
    && t.streak == m.streak
    && (t.streak > 0 ==> m.candidate == Some(t.candidate))
  }

  lemma StepSimulates<C>(t: Tracker, m: Reference, o: Observation<C>)
    requires Simulates(t, m)
    ensures Simulates(CheckCondition(t, o.counter, o.confidences).0, ReferenceStep(m, o).0)
    ensures CheckCondition(t, o.counter, o.confidences).1 == ReferenceStep(m, o).1
  {
  }

  function ReferenceRun<C>(m: Reference, obs: seq<Observation<C>>): (r: (Reference, seq<bool>))
    ensures |r.1| == |obs|
  {
    if obs == [] then (m, [])
    else
      var prev := ReferenceRun(m, obs[..|obs| - 1]);
      var next := ReferenceStep(prev.0, obs[|obs| - 1]);
      (next.0, prev.1 + [next.1])
  }

  /** On every input sequence the tracker reports exactly when the reference machine does. */
  lemma {:induction false} TrackerAgreesWithReference<C>(obs: seq<Observation<C>>)
    ensures Simulates(Run(Fresh, obs), ReferenceRun(FreshReference, obs).0)
    ensures Reports(Fresh, obs) == ReferenceRun(FreshReference, obs).1
  {
    if obs != [] {
      var prefix := obs[..|obs| - 1];
      TrackerAgreesWithReference(prefix);
      StepSimulates(Run(Fresh, prefix), ReferenceRun(FreshReference, prefix).0, obs[|obs| - 1]);
    }
  }
}
