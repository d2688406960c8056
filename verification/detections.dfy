/**
 * `update_status` of the video track: turns the detector's boxes for one
 * frame into a detection counter and the list of confidences of the boxes
 * that were counted.  A box is reduced to the detector's label for its class
 * and its confidence; confidences are kept abstract.
 */
module Detections {

  import opened Optional
  import opened ClassEnum

  datatype Box<C> = Box(name: string, confidence: C)

  /** The counter and confidences contributed by the boxes `bs`, read left to right. */
  function Tally<C>(bs: seq<Box<C>>): (r: (Counter, seq<C>))
    // one confidence per counted box
    ensures |r.1| == |r.0|
    ensures r.0 == multiset{} <==> r.1 == []
  {
    if bs == [] then (multiset{}, []) else Add(Tally(bs[..|bs| - 1]), bs[|bs| - 1])
  }

  /** One iteration of the loop over the boxes: count the box's class and keep its confidence, if recognised. */
  function Add<C>(t: (Counter, seq<C>), b: Box<C>): (r: (Counter, seq<C>))
    ensures t.1 <= r.1 && |r.1| - |t.1| == |r.0| - |t.0| <= 1
    ensures forall c :: r.0[c] == t.0[c] + (if Classify(b.name) == Some(c) then 1 else 0)
  {
    match Classify(b.name)
    case Some(c) => (t.0 + multiset{c}, t.1 + [b.confidence])
    case None => t
  }

  /** Adding a box to a tally that follows other boxes only affects the later part. */
  lemma AddShift<C>(a: (Counter, seq<C>), t: (Counter, seq<C>), b: Box<C>)
    ensures Add((a.0 + t.0, a.1 + t.1), b) == (a.0 + Add(t, b).0, a.1 + Add(t, b).1)
  {
    match Classify(b.name)
    case Some(c) =>
      assert a.0 + t.0 + multiset{c} == a.0 + (t.0 + multiset{c});
      assert a.1 + t.1 + [b.confidence] == a.1 + (t.1 + [b.confidence]);
    case None =>
  }

  /** Tallying one more box is one more step of the loop. */
  lemma TallySnoc<C>(bs: seq<Box<C>>, b: Box<C>)
    ensures Tally(bs + [b]) == Add(Tally(bs), b)
  {
    assert (bs + [b])[..|bs|] == bs;
  }

  /**
   * `update_status(results)`: `boxes` is None when the detector returned no
   * box list at all.
   */
  method UpdateStatus<C>(boxes: Option<seq<Box<C>>>) returns (counter: Counter, confidences: seq<C>)
    ensures boxes.None? ==> counter == multiset{} && confidences == []
    ensures boxes.Some? ==> (counter, confidences) == Tally(boxes.value)
    ensures |confidences| == |counter|
  {
    counter := multiset{};
    confidences := [];
    if boxes.Some? {
      var bs := boxes.value;
      var i := 0;
      while i < |bs|
        invariant 0 <= i <= |bs|
        invariant (counter, confidences) == Tally(bs[..i])
      {
        var b := bs[i];
        assert Tally(bs[..i + 1]) == Add((counter, confidences), b) by {
          assert bs[..i + 1] == bs[..i] + [b];
          TallySnoc(bs[..i], b);
        }
        match Classify(b.name) {
          case Some(c) =>
            counter := counter + multiset{c};
            confidences := confidences + [b.confidence];
          case None =>
        }
        i := i + 1;
      }
      assert bs[..|bs|] == bs;
    }
  }

  /** Tallying is compositional: the boxes of a frame can be split anywhere. */
  lemma {:induction false} TallyAppend<C>(xs: seq<Box<C>>, ys: seq<Box<C>>)
    ensures Tally(xs + ys).0 == Tally(xs).0 + Tally(ys).0
    ensures Tally(xs + ys).1 == Tally(xs).1 + Tally(ys).1
  {
    if ys == [] {
      assert xs + ys == xs;
    } else {
      var init := ys[..|ys| - 1];
      var last := ys[|ys| - 1];
      assert ys == init + [last];
      assert xs + ys == (xs + init) + [last];
      TallyAppend(xs, init);
      TallySnoc(xs + init, last);
      AddShift(Tally(xs), Tally(init), last);
    }
  }

  /** The counter of one box: its class, if its label names one. */
  lemma TallyOne<C>(b: Box<C>)
    ensures Classify(b.name).Some? ==> Tally([b]) == (multiset{Classify(b.name).value}, [b.confidence])
    ensures Classify(b.name).None? ==> Tally([b]) == (multiset{}, [])
  {
    assert [b][..0] == [];
    assert Tally([b][..0]) == (multiset{}, []);
    assert [b][0] == b;
    match Classify(b.name)
    case Some(c) =>
      assert multiset{} + multiset{c} == multiset{c};
      assert [] + [b.confidence] == [b.confidence];
    case None =>
  }

  /** Some box's label names class `c`. */
  ghost predicate Names<C>(bs: seq<Box<C>>, c: ObjectClass)
  {
    exists i :: 0 <= i < |bs| && Classify(bs[i].name) == Some(c)
  }

  lemma NamesSnoc<C>(bs: seq<Box<C>>, c: ObjectClass)
    requires bs != []
    ensures Names(bs, c) <==> Names(bs[..|bs| - 1], c) || Classify(bs[|bs| - 1].name) == Some(c)
  {
    var n := |bs| - 1;
    var init := bs[..n];
    assert forall i :: 0 <= i < n ==> init[i] == bs[i];
    if Names(bs, c) && Classify(bs[n].name) != Some(c) {
      var i :| 0 <= i < |bs| && Classify(bs[i].name) == Some(c);
      assert i < n && Classify(init[i].name) == Some(c);
    }
  }

  /** A class is counted exactly when some box's label names it. */
  lemma {:induction false} TallyCountsRecognised<C>(bs: seq<Box<C>>, c: ObjectClass)
    ensures c in Tally(bs).0 <==> exists i :: 0 <= i < |bs| && Classify(bs[i].name) == Some(c)
  {
    if bs != [] {
      var n := |bs| - 1;
      TallyCountsRecognised(bs[..n], c);
      NamesSnoc(bs, c);
      assert Tally(bs) == Add(Tally(bs[..n]), bs[n]);
    }
  }

  lemma SplitAt<T>(s: seq<T>, j: nat)
    requires j < |s|
    ensures s == (s[..j] + [s[j]]) + s[j + 1..]
  {
  }

  /** Taking one box out of a frame takes its contribution out of the tally. */
  lemma TallyRemove<C>(a: seq<Box<C>>, x: Box<C>, b: seq<Box<C>>)
    ensures Tally(a + [x] + b).0 == Tally(a + b).0 + Tally([x]).0
    ensures multiset(Tally(a + [x] + b).1) == multiset(Tally(a + b).1) + multiset(Tally([x]).1)
  {
    TallyAppend(a + [x], b);
    TallyAppend(a, [x]);
    TallyAppend(a, b);
    var ta, tx, tb := Tally(a), Tally([x]), Tally(b);
    assert multiset(ta.1 + tx.1 + tb.1) == multiset(ta.1) + multiset(tx.1) + multiset(tb.1);
    assert multiset(ta.1 + tb.1) == multiset(ta.1) + multiset(tb.1);
  }

  /** Removing matching elements from two permutations of each other leaves permutations. */
  lemma RemoveMatching<T>(xs: seq<T>, ys: seq<T>, j: nat)
    requires multiset(xs) == multiset(ys) && xs != []
    requires j < |ys| && ys[j] == xs[|xs| - 1]
    ensures multiset(xs[..|xs| - 1]) == multiset(ys[..j] + ys[j + 1..])
  {
    var n := |xs| - 1;
    var x := xs[n];
    var rest := ys[..j] + ys[j + 1..];
    assert xs == xs[..n] + [x];
    assert ys == ys[..j] + [x] + ys[j + 1..];
    var a, b := multiset(xs[..n]), multiset(rest);
    assert multiset(xs) == a + multiset{x};
    assert multiset(ys) == multiset(ys[..j]) + multiset{x} + multiset(ys[j + 1..]);
    assert b == multiset(ys[..j]) + multiset(ys[j + 1..]);
    forall e ensures a[e] == b[e] {
      assert (a + multiset{x})[e] == (b + multiset{x})[e];
    }
  }

  /**
   * The order in which the detector lists its boxes does not matter: the same
   * boxes in any order give the same counter and the same confidences (up to
   * order).
   */
  lemma {:induction false} TallyPermutation<C>(xs: seq<Box<C>>, ys: seq<Box<C>>)
    requires multiset(xs) == multiset(ys)
    ensures Tally(xs).0 == Tally(ys).0
    ensures multiset(Tally(xs).1) == multiset(Tally(ys).1)
    decreases |xs|
  {
    if xs != [] {
      var n := |xs| - 1;
      var x := xs[n];
      assert x in multiset(ys);
      var j :| 0 <= j < |ys| && ys[j] == x;
      var rest := ys[..j] + ys[j + 1..];
      RemoveMatching(xs, ys, j);
      TallyPermutation(xs[..n], rest);
      var tp, tr, tx := Tally(xs[..n]), Tally(rest), Tally([x]);
      TallyAppend(xs[..n], [x]);
      assert xs == xs[..n] + [x];
      assert multiset(Tally(xs).1) == multiset(tp.1) + multiset(tx.1);
      SplitAt(ys, j);
      TallyRemove(ys[..j], x, ys[j + 1..]);
    }
  }
}
