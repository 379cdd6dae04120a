/**
 * What `coupleMap::pointInterpolate` and `coupleMap::faceInterpolate` compute, as
 * functions of the entity map they read and their arguments. A field is a sequence of
 * values of any type `T`; `zero` stands for `pTraits<Type>::zero`. A `Map<label>` is a
 * `map<int, int>` from master index to slave index.
 *
 * Both functions first compare the field size with the size of the entity map and abort
 * when they differ; otherwise the result has one entry per map entry, starts as zero,
 * and receives one copy per map entry. `PointPlan` and `FacePlan` list those copies,
 * one branch per direction as in the source; the methods of the class `CoupleMap` run
 * them through the copy loop `Transfer.ScatterLoop`, in any order of the walk. When no
 * two entries write the same position the order does not matter and the result is the
 * value of `PointInterpolation` or `FaceInterpolation`; otherwise the `...AnyOrder`
 * lemmas say what every walk order leaves.
 */
module CoupleInterpolation {
  import opened Results
  import opened Transfer

  /** The fatal error of both functions: the field does not correspond to the patch. */
  datatype InterpolateError = SizeMismatch(patchSize: nat, fieldSize: nat)

  // Points: master key m and slave value s of the POINT map are translated through
  // mPointMap and sPointMap into positions of the field.

  /** Every key of the POINT map is a key of `mPointMap` and every value a key of
      `sPointMap` (a const lookup of a missing key is fatal). */
  ghost predicate PointLookups(pointMap: map<int, int>, mPointMap: map<int, int>, sPointMap: map<int, int>)
  {
    forall m :: m in pointMap ==> m in mPointMap && pointMap[m] in sPointMap
  }

  /** The copies of the point loop are defined: every lookup succeeds and both
      translations land inside the patch. */
  ghost predicate PointInPatch(pointMap: map<int, int>, mPointMap: map<int, int>, sPointMap: map<int, int>)
  {
    && PointLookups(pointMap, mPointMap, sPointMap)
    && forall m :: m in pointMap ==> 0 <= mPointMap[m] < |pointMap| && 0 <= sPointMap[pointMap[m]] < |pointMap|
  }

  /** No two entries write the same position of the result: the slave translation going
      forward, the master one in reverse. */
  ghost predicate PointDistinct(pointMap: map<int, int>, mPointMap: map<int, int>,
                                sPointMap: map<int, int>, reverse: bool)
    requires PointLookups(pointMap, mPointMap, sPointMap)
  {
    if reverse then
      forall j, k :: j in pointMap && k in pointMap && mPointMap[j] == mPointMap[k] ==> j == k
    else
      forall j, k :: j in pointMap && k in pointMap && sPointMap[pointMap[j]] == sPointMap[pointMap[k]] ==> j == k
  }

  /** Position i of the result is written by some entry: reached by the slave translation
      going forward, by the master one in reverse. */
  ghost predicate PointReached(pointMap: map<int, int>, mPointMap: map<int, int>,
                               sPointMap: map<int, int>, reverse: bool, i: int)
    requires PointLookups(pointMap, mPointMap, sPointMap)
  {
    if reverse then exists m :: m in pointMap && mPointMap[m] == i
    else exists m :: m in pointMap && sPointMap[pointMap[m]] == i
  }

  /** Conditions under which the copy loop of `pointInterpolate` is defined and its result
      does not depend on the order in which the map is walked. */
  ghost predicate PointTransferable(pointMap: map<int, int>, mPointMap: map<int, int>,
                                    sPointMap: map<int, int>, reverse: bool)
  {
    PointInPatch(pointMap, mPointMap, sPointMap) && PointDistinct(pointMap, mPointMap, sPointMap, reverse)
  }

  /** The copies of the point loop: forward, result[sPointMap[s]] := pf[mPointMap[m]];
      reverse, result[mPointMap[m]] := pf[sPointMap[s]]; for each m |-> s. */
  function PointPlan(pointMap: map<int, int>, mPointMap: map<int, int>,
                     sPointMap: map<int, int>, reverse: bool): Plan
    requires PointLookups(pointMap, mPointMap, sPointMap)
  {
    map m | m in pointMap ::
      if reverse then Move(mPointMap[m], sPointMap[pointMap[m]])
      else Move(sPointMap[pointMap[m]], mPointMap[m])
  }

  /** The point copies have one key per map entry and stay inside the patch; no two of
      them write the same position exactly when the entries are distinct in the chosen
      direction. */
  lemma PointPlanFacts(pointMap: map<int, int>, mPointMap: map<int, int>,
                       sPointMap: map<int, int>, reverse: bool)
    requires PointInPatch(pointMap, mPointMap, sPointMap)
    ensures |PointPlan(pointMap, mPointMap, sPointMap, reverse)| == |pointMap|
    ensures InRange(PointPlan(pointMap, mPointMap, sPointMap, reverse), |pointMap|)
    ensures DistinctDst(PointPlan(pointMap, mPointMap, sPointMap, reverse))
        <==> PointDistinct(pointMap, mPointMap, sPointMap, reverse)
  {
    var plan := PointPlan(pointMap, mPointMap, sPointMap, reverse);
    assert plan.Keys == pointMap.Keys;
  }

  /** With one entry per position and no two entries on the same position, the entries
      reach every position of the patch: under these conditions the zero fill is
      entirely overwritten. */
  lemma PointOnto(pointMap: map<int, int>, mPointMap: map<int, int>, sPointMap: map<int, int>,
                  reverse: bool)
    requires PointTransferable(pointMap, mPointMap, sPointMap, reverse)
    ensures forall i :: 0 <= i < |pointMap| ==> PointReached(pointMap, mPointMap, sPointMap, reverse, i)
  {
    PointPlanFacts(pointMap, mPointMap, sPointMap, reverse);
    var plan := PointPlan(pointMap, mPointMap, sPointMap, reverse);
    DstOnto(plan, |pointMap|);
    forall i | 0 <= i < |pointMap|
      ensures PointReached(pointMap, mPointMap, sPointMap, reverse, i)
    {
      assert Written(plan, i);
      var m :| m in plan && plan[m].dst == i;
      assert m in pointMap;
    }
  }

  /** The value of `pointInterpolate(mPointMap, sPointMap, pf, reverse)` on a map whose
      POINT entity map is `pointMap`: a fatal error when the field is not the size of the
      map, otherwise a field of that size (what it holds is stated by PointForward and
      PointReverse). */
  function PointInterpolation<T>(pointMap: map<int, int>, mPointMap: map<int, int>,
                                 sPointMap: map<int, int>, pf: seq<T>, zero: T,
                                 reverse: bool): (r: Result<seq<T>, InterpolateError>)
    requires |pf| == |pointMap| ==> PointTransferable(pointMap, mPointMap, sPointMap, reverse)
    ensures r.Err? <==> |pf| != |pointMap|
    ensures r.Err? ==> r.error == SizeMismatch(|pointMap|, |pf|)
    ensures r.Ok? ==> |r.value| == |pointMap|
  {
    if |pf| != |pointMap| then
      Err(SizeMismatch(|pointMap|, |pf|))
    else
      PointPlanFacts(pointMap, mPointMap, sPointMap, reverse);
      Ok(Scatter(PointPlan(pointMap, mPointMap, sPointMap, reverse), pf, zero))
  }

  /** Forward: for every pair m |-> s of the POINT map the result holds pf[mPointMap[m]]
      at sPointMap[s], and these positions cover the patch, so nothing of the zero fill
      is left (see PointForwardAnyOrder for entries that share a position). */
  lemma PointForward<T>(pointMap: map<int, int>, mPointMap: map<int, int>,
                        sPointMap: map<int, int>, pf: seq<T>, zero: T)
    requires |pf| == |pointMap| && PointTransferable(pointMap, mPointMap, sPointMap, false)
    ensures forall m :: m in pointMap ==>
      PointInterpolation(pointMap, mPointMap, sPointMap, pf, zero, false).value[sPointMap[pointMap[m]]]
        == pf[mPointMap[m]]
    ensures forall i :: 0 <= i < |pointMap| ==> PointReached(pointMap, mPointMap, sPointMap, false, i)
  {
    PointPlanFacts(pointMap, mPointMap, sPointMap, false);
    var plan := PointPlan(pointMap, mPointMap, sPointMap, false);
    var r := PointInterpolation(pointMap, mPointMap, sPointMap, pf, zero, false).value;
    assert r == Scatter(plan, pf, zero);
    ScatterSpec(plan, pf, zero);
    forall m | m in pointMap
      ensures r[sPointMap[pointMap[m]]] == pf[mPointMap[m]]
    {
      assert plan[m] == Move(sPointMap[pointMap[m]], mPointMap[m]);
    }
    PointOnto(pointMap, mPointMap, sPointMap, false);
  }

  /** Reverse: for every pair m |-> s of the POINT map the result holds pf[sPointMap[s]]
      at mPointMap[m], and these positions cover the patch, so nothing of the zero fill
      is left (see PointReverseAnyOrder for entries that share a position). */
  lemma PointReverse<T>(pointMap: map<int, int>, mPointMap: map<int, int>,
                        sPointMap: map<int, int>, pf: seq<T>, zero: T)
    requires |pf| == |pointMap| && PointTransferable(pointMap, mPointMap, sPointMap, true)
    ensures forall m :: m in pointMap ==>
      PointInterpolation(pointMap, mPointMap, sPointMap, pf, zero, true).value[mPointMap[m]]
        == pf[sPointMap[pointMap[m]]]
    ensures forall i :: 0 <= i < |pointMap| ==> PointReached(pointMap, mPointMap, sPointMap, true, i)
  {
    PointPlanFacts(pointMap, mPointMap, sPointMap, true);
    var plan := PointPlan(pointMap, mPointMap, sPointMap, true);
    var r := PointInterpolation(pointMap, mPointMap, sPointMap, pf, zero, true).value;
    assert r == Scatter(plan, pf, zero);
    ScatterSpec(plan, pf, zero);
    forall m | m in pointMap
      ensures r[mPointMap[m]] == pf[sPointMap[pointMap[m]]]
    {
      assert plan[m] == Move(mPointMap[m], sPointMap[pointMap[m]]);
    }
    PointOnto(pointMap, mPointMap, sPointMap, true);
  }

  /** Forward, in any order of the walk and with entries allowed to share a slave
      position: positions no slave translation reaches stay zero, an entry alone on its
      position leaves its copy there, and a shared position holds the copy of one of the
      entries reaching it. */
  lemma PointForwardAnyOrder<T>(pointMap: map<int, int>, mPointMap: map<int, int>,
                                sPointMap: map<int, int>, pf: seq<T>, zero: T, s: seq<T>)
    requires |pf| == |pointMap| && PointInPatch(pointMap, mPointMap, sPointMap)
    requires Outcome(PointPlan(pointMap, mPointMap, sPointMap, false), pf, zero, s)
    ensures |s| == |pointMap|
    ensures forall i ::
              0 <= i < |s| && !PointReached(pointMap, mPointMap, sPointMap, false, i) ==> s[i] == zero
    ensures forall m ::
              m in pointMap && (forall j :: j in pointMap && sPointMap[pointMap[j]] == sPointMap[pointMap[m]] ==> j == m)
              ==> s[sPointMap[pointMap[m]]] == pf[mPointMap[m]]
    ensures forall i ::
              0 <= i < |s| && PointReached(pointMap, mPointMap, sPointMap, false, i) ==>
              exists m :: m in pointMap && sPointMap[pointMap[m]] == i && s[i] == pf[mPointMap[m]]
  {
    var plan := PointPlan(pointMap, mPointMap, sPointMap, false);
    forall i | 0 <= i < |s| && !PointReached(pointMap, mPointMap, sPointMap, false, i)
      ensures s[i] == zero
    {
      assert !WrittenBy(plan, plan.Keys, i);
    }
    forall m | m in pointMap && (forall j :: j in pointMap && sPointMap[pointMap[j]] == sPointMap[pointMap[m]] ==> j == m)
      ensures s[sPointMap[pointMap[m]]] == pf[mPointMap[m]]
    {
      OutcomeSingle(plan, pf, zero, s, m);
    }
    forall i | 0 <= i < |s| && PointReached(pointMap, mPointMap, sPointMap, false, i)
      ensures exists m :: m in pointMap && sPointMap[pointMap[m]] == i && s[i] == pf[mPointMap[m]]
    {
      var m0 :| m0 in pointMap && sPointMap[pointMap[m0]] == i;
      assert WrittenBy(plan, plan.Keys, i) by {
        assert plan[m0].dst == i;
      }
      var m :| m in plan && plan[m].dst == i && s[i] == pf[plan[m].src];
    }
  }

  /** Reverse, in any order of the walk and with entries allowed to share a master
      position: positions no master translation reaches stay zero, an entry alone on its
      position leaves its copy there, and a shared position holds the copy of one of the
      entries reaching it. */
  lemma PointReverseAnyOrder<T>(pointMap: map<int, int>, mPointMap: map<int, int>,
                                sPointMap: map<int, int>, pf: seq<T>, zero: T, s: seq<T>)
    requires |pf| == |pointMap| && PointInPatch(pointMap, mPointMap, sPointMap)
    requires Outcome(PointPlan(pointMap, mPointMap, sPointMap, true), pf, zero, s)
    ensures |s| == |pointMap|
    ensures forall i ::
              0 <= i < |s| && !PointReached(pointMap, mPointMap, sPointMap, true, i) ==> s[i] == zero
    ensures forall m ::
              m in pointMap && (forall j :: j in pointMap && mPointMap[j] == mPointMap[m] ==> j == m)
              ==> s[mPointMap[m]] == pf[sPointMap[pointMap[m]]]
    ensures forall i ::
              0 <= i < |s| && PointReached(pointMap, mPointMap, sPointMap, true, i) ==>
              exists m :: m in pointMap && mPointMap[m] == i && s[i] == pf[sPointMap[pointMap[m]]]
  {
    var plan := PointPlan(pointMap, mPointMap, sPointMap, true);
    forall i | 0 <= i < |s| && !PointReached(pointMap, mPointMap, sPointMap, true, i)
      ensures s[i] == zero
    {
      assert !WrittenBy(plan, plan.Keys, i);
    }
    forall m | m in pointMap && (forall j :: j in pointMap && mPointMap[j] == mPointMap[m] ==> j == m)
      ensures s[mPointMap[m]] == pf[sPointMap[pointMap[m]]]
    {
      OutcomeSingle(plan, pf, zero, s, m);
    }
    forall i | 0 <= i < |s| && PointReached(pointMap, mPointMap, sPointMap, true, i)
      ensures exists m :: m in pointMap && mPointMap[m] == i && s[i] == pf[sPointMap[pointMap[m]]]
    {
      var m0 :| m0 in pointMap && mPointMap[m0] == i;
      assert WrittenBy(plan, plan.Keys, i) by {
        assert plan[m0].dst == i;
      }
      var m :| m in plan && plan[m].dst == i && s[i] == pf[plan[m].src];
    }
  }

  /** The point result in terms of the scatter of its plan. */
  lemma PointValue<T>(pointMap: map<int, int>, mPointMap: map<int, int>,
                      sPointMap: map<int, int>, pf: seq<T>, zero: T, reverse: bool)
    requires |pf| == |pointMap| && PointTransferable(pointMap, mPointMap, sPointMap, reverse)
    ensures InRange(PointPlan(pointMap, mPointMap, sPointMap, reverse), |pf|)
    ensures DistinctDst(PointPlan(pointMap, mPointMap, sPointMap, reverse))
    ensures PointInterpolation(pointMap, mPointMap, sPointMap, pf, zero, reverse)
         == Ok(Scatter(PointPlan(pointMap, mPointMap, sPointMap, reverse), pf, zero))
  {
    PointPlanFacts(pointMap, mPointMap, sPointMap, reverse);
  }

  /** The reverse copies are the forward copies turned around. */
  lemma PointPlanSwap(pointMap: map<int, int>, mPointMap: map<int, int>, sPointMap: map<int, int>)
    requires PointLookups(pointMap, mPointMap, sPointMap)
    ensures PointPlan(pointMap, mPointMap, sPointMap, true) == Swap(PointPlan(pointMap, mPointMap, sPointMap, false))
    ensures |PointPlan(pointMap, mPointMap, sPointMap, false)| == |pointMap|
  {
    assert PointPlan(pointMap, mPointMap, sPointMap, false).Keys == pointMap.Keys;
  }

  /** Reverse after forward, and forward after reverse, give back the field when both
      translations pair the keys one to one with the positions of the patch. */
  lemma PointRoundTrip<T>(pointMap: map<int, int>, mPointMap: map<int, int>,
                          sPointMap: map<int, int>, pf: seq<T>, zero: T)
    requires |pf| == |pointMap|
    requires PointTransferable(pointMap, mPointMap, sPointMap, false)
    requires PointTransferable(pointMap, mPointMap, sPointMap, true)
    ensures PointInterpolation(pointMap, mPointMap, sPointMap, pf, zero, false).Ok?
    ensures PointInterpolation(pointMap, mPointMap, sPointMap,
              PointInterpolation(pointMap, mPointMap, sPointMap, pf, zero, false).value,
              zero, true) == Ok(pf)
    ensures PointInterpolation(pointMap, mPointMap, sPointMap,
              PointInterpolation(pointMap, mPointMap, sPointMap, pf, zero, true).value,
              zero, false) == Ok(pf)
  {
    PointValue(pointMap, mPointMap, sPointMap, pf, zero, false);
    PointValue(pointMap, mPointMap, sPointMap, pf, zero, true);
    var fwd := PointPlan(pointMap, mPointMap, sPointMap, false);
    var rev := PointPlan(pointMap, mPointMap, sPointMap, true);
    PointPlanSwap(pointMap, mPointMap, sPointMap);
    SwapFacts(fwd, |pf|);
    var there := Scatter(fwd, pf, zero);
    var back := Scatter(rev, pf, zero);
    PointValue(pointMap, mPointMap, sPointMap, there, zero, true);
    PointValue(pointMap, mPointMap, sPointMap, back, zero, false);
    RoundTrip(fwd, pf, zero);
    RoundTrip(rev, pf, zero);
  }

  // Faces: master key m and slave value s of the FACE map are global face labels;
  // subtracting the start of the master and slave patch gives positions in the field.

  /** The position of global face label `face` in the field of a patch whose first face
      is `start`. */
  function Local(face: int, start: int): int
  {
    face - start
  }

  /** The copies of the face loop are defined: both offsets land inside the patch. */
  ghost predicate FaceInPatch(faceMap: map<int, int>, mStart: int, sStart: int)
  {
    forall m :: m in faceMap ==> 0 <= Local(m, mStart) < |faceMap| && 0 <= Local(faceMap[m], sStart) < |faceMap|
  }

  /** No two entries write the same position: going forward no two master faces map to
      the same slave face; in reverse the master keys, which are distinct, give distinct
      positions by themselves. */
  ghost predicate FaceDistinct(faceMap: map<int, int>, reverse: bool)
  {
    !reverse ==> forall j, k :: j in faceMap && k in faceMap && faceMap[j] == faceMap[k] ==> j == k
  }

  /** Position i of the result is written by some entry: reached by a slave face going
      forward, by a master face in reverse. */
  ghost predicate FaceReached(faceMap: map<int, int>, mStart: int, sStart: int, reverse: bool, i: int)
  {
    if reverse then exists m :: m in faceMap && Local(m, mStart) == i
    else exists m :: m in faceMap && Local(faceMap[m], sStart) == i
  }

  /** Conditions under which the copy loop of `faceInterpolate` is defined and its result
      does not depend on the order in which the map is walked. */
  ghost predicate FaceTransferable(faceMap: map<int, int>, mStart: int, sStart: int, reverse: bool)
  {
    FaceInPatch(faceMap, mStart, sStart) && FaceDistinct(faceMap, reverse)
  }

  /** The copies of the face loop: forward, result[s - sStart] := pf[m - mStart];
      reverse, result[m - mStart] := pf[s - sStart]; for each m |-> s. */
  function FacePlan(faceMap: map<int, int>, mStart: int, sStart: int, reverse: bool): Plan
  {
    map m | m in faceMap ::
      if reverse then Move(Local(m, mStart), Local(faceMap[m], sStart))
      else Move(Local(faceMap[m], sStart), Local(m, mStart))
  }

  /** The face copies have one key per map entry and stay inside the patch; no two of
      them write the same position exactly when the entries are distinct in the chosen
      direction. */
  lemma FacePlanFacts(faceMap: map<int, int>, mStart: int, sStart: int, reverse: bool)
    requires FaceInPatch(faceMap, mStart, sStart)
    ensures |FacePlan(faceMap, mStart, sStart, reverse)| == |faceMap|
    ensures InRange(FacePlan(faceMap, mStart, sStart, reverse), |faceMap|)
    ensures DistinctDst(FacePlan(faceMap, mStart, sStart, reverse)) <==> FaceDistinct(faceMap, reverse)
  {
    var plan := FacePlan(faceMap, mStart, sStart, reverse);
    assert plan.Keys == faceMap.Keys;
    if DistinctDst(plan) && !reverse {
      forall j, k | j in faceMap && k in faceMap && faceMap[j] == faceMap[k]
        ensures j == k
      {
        assert plan[j].dst == plan[k].dst;
      }
    }
  }

  /** With one entry per position and no two entries on the same position, the entries
      reach every position of the patch: under these conditions the zero fill is
      entirely overwritten. */
  lemma FaceOnto(faceMap: map<int, int>, mStart: int, sStart: int, reverse: bool)
    requires FaceTransferable(faceMap, mStart, sStart, reverse)
    ensures forall i :: 0 <= i < |faceMap| ==> FaceReached(faceMap, mStart, sStart, reverse, i)
  {
    FacePlanFacts(faceMap, mStart, sStart, reverse);
    var plan := FacePlan(faceMap, mStart, sStart, reverse);
    DstOnto(plan, |faceMap|);
    forall i | 0 <= i < |faceMap|
      ensures FaceReached(faceMap, mStart, sStart, reverse, i)
    {
      assert Written(plan, i);
      var m :| m in plan && plan[m].dst == i;
      assert m in faceMap;
    }
  }

  /** The value of `faceInterpolate(mStart, sStart, pf, reverse)` on a map whose FACE
      entity map is `faceMap`: a fatal error when the field is not the size of the map,
      otherwise a field of that size (what it holds is stated by FaceForward and
      FaceReverse). */
  function FaceInterpolation<T>(faceMap: map<int, int>, mStart: int, sStart: int,
                                pf: seq<T>, zero: T, reverse: bool): (r: Result<seq<T>, InterpolateError>)
    requires |pf| == |faceMap| ==> FaceTransferable(faceMap, mStart, sStart, reverse)
    ensures r.Err? <==> |pf| != |faceMap|
    ensures r.Err? ==> r.error == SizeMismatch(|faceMap|, |pf|)
    ensures r.Ok? ==> |r.value| == |faceMap|
  {
    if |pf| != |faceMap| then
      Err(SizeMismatch(|faceMap|, |pf|))
    else
      FacePlanFacts(faceMap, mStart, sStart, reverse);
      Ok(Scatter(FacePlan(faceMap, mStart, sStart, reverse), pf, zero))
  }

  /** Forward: for every pair m |-> s of the FACE map the result holds pf[m - mStart] at
      s - sStart, and these positions cover the patch, so nothing of the zero fill is
      left (see FaceForwardAnyOrder for master faces that share a slave face). */
  lemma FaceForward<T>(faceMap: map<int, int>, mStart: int, sStart: int, pf: seq<T>, zero: T)
    requires |pf| == |faceMap| && FaceTransferable(faceMap, mStart, sStart, false)
    ensures forall m :: m in faceMap ==>
      FaceInterpolation(faceMap, mStart, sStart, pf, zero, false).value[Local(faceMap[m], sStart)] == pf[Local(m, mStart)]
    ensures forall i :: 0 <= i < |faceMap| ==> FaceReached(faceMap, mStart, sStart, false, i)
  {
    FacePlanFacts(faceMap, mStart, sStart, false);
    var plan := FacePlan(faceMap, mStart, sStart, false);
    var r := FaceInterpolation(faceMap, mStart, sStart, pf, zero, false).value;
    assert r == Scatter(plan, pf, zero);
    ScatterSpec(plan, pf, zero);
    forall m | m in faceMap
      ensures r[Local(faceMap[m], sStart)] == pf[Local(m, mStart)]
    {
      assert plan[m] == Move(Local(faceMap[m], sStart), Local(m, mStart));
    }
    FaceOnto(faceMap, mStart, sStart, false);
  }

  /** Forward, in any order of the walk and with master faces allowed to share a slave
      face: positions no slave face reaches stay zero, a master face alone on its slave
      face leaves its copy there, and a shared slave face holds the copy of one of the
      master faces mapped to it. */
  lemma FaceForwardAnyOrder<T>(faceMap: map<int, int>, mStart: int, sStart: int, pf: seq<T>,
                               zero: T, s: seq<T>)
    requires |pf| == |faceMap| && FaceInPatch(faceMap, mStart, sStart)
    requires Outcome(FacePlan(faceMap, mStart, sStart, false), pf, zero, s)
    ensures |s| == |faceMap|
    ensures forall i ::
              0 <= i < |s| && !FaceReached(faceMap, mStart, sStart, false, i) ==> s[i] == zero
    ensures forall m ::
              m in faceMap && (forall j :: j in faceMap && faceMap[j] == faceMap[m] ==> j == m)
              ==> s[Local(faceMap[m], sStart)] == pf[Local(m, mStart)]
    ensures forall i ::
              0 <= i < |s| && FaceReached(faceMap, mStart, sStart, false, i) ==>
              exists m :: m in faceMap && Local(faceMap[m], sStart) == i && s[i] == pf[Local(m, mStart)]
  {
    var plan := FacePlan(faceMap, mStart, sStart, false);
    forall i | 0 <= i < |s| && !FaceReached(faceMap, mStart, sStart, false, i)
      ensures s[i] == zero
    {
      assert !WrittenBy(plan, plan.Keys, i);
    }
    forall m | m in faceMap && (forall j :: j in faceMap && faceMap[j] == faceMap[m] ==> j == m)
      ensures s[Local(faceMap[m], sStart)] == pf[Local(m, mStart)]
    {
      OutcomeSingle(plan, pf, zero, s, m);
    }
    forall i | 0 <= i < |s| && FaceReached(faceMap, mStart, sStart, false, i)
      ensures exists m :: m in faceMap && Local(faceMap[m], sStart) == i && s[i] == pf[Local(m, mStart)]
    {
      var m0 :| m0 in faceMap && Local(faceMap[m0], sStart) == i;
      assert WrittenBy(plan, plan.Keys, i) by {
        assert plan[m0].dst == i;
      }
      var m :| m in plan && plan[m].dst == i && s[i] == pf[plan[m].src];
    }
  }

  /** Reverse: for every pair m |-> s of the FACE map the result holds pf[s - sStart] at
      m - mStart, and these positions cover the patch, so nothing of the zero fill is
      left. */
  lemma FaceReverse<T>(faceMap: map<int, int>, mStart: int, sStart: int, pf: seq<T>, zero: T)
    requires |pf| == |faceMap| && FaceTransferable(faceMap, mStart, sStart, true)
    ensures forall m :: m in faceMap ==>
      FaceInterpolation(faceMap, mStart, sStart, pf, zero, true).value[Local(m, mStart)] == pf[Local(faceMap[m], sStart)]
    ensures forall i :: 0 <= i < |faceMap| ==> FaceReached(faceMap, mStart, sStart, true, i)
  {
    FacePlanFacts(faceMap, mStart, sStart, true);
    var plan := FacePlan(faceMap, mStart, sStart, true);
    var r := FaceInterpolation(faceMap, mStart, sStart, pf, zero, true).value;
    assert r == Scatter(plan, pf, zero);
    ScatterSpec(plan, pf, zero);
    forall m | m in faceMap
      ensures r[Local(m, mStart)] == pf[Local(faceMap[m], sStart)]
    {
      assert plan[m] == Move(Local(m, mStart), Local(faceMap[m], sStart));
    }
    FaceOnto(faceMap, mStart, sStart, true);
  }

  /** In reverse no injectivity is needed: the master keys are distinct positions. */
  lemma FaceReverseAlwaysDistinct(faceMap: map<int, int>, mStart: int, sStart: int)
    ensures DistinctDst(FacePlan(faceMap, mStart, sStart, true))
  {
  }

  /** The face result in terms of the scatter of its plan. */
  lemma FaceValue<T>(faceMap: map<int, int>, mStart: int, sStart: int, pf: seq<T>, zero: T,
                     reverse: bool)
    requires |pf| == |faceMap| && FaceTransferable(faceMap, mStart, sStart, reverse)
    ensures InRange(FacePlan(faceMap, mStart, sStart, reverse), |pf|)
    ensures DistinctDst(FacePlan(faceMap, mStart, sStart, reverse))
    ensures FaceInterpolation(faceMap, mStart, sStart, pf, zero, reverse)
         == Ok(Scatter(FacePlan(faceMap, mStart, sStart, reverse), pf, zero))
  {
    FacePlanFacts(faceMap, mStart, sStart, reverse);
  }

  /** The reverse copies are the forward copies turned around. */
  lemma FacePlanSwap(faceMap: map<int, int>, mStart: int, sStart: int)
    ensures FacePlan(faceMap, mStart, sStart, true) == Swap(FacePlan(faceMap, mStart, sStart, false))
    ensures |FacePlan(faceMap, mStart, sStart, false)| == |faceMap|
  {
    assert FacePlan(faceMap, mStart, sStart, false).Keys == faceMap.Keys;
  }

  /** Reverse after forward, and forward after reverse, give back the field when the
      offsets land inside the patch and no two master faces share a slave face. */
  lemma FaceRoundTrip<T>(faceMap: map<int, int>, mStart: int, sStart: int, pf: seq<T>, zero: T)
    requires |pf| == |faceMap|
    requires FaceTransferable(faceMap, mStart, sStart, false)
    ensures FaceTransferable(faceMap, mStart, sStart, true)
    ensures FaceInterpolation(faceMap, mStart, sStart, pf, zero, false).Ok?
    ensures FaceInterpolation(faceMap, mStart, sStart,
              FaceInterpolation(faceMap, mStart, sStart, pf, zero, false).value,
              zero, true) == Ok(pf)
    ensures FaceInterpolation(faceMap, mStart, sStart,
              FaceInterpolation(faceMap, mStart, sStart, pf, zero, true).value,
              zero, false) == Ok(pf)
  {
    assert FaceTransferable(faceMap, mStart, sStart, true);
    FaceValue(faceMap, mStart, sStart, pf, zero, false);
    FaceValue(faceMap, mStart, sStart, pf, zero, true);
    var fwd := FacePlan(faceMap, mStart, sStart, false);
    var rev := FacePlan(faceMap, mStart, sStart, true);
    FacePlanSwap(faceMap, mStart, sStart);
    SwapFacts(fwd, |pf|);
    var there := Scatter(fwd, pf, zero);
    var back := Scatter(rev, pf, zero);
    FaceValue(faceMap, mStart, sStart, there, zero, true);
    FaceValue(faceMap, mStart, sStart, back, zero, false);
    RoundTrip(fwd, pf, zero);
    RoundTrip(rev, pf, zero);
  }
}
