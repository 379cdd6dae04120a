/**
 * The scatter that both interpolation functions of a coupled patch perform: a result
 * field of n entries starts filled with zero, and for every key of a coupled entity map
 * one entry of the input field is copied to one position of the result. Only the way
 * the two positions are computed from the key differs between points and faces, so the
 * scatter itself is defined and proved once here, over a `Plan` that lists, per key,
 * the position written (`dst`) and the position read (`src`).
 */
module Transfer {

  /** One copy of the scatter loop: result[dst] := field[src]. */
  datatype Move = Move(dst: int, src: int)

  /** The copies of one interpolation call, keyed by the keys of the entity map. */
  type Plan = map<int, Move>

  /** Every position a plan writes or reads is an index of an n-entry field. */
  ghost predicate InRange(plan: Plan, n: int)
  {
    forall k :: k in plan ==> 0 <= plan[k].dst < n && 0 <= plan[k].src < n
  }

  /** No two keys write the same position, so the order of the copies does not matter. */
  ghost predicate DistinctDst(plan: Plan)
  {
    forall j, k :: j in plan && k in plan && plan[j].dst == plan[k].dst ==> j == k
  }

  /** No two keys read the same position. */
  ghost predicate DistinctSrc(plan: Plan)
  {
    forall j, k :: j in plan && k in plan && plan[j].src == plan[k].src ==> j == k
  }

  /** Position i is written by some copy of the plan. */
  ghost predicate Written(plan: Plan, i: int)
  {
    exists k :: k in plan && plan[k].dst == i
  }

  /** Position i is written by the copy of one of `keys`. */
  ghost predicate WrittenBy(plan: Plan, keys: set<int>, i: int)
  {
    exists k :: k in keys && k in plan && plan[k].dst == i
  }

  /** Position i is read by some copy of the plan. */
  ghost predicate Read(plan: Plan, i: int)
  {
    exists k :: k in plan && plan[k].src == i
  }

  /** The plan of the opposite direction: every copy goes the other way. */
  function Swap(plan: Plan): Plan
  {
    map k | k in plan :: Move(plan[k].src, plan[k].dst)
  }

  /** The copies of a plan, as a map from the position written to the position read. */
  function Writes(plan: Plan): map<int, int>
    requires DistinctDst(plan)
  {
    map k | k in plan :: plan[k].dst := plan[k].src
  }

  /** The result of the scatter loop: a field as long as `field`, zero where no copy
      writes and the value read by the copy where one does. */
  function Scatter<T>(plan: Plan, field: seq<T>, zero: T): seq<T>
    requires InRange(plan, |field|) && DistinctDst(plan)
  {
    var w := Writes(plan);
    seq(|field|, i => if i in w then field[w[i]] else zero)
  }

  /** The positions a plan writes are exactly the keys of its `Writes` map. */
  lemma WritesKeys(plan: Plan)
    requires DistinctDst(plan)
    ensures forall i :: i in Writes(plan) <==> Written(plan, i)
  {
    forall i | i in Writes(plan)
      ensures Written(plan, i)
    {
      var k :| k in plan && plan[k].dst == i;
    }
  }

  /** What the scatter produces: a field of the same size in which every copy of the
      plan has been made and every position no copy writes still holds zero. */
  lemma ScatterSpec<T>(plan: Plan, field: seq<T>, zero: T)
    requires InRange(plan, |field|) && DistinctDst(plan)
    ensures |Scatter(plan, field, zero)| == |field|
    ensures forall k :: k in plan ==> Scatter(plan, field, zero)[plan[k].dst] == field[plan[k].src]
    ensures forall i :: 0 <= i < |field| && !Written(plan, i) ==> Scatter(plan, field, zero)[i] == zero
  {
    var w := Writes(plan);
    var r := Scatter(plan, field, zero);
    forall k | k in plan
      ensures r[plan[k].dst] == field[plan[k].src]
    {
      assert plan[k].dst in w && w[plan[k].dst] == plan[k].src;
    }
    WritesKeys(plan);
    forall i | 0 <= i < |field| && !Written(plan, i)
      ensures r[i] == zero
    {
      assert i !in w;
    }
  }

  /** ... and it is the only such field: any field of the same size that holds every copy
      of the plan and zero wherever no copy writes is the scatter. */
  lemma ScatterFromCopies<T>(plan: Plan, s: seq<T>, field: seq<T>, zero: T)
    requires InRange(plan, |field|) && DistinctDst(plan) && |s| == |field|
    requires forall k :: k in plan ==> s[plan[k].dst] == field[plan[k].src]
    requires forall i :: 0 <= i < |s| && !Written(plan, i) ==> s[i] == zero
    ensures s == Scatter(plan, field, zero)
  {
    ScatterSpec(plan, field, zero);
    var r := Scatter(plan, field, zero);
    forall i | 0 <= i < |s|
      ensures s[i] == r[i]
    {
      if Written(plan, i) {
        var k :| k in plan && plan[k].dst == i;
      }
    }
  }

  /** Position i of `s` holds the copy of one of the keys in `keys` that write i. */
  ghost predicate HoldsCopyAt<T>(plan: Plan, keys: set<int>, s: seq<T>, field: seq<T>, i: int)
    requires InRange(plan, |field|) && 0 <= i < |s|
  {
    exists k :: k in keys && k in plan && plan[k].dst == i && s[i] == field[plan[k].src]
  }

  /** Every position of `s` that a key of `keys` writes holds the copy of one of them. */
  ghost predicate HoldsCopies<T>(plan: Plan, keys: set<int>, s: seq<T>, field: seq<T>)
    requires InRange(plan, |field|)
  {
    forall i :: 0 <= i < |s| && WrittenBy(plan, keys, i) ==> HoldsCopyAt(plan, keys, s, field, i)
  }

  /** `s` holds zero wherever no key of `keys` writes. */
  ghost predicate ZeroElsewhere<T>(plan: Plan, keys: set<int>, s: seq<T>, zero: T)
  {
    forall i :: 0 <= i < |s| && !WrittenBy(plan, keys, i) ==> s[i] == zero
  }

  /** The fields the copy loop can leave when it walks the keys in some order: as long
      as `field`, zero where no key writes, and at every written position the copy of
      one of the keys writing it (the one walked last). */
  ghost predicate Outcome<T>(plan: Plan, field: seq<T>, zero: T, s: seq<T>)
  {
    && InRange(plan, |field|)
    && |s| == |field|
    && ZeroElsewhere(plan, plan.Keys, s, zero)
    && HoldsCopies(plan, plan.Keys, s, field)
  }

  /** One copy of the loop keeps both facts, for one more key. */
  lemma CopyStep<T>(plan: Plan, keys: set<int>, k: int, s: seq<T>, field: seq<T>, zero: T)
    requires InRange(plan, |field|) && |s| == |field| && k in plan
    requires HoldsCopies(plan, keys, s, field) && ZeroElsewhere(plan, keys, s, zero)
    ensures HoldsCopies(plan, keys + {k}, s[plan[k].dst := field[plan[k].src]], field)
    ensures ZeroElsewhere(plan, keys + {k}, s[plan[k].dst := field[plan[k].src]], zero)
  {
    var t := s[plan[k].dst := field[plan[k].src]];
    forall i | 0 <= i < |t| && WrittenBy(plan, keys + {k}, i)
      ensures HoldsCopyAt(plan, keys + {k}, t, field, i)
    {
      if i == plan[k].dst {
        assert t[i] == field[plan[k].src];
      } else {
        assert WrittenBy(plan, keys, i);
        var j :| j in keys && j in plan && plan[j].dst == i && s[i] == field[plan[j].src];
        assert t[i] == s[i];
      }
    }
    forall i | 0 <= i < |t| && !WrittenBy(plan, keys + {k}, i)
      ensures t[i] == zero
    {
      assert i != plan[k].dst;
      assert !WrittenBy(plan, keys, i);
    }
  }

  /** A key that no other key shares its position with leaves its copy there, whatever
      the order of the walk. */
  lemma OutcomeSingle<T>(plan: Plan, field: seq<T>, zero: T, s: seq<T>, k: int)
    requires Outcome(plan, field, zero, s)
    requires k in plan && forall j :: j in plan && plan[j].dst == plan[k].dst ==> j == k
    ensures s[plan[k].dst] == field[plan[k].src]
  {
    assert WrittenBy(plan, plan.Keys, plan[k].dst);
    var j :| j in plan && plan[j].dst == plan[k].dst && s[plan[k].dst] == field[plan[j].src];
  }

  /** When no two keys share a position the walk order does not matter: the only
      outcome is the scatter. */
  lemma OutcomeUnique<T>(plan: Plan, field: seq<T>, zero: T, s: seq<T>)
    requires Outcome(plan, field, zero, s) && DistinctDst(plan)
    ensures s == Scatter(plan, field, zero)
  {
    forall k | k in plan
      ensures s[plan[k].dst] == field[plan[k].src]
    {
      OutcomeSingle(plan, field, zero, s, k);
    }
    forall i | 0 <= i < |s| && !Written(plan, i)
      ensures s[i] == zero
    {
      assert !WrittenBy(plan, plan.Keys, i);
    }
    ScatterFromCopies(plan, s, field, zero);
  }

  /** The copy loop: a zero-filled array as long as `field` receives, for every key of
      the plan in an unspecified order, the entry read by its copy at the position its
      copy writes. */
  method ScatterLoop<T>(plan: Plan, field: seq<T>, zero: T) returns (result: seq<T>)
    requires InRange(plan, |field|)
    ensures Outcome(plan, field, zero, result)
    ensures DistinctDst(plan) ==> result == Scatter(plan, field, zero)
  {
    var copies := new T[|field|](_ => zero);
    var todo := plan.Keys;
    ghost var done: set<int> := {};
    while todo != {}
      invariant copies.Length == |field|
      invariant todo <= plan.Keys && done == plan.Keys - todo
      invariant HoldsCopies(plan, done, copies[..], field)
      invariant ZeroElsewhere(plan, done, copies[..], zero)
      decreases |todo|
    {
      assert (forall k :: k !in todo) ==> todo == {};
      var k :| k in todo;
      CopyStep(plan, done, k, copies[..], field, zero);
      copies[plan[k].dst] := field[plan[k].src];
      todo, done := todo - {k}, done + {k};
    }
    assert done == plan.Keys;
    result := copies[..];
    if DistinctDst(plan) {
      OutcomeUnique(plan, field, zero, result);
    }
  }

  /** The positions read by the copies of `keys`. */
  function SrcImage(plan: Plan, keys: set<int>): set<int>
    requires keys <= plan.Keys
  {
    set k | k in keys :: plan[k].src
  }

  /** When no two keys read the same position, the copies of `keys` read |keys| positions. */
  lemma {:induction false} SrcImageSize(plan: Plan, keys: set<int>)
    requires keys <= plan.Keys && DistinctSrc(plan)
    ensures |SrcImage(plan, keys)| == |keys|
    decreases keys
  {
    if keys != {} {
      assert (forall k :: k !in keys) ==> keys == {};
      var k0 :| k0 in keys;
      var rest := keys - {k0};
      SrcImageSize(plan, rest);
      assert SrcImage(plan, keys) == SrcImage(plan, rest) + {plan[k0].src};
      assert plan[k0].src !in SrcImage(plan, rest);
    }
  }

  /** The indices 0 .. n-1 of an n-entry field. */
  function Indices(n: nat): set<int>
  {
    if n == 0 then {} else Indices(n - 1) + {n - 1}
  }

  lemma {:induction false} IndicesFacts(n: nat)
    ensures |Indices(n)| == n
    ensures forall i :: i in Indices(n) <==> 0 <= i < n
  {
    if n > 0 {
      IndicesFacts(n - 1);
    }
  }

  /** A subset of a finite set with as many elements is the whole set. */
  lemma SubsetOfSameSize(a: set<int>, b: set<int>)
    requires a <= b && |a| == |b|
    ensures a == b
  {
    assert b == a + (b - a);
    assert |b - a| == 0;
  }

  /** When a plan has one key per position and no two keys read the same position,
      every position of the field is read by the plan. */
  lemma SrcOnto(plan: Plan, n: nat)
    requires InRange(plan, n) && DistinctSrc(plan) && |plan| == n
    ensures forall i :: 0 <= i < n ==> Read(plan, i)
  {
    var image := SrcImage(plan, plan.Keys);
    SrcImageSize(plan, plan.Keys);
    assert |plan.Keys| == n;
    IndicesFacts(n);
    SubsetOfSameSize(image, Indices(n));
    forall i | 0 <= i < n
      ensures Read(plan, i)
    {
      assert i in image;
    }
  }

  /** When a plan has one key per position and no two keys write the same position,
      every position of the field is written: nothing of the zero fill is left. */
  lemma DstOnto(plan: Plan, n: nat)
    requires InRange(plan, n) && DistinctDst(plan) && |plan| == n
    ensures forall i :: 0 <= i < n ==> Written(plan, i)
  {
    SwapFacts(plan, n);
    assert Swap(plan).Keys == plan.Keys;
    SrcOnto(Swap(plan), n);
    forall i | 0 <= i < n
      ensures Written(plan, i)
    {
      assert Read(Swap(plan), i);
      var k :| k in Swap(plan) && Swap(plan)[k].src == i;
      assert plan[k].dst == i;
    }
  }

  /** Swapping twice gives back the plan, and swapping exchanges the two distinctness
      conditions. */
  lemma SwapFacts(plan: Plan, n: int)
    ensures Swap(Swap(plan)) == plan
    ensures InRange(Swap(plan), n) <==> InRange(plan, n)
    ensures DistinctDst(Swap(plan)) <==> DistinctSrc(plan)
    ensures DistinctSrc(Swap(plan)) <==> DistinctDst(plan)
  {
    assert Swap(Swap(plan)).Keys == plan.Keys;
    assert forall k :: k in plan ==> Swap(Swap(plan))[k] == plan[k];
  }

  /** Round trip: when the copies pair the n positions one to one (no position written
      twice, none read twice), scattering in the opposite direction restores the field. */
  lemma RoundTrip<T>(plan: Plan, field: seq<T>, zero: T)
    requires InRange(plan, |field|) && DistinctDst(plan) && DistinctSrc(plan)
    requires |plan| == |field|
    ensures InRange(Swap(plan), |field|) && DistinctDst(Swap(plan))
    ensures Scatter(Swap(plan), Scatter(plan, field, zero), zero) == field
  {
    SwapFacts(plan, |field|);
    var there := Scatter(plan, field, zero);
    ScatterSpec(plan, field, zero);
    var back := Scatter(Swap(plan), there, zero);
    ScatterSpec(Swap(plan), there, zero);
    SrcOnto(plan, |field|);
    forall i | 0 <= i < |field|
      ensures back[i] == field[i]
    {
      assert Read(plan, i);
      var k :| k in plan && plan[k].src == i;
      assert Swap(plan)[k] == Move(i, plan[k].dst);
    }
  }
}
