/**
 * The state of a coupled patch map (`coupleMap`) and its inline members.
 *
 * Every data member of the C++ class is `mutable` and handed out by reference from
 * `const` accessors, so the class here has fields that its methods assign. The three
 * fixed-size tables (`FixedList`) are arrays whose identity and length never change:
 * ten entity sizes, four entity maps and four reverse entity maps, twelve entity buffers.
 * An accessor that returns a reference is modelled by a function that reads the slot
 * and a method that writes it.
 *
 * The two interpolation members check the field size, list the copies of the source's
 * loop for the requested direction, and run them over a freshly allocated, zero-filled
 * array; they are proved to return the values that
 * `CoupleInterpolation.PointInterpolation` and `FaceInterpolation` define.
 */
module CoupleMapState {
  import opened Results
  import opened Transfer
  import opened CoupleKinds
  import opened CoupleInterpolation

  /** A `tmp<Field<Type>>` argument: a handle that holds a field until it is cleared.
      Clearing releases a temporary; a handle on a caller's field keeps it. */
  class FieldHandle<T> {
    var held: Option<seq<T>>
    const isTemporary: bool

    constructor Temporary(field: seq<T>)
      ensures held == Some(field) && isTemporary
    {
      held := Some(field);
      isTemporary := true;
    }

    constructor Reference(field: seq<T>)
      ensures held == Some(field) && !isTemporary
    {
      held := Some(field);
      isTemporary := false;
    }

    method Clear()
      modifies this
      ensures held == if isTemporary then None else old(held)
    {
      if isTemporary {
        held := None;
      }
    }
  }

  class CoupleMap {
    var twoDMesh: bool
    // Flags for coupled entities
    var isLocal: bool
    var isSend: bool
    // Patch index for coupled entities, master and slave indices
    var patchIndex: int
    var masterIndex: int
    var slaveIndex: int

    /** Entity sizes, one slot per size kind. */
    const nEntities: array<int>
    /** Master-to-slave maps and their reverses, one slot per kind with a map. */
    const entityMap: array<map<int, int>>
    const reverseEntityMap: array<map<int, int>>
    /** Entity buffers, one slot per buffer kind. */
    const entityBuffer: array<seq<int>>

    /** Entities with topological operations, and the operation done on each. */
    var entityIndices: seq<int>
    var entityOperations: seq<OpType>

    /** The tables have their fixed sizes, and the map table is not its own reverse. */
    ghost predicate Valid()
      reads this
    {
      && nEntities.Length == N_ENTITY_SLOTS
      && entityMap.Length == N_MAP_SLOTS
      && reverseEntityMap.Length == N_MAP_SLOTS
      && entityBuffer.Length == N_BUFFER_SLOTS
      && entityMap != reverseEntityMap
    }

    /** Construct from components: the flags and indices as given, the tables newly
        allocated at their fixed sizes. */
    constructor (twoDMesh: bool, isLocal: bool, isSend: bool,
                 patchIndex: int, masterIndex: int, slaveIndex: int)
      ensures Valid()
      ensures this.twoDMesh == twoDMesh && this.isLocal == isLocal && this.isSend == isSend
      ensures this.patchIndex == patchIndex
      ensures this.masterIndex == masterIndex && this.slaveIndex == slaveIndex
      ensures fresh(nEntities) && fresh(entityMap) && fresh(reverseEntityMap) && fresh(entityBuffer)
    {
      this.twoDMesh := twoDMesh;
      this.isLocal := isLocal;
      this.isSend := isSend;
      this.patchIndex := patchIndex;
      this.masterIndex := masterIndex;
      this.slaveIndex := slaveIndex;
      nEntities := new int[N_ENTITY_SLOTS](_ => 0);
      entityMap := new map<int, int>[N_MAP_SLOTS](_ => map[]);
      reverseEntityMap := new map<int, int>[N_MAP_SLOTS](_ => map[]);
      entityBuffer := new seq<int>[N_BUFFER_SLOTS](_ => []);
      entityIndices := [];
      entityOperations := [];
    }

    // Flags

    /** Whether the mesh is two-dimensional, as stored. */
    function IsTwoDMesh(): (r: bool)
      reads this
      ensures r == twoDMesh
    {
      twoDMesh
    }

    /** Whether the coupling is within one processor, as stored. */
    function IsLocal(): (r: bool)
      reads this
      ensures r == isLocal
    {
      isLocal
    }

    /** A coupled map is either local or across processors, never both. */
    function IsProcessor(): (r: bool)
      reads this
      ensures r != IsLocal()
    {
      !isLocal
    }

    /** Whether this side sends, as stored. */
    function IsSend(): (r: bool)
      reads this
      ensures r == isSend
    {
      isSend
    }

    /** A coupled map either sends or receives, never both. */
    function IsRecv(): (r: bool)
      reads this
      ensures r != IsSend()
    {
      !isSend
    }

    /** The master index, as stored. */
    function MasterIndex(): (i: int)
      reads this
      ensures i == masterIndex
    {
      masterIndex
    }

    /** The slave index, as stored. */
    function SlaveIndex(): (i: int)
      reads this
      ensures i == slaveIndex
    {
      slaveIndex
    }

    /** The patch index, as read through the reference `patchIndex()` returns. */
    function PatchIndex(): (i: int)
      reads this
      ensures i == patchIndex
    {
      patchIndex
    }

    /** Writing through the reference returned by `patchIndex()`. */
    method SetPatchIndex(index: int)
      modifies this`patchIndex
      ensures patchIndex == index
    {
      patchIndex := index;
    }

    // Entity sizes

    /** The whole entity-size table, as returned by `nEntities()`. */
    function EntitySizes(): (sizes: seq<int>)
      requires Valid()
      reads this, nEntities
      ensures |sizes| == N_ENTITY_SLOTS
    {
      nEntities[..]
    }

    /** One slot of the entity-size table, as returned by `nEntities(eType)`. */
    function NEntities(eType: int): (n: int)
      requires Valid() && 0 <= eType < N_ENTITY_SLOTS
      reads this, nEntities
      ensures n == EntitySizes()[eType]
    {
      nEntities[eType]
    }

    /** Writing through the reference returned by `nEntities(eType)`: slot eType of the
        size table changes and no other slot, and the buffer table, which gives the same
        integers other meanings, is untouched. */
    method SetNEntities(eType: int, n: int)
      requires Valid() && 0 <= eType < N_ENTITY_SLOTS
      modifies nEntities
      ensures Valid()
      ensures EntitySizes() == old(EntitySizes())[eType := n]
      ensures entityBuffer[..] == old(entityBuffer[..])
    {
      nEntities[eType] := n;
    }

    /** Assigning the whole table through the reference returned by `nEntities()`. */
    method SetEntitySizes(sizes: seq<int>)
      requires Valid() && |sizes| == N_ENTITY_SLOTS
      modifies nEntities
      ensures Valid()
      ensures EntitySizes() == sizes
      ensures entityBuffer[..] == old(entityBuffer[..])
    {
      forall i | 0 <= i < N_ENTITY_SLOTS {
        nEntities[i] := sizes[i];
      }
    }

    // Entity maps

    /** The master-to-slave map of a kind, as returned by `entityMap(eType)`. */
    function EntityMap(eType: int): (m: map<int, int>)
      requires Valid() && 0 <= eType < N_MAP_SLOTS
      reads this, entityMap
      ensures m == entityMap[..][eType]
    {
      entityMap[eType]
    }

    /** The slave-to-master map of a kind, as returned by `reverseEntityMap(eType)`. */
    function ReverseEntityMap(eType: int): (m: map<int, int>)
      requires Valid() && 0 <= eType < N_MAP_SLOTS
      reads this, reverseEntityMap
      ensures m == reverseEntityMap[..][eType]
    {
      reverseEntityMap[eType]
    }

    /** Writing through the reference returned by `entityMap(eType)`: only that slot of
        the map table changes; the reverse maps do not. */
    method SetEntityMap(eType: int, m: map<int, int>)
      requires Valid() && 0 <= eType < N_MAP_SLOTS
      modifies entityMap
      ensures Valid()
      ensures entityMap[..] == old(entityMap[..])[eType := m]
      ensures reverseEntityMap[..] == old(reverseEntityMap[..])
    {
      entityMap[eType] := m;
    }

    /** Writing through the reference returned by `reverseEntityMap(eType)`: only that
        slot of the reverse table changes; the forward maps do not. */
    method SetReverseEntityMap(eType: int, m: map<int, int>)
      requires Valid() && 0 <= eType < N_MAP_SLOTS
      modifies reverseEntityMap
      ensures Valid()
      ensures reverseEntityMap[..] == old(reverseEntityMap[..])[eType := m]
      ensures entityMap[..] == old(entityMap[..])
    {
      reverseEntityMap[eType] := m;
    }

    // Entity buffers

    /** The whole entity-buffer table, as returned by `entityBuffer()`. */
    function EntityBuffers(): (buffers: seq<seq<int>>)
      requires Valid()
      reads this, entityBuffer
      ensures |buffers| == N_BUFFER_SLOTS
    {
      entityBuffer[..]
    }

    /** One buffer, as returned by `entityBuffer(eType)`. */
    function EntityBuffer(eType: int): (buffer: seq<int>)
      requires Valid() && 0 <= eType < N_BUFFER_SLOTS
      reads this, entityBuffer
      ensures buffer == EntityBuffers()[eType]
    {
      entityBuffer[eType]
    }

    /** Writing through the reference returned by `entityBuffer(eType)`: only that slot of
        the buffer table changes, and the size table is untouched. */
    method SetEntityBuffer(eType: int, buffer: seq<int>)
      requires Valid() && 0 <= eType < N_BUFFER_SLOTS
      modifies entityBuffer
      ensures Valid()
      ensures EntityBuffers() == old(EntityBuffers())[eType := buffer]
      ensures nEntities[..] == old(nEntities[..])
    {
      entityBuffer[eType] := buffer;
    }

    /** Assigning the whole table through the reference returned by `entityBuffer()`:
        the twelve buffers are replaced and the size table, which reads the same integers
        differently, is untouched. */
    method SetEntityBuffers(buffers: seq<seq<int>>)
      requires Valid() && |buffers| == N_BUFFER_SLOTS
      modifies entityBuffer
      ensures Valid()
      ensures EntityBuffers() == buffers
      ensures nEntities[..] == old(nEntities[..])
    {
      forall i | 0 <= i < N_BUFFER_SLOTS {
        entityBuffer[i] := buffers[i];
      }
    }

    // Operation lists

    /** Writing through the reference returned by `entityIndices()`. */
    method SetEntityIndices(indices: seq<int>)
      modifies this`entityIndices
      ensures entityIndices == indices
    {
      entityIndices := indices;
    }

    /** Writing through the reference returned by `entityOperations()`. */
    method SetEntityOperations(operations: seq<OpType>)
      modifies this`entityOperations
      ensures entityOperations == operations
    {
      entityOperations := operations;
    }

    // Interpolation

    /** `pointInterpolate(mPointMap, sPointMap, pf, reverse)`: checks the field against
        the POINT entity map, then copies through the two point lookup maps into a
        zero-filled result, walking the entity map in an unspecified order. The result is
        an outcome of the copy loop in some order; when no two entries write the same
        position it is the value of `PointInterpolation`. */
    method PointInterpolate<T>(mPointMap: map<int, int>, sPointMap: map<int, int>,
                               pf: seq<T>, zero: T, reverse: bool := false)
      returns (r: Result<seq<T>, InterpolateError>)
      requires Valid()
      requires |pf| == |entityMap[SizeSlot(Point)]| ==> PointInPatch(entityMap[SizeSlot(Point)], mPointMap, sPointMap)
      ensures r.Err? <==> |pf| != |entityMap[SizeSlot(Point)]|
      ensures r.Err? ==> r.error == SizeMismatch(|entityMap[SizeSlot(Point)]|, |pf|)
      ensures r.Ok? ==> Outcome(PointPlan(entityMap[SizeSlot(Point)], mPointMap, sPointMap, reverse), pf, zero, r.value)
      ensures |pf| != |entityMap[SizeSlot(Point)]| || PointDistinct(entityMap[SizeSlot(Point)], mPointMap, sPointMap, reverse) ==>
                r == PointInterpolation(entityMap[SizeSlot(Point)], mPointMap, sPointMap, pf, zero, reverse)
    {
      var pointMap := EntityMap(SizeSlot(Point));
      if |pf| != |pointMap| {
        return Err(SizeMismatch(|pointMap|, |pf|));
      }
      PointPlanFacts(pointMap, mPointMap, sPointMap, reverse);
      var plan := PointPlan(pointMap, mPointMap, sPointMap, reverse);
      var result := ScatterLoop(plan, pf, zero);
      r := Ok(result);
    }

    /** The `tmp` overload: the same result for the held field, which is then released;
        on a size mismatch the fatal error comes first and the handle is left as it was. */
    method PointInterpolateTmp<T>(mPointMap: map<int, int>, sPointMap: map<int, int>,
                                  tpf: FieldHandle<T>, zero: T, reverse: bool := false)
      returns (r: Result<seq<T>, InterpolateError>)
      requires Valid() && tpf.held.Some?
      requires |tpf.held.value| == |entityMap[SizeSlot(Point)]| ==> PointInPatch(entityMap[SizeSlot(Point)], mPointMap, sPointMap)
      modifies tpf
      ensures r.Err? <==> |old(tpf.held).value| != |entityMap[SizeSlot(Point)]|
      ensures r.Err? ==> r.error == SizeMismatch(|entityMap[SizeSlot(Point)]|, |old(tpf.held).value|)
      ensures r.Ok? ==>
                Outcome(PointPlan(entityMap[SizeSlot(Point)], mPointMap, sPointMap, reverse), old(tpf.held).value, zero, r.value)
      ensures |old(tpf.held).value| != |entityMap[SizeSlot(Point)]| || PointDistinct(entityMap[SizeSlot(Point)], mPointMap, sPointMap, reverse) ==>
                r == PointInterpolation(entityMap[SizeSlot(Point)], mPointMap, sPointMap, old(tpf.held).value, zero, reverse)
      ensures tpf.held == if r.Ok? && tpf.isTemporary then None else old(tpf.held)
    {
      r := PointInterpolate(mPointMap, sPointMap, tpf.held.value, zero, reverse);
      if r.Err? {
        // the size check aborts before the handle is cleared
        return;
      }
      tpf.Clear();
    }

    /** `faceInterpolate(mStart, sStart, pf, reverse)`: checks the field against the FACE
        entity map, then copies between patch-local positions (global face label minus
        the patch start) into a zero-filled result, walking the entity map in an
        unspecified order. The result is an outcome of the copy loop in some order; when
        no two entries write the same position it is the value of `FaceInterpolation`. */
    method FaceInterpolate<T>(mStart: int, sStart: int, pf: seq<T>, zero: T,
                              reverse: bool := false)
      returns (r: Result<seq<T>, InterpolateError>)
      requires Valid()
      requires |pf| == |entityMap[SizeSlot(Face)]| ==> FaceInPatch(entityMap[SizeSlot(Face)], mStart, sStart)
      ensures r.Err? <==> |pf| != |entityMap[SizeSlot(Face)]|
      ensures r.Err? ==> r.error == SizeMismatch(|entityMap[SizeSlot(Face)]|, |pf|)
      ensures r.Ok? ==> Outcome(FacePlan(entityMap[SizeSlot(Face)], mStart, sStart, reverse), pf, zero, r.value)
      ensures |pf| != |entityMap[SizeSlot(Face)]| || FaceDistinct(entityMap[SizeSlot(Face)], reverse) ==>
                r == FaceInterpolation(entityMap[SizeSlot(Face)], mStart, sStart, pf, zero, reverse)
    {
      var faceMap := EntityMap(SizeSlot(Face));
      if |pf| != |faceMap| {
        return Err(SizeMismatch(|faceMap|, |pf|));
      }
      FacePlanFacts(faceMap, mStart, sStart, reverse);
      var plan := FacePlan(faceMap, mStart, sStart, reverse);
      var result := ScatterLoop(plan, pf, zero);
      r := Ok(result);
    }

    /** The `tmp` overload: the same result for the held field, which is then released;
        on a size mismatch the fatal error comes first and the handle is left as it was. */
    method FaceInterpolateTmp<T>(mStart: int, sStart: int, tpf: FieldHandle<T>, zero: T,
                                 reverse: bool := false)
      returns (r: Result<seq<T>, InterpolateError>)
      requires Valid() && tpf.held.Some?
      requires |tpf.held.value| == |entityMap[SizeSlot(Face)]| ==> FaceInPatch(entityMap[SizeSlot(Face)], mStart, sStart)
      modifies tpf
      ensures r.Err? <==> |old(tpf.held).value| != |entityMap[SizeSlot(Face)]|
      ensures r.Err? ==> r.error == SizeMismatch(|entityMap[SizeSlot(Face)]|, |old(tpf.held).value|)
      ensures r.Ok? ==> Outcome(FacePlan(entityMap[SizeSlot(Face)], mStart, sStart, reverse), old(tpf.held).value, zero, r.value)
      ensures |old(tpf.held).value| != |entityMap[SizeSlot(Face)]| || FaceDistinct(entityMap[SizeSlot(Face)], reverse) ==>
                r == FaceInterpolation(entityMap[SizeSlot(Face)], mStart, sStart, old(tpf.held).value, zero, reverse)
      ensures tpf.held == if r.Ok? && tpf.isTemporary then None else old(tpf.held)
    {
      r := FaceInterpolate(mStart, sStart, tpf.held.value, zero, reverse);
      if r.Err? {
        // the size check aborts before the handle is cleared
        return;
      }
      tpf.Clear();
    }
  }
}
