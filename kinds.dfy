/**
 * The enumerations of a coupled patch map and the fixed tables they index.
 *
 * The C++ `entityType` enumeration gives one integer several meanings: POINT, EDGE and
 * FACE name both an entity-size slot and an entity-buffer slot, CELL .. NBDY name size
 * slots only, and OWNER .. PATCH_ID buffer slots only (so CELL and OWNER are both 3).
 * Each view is a datatype here, with a function giving its integer value, which is the
 * slot it selects in its table, and the inverse lookup from an integer.
 */
module CoupleKinds {
  import opened Results

  /** Slots of the fixed-size tables of a coupled map. */
  const N_ENTITY_SLOTS: nat := 10  // entity sizes
  const N_MAP_SLOTS: nat := 4      // entity maps and reverse entity maps
  const N_BUFFER_SLOTS: nat := 12  // entity buffers

  /** `entityType` read as the kind of an entity size. */
  datatype SizeKind =
    | Point | Edge | Face | Cell | InternalEdge | InternalFace
    | SharedPoint | GlobalPoint | NfeSize | Nbdy

  /** `entityType` read as the kind of an entity buffer. */
  datatype BufferKind =
    | PointBuffer | EdgeBuffer | FaceBuffer | Owner | Neighbour | FaceEdge
    | NfeBuffer | FaceStarts | FaceSizes | EdgeStarts | EdgeSizes | PatchId

  /** `opType`: the topological operations recorded for coupled entities. */
  datatype OpType =
    | Bisection | CollapseFirst | CollapseSecond | CollapseMidpoint
    | RemoveCell | MovePoint | ConvertPatch | Invalid

  /** The enumerant INVALID, and the size of the `names` table indexed by `opType`. */
  const INVALID_VALUE: nat := 7
  const N_NAMES: nat := INVALID_VALUE + 1

  /** The integer value of a size kind: a slot of the entity-size table. */
  function SizeSlot(k: SizeKind): (i: nat)
    ensures i < N_ENTITY_SLOTS
  {
    match k
    case Point => 0
    case Edge => 1
    case Face => 2
    case Cell => 3
    case InternalEdge => 4
    case InternalFace => 5
    case SharedPoint => 6
    case GlobalPoint => 7
    case NfeSize => 8
    case Nbdy => 9
  }

  /** The size kind with integer value i, if any. */
  function SizeKindAt(i: int): (k: Option<SizeKind>)
    ensures k.Some? <==> 0 <= i < N_ENTITY_SLOTS
    ensures k.Some? ==> SizeSlot(k.value) == i
  {
    if i == 0 then Some(Point)
    else if i == 1 then Some(Edge)
    else if i == 2 then Some(Face)
    else if i == 3 then Some(Cell)
    else if i == 4 then Some(InternalEdge)
    else if i == 5 then Some(InternalFace)
    else if i == 6 then Some(SharedPoint)
    else if i == 7 then Some(GlobalPoint)
    else if i == 8 then Some(NfeSize)
    else if i == 9 then Some(Nbdy)
    else None
  }

  /** Distinct size kinds select distinct slots: every slot of the entity-size table
      belongs to exactly one size kind. */
  lemma SizeSlotBijective(k: SizeKind)
    ensures SizeKindAt(SizeSlot(k)) == Some(k)
  {
  }

  /** The integer value of a buffer kind: a slot of the entity-buffer table. */
  function BufferSlot(k: BufferKind): (i: nat)
    ensures i < N_BUFFER_SLOTS
  {
    match k
    case PointBuffer => 0
    case EdgeBuffer => 1
    case FaceBuffer => 2
    case Owner => 3
    case Neighbour => 4
    case FaceEdge => 5
    case NfeBuffer => 6
    case FaceStarts => 7
    case FaceSizes => 8
    case EdgeStarts => 9
    case EdgeSizes => 10
    case PatchId => 11
  }

  /** The buffer kind with integer value i, if any. */
  function BufferKindAt(i: int): (k: Option<BufferKind>)
    ensures k.Some? <==> 0 <= i < N_BUFFER_SLOTS
    ensures k.Some? ==> BufferSlot(k.value) == i
  {
    if i == 0 then Some(PointBuffer)
    else if i == 1 then Some(EdgeBuffer)
    else if i == 2 then Some(FaceBuffer)
    else if i == 3 then Some(Owner)
    else if i == 4 then Some(Neighbour)
    else if i == 5 then Some(FaceEdge)
    else if i == 6 then Some(NfeBuffer)
    else if i == 7 then Some(FaceStarts)
    else if i == 8 then Some(FaceSizes)
    else if i == 9 then Some(EdgeStarts)
    else if i == 10 then Some(EdgeSizes)
    else if i == 11 then Some(PatchId)
    else None
  }

  /** Every slot of the entity-buffer table belongs to exactly one buffer kind. */
  lemma BufferSlotBijective(k: BufferKind)
    ensures BufferKindAt(BufferSlot(k)) == Some(k)
  {
  }

  /** The kinds that have an entity map (and a reverse entity map): exactly POINT, EDGE,
      FACE and CELL, the size kinds whose value is a slot of the four-slot map tables. */
  predicate HasMap(k: SizeKind)
  {
    SizeSlot(k) < N_MAP_SLOTS
  }

  lemma MapKinds(k: SizeKind)
    ensures HasMap(k) <==> k in {Point, Edge, Face, Cell}
  {
  }

  /** POINT, EDGE and FACE mean the same slot in both views; elsewhere one integer names
      unrelated kinds in the two tables (CELL and OWNER are 3, INTERNAL_FACE and
      FACE_EDGE are 5). */
  lemma SharedValues()
    ensures SizeSlot(Point) == BufferSlot(PointBuffer) == 0
    ensures SizeSlot(Edge) == BufferSlot(EdgeBuffer) == 1
    ensures SizeSlot(Face) == BufferSlot(FaceBuffer) == 2
    ensures SizeSlot(Cell) == BufferSlot(Owner) == 3
    ensures SizeSlot(InternalFace) == BufferSlot(FaceEdge) == 5
  {
  }

  /** The integer value of an operation: its slot in the `names` table. */
  function OpValue(op: OpType): (i: nat)
    ensures i < N_NAMES
    ensures i == INVALID_VALUE <==> op == Invalid
  {
    match op
    case Bisection => 0
    case CollapseFirst => 1
    case CollapseSecond => 2
    case CollapseMidpoint => 3
    case RemoveCell => 4
    case MovePoint => 5
    case ConvertPatch => 6
    case Invalid => INVALID_VALUE
  }

  /** The operation with integer value i, if any. */
  function OpAt(i: int): (op: Option<OpType>)
    ensures op.Some? <==> 0 <= i < N_NAMES
    ensures op.Some? ==> OpValue(op.value) == i
  {
    if i == 0 then Some(Bisection)
    else if i == 1 then Some(CollapseFirst)
    else if i == 2 then Some(CollapseSecond)
    else if i == 3 then Some(CollapseMidpoint)
    else if i == 4 then Some(RemoveCell)
    else if i == 5 then Some(MovePoint)
    else if i == 6 then Some(ConvertPatch)
    else if i == INVALID_VALUE then Some(Invalid)
    else None
  }

  /** The `names` table has one entry per operation plus one for INVALID, and every
      operation has its own entry. */
  lemma OpValueBijective(op: OpType)
    ensures N_NAMES == 8
    ensures OpAt(OpValue(op)) == Some(op)
  {
  }
}
