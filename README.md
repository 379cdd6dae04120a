# coupleMap: coupled-patch field transfer and state, in Dafny

`coupleMap` records how the entities of one patch of a dynamic-topology mesh
(the master) correspond to the entities of a coupled patch (the slave), either
within one processor or across processors. It holds:

- flags: whether the mesh is two-dimensional, whether the coupling is local, whether this side sends;
- the patch index and the master and slave indices;
- a ten-slot table of entity sizes;
- four-slot tables of master-to-slave entity maps and of their reverses;
- a twelve-slot table of integer entity buffers;
- the lists of entities with topological operations and the operation done on each.

Two template members move a field across the coupling:

- `pointInterpolate` translates each POINT-map entry through two point lookup maps.
- `faceInterpolate` translates each FACE-map entry by subtracting the start of each patch.

Both check the field size against the map, allocate a zero-filled result and copy
one entry per map entry. The `reverse` flag copies from slave to master instead.

The project has five modules:

- `Results` (`results.dfy`): `Option` and `Result`.
- `Transfer` (`transfer.dfy`): the copy loop both interpolation members share.
  - A `Plan` lists, per map key, the position written and the position read.
  - `Scatter` is the value the loop computes.
  - `Outcome` says what the loop can leave when it walks the keys in any order, even when two keys write the same position.
  - `ScatterLoop` is the loop itself, proved to leave an `Outcome`, and `Scatter` when no two keys write the same position.
  - The lemmas characterise `Scatter` exactly and prove the round trip through the swapped plan.
- `CoupleKinds` (`kinds.dfy`): the `entityType` enumeration read as two datatypes (size kinds and buffer kinds), because the C++ enumeration gives one integer several meanings. Also `opType`, and the slots each enumerant selects.
- `CoupleInterpolation` (`interpolation.dfy`): what `pointInterpolate` and `faceInterpolate` return, as functions of the entity map and their arguments, with the per-entry, coverage and round-trip properties, and what the loop leaves in any walk order when entries share a position.
- `CoupleMapState` (`couple_map.dfy`): the class `CoupleMap`.
  - Its fields are the state; the fixed-size tables are arrays.
  - It has the flag and slot accessors and the setters that model writing through the references they return.
  - The interpolation methods return an outcome of the copy loop in some walk order, and the value of the functions above when no two entries write the same position.
  - `FieldHandle` models the `tmp` argument of the overloads that release their input.

Modelling choices:

- A `Map<label>` is a `map<int, int>`; a `label` is an unbounded `int`.
- A field is a `seq<T>` for any `T`, and `pTraits<Type>::zero` is a parameter `zero: T`.
- The fatal size error is the `Err(SizeMismatch(patchSize, fieldSize))` result. It carries the two sizes the source prints.
- Looking up a missing key of a const `Map` is a fatal error raised by the `Map` (hash table) library. Indexing outside the field is unchecked. Both are preconditions here, on the path past the size check only; the library's missing-key error path is not modelled.
- The entity map is walked in hash order, which is not modelled: the copy loop picks the next key with `:|`, so what is proved holds for every order. Positions no entry writes stay zero in every order. A position that several entries write holds the copy of one of them, the one walked last.
- The `reverse = false` default of all four interpolation members is the default value of the Dafny parameter `reverse`.

## Model

| member | source | states |
|---|---|---|
| CoupleMapState.CoupleMap.PointInterpolate | dynamicTopoFvMesh/coupledMesh/coupleMapI.H:33-83 | the size-mismatch error, carrying the map and field sizes, exactly when they differ; otherwise an outcome of the copy loop over the POINT map's copies in the chosen direction, walked in some order; and, when no two entries write the same position, exactly `PointInterpolation`; `reverse` defaults to false |
| CoupleMapState.CoupleMap.PointInterpolateTmp | dynamicTopoFvMesh/coupledMesh/coupleMapI.H:86-102 | the same result as the `Field` overload for the held field; on success it then releases the handle if it is a temporary and leaves it otherwise, and on a size mismatch the handle is left as it was |
| CoupleMapState.CoupleMap.FaceInterpolate | dynamicTopoFvMesh/coupledMesh/coupleMapI.H:105-156 | the size-mismatch error exactly when sizes differ; otherwise an outcome of the copy loop over the FACE map's patch-local copies in the chosen direction, walked in some order; and, when no two entries write the same position (always in reverse), exactly `FaceInterpolation`; `reverse` defaults to false |
| CoupleMapState.CoupleMap.FaceInterpolateTmp | dynamicTopoFvMesh/coupledMesh/coupleMapI.H:159-175 | returns what the `Field` overload returns for the held field; on success it then releases a temporary handle, and on a size mismatch the handle is left as it was |
| CoupleMapState.FieldHandle.Clear | dynamicTopoFvMesh/coupledMesh/coupleMapI.H:100 | clearing a temporary empties the handle; clearing a handle on a caller's field keeps the field |
| Transfer.ScatterLoop | dynamicTopoFvMesh/coupledMesh/coupleMapI.H:56-80 | the zero-filled array that receives one copy per plan key, in any order, ends as an `Outcome` of the plan: zero where no key writes, and at each written position the copy of one of its writers; when no two keys write the same position it equals `Scatter` |
| Transfer.ScatterSpec | dynamicTopoFvMesh/coupledMesh/coupleMapI.H:56-80 | the scatter has the field's length, holds every copy of the plan at the position it writes, and is zero at every position no copy writes |
| Transfer.ScatterFromCopies | dynamicTopoFvMesh/coupledMesh/coupleMapI.H:56-80 | conversely, any field of that length holding every copy and zero elsewhere is the scatter, so the scatter is characterised exactly |
| Transfer.OutcomeSingle | dynamicTopoFvMesh/coupledMesh/coupleMapI.H:56-80 | in every walk order, a key that no other key shares its position with leaves its own copy there |
| Transfer.OutcomeUnique | dynamicTopoFvMesh/coupledMesh/coupleMapI.H:56-80 | when no two keys write the same position the walk order does not matter: the only outcome is `Scatter` |
| Transfer.SwapFacts | dynamicTopoFvMesh/coupledMesh/coupleMapI.H:67-80 | turning every copy around twice gives back the plan; turning them around keeps positions in range and exchanges "no position written twice" with "no position read twice" |
| Transfer.SrcOnto | dynamicTopoFvMesh/coupledMesh/coupleMapI.H:56-80 | a plan of n copies that read n distinct positions of an n-entry field reads every position |
| Transfer.DstOnto | dynamicTopoFvMesh/coupledMesh/coupleMapI.H:56-80 | a plan of n copies that write n distinct positions of an n-entry field writes every position, so none of the zero fill is left |
| Transfer.RoundTrip | dynamicTopoFvMesh/coupledMesh/coupleMapI.H:67-80 | when the copies pair the n positions one to one, scattering with the copies turned around restores the original field |
| CoupleInterpolation.PointInterpolation | dynamicTopoFvMesh/coupledMesh/coupleMapI.H:43-65 | an error exactly when the field size differs from the POINT map size, carrying the patch size and the field size; otherwise a field of the map's size |
| CoupleInterpolation.PointForward | dynamicTopoFvMesh/coupledMesh/coupleMapI.H:56-80 | forward: for every pair m to s of the POINT map the result holds `pf[mPointMap[m]]` at `sPointMap[s]`, and under the distinctness that the function requires these positions cover the whole patch |
| CoupleInterpolation.PointReverse | dynamicTopoFvMesh/coupledMesh/coupleMapI.H:56-73 | reverse: for every pair m to s the result holds `pf[sPointMap[s]]` at `mPointMap[m]`, and these positions cover the whole patch |
| CoupleInterpolation.PointOnto | dynamicTopoFvMesh/coupledMesh/coupleMapI.H:56-80 | when the lookups land in the patch and no two entries share a position in the chosen direction, the entries reach every position of the patch |
| CoupleInterpolation.PointForwardAnyOrder | dynamicTopoFvMesh/coupledMesh/coupleMapI.H:56-80 | forward, in any walk order and with entries allowed to share a slave position: positions no slave translation reaches are zero, an entry alone on its position leaves `pf[mPointMap[m]]` there, and a shared position holds the copy of one of the entries reaching it |
| CoupleInterpolation.PointReverseAnyOrder | dynamicTopoFvMesh/coupledMesh/coupleMapI.H:56-73 | reverse, in any walk order and with entries allowed to share a master position: positions no master translation reaches are zero, an entry alone on its position leaves `pf[sPointMap[s]]` there, and a shared position holds the copy of one of the entries reaching it |
| CoupleInterpolation.PointPlanSwap | dynamicTopoFvMesh/coupledMesh/coupleMapI.H:67-80 | the reverse copies are exactly the forward copies turned around, one per POINT-map entry |
| CoupleInterpolation.PointRoundTrip | dynamicTopoFvMesh/coupledMesh/coupleMapI.H:67-80 | when both translations are injective, reverse after forward and forward after reverse both give back the field |
| CoupleInterpolation.FaceInterpolation | dynamicTopoFvMesh/coupledMesh/coupleMapI.H:116-138 | an error exactly when the field size differs from the FACE map size, carrying both sizes; otherwise a field of the map's size |
| CoupleInterpolation.FaceForward | dynamicTopoFvMesh/coupledMesh/coupleMapI.H:129-153 | forward: for every pair m to s of the FACE map the result holds `pf[m - mStart]` at `s - sStart`, and these positions cover the whole patch |
| CoupleInterpolation.FaceReverse | dynamicTopoFvMesh/coupledMesh/coupleMapI.H:129-146 | reverse: for every pair m to s the result holds `pf[s - sStart]` at `m - mStart`, and these positions cover the whole patch |
| CoupleInterpolation.FaceOnto | dynamicTopoFvMesh/coupledMesh/coupleMapI.H:129-153 | when the offsets land in the patch and, going forward, no two master faces share a slave face, the entries reach every position of the patch |
| CoupleInterpolation.FaceForwardAnyOrder | dynamicTopoFvMesh/coupledMesh/coupleMapI.H:129-153 | forward, in any walk order and with master faces allowed to share a slave face: positions no slave face reaches are zero, a master face alone on its slave face leaves `pf[m - mStart]` there, and a shared slave face holds the copy of one of the master faces mapped to it |
| CoupleInterpolation.FaceReverseAlwaysDistinct | dynamicTopoFvMesh/coupledMesh/coupleMapI.H:140-146 | the reverse face loop never writes a position twice, whatever the map, because its positions come from distinct keys |
| CoupleInterpolation.FacePlanSwap | dynamicTopoFvMesh/coupledMesh/coupleMapI.H:140-153 | the reverse face copies are exactly the forward ones turned around, one per FACE-map entry |
| CoupleInterpolation.FaceRoundTrip | dynamicTopoFvMesh/coupledMesh/coupleMapI.H:140-153 | when the forward call is defined, the reverse one is too, and reverse after forward and forward after reverse both give back the field |
| CoupleKinds.SizeSlot | dynamicTopoFvMesh/coupledMesh/coupleMap.H:76-87 | every size kind POINT .. NBDY has a value 0 .. 9, a valid slot of the ten-slot size table |
| CoupleKinds.SizeKindAt | dynamicTopoFvMesh/coupledMesh/coupleMap.H:76-87 | an integer names a size kind exactly when it lies in 0 .. 9, and then that kind's value is the integer |
| CoupleKinds.SizeSlotBijective | dynamicTopoFvMesh/coupledMesh/coupleMap.H:76-87 | distinct size kinds select distinct slots: looking up a kind's value gives back the kind |
| CoupleKinds.BufferSlot | dynamicTopoFvMesh/coupledMesh/coupleMap.H:76-97 | every buffer kind POINT, EDGE, FACE, OWNER .. PATCH_ID has a value 0 .. 11, a valid slot of the twelve-slot buffer table |
| CoupleKinds.BufferKindAt | dynamicTopoFvMesh/coupledMesh/coupleMap.H:76-97 | an integer names a buffer kind exactly when it lies in 0 .. 11, and then that kind's value is the integer |
| CoupleKinds.BufferSlotBijective | dynamicTopoFvMesh/coupledMesh/coupleMap.H:76-97 | distinct buffer kinds select distinct slots |
| CoupleKinds.MapKinds | dynamicTopoFvMesh/coupledMesh/coupleMap.H:142-144 | a size kind selects a slot of the four-slot map tables exactly when it is POINT, EDGE, FACE or CELL |
| CoupleKinds.SharedValues | dynamicTopoFvMesh/coupledMesh/coupleMap.H:77-91 | POINT, EDGE and FACE are the same slot in both views, while CELL and OWNER share 3 and INTERNAL_FACE and FACE_EDGE share 5 |
| CoupleKinds.OpValue | dynamicTopoFvMesh/coupledMesh/coupleMap.H:101-111 | every operation has a value below INVALID + 1 = 8, a valid index of `names`, and only INVALID has the value 7 |
| CoupleKinds.OpAt | dynamicTopoFvMesh/coupledMesh/coupleMap.H:101-111 | an integer names an operation exactly when it lies in 0 .. 7, and then that operation's value is the integer |
| CoupleKinds.OpValueBijective | dynamicTopoFvMesh/coupledMesh/coupleMap.H:183-185 | the `names` table has 8 entries, one per operation plus INVALID, and distinct operations have distinct entries |
| CoupleMapState.CoupleMap.constructor | dynamicTopoFvMesh/coupledMesh/coupleMap.H:198-207 | the flags and indices are the given ones, and the tables are new arrays of 10, 4, 4 and 12 slots |
| CoupleMapState.CoupleMap.PatchIndex | dynamicTopoFvMesh/coupledMesh/coupleMapI.H:178-181 | `patchIndex()` reads the stored patch index |
| CoupleMapState.CoupleMap.MasterIndex | dynamicTopoFvMesh/coupledMesh/coupleMapI.H:184-187 | `masterIndex()` is the stored master index |
| CoupleMapState.CoupleMap.SlaveIndex | dynamicTopoFvMesh/coupledMesh/coupleMapI.H:190-193 | `slaveIndex()` is the stored slave index |
| CoupleMapState.CoupleMap.IsTwoDMesh | dynamicTopoFvMesh/coupledMesh/coupleMapI.H:196-199 | `isTwoDMesh()` is the stored two-dimensional flag |
| CoupleMapState.CoupleMap.IsLocal | dynamicTopoFvMesh/coupledMesh/coupleMapI.H:202-205 | `isLocal()` is the stored locality flag |
| CoupleMapState.CoupleMap.IsSend | dynamicTopoFvMesh/coupledMesh/coupleMapI.H:214-217 | `isSend()` is the stored send flag |
| CoupleMapState.CoupleMap.IsProcessor | dynamicTopoFvMesh/coupledMesh/coupleMapI.H:208-211 | a coupling is across processors exactly when it is not local |
| CoupleMapState.CoupleMap.IsRecv | dynamicTopoFvMesh/coupledMesh/coupleMapI.H:220-223 | a side receives exactly when it does not send |
| CoupleMapState.CoupleMap.SetPatchIndex | dynamicTopoFvMesh/coupledMesh/coupleMapI.H:178-181 | writing through `patchIndex()` sets the patch index and changes no other field |
| CoupleMapState.CoupleMap.EntitySizes | dynamicTopoFvMesh/coupledMesh/coupleMapI.H:226-229 | the size table has ten slots |
| CoupleMapState.CoupleMap.NEntities | dynamicTopoFvMesh/coupledMesh/coupleMapI.H:232-235 | `nEntities(eType)` is slot eType of the size table |
| CoupleMapState.CoupleMap.SetNEntities | dynamicTopoFvMesh/coupledMesh/coupleMapI.H:232-235 | writing through `nEntities(eType)` changes slot eType of the size table and no other slot, and leaves the buffer table, which reads the same integers differently, untouched |
| CoupleMapState.CoupleMap.SetEntitySizes | dynamicTopoFvMesh/coupledMesh/coupleMapI.H:226-229 | assigning through `nEntities()` replaces the ten sizes and leaves the buffers untouched |
| CoupleMapState.CoupleMap.EntityMap | dynamicTopoFvMesh/coupledMesh/coupleMapI.H:238-241 | `entityMap(eType)` is slot eType of the master-to-slave table |
| CoupleMapState.CoupleMap.ReverseEntityMap | dynamicTopoFvMesh/coupledMesh/coupleMapI.H:244-247 | `reverseEntityMap(eType)` is slot eType of the slave-to-master table |
| CoupleMapState.CoupleMap.SetEntityMap | dynamicTopoFvMesh/coupledMesh/coupleMapI.H:238-241 | writing through `entityMap(eType)` changes that slot only and leaves the reverse maps untouched |
| CoupleMapState.CoupleMap.SetReverseEntityMap | dynamicTopoFvMesh/coupledMesh/coupleMapI.H:244-247 | writing through `reverseEntityMap(eType)` changes that slot only and leaves the forward maps untouched |
| CoupleMapState.CoupleMap.EntityBuffers | dynamicTopoFvMesh/coupledMesh/coupleMapI.H:250-253 | the buffer table has twelve slots |
| CoupleMapState.CoupleMap.SetEntityBuffers | dynamicTopoFvMesh/coupledMesh/coupleMapI.H:250-253 | assigning through `entityBuffer()` replaces the twelve buffers and leaves the size table untouched |
| CoupleMapState.CoupleMap.EntityBuffer | dynamicTopoFvMesh/coupledMesh/coupleMapI.H:256-259 | `entityBuffer(eType)` is slot eType of the buffer table |
| CoupleMapState.CoupleMap.SetEntityBuffer | dynamicTopoFvMesh/coupledMesh/coupleMapI.H:256-259 | writing through `entityBuffer(eType)` changes that slot only and leaves the size table untouched |
| CoupleMapState.CoupleMap.SetEntityIndices | dynamicTopoFvMesh/coupledMesh/coupleMapI.H:262-265 | writing through `entityIndices()` replaces the list of entities with operations |
| CoupleMapState.CoupleMap.SetEntityOperations | dynamicTopoFvMesh/coupledMesh/coupleMapI.H:268-271 | writing through `entityOperations()` replaces the list of operations |

## Left out

- The copy loop is written once, as `Transfer.ScatterLoop`, over the list of (destination, source) pairs that `PointPlan` or `FacePlan` computes for the chosen direction. The source computes each pair inside one of its two loops. The values written are the same; a loop per direction that reads the lookup maps directly is not part of this model.
- CoupleInterpolation.PointInterpolation: requires that no two POINT-map entries write the same position (the slave translation forward, the master translation in reverse). When two do, the value at that position depends on the hash order of the walk, so no single function value exists. The methods `CoupleMap.PointInterpolate` and `PointInterpolateTmp` do not require it; `PointForwardAnyOrder` and `PointReverseAnyOrder` state what every order leaves.
- CoupleInterpolation.FaceInterpolation: forward, requires that no two master faces map to the same slave face, for the same reason; `FaceForwardAnyOrder` covers the methods' results when they do.
- The order of the walk is not modelled: which of several entries sharing a position is walked last, and so which copy that position keeps, is left open.
- CoupleMapState.CoupleMap.PointInterpolate: requires every key and value of the POINT map to be present in the lookup maps, and every translated index to lie inside the patch. A missing key is a fatal error of the `Map` library, which is not modelled; an index outside the patch is unchecked in the source.
- CoupleMapState.CoupleMap.FaceInterpolate: requires every offset face label to lie inside the patch, because indexing outside the field is unchecked in the source.
- The slot accessors and setters of `CoupleMap` require `eType` to be a valid slot of their table, because `FixedList` indexing is unchecked in the source outside debug builds.
- `label` is an unbounded integer; the 32- or 64-bit width of `label`, and any overflow in `key - start`, is not modelled.
- The internals of `tmp` (reference counting, `tpf()` on a cleared handle) are not modelled; `FieldHandle` only distinguishes a temporary, which `clear()` releases, from a reference, which it keeps.
- The constructor's initial table contents and the copy constructor come from `coupleMap.C`, which is not part of this model. The constructor here states only the flags, indices and table sizes.
- `coupleMap.C` operations are not modelled because their bodies are not part of this model: `asText`, `allocateBuffers`, `findSlave`, `findMaster`, `removeSlave`, `removeMaster`, `mapSlave`, `mapMaster`, `pushOperation`, `transferMaps`, `clearMaps`, `clearBuffers`, `makeEdges`, `makeFaces`, `makeFaceMap`, `makeCellMap`, `clearAddressing`, `nInternalFaces`, `owner`, `neighbour`, `edges`, `faces`, `faceEdges`, `faceMap`, `cellMap`.
- The contents of `names` (the operation strings) are defined in `coupleMap.C`; only the table's size and indexing are modelled.
- Floating-point point fields are not modelled: `pointBuffer`, `oldPointBuffer`, `moveNewPoints`, `moveOldPoints`. The same goes for `subMeshPoints` and `globalProcPoints`, whose accessors have no inline body.
- `readData`, `writeData` and the `regIOobject` base are not modelled, because they are I/O and registry plumbing.
- The `conservativeMeshToMesh` engine is not modelled: floating-point polyhedron clipping, threaded assembly, VTK output.
