# Avatar customization and NPC pool, modelled in Dafny

This project models the two stateful components of the Mini avatar
customization system (a Unity project written in C#).

- **The avatar selection engine** (`AvatarCustomization`). A character is
  dressed from six slots: Accessories, Head, Outfit, Top, Bottom and Shoes.
  Each slot has a fixed array of options. An option is a renderer plus a set
  of base-body parts it hides. The engine keeps one index per slot, where
  `-1` means "none". It also keeps an integer bitmask of the base-body parts
  to hide. `SetAvatarCustom` steps a slot's index, or sets it to a random
  value. It normalises the index with one wrap step, applies the exclusivity
  rule between Outfit and Top/Bottom/Shoes, updates the bitmask and re-syncs
  the base-body renderers.
- **The NPC pool** (`SpawnManager`). This is a list of NPCs capped at
  `maxNPCs`, of which the first `activeNPCCount` are active. A spawn request
  reactivates the next pooled NPC or appends a new one. A despawn request
  deactivates the last active NPC.

`avatar_customization.dfy` (module `AvatarModel`) and `spawn_manager.dfy`
(module `SpawnModel`) each model one source file. Both components are
classes whose methods update fields in place. Pure functions give the
specification those methods are proved against, and lemmas state what holds
across several calls.

Representation choices:

- **Bitmasks.** A C# `int` bitmask (`bitmaskBaseAvatar`,
  `AvatarCustom.baseAvatar`) is the set of its bit positions. So `m & ~f` is
  `m - f`, `m | f` is `m + f`, `(m & f) == 0` is `m !! f`, and
  `(m & (1 << k)) != 0` is `k in m`.
- **"No option".** It is `Option.None`, not the `default(AvatarCustom)`
  sentinel.
- **Renderers.** An option's renderer is a handle into the `bool` array
  `renderers`. The base-body renderers are the `bool` array `baseAvatar`.
  `true` means the renderer's game object is active.
- **Random draws.** The value `UnityEngine.Random.Range(-1, length)` returns
  is a parameter. When `random` is set it must lie in `[-1, length - 1]`.
- **The `ref index` parameter.** The normalising `GetAvatarCustom` takes the
  index and returns the normalised one. `SetAvatarCustom` stores that value
  back into `avatarIndex`, as the `ref` to the array element does.
- **NPCs.** An NPC is its name's number (`NPC_<n>`) plus its active flag.

Proved properties (beyond what the table lists):

- **Index range.** Every slot index stays in `[-1, length - 1]`. This is part
  of the class invariant `Valid()`.
- **Exclusivity.** An Outfit is never worn over a full Top, Bottom and Shoes
  set. This is part of `Valid()`, through `GateKeepsExclusive`. An Outfit
  together with one or two separate pieces is allowed
  (`OutfitBesideSeparates`).
- **The mask's upper bound.** The mask never holds a part that no selected
  option hides (`Valid()`, through `UnsetKeepsMaskOccluded` and
  `AddKeepsMaskOccluded`).
- **The converse fails.** The incremental mask update can leave a selected
  option's parts visible (`OverlappingOptionLeavesPartsVisible`,
  `SharedPartClearedByOtherSlot`).

Three behaviours of the code are easy to mistake for something simpler,
and the model keeps each one as the code has it:

- **Rejected changes.** The current option is unset (its bits cleared, its
  renderer hidden) before the exclusivity check. So a rejected change is not
  a no-op: the option stays selected but hidden, and the base-body renderers
  are not re-synced.
- **The mask.** The mask is kept incrementally. A new option's bits are ORed
  in only when they are disjoint from the mask. The mask is never recomputed
  as the union over all selected options.
- **Bulk randomization.** It goes through the same gate. So Top, Bottom and
  Shoes are left unchanged when an Outfit was already selected before the
  call.

## Model

| member | source | states |
|---|---|---|
| `AvatarModel.AllPartsBits` | Mini-avatar-customization-system/Assets/KR/Scriptings/Avatar/AvatarCustomization.cs:8-24 | The k-th `BaseAvatar` value, in enumeration order, is the single flag `1 << k` at bit position k, for the 13 body parts |
| `AvatarModel.Wrap` | Mini-avatar-customization-system/Assets/KR/Scriptings/Avatar/AvatarCustomization.cs:79-86 | One wrap step, not a modulo: an index below `-1` becomes the last option `n-1`, one at or past `n` becomes "none" (`-1`), and a valid index is kept. The result always lies in `[-1, n-1]` |
| `AvatarModel.Registry.Options` | Mini-avatar-customization-system/Assets/KR/Scriptings/Avatar/AvatarCustomization.cs:55-74 | The `GetAvatarCustom(Avatar)` switch picks, for each slot, the option array declared at that slot's position in the `Avatar` enumeration |
| `AvatarModel.Allows` | Mini-avatar-customization-system/Assets/KR/Scriptings/Avatar/AvatarCustomization.cs:149-168 | The exclusivity gate never rejects an Accessories or Head change. It rejects an Outfit change iff Top, Bottom and Shoes are all worn. It rejects a Top, Bottom or Shoes change iff an Outfit is worn |
| `AvatarModel.GateKeepsExclusive` | Mini-avatar-customization-system/Assets/KR/Scriptings/Avatar/AvatarCustomization.cs:149-171 | A change the gate accepts, to any index, never puts an Outfit over a full Top, Bottom and Shoes set if there was none before |
| `AvatarModel.OutfitBesideSeparates` | Mini-avatar-customization-system/Assets/KR/Scriptings/Avatar/AvatarCustomization.cs:152-158 | While one of Top, Bottom and Shoes is "none", an Outfit change is accepted, whatever the other two hold, and the Outfit may sit beside the separate pieces that are worn |
| `AvatarModel.Unset` | Mini-avatar-customization-system/Assets/KR/Scriptings/Avatar/AvatarCustomization.cs:141-147 | Clearing the current option's bits removes exactly those bits and keeps every other bit of the mask |
| `AvatarModel.AddIfDisjoint` | Mini-avatar-customization-system/Assets/KR/Scriptings/Avatar/AvatarCustomization.cs:173-181 | The new option's bits are all added when none of them is in the mask yet; otherwise the mask is left as it was. Nothing else is added or removed |
| `AvatarModel.OptionAt` | Mini-avatar-customization-system/Assets/KR/Scriptings/Avatar/AvatarCustomization.cs:88-92 | The looked-up option is "none" exactly when the index is `-1` |
| `AvatarModel.AddInt32` | Mini-avatar-customization-system/Assets/KR/Scriptings/Avatar/AvatarCustomization.cs:170 | `index + increment` as C# `int` arithmetic: the true sum when it fits in 32 bits, otherwise the sum shifted by 2^32 into range |
| `AvatarModel.NextIndex` | Mini-avatar-customization-system/Assets/KR/Scriptings/Avatar/AvatarCustomization.cs:170-171 | The index an accepted request produces is in `[-1, n-1]`, and is exactly the drawn value for a random request |
| `AvatarModel.OvershootLandsOnNone` | Mini-avatar-customization-system/Assets/KR/Scriptings/Avatar/AvatarCustomization.cs:79-86 | A positive step from a valid index that passes the last option lands on "none", however far it overshoots |
| `AvatarModel.UndershootLandsOnLast` | Mini-avatar-customization-system/Assets/KR/Scriptings/Avatar/AvatarCustomization.cs:79-86 | A negative step from a valid index that passes "none" lands on the last option, however far it undershoots |
| `AvatarModel.PressesUp` | Mini-avatar-customization-system/Assets/KR/Scriptings/Avatar/AvatarCustomization.cs:170-171 | Below the last option, k increments move the index up by exactly k |
| `AvatarModel.PressesDown` | Mini-avatar-customization-system/Assets/KR/Scriptings/Avatar/AvatarCustomization.cs:170-171 | Above `-1`, k decrements move the index down by exactly k |
| `AvatarModel.PressesCompose` | Mini-avatar-customization-system/Assets/KR/Scriptings/Avatar/AvatarCustomization.cs:170-171 | a + b presses of one button end where a presses and then b presses end |
| `AvatarModel.IncrementFromNone` | Mini-avatar-customization-system/Assets/KR/Scriptings/Avatar/AvatarCustomization.cs:79-86 | Starting from "none", repeated `+1` visits `0, 1, …, n-1` and then "none" again |
| `AvatarModel.IncrementPeriod` | Mini-avatar-customization-system/Assets/KR/Scriptings/Avatar/AvatarCustomization.cs:79-86 | From any valid index, n+1 increments return to that index |
| `AvatarModel.DecrementFromNone` | Mini-avatar-customization-system/Assets/KR/Scriptings/Avatar/AvatarCustomization.cs:79-82 | Starting from "none", repeated `-1` wraps to the last option and visits `n-1, …, 0` and then "none" again |
| `AvatarModel.DecrementPeriod` | Mini-avatar-customization-system/Assets/KR/Scriptings/Avatar/AvatarCustomization.cs:79-86 | From any valid index, n+1 decrements return to that index |
| `AvatarModel.UpdateInRange` | Mini-avatar-customization-system/Assets/KR/Scriptings/Avatar/AvatarCustomization.cs:170-171 | Storing a normalised index in one slot keeps every slot's index in range |
| `AvatarModel.OtherSlotsCarryOver` | Mini-avatar-customization-system/Assets/KR/Scriptings/Avatar/AvatarCustomization.cs:170-171 | A body part hidden by another slot's option is still hidden by the selection after only this slot changes |
| `AvatarModel.UnsetKeepsMaskOccluded` | Mini-avatar-customization-system/Assets/KR/Scriptings/Avatar/AvatarCustomization.cs:141-147 | After the current option's bits are cleared, every bit left in the mask belongs to an option selected in another slot |
| `AvatarModel.AddKeepsMaskOccluded` | Mini-avatar-customization-system/Assets/KR/Scriptings/Avatar/AvatarCustomization.cs:173-178 | ORing in the new option's bits (only when disjoint) keeps every mask bit owned by some selected option |
| `AvatarModel.OverlappingOptionLeavesPartsVisible` | Mini-avatar-customization-system/Assets/KR/Scriptings/Avatar/AvatarCustomization.cs:175-178 | With a Top hiding the upper torso worn, an accepted Outfit hiding the upper torso and hips leaves the hips out of the mask |
| `AvatarModel.SharedPartClearedByOtherSlot` | Mini-avatar-customization-system/Assets/KR/Scriptings/Avatar/AvatarCustomization.cs:141-168 | With a Top and an Outfit both hiding the upper torso, stepping the Outfit to "none" passes the gate and clears the upper torso from the mask, although the Top still hides it |
| `AvatarModel.Pow2BitPosition` | Mini-avatar-customization-system/Assets/KR/Scriptings/Avatar/AvatarCustomization.cs:202 | The only bit position bracketing `1 << k` is k, so `BitmaskConvertToIndex(1 << k) == k` |
| `AvatarModel.AvatarCustomization.constructor` | Mini-avatar-customization-system/Assets/KR/Scriptings/Avatar/AvatarCustomization.cs:95-124 | After the field initialisers and `Awake`, all six indices are `-1`, the mask is empty and the invariant holds |
| `AvatarModel.AvatarCustomization.Init` | Mini-avatar-customization-system/Assets/KR/Scriptings/Avatar/AvatarCustomization.cs:119-124 | Allocates a fresh index array with all six slots at `-1` and leaves the mask as it was |
| `AvatarModel.AvatarCustomization.GetAvatarCustom` | Mini-avatar-customization-system/Assets/KR/Scriptings/Avatar/AvatarCustomization.cs:62-93 | Normalises the index once (below `-1` to `len-1`, at or past `len` to `-1`), so it lands in `[-1, len-1]`; returns "none" exactly for `-1`, otherwise the option at that index |
| `AvatarModel.AvatarCustomization.BitmaskConvertToIndex` | Mini-avatar-customization-system/Assets/KR/Scriptings/Avatar/AvatarCustomization.cs:212-221 | Returns the position of the highest set bit of a positive argument (`2^r <= bitmask < 2^(r+1)`), and 0 for arguments up to 1 |
| `AvatarModel.AvatarCustomization.SetBaseAvatar` | Mini-avatar-customization-system/Assets/KR/Scriptings/Avatar/AvatarCustomization.cs:185-210 | Afterwards base renderer k is hidden exactly when k < 13 and bit k is in the mask; only the base renderers change |
| `AvatarModel.AvatarCustomization.SetAvatarCustom` | Mini-avatar-customization-system/Assets/KR/Scriptings/Avatar/AvatarCustomization.cs:138-183 | Accepted: the slot moves to the wrapped step or the drawn value and no other slot changes. Rejected (Outfit while Top, Bottom and Shoes are all set; any of those while Outfit is set): no index changes. Either way the current option's bits are cleared and its renderer hidden, and the out value is the slot's option afterwards. On acceptance the new renderer is shown, its bits are ORed in only if disjoint, and the base renderers are re-synced. The invariant is kept |
| `AvatarModel.AvatarCustomization.UnsetCurrentAvatarCustom` | Mini-avatar-customization-system/Assets/KR/Scriptings/Avatar/AvatarCustomization.cs:141-147 | Leaves the indices as they are, returns the current option, clears its bits from the mask and hides its renderer |
| `AvatarModel.AvatarCustomization.SetNewAvatarCustom` | Mini-avatar-customization-system/Assets/KR/Scriptings/Avatar/AvatarCustomization.cs:170-182 | Called only once the gate has accepted the change. Stores the normalised index, shows the option it names, ORs in its bits only when disjoint from the mask, and leaves the base renderers synced to the mask. The invariant, exclusivity included, is kept |
| `AvatarModel.AvatarCustomization.SetRandomAllAvatarCustom` | Mini-avatar-customization-system/Assets/KR/Scriptings/Avatar/AvatarCustomization.cs:126-136 | Outfit never changes. Accessories and Head take their drawn values. Top, Bottom and Shoes take theirs only if Outfit was "none", otherwise they keep their old index. If Outfit was "none", the base renderers end synced |
| `SpawnModel.Min` | Mini-avatar-customization-system/Assets/KR/Scriptings/Manager/SpawnManager.cs:36 | `Mathf.Min`: the result is one of the arguments and no greater than either |
| `SpawnModel.Appended` | Mini-avatar-customization-system/Assets/KR/Scriptings/Manager/SpawnManager.cs:110-113 | Appending keeps the old list as a prefix and adds one inactive NPC named after the new length |
| `SpawnModel.Fresh` | Mini-avatar-customization-system/Assets/KR/Scriptings/Manager/SpawnManager.cs:39-42 | Repeated appends give inactive NPCs numbered consecutively after the existing ones |
| `SpawnModel.Pooled` | Mini-avatar-customization-system/Assets/KR/Scriptings/Manager/SpawnManager.cs:64-73 | A spawn draws from the list itself when a pooled NPC is left at the count; it appends exactly one NPC only when the count has reached the list's length. The old list is kept as a prefix either way |
| `SpawnModel.Spawned` | Mini-avatar-customization-system/Assets/KR/Scriptings/Manager/SpawnManager.cs:64-81 | A successful spawn grows the list only when no pooled NPC is left, and the NPC at the old count exists afterwards |
| `SpawnModel.Despawned` | Mini-avatar-customization-system/Assets/KR/Scriptings/Manager/SpawnManager.cs:90-96 | A despawn never changes the list's length |
| `SpawnModel.AppendKeepsInvariant` | Mini-avatar-customization-system/Assets/KR/Scriptings/Manager/SpawnManager.cs:104-113 | Below the cap, appending an inactive NPC keeps the pool invariant |
| `SpawnModel.SpawnKeepsInvariant` | Mini-avatar-customization-system/Assets/KR/Scriptings/Manager/SpawnManager.cs:58-81 | A spawn below the cap keeps `0 <= count <= |list| <= max`, the numbering, and "exactly the first count NPCs are active", with the count one higher |
| `SpawnModel.DespawnKeepsInvariant` | Mini-avatar-customization-system/Assets/KR/Scriptings/Manager/SpawnManager.cs:84-96 | A despawn with a positive count keeps the pool invariant with the count one lower |
| `SpawnModel.DespawnUndoesSpawn` | Mini-avatar-customization-system/Assets/KR/Scriptings/Manager/SpawnManager.cs:64-96 | A despawn right after a spawn gives back the pool the spawn drew from: the old list, plus the appended NPC if one was created |
| `SpawnModel.SpawnUndoesDespawn` | Mini-avatar-customization-system/Assets/KR/Scriptings/Manager/SpawnManager.cs:64-96 | A spawn right after a despawn restores the list exactly, because it reuses the NPC just deactivated |
| `SpawnModel.SpawnManager.constructor` | Mini-avatar-customization-system/Assets/KR/Scriptings/Manager/SpawnManager.cs:14-20 | Starts with an empty list, count 0 and the serialized settings |
| `SpawnModel.SpawnManager.InitializeNPCs` | Mini-avatar-customization-system/Assets/KR/Scriptings/Manager/SpawnManager.cs:35-42 | Clamps `initialNPCs` to `maxNPCs` and appends that many inactive, consecutively numbered NPCs, stopping at the cap. The active count is unchanged and the invariant kept |
| `SpawnModel.SpawnManager.SpawnNPC` | Mini-avatar-customization-system/Assets/KR/Scriptings/Manager/SpawnManager.cs:101-121 | Fails with no change when the list is at the cap. Otherwise it appends exactly one inactive NPC named `NPC_<new length>` and succeeds |
| `SpawnModel.SpawnManager.RecallSpawnNPC` | Mini-avatar-customization-system/Assets/KR/Scriptings/Manager/SpawnManager.cs:51-99 | A spawn succeeds iff count < max: it activates the pooled NPC at the old count (reused, or appended through `SpawnNPC`) and adds one to the count. A despawn succeeds iff count > 0: it deactivates the NPC at the decremented count. A failure changes nothing. The out count is the new count and the invariant is kept |

## Left out

- Unity plumbing is not modelled: `SetActive` (only its effect on a `bool`), `SkinnedMeshRenderer`, `Instantiate`, `Debug.Log`, the `Awake`/`OnEnable`/`Start` hooks and the `randomOnEnable` dispatch through the UI.
- `UnityEngine.Random` is not modelled. Drawn values are parameters whose range is a precondition.
- NPC spawn positions, the cached random positions and `GenerateRandomPosition` are left out. They are floating-point vectors with random values.
- `List.Capacity` and `TrimExcess` are left out: they only tune memory. A negative `maxNPCs` makes the `Capacity` assignment throw. The constructor therefore requires `maxNPCs >= 0`.
- `activeInHierarchy` is taken to be the NPC's own active flag. Parent objects are not modelled.
- The `_ => null` arm of the slot switch is left out. The `Slot` datatype is closed, so no other slot value exists.
- `AvatarModel.AvatarCustomization.SetAvatarCustom`: the raw `index + increment` that the source briefly stores in the array before normalising it is not stored. Only the normalised value is written, and nothing reads the raw value in between.
- `AvatarModel.AvatarCustomization.SetAvatarCustom`: "none" is an `Option`, so an option configured with a null renderer and no body parts is not confused with "none" as it would be in the source.
- `AvatarModel.AvatarCustomization.SetRandomAllAvatarCustom`: the contract states the final indices and the base-renderer sync. It does not state the final mask or option-renderer visibility, which are the composition of five `SetAvatarCustom` contracts.
- The skinned-mesh combiner, player movement and animation, the camera controller, the mouse-visibility script, the custom inspector drawer and the UI scripts are not part of this model. They are Unity rendering, input, editor and UI code with no state of this core.
