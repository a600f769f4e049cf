# Verified models of the SOLWEIG-GPU core

This project models the parts of SOLWEIG-GPU whose correctness rests on an argument rather than on a
single formula, and proves those arguments for all inputs:

- the sky-patch shadow march, where it may be stopped, and the sparse builder that re-marches only
  the corridor closure of an edit;
- its sibling, the wall-height march of the time loop;
- the packed patch state, its in-place window updates and its unique-writer rule;
- the thermal time loop as a state machine, with warm starts;
- the acyclicity check of the specification graph, the Julian day, stride contiguity, and the
  digest-stamped build cache.

`dafny verify dfyconfig.toml` checks everything.

## How it is built

Heights, times and fluxes are reals; indices are unbounded integers. A march is a loop over
two-dimensional arrays (`ShadowMarch.Shadow`, `WallHeightLoop.ShadowingWallHeight23`) that is proved to compute,
cell by cell, a recursive fold over the steps of a ray; the laws are proved of the fold. A ray is
either a concrete `Bearing` (two signs, a slope ratio in [0, 1], a rise per step, round half to
even) or, for the laws, any step sequence with the facts `Rays.BearingStepsValid` derives from a
bearing. The other loops that accumulate or update something (corridors, run and bitset encoders and
decoders, the work list, window updates, ownership and partition checks, the time loop, the graph
check, contiguity) are loops here too, proved against a specification; loops that only look for an
offender, such as the table, bush and one-step guards, are predicates. The packed array and the
build directory are classes whose methods update their fields.

The two shadow marches are modelled for scenes without bushes, the domain the builder accepts.

The central result is `SpliceExact.SpliceExactly`: for every batch the builder accepts, the spliced
planes equal the oracle's full march of the edited scene exactly at the cells where the steps that
separate the two are inert: the cell is not below zero, or one of the common steps reads a surface
higher than it, or none of the separating steps leaves the tile. All three can be read off the
heights and the step tables. Its hypotheses are what the builder leaves to its caller: both tables
of a patch were recorded from one ray, each at an amplitude between the effective and the absolute
stop of its own scene (this covers the effective, the escalated and the oracle policy), and a
candidate mask that was not verified covers the diff.

`SpliceExact.SpliceIsExact` is the consequence that matters in practice: equality at every cell when
in either scene the zeros a march reads outside the tile cannot stand above a cell past the relief
(`Scenes.EdgeInert`). That holds for every scene whose ground lies at or below its building surface
(`Scenes.GroundBelowIsInert`), for every scene without a cell below zero, and for every clamped
scene. It cannot be dropped: `EditWitness.SpliceBelowZero` is a batch that passes every check and
whose splice differs from the oracle. `EditWitness.GrowTower` and `EditWitness.ShrinkTower` are
edits that meet all hypotheses and keep cells whose step count is below and above the oracle's.

The wall-height march has the same two forms, `WallHeightExact.WallAdmissibleExactly` for every
bush-free scene and `WallHeightExact.WallAdmissibleIsExact` under the edge condition.

## Where code and documentation differ

The models follow the code.

- A date between 5 and 14 October 1582 is announced as set to 4 October, but its day was read
  before that; the result is that of the date ten days later (`JulianDay.DroppedDatesCollide`).
- The build cache is documented as keyed by its inputs. Stamps accumulate while the one library is
  overwritten, so inputs A, B, A return the library of B. `BuildCache.CurrentIffNoDigestRecurs` gives exactly the runs on
  which the documented behaviour holds.
- The tail bits of a packed cell are documented as always zero, but only packing guarantees it, not
  the container (`PackedArray.StrayTail`). `PackedBits.PackOfUnpack` holds exactly for a zero tail.

## Model

| member | source | states |
|---|---|---|
| `Rays.StepClosedForms` | solweig_gpu/shadow.py:246-255 | the heights and the unrounded offsets taken one step at a time are the products the source computes at step k |
| `Rays.StepDirection` | solweig_gpu/shadow.py:246-255 | which way and how far step k goes on both azimuth branches: against the sign of the cosine along rows, with the sign of the sine along columns, k cells on the dominant axis and the nearest integer to ratio * k, ties to even, on the other |
| `Rays.MinorAdvances` | solweig_gpu/shadow.py:246-252 | the shorter offset of every bearing stays between 0 and k and advances by at most one cell per step, despite ties to even |
| `Rays.BearingStepsValid` | solweig_gpu/shadow.py:246-255 | every bearing gives a step sequence that starts at zero, climbs strictly, moves one cell per step on its dominant axis and at most one on the other |
| `Rays.StepCount` | solweig_gpu/shadow.py:245-245 | the number of bodies run by the previous-state loop test: the test fails after it and holds before every earlier step |
| `Rays.ExecutedShiftsFit` | solweig_gpu/shadow.py:245-273 | every executed shift, overshoot included, fits in the plane, and the loop runs at most as many steps as the plane is long on the dominant axis |
| `Rays.SmallerAmplitudeIsPrefix` | solweig_gpu/shadow.py:245-245 | a march at a smaller amplitude is a prefix of one at a larger, and a strictly shorter one was ended by its amplitude |
| `ShadowMarch.ShiftInto` | solweig_gpu/shadow.py:257-273 | the eight slice bounds have equal non-negative extents and implement "the source cell minus dz, or 0 outside the plane" |
| `ShadowMarch.RaiseBuildings` | solweig_gpu/shadow.py:275-277 | the running maximum and the building shadow it implies, at every cell |
| `ShadowMarch.RaiseVegetation` | solweig_gpu/shadow.py:279-286 | the canopy flag keeps its maximum, is cleared in building shadow, and is added to the running sum |
| `ShadowMarch.ResetFirstStep` | solweig_gpu/shadow.py:288-293 | the first-step exception: flag forced where the canopy gap is below dz, masked by the trunk plane, sum cleared |
| `ShadowMarch.MarchPlanes` | solweig_gpu/shadow.py:245-301 | the while loop leaves, at every cell, the per-cell fold over exactly the executed steps |
| `ShadowMarch.Shadow` | solweig_gpu/shadow.py:195-327 | the three returned planes are, at every cell, the finished fold |
| `ShadowLaws.FoldSettles` | solweig_gpu/shadow.py:275-293 | the accumulator invariant from the second step on: flag and shadow exclude each other, and a counted flag that is gone means building shadow |
| `ShadowLaws.OutputsClassified` | solweig_gpu/shadow.py:303-316 | with two or more steps the outputs are 0 or 1, building and vegetation shadow exclude each other, and a 0 in the combined plane means building shadow with no vegetation shadow |
| `ShadowLaws.OneStepValues` | solweig_core/sparse_work.py:341-364 | with exactly one step the combined plane is 2 exactly at the cells raised by the first step and 1 elsewhere |
| `ShadowLaws.NothingInView` | solweig_core/sparse_work.py:171-191 | past the relief no step that reads the plane shows a cell anything above it, and at a cell not below zero no step at all does |
| `ShadowLaws.ShadedExactly` | solweig_gpu/shadow.py:275-277 | a march shades a cell exactly when one of its steps reads a surface higher than the cell |
| `ShadowLaws.FlagExactly` | solweig_gpu/shadow.py:279-293 | from the second step on the vegetation flag stands exactly while canopy without trunk zone has been shown above the cell, or the first step raised it, and no higher surface has |
| `ShadowLaws.SumExactly` | solweig_gpu/shadow.py:286-293 | the running sum is positive exactly when the flag stood after one of the steps from the second on |
| `ShadowLaws.OutputsExactly` | solweig_gpu/shadow.py:245-316 | all three returned planes of a march of two or more steps, read off the heights: building seen; canopy but no building seen; building seen after canopy |
| `ShadowLaws.StopPointsExactly` | solweig_gpu/shadow.py:245-316 | after two steps, any number of further steps that see nothing in the plane leaves the three outputs unchanged if and only if the cell is not below zero, or one of the first steps reads a higher surface, or no surplus step leaves the plane; otherwise the cell ends up shaded |
| `ShadowLaws.StopPointIndependence` | solweig_gpu/shadow.py:245-316 | on a scene with no cell below zero, further steps past the relief never change an output |
| `ShadowLaws.MarchStopsExactly` | solweig_core/step_tables.py:67-86 | two amplitudes at or above the relief give the same march if and only if the surplus steps are inert for the cell |
| `ShadowLaws.Locality` | solweig_core/sparse_work.py:257-288 | the accumulators of a cell depend only on the cell and on what its steps read |
| `Scenes.Compose` | solweig_core/sparse_work.py:128-168 | composition succeeds exactly on non-empty planes of one shape; every cell then satisfies the relations between canopy, ground, surface, vegetation and bush, negative canopy counts as none, and the absolute stop is the maximum |
| `Scenes.CellCases` | solweig_core/sparse_work.py:147-156 | bare cells carry zero vegetation, others canopy and a quarter of it above the surface; a bush stands exactly where canopy covers ground a quarter of its height below zero |
| `Scenes.BoundIsRelief` | solweig_core/sparse_work.py:171-180 | the relative bound is non-negative and no plane rises more than it above any cell of the surface |
| `Scenes.BoundIsLeast` | solweig_core/sparse_work.py:171-180 | no smaller number bounds the relief |
| `Scenes.UnclampedIsAboveZero` | solweig_core/sparse_work.py:171-191 | with the ground below the surface, a bound at or below the absolute stop means no cell lies below zero |
| `Scenes.GroundBelowIsInert` | solweig_core/sparse_work.py:171-191 | composed scenes with the ground below the surface meet the edge condition of the exactness laws |
| `Scenes.AdmissibleExactly` | solweig_core/step_tables.py:67-86 | on every bush-free scene, an amplitude between the effective and the absolute stop that lets the march take two steps gives the oracle's outputs exactly where the surplus steps are inert |
| `Scenes.EscalationExactly` | solweig_core/step_tables.py:67-86 | on every bush-free scene and in every step regime, marching at the escalated amplitude gives the oracle's outputs exactly where the surplus steps are inert |
| `Scenes.AdmissibleIsExact` | solweig_core/sparse_work.py:171-191 | under the edge condition every admissible amplitude with two steps is exact at every cell |
| `Scenes.EscalatesExactly` | solweig_core/step_tables.py:77-81 | escalation changes the effective march exactly where that takes one step and the oracle more, and then takes the oracle's steps |
| `Scenes.EscalationIsExact` | solweig_core/step_tables.py:77-81 | on every composed bush-free scene with the ground below the surface the escalation rule equals the oracle march |
| `Scenes.ShortMarchesAgree` | solweig_core/step_tables.py:77-81 | fewer than two steps at the escalated amplitude: the oracle takes exactly as many |
| `Splice.LargerIsUnclamped` | solweig_core/sparse_work.py:312-338 | what the clamp guard leaves: when the march at the smaller amplitude belongs to a clamped scene, the other scene is unclamped with an effective amplitude already climbed past |
| `Splice.OracleSurplus` | solweig_core/sparse_work.py:312-338 | steps the old march did not take but the oracle of the new scene does show nothing in the tile |
| `Splice.KeptSurplus` | solweig_core/sparse_work.py:312-338 | steps the old march took past the oracle of the new scene show nothing in the tile |
| `Splice.UnchangedViewsExactly` | solweig_core/sparse_work.py:312-364 | where both marches read unchanged cells only and the clamp and one-step guards pass, the old output is the oracle's new one if and only if the surplus steps are inert, also when the executed step counts differ |
| `SparseWork.ChangeMask` | solweig_core/sparse_work.py:199-244 | the diff marks exactly the cells where one of the four planes the march reads differs |
| `SparseWork.CorridorMask` | solweig_core/sparse_work.py:257-273 | OR-ing clipped slices marks exactly the cells some step of which reads a changed cell, never wrapping |
| `SparseWork.ClosureMask` | solweig_core/sparse_work.py:276-288 | the closure is the changed cells and the corridors of both tables |
| `SparseWork.Batch.Refused` | solweig_core/sparse_work.py:602-695 | the first check that refuses, in the builder's order; a batch that passes has one shape, equal patch sets, no bush, a passed clamp guard, two steps in every table, and a fitting candidate |
| `SparseWork.FirstFailureExactly` | solweig_core/sparse_work.py:655-695 | a refusal is reported exactly when its check fails and every check before it passes |
| `SparseWork.IdentityExactly` | solweig_core/sparse_work.py:367-408 | descriptors over exactly the eight fields and of schema 1 pass, and two of them only when they agree on every field |
| `SparseWork.TableChecks` | solweig_core/sparse_work.py:602-630 | tables pass when none belongs to the other march or another tile, and none has fewer than two steps |
| `SparseWork.SceneChecks` | solweig_core/sparse_work.py:226-310 | the bush guard and the candidate check, cell by cell |
| `SparseWork.BuildEntry` | solweig_core/sparse_work.py:728-753 | one patch's entry holds exactly its closure (or the full tile), canonically in both encodings, with its number of cells |
| `SparseWork.BuildSparseWork` | solweig_core/sparse_work.py:633-781 | refusals in the builder's order; otherwise one entry per patch in ascending order, the empty-work shortcut exactly when nothing changed and the tables agree, the full tile when only the tables changed |
| `SparseWork.PairCountAgrees` | solweig_core/sparse_work.py:728-753 | the pair count is the sum of the run lengths and the sum of the word popcounts |
| `SpliceExact.SourceIsSound` | solweig_core/sparse_work.py:199-244 | outside the diff, restricted by a covering candidate, the two scenes are equal |
| `SpliceExact.UntouchedViews` | solweig_core/sparse_work.py:276-288 | outside the closure no step of either table reads a changed cell |
| `SpliceExact.ListedExactly` | solweig_core/sparse_work.py:688-753 | which cells an accepted batch lists, read off scenes and tables: the changed cells and those from which a step of either table reads one; with nothing changed every cell if some table column changed, and none otherwise |
| `SpliceExact.FlagsExactly` | solweig_core/sparse_work.py:688-726 | the empty-work and table-changed flags in the same terms |
| `SpliceExact.KeptCellsSeeTheSame` | solweig_core/sparse_work.py:633-781 | at every cell the work list leaves out, the cell and all views of both marches are unchanged |
| `SpliceExact.SpliceExactly` | solweig_core/sparse_work.py:633-781 | for every accepted batch, keeping old outputs outside the listed cells and re-marched ones inside equals the oracle's full march of the edited scene if and only if the surplus steps are inert for the cell |
| `SpliceExact.SpliceIsExact` | solweig_core/sparse_work.py:633-781 | under the edge condition the splice equals the oracle's full march at every cell and patch, also when executed step counts differ |
| `SpliceExact.SplicedIsClassified` | solweig_core/sparse_work.py:341-364 | no accepted batch splices a value that packing would refuse |
| `SpliceExact.VerifiedCandidateCovers` | solweig_core/sparse_work.py:226-243 | a verified candidate mask always covers the diff |
| `RowRuns.Edges` | solweig_core/sparse_work.py:427-433 | the rising and falling edges of a padded line are exactly its maximal spans |
| `RowRuns.FromMask` | solweig_core/sparse_work.py:416-437 | the runs are sorted, maximal, non-touching, inside the grid, and cover exactly the mask |
| `RowRuns.ToMask` | solweig_core/sparse_work.py:440-453 | decoding refuses exactly the runs outside the shape and otherwise sets exactly the covered cells |
| `RowRuns.EncodingIsUnique` | solweig_core/sparse_work.py:416-437 | a mask has one canonical run list |
| `RowRuns.EncodeThenDecode` | solweig_core/sparse_work.py:416-453 | decoding the runs of a mask gives the mask |
| `RowRuns.DecodeThenEncode` | solweig_core/sparse_work.py:416-453 | encoding what a canonical run list decodes to gives the run list |
| `RowRuns.LengthsCountCells` | solweig_core/sparse_work.py:742-749 | run lengths add up to the number of cells of the mask |
| `ChunkBitsets.FromMask` | solweig_core/sparse_work.py:475-507 | keys in row-major order, no empty chunk, no bit outside the grid, exactly the mask's bits |
| `ChunkBitsets.BitIsParity` | solweig_core/sparse_work.py:461-466 | bit b of a word is the parity of its quotient by 2^b |
| `ChunkBitsets.ToMask` | solweig_core/sparse_work.py:510-529 | decoding lets the last chunk of a key that holds something in a row decide that row, drops bits past the grid, and raises exactly when a chunk that starts 1 to 62 columns past the right edge holds something in a row of the grid |
| `ChunkBitsets.CanonicalDecodes` | solweig_core/sparse_work.py:475-529 | whatever the encoder produces decodes without raising, to exactly the cells held |
| `ChunkBitsets.BitsetIsUnique` | solweig_core/sparse_work.py:457-507 | two canonical bitsets of the same cells are equal, words included |
| `ChunkBitsets.EncodeThenDecode` | solweig_core/sparse_work.py:475-529 | decoding the bitset of a mask gives the mask |
| `ChunkBitsets.DecodeThenEncode` | solweig_core/sparse_work.py:475-529 | encoding what a canonical bitset decodes to gives the bitset, words included |
| `ChunkBitsets.PopcountsCountCells` | solweig_core/sparse_work.py:742-749 | word popcounts add up to the number of cells of the mask |
| `WallHeightLoop.VegetationHits` | solweig_gpu/solweig.py:1162-1179 | the four comparisons, two of them one climb lower, and the all-four exception |
| `WallHeightLoop.WallLoop` | solweig_gpu/solweig.py:1134-1185 | the while loop leaves the per-cell fold over the self step and all executed steps |
| `WallHeightLoop.ShadowingWallHeight23` | solweig_gpu/solweig.py:1079-1224 | the eight returned planes are, at every cell, the finished fold |
| `WallHeightMarch.WallFoldSettles` | solweig_gpu/solweig.py:1166-1183 | the accumulator invariant of the wall march |
| `WallHeightPlanes.WallFlagsExactly` | solweig_gpu/solweig.py:1162-1183 | a building is seen exactly when the shadow volume rose, and the flag stands exactly while some body had at least one but not all four comparisons true and no building has been seen |
| `WallHeightPlanes.ShadowPlanesExactly` | solweig_gpu/solweig.py:1198-1205 | the three returned shadow planes in the same terms |
| `WallHeightPlanes.WallPlanesExactly` | solweig_gpu/solweig.py:1207-1219 | building-shaded, canopy-shaded and sunlit wall height from the wall, the highest surface and the highest canopy shown; on a wall that faces the sun the three add up to the wall |
| `WallHeightPlanes.FaceShadeExactly` | solweig_gpu/solweig.py:1187-1196 | one statement for all three branches: a wall faces away exactly when its aspect is more than a quarter turn from the azimuth, with the two boundary aspects decided by the half circle the sun is in |
| `WallHeightMarch.AlikeFinish` | solweig_gpu/solweig.py:1198-1219 | accumulators that differ only in how often a flag was counted and in how far the vegetation volume stays below the surface give the same eight planes |
| `WallHeightMarch.CoverExactly` | solweig_gpu/solweig.py:1166-1168 | the building shadow volume reaches zero or the top of the wall exactly when one of the bodies reads a surface that does |
| `WallHeightMarch.DrownedFinish` | solweig_gpu/solweig.py:1198-1219 | raising the shadow volume of a cell below zero to zero changes none of the eight planes exactly when it covered the wall before |
| `WallHeightMarch.WallStopsExactly` | solweig_gpu/solweig.py:1134-1219 | with non-negative walls, two stops at or above the relief give the same eight planes if and only if the cell is not below zero, or no surplus body leaves the plane, or one of the common bodies reads a surface that covers the wall |
| `WallHeightMarch.WallStopIndependence` | solweig_gpu/solweig.py:1134-1219 | with no cell below zero and non-negative walls, stopping at any amplitude at or above the relief gives the same eight planes |
| `WallHeightExact.WallAdmissibleExactly` | solweig_core/step_tables.py:82-86 | on every bush-free scene an admissible amplitude gives the oracle's eight planes if and only if the surplus bodies are inert, with no condition on the number of steps |
| `WallHeightExact.WallAdmissibleIsExact` | solweig_core/step_tables.py:82-86 | under the edge condition every admissible amplitude gives the oracle's eight planes |
| `Witnesses.OneStepReachesTwo` | solweig_core/sparse_work.py:341-364 | a composed scene whose march at its absolute stop takes one step and reaches the value 2 |
| `Witnesses.SunkenExists` | solweig_core/sparse_work.py:128-168 | the scene of the next row comes from composition |
| `Witnesses.GroundMustBeBelow` | solweig_core/sparse_work.py:171-191 | a composed scene below zero on which the escalated amplitude is not exact |
| `EditWitness.GrowTower` | solweig_core/sparse_work.py:633-781 | an accepted edit with its work list that meets all hypotheses of the splice laws and keeps a cell marched fewer steps than the oracle takes |
| `EditWitness.ShrinkTower` | solweig_core/sparse_work.py:633-781 | the same with a kept cell marched more steps than the oracle takes |
| `EditWitness.SpliceBelowZero` | solweig_core/sparse_work.py:633-781 | an accepted, traced batch on a scene below zero whose splice differs from the oracle, whatever work list is built |
| `EditWitness.ClampedPair` | solweig_core/sparse_work.py:312-338 | two scenes the clamp guard lets through although the one with the smaller stop is clamped |
| `PatchMasks.PatchMasksPartition` | solweig_gpu/solweig.py:1514-1561 | for marches of two or more steps every cell is exactly one of sky, vegetation, building, reflects exactly when it is not sky, and has diffuse fraction 0, transVeg or 1 |
| `PatchMasks.MasksExactly` | solweig_gpu/solweig.py:1514-1561 | which mask it is: sky where neither building nor canopy is seen, vegetation where canopy is seen before any building, building otherwise |
| `PatchMasks.DiffuseExactly` | solweig_gpu/utci_process.py:869-871 | the diffuse fraction is 0 where a building is seen, transVeg where only canopy is, 1 otherwise |
| `PatchMasks.OneStepDiffuse` | solweig_gpu/utci_process.py:869-871 | for one-step marches the diffuse fraction is negative exactly where the first step raises the vegetation flag and reads a higher surface |
| `PatchMasks.DiffuseNotNegative` | solweig_gpu/utci_process.py:869-871 | at every stop between the effective and the absolute one and for every number of steps, the diffuse fraction of a cell not below zero is never negative |
| `Witnesses.NegativeDiffuse` | solweig_gpu/utci_process.py:869-871 | a composed scene below zero, with the ground below the surface, whose one-step march at its absolute stop gives a negative diffuse fraction |
| `PackedBits.UnpackOfPack` | solweig_core/bitplanes.py:157-178 | unpacking a packed cell gives it back, and packing leaves the tail zero |
| `PackedBits.FlagValue` | solweig_core/bitplanes.py:188-197 | patch p stands for 2^(p % 8) in its byte and is read by shifting it down |
| `PackedBits.ByteIsSum` | solweig_core/bitplanes.py:157-168 | a packed byte is the sum of the flags of its patches |
| `PackedBits.BytesAreFewest` | solweig_core/bitplanes.py:107-112 | a cell takes the fewest bytes that hold its patches |
| `PackedBits.PackOfUnpack` | solweig_core/bitplanes.py:157-178 | packing an unpacked cell gives its bytes back if and only if their tail is zero |
| `PackedArray.StrayTail` | solweig_core/bitplanes.py:80-96 | a container its constructor accepts whose tail is not zero and which does not round-trip |
| `PackedBits.WritesActOnCube` | solweig_core/bitplanes.py:227-263 | over any sequence of window updates the packed array reads like the plain cube, every other patch unchanged |
| `PackedBits.WritesKeepTail` | solweig_core/bitplanes.py:227-263 | no sequence of window updates touches a tail bit |
| `PackedArray.Pack` | solweig_core/bitplanes.py:120-168 | packing refuses exactly the non-binary cubes and those without patches, and holds the packed form of every cell |
| `PackedArray.Packed.Unpack` | solweig_core/bitplanes.py:171-178 | the unpacked cube, cell by cell |
| `PackedArray.Packed.SetPatchWindow` | solweig_core/bitplanes.py:227-263 | which check refuses; nothing is written on refusal; otherwise the array is the updated one and nothing else changes |
| `PackedArray.Packed.Overwrite` | solweig_core/bitplanes.py:257-263 | the clear pass and the set pass together are the window update |
| `ChunkOwnership.WindowsTileCells` | solweig_core/bitplanes.py:271-301 | a cell lies in a chunk's window exactly when the chunk is its own, and its own chunk is in the grid |
| `ChunkOwnership.ChunksAreSquares` | solweig_core/bitplanes.py:271-299 | a chunk is 64 by 64 cells, and the grid holds exactly the chunks that own a cell |
| `ChunkOwnership.VerifyChunkOwnership` | solweig_core/bitplanes.py:320-337 | accepts exactly the pairwise disjoint claims, and otherwise names a chunk with two writers that claim it |
| `ChunkOwnership.VerifyChunkPartition` | solweig_core/bitplanes.py:340-379 | accepts exactly when all ranges are valid and every tile of the inferred grid is in exactly one |
| `ChunkOwnership.PartitionOwnsCells` | solweig_core/bitplanes.py:340-379 | an accepted partition whose row count matches the chunk grid gives every cell exactly one writer |
| `WriterSchedules.InterleavingIsIsolated` | solweig_core/bitplanes.py:227-263 | at every half step of every interleaving of disjoint writers, each writer's bytes and the byte it has read are what they would be had it run alone |
| `WriterSchedules.NoLostUpdate` | solweig_core/bitplanes.py:227-263 | every complete interleaving of byte reads and writes of disjoint writers ends in the memory of running them one after another in any order |
| `WriterSchedules.WindowProgramWrites` | solweig_core/bitplanes.py:257-263 | the byte steps of one window update, run alone, are that update |
| `WriterSchedules.AcceptedClaimsIsolate` | solweig_core/bitplanes.py:320-337 | accepted claims and writers that keep to their chunks never share a byte |
| `WriterSchedules.AcceptedWritersLoseNothing` | solweig_core/bitplanes.py:320-337 | with accepted claims, every interleaving ends in the packed array that applying the window updates writer by writer gives, in any writer order |
| `ThermalLoop.RunWindow` | solweig_gpu/utci_process.py:840-970 | which range, step or extent is refused; otherwise outputs and captured state are those of the step function iterated from the cold or captured state |
| `ThermalLoop.StatesCompose` | solweig_gpu/utci_process.py:1069-1089 | running to k and resuming there reaches the state of the uninterrupted run |
| `ThermalLoop.WarmIsColdSuffix` | solweig_gpu/utci_process.py:717-731 | a warm run from the state captured at k writes the suffix of the cold run from k |
| `ThermalLoop.AlikeRuns` | solweig_gpu/solweig.py:2155-2227 | runs that agree on CI, water, first-day flag and accumulated time, and on the planes unless the flag is set, write the same outputs ever after |
| `ThermalLoop.ColdZerosNeverLeak` | solweig_gpu/utci_process.py:717-724 | the zero planes of a cold start never reach an output |
| `ThermalLoop.NightErasesPlanes` | solweig_gpu/solweig.py:2183-2227 | a night step erases the history of the planes |
| `ThermalLoop.TimeStaysInRange` | solweig_gpu/solweig.py:475-486 | over every run the accumulated time stays in [0, 59/1440 + timestep) |
| `ThermalLoop.AccumulatedTime` | solweig_gpu/solweig.py:475-486 | the time accumulated n steps into the day: steps of at most 59 minutes cycle and start anew one step after 59 minutes are reached, longer steps accumulate one of them, a zero step none |
| `ThermalLoop.RunObeysDelay` | solweig_gpu/solweig.py:470-488 | every daytime step of every run gives the fresh value moved by the weight of the accumulated time towards the stored one, and replaces the stored map by that flux once 59 minutes have accumulated |
| `ThermalLoop.MorningIsKept` | solweig_gpu/solweig.py:472-486 | until 59 minutes have accumulated the stored map is the fresh value of the morning |
| `ThermalLoop.StoredIsKept` | solweig_gpu/solweig.py:475-486 | between replacements the stored map does not change |
| `ThermalLoop.FirstCycle` | solweig_gpu/solweig.py:470-488 | the first cycle of a day in closed form, with the weight of each step and the map stored at its end |
| `ThermalLoop.MorningState` | solweig_gpu/solweig.py:2225-2227 | after a night the day starts with the flag set and no time accumulated |
| `ThermalLoop.WaterCarried` | solweig_gpu/utci_process.py:917-922 | the water temperature in force is that of the last midnight row or row 0, or the initial one |
| `ThermalLoop.ClearnessCarried` | solweig_gpu/utci_process.py:923-936 | the clearness index in force is that of the last daytime or midnight step, or the initial one |
| `ThermalLoop.ReportedExactly` | solweig_gpu/solweig.py:2155-2227 | a step reports the scalars it hands on with its delayed or nocturnal fluxes |
| `ThermalLoop.DaytimeHull` | solweig_gpu/solweig.py:470-488 | every daytime flux and stored map lies in the hull of the values seen since the first step of the day, or, in a run resumed in mid-day, of those and the map it resumes from |
| `SpecGraph.BuildGraph` | tools/validate_universal_spec.py:48-54 | adjacency and indegree count every edge, duplicates included |
| `SpecGraph.Drain` | tools/validate_universal_spec.py:56-64 | terminates, pops each node at most once in topological order, and every node left has an open incoming edge |
| `SpecGraph.VisitedAllIffAcyclic` | tools/validate_universal_spec.py:65-65 | the visited count equals the node count if and only if there is no cycle |
| `SpecGraph.CheckGraph` | tools/validate_universal_spec.py:45-65 | accepts exactly the graphs with distinct nodes, known endpoints and no cycle, naming the check that fails otherwise |
| `JulianDay.NextDayCountsOne` | solweig_gpu/sun_position.py:143-178 | the next calendar date counts exactly one more, across month ends, leap years, centuries and the reform of 1582 |
| `JulianDay.StrictlyMonotone` | solweig_gpu/sun_position.py:143-178 | later dates count more, for all years |
| `JulianDay.CountsDays` | solweig_gpu/sun_position.py:143-178 | two dates are n days apart if and only if their counts differ by n |
| `JulianDay.TimestampsOrdered` | solweig_gpu/sun_position.py:150-178 | timestamps keep the order of their dates as long as the earlier clock is less than a day of universal time ahead, for consecutive dates exactly then |
| `JulianDay.LocalTimestampsOrdered` | solweig_gpu/sun_position.py:150-178 | in one zone local times of day keep the order of their dates, also when the offset crosses midnight |
| `JulianDay.Epochs` | solweig_gpu/sun_position.py:178-178 | noon of 1 January 2000 is 2451545, and the reckoning starts at noon of 1 January -4712 |
| `JulianDay.ClockMoves` | solweig_gpu/sun_position.py:150-151 | the clock adds its local time of day and takes off its zone |
| `JulianDay.DroppedDatesCollide` | solweig_gpu/sun_position.py:161-165 | the ten dropped dates give the result of the date ten days later, not that of 4 October |
| `StridedView.IsContiguous` | solweig_core/abi.py:232-245 | true if and only if every index vector's byte offset is itemsize times its row-major position |
| `StridedView.FitIffAddressed` | solweig_core/abi.py:232-245 | the axis-by-axis rule and the addressing property are equivalent, for every rank |
| `BuildCache.BuildDirectory.Build` | native/cuda/build.py:141-185 | which library a call returns and what it leaves in the directory |
| `BuildCache.BuildAll` | native/cuda/build.py:141-185 | a directory driven through any calls reaches the state of the run and returns what the run returns; every return is current if and only if no digest recurs |
| `BuildCache.StampsAccumulate` | native/cuda/build.py:146-184 | the directory holds a stamp for every digest compiled so far |
| `BuildCache.CurrentIffNoDigestRecurs` | native/cuda/build.py:28-29 | every returned library was compiled from the current inputs if and only if no unforced call asks for an earlier digest after a different one was built |
| `BuildCache.RecurringDigestIsStale` | native/cuda/build.py:146-148 | inputs A, B, A return the library of B |

## Left out

- IEEE float32: rounding, NaN, signed zero, infinities and dtype promotion; heights, fluxes and times are reals.
- Trigonometry and `exp`: the bearing's signs, ratio and rise, and the delay weight with its range, are parameters.
- The nonzero-bush branches of both marches; the builder refuses such scenes.
- Radiation physics, clearness index, UTCI, WBGT and sky models: functions handed to the time loop.
- Exception texts, and which of several offending tables is named first.
- Step-table JSON, hex helpers, trace import and comparison reports; digests are injective, and a table's content digest stands for its columns.
- SparseWork.BuildSparseWork: does not model estimated bytes, pair-step counts, dense routing, timings and kept masks, which are sums and thresholds over the same entries.
- ChunkOwnership.VerifyChunkOwnership: does not model the sorted order of visits, which decides only which contested chunk is named.
- ChunkBitsets.ToMask: does not model negative chunk keys, which slices would count from the end; the encoder never produces them.
- PackedArray.Packed.SetPatchWindow: windows are given as start and stop after slice normalisation; dtype checks are not modelled.
- WriterSchedules.NoLostUpdate: each byte is read and written one at a time in row order; wider vector reads and writes of one window row are not modelled.
- ThermalLoop.RunWindow: missing keys, dtypes and device moves of a captured state are not modelled, nor are output windows.
- Scenes.Compose: dtype and dimension checks are not modelled.
- BuildCache.BuildDirectory.Build: a failing compiler is taken to leave the previous library in place; flag assembly, hashing and logging are not modelled.
- Copying at the stride boundary, chunk listing by mask, and the typed refusals around array views.
- The numba and CUDA kernels, `solweig_gpu/incremental`, raster and network I/O, command line, server and reports.
