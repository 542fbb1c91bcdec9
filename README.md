# Volume analysis of layered porous bodies, in Dafny

The system analyses a 3D binary body made of image slices. It is a
`depth` × `rows` × `cols` grid of bytes, and a voxel belongs to the body
when its value equals `body_value`. It also generates synthetic test
bodies. This project models the analysis engine of
`src/connectivity_checker.cpp` and the shape generator of
`src/volume_generator.cpp`, and proves what each computes.

- `is3DConnected` runs a 6-connected breadth-first flood fill. It starts
  from the first body voxel of layer 0 in row-major order. It answers
  whether every body voxel of the last layer was reached.
- `computePorosityStats` counts every voxel. It floods each void
  component under 26-connectivity, adds the component's size to the
  empty count, and counts a pore when no voxel of the component lies on a
  face of the box.
- `detectFloatingIslands3D` labels the face-connected body components
  1, 2, … in raster order, in a `D` × `H*W` label matrix indexed by
  `y*W + x`. It lists each component's voxels under its label. It then
  counts the components with no voxel in layer 0 and at least
  `min_voxels` voxels.
- `detectFloatingIslands` applies, slice by slice, the area filter to
  the per-slice component table.
- The declaration in `src/connectivity_checker.h` gives `min_area` a
  default of 30 and `min_voxels` a default of 10. The model records them as
  `FloatingIslands.DefaultMinArea` and `FloatingIslands.DefaultMinVoxels`;
  the operations take both bounds as parameters.
- `VolumeGenerator` builds a sphere, a cube inset by `width/5` on every
  axis, or a spherical shell. Each is a sequence of `depth` slices of
  `height` × `width` cells, 255 on the body and 0 elsewhere.

Modules:

- `Volume`: the grid as values (`Mat`, `Vol`, `Vec3`), the box of voxels,
  raster-order prefixes and their sizes, and the linear index `y*W + x`.
- `Reach`: the graphs the flood fills walk (body or void voxels, face or
  full adjacency). It defines paths, reachability and components, with
  the closure lemmas that turn a drained flood into a component.
- `Connectivity`, `Porosity` and `FloatingIslands`: the three analyses,
  as imperative methods over `array3`/`array2` visited and label arrays
  with explicit queues. Each is proved against a ghost specification
  made of reachability, components and border membership.
- `Generator`: the `VolumeGenerator` class. Its three generators paint a
  fresh `array2` buffer per slice and are specified cell by cell.

## Model

| member | source | states |
|---|---|---|
| Connectivity.Is3DConnected | src/connectivity_checker.cpp:67-138 | the result is true exactly when the volume is non-empty with uniform slices, layer 0 has a body voxel, and every body voxel of the last layer is face-reachable from the first body voxel of layer 0 |
| Connectivity.SpansNeedsInput | src/connectivity_checker.cpp:67-103 | an empty volume, a slice of another size than slice 0, or a layer 0 without body voxels each make the answer false |
| Connectivity.FirstBodyFromIsFirst | src/connectivity_checker.cpp:91-101 | the seed search returns a body cell with no body cell before it in row-major order, and nothing only when the slice has no body cell |
| Connectivity.FindSeed | src/connectivity_checker.cpp:91-103 | the nested seed loops find a cell exactly when the slice holds a body cell, and then the row-major first one |
| Connectivity.FaceNeighbourIsStep | src/connectivity_checker.cpp:105-108 | every face neighbour is reached by one of the six `dz`/`dy`/`dx` directions |
| Connectivity.StepIsFaceNeighbour | src/connectivity_checker.cpp:105-108 | each of the six directions leads to a face neighbour |
| Connectivity.VisitNeighbour | src/connectivity_checker.cpp:115-124 | after one direction the neighbour is marked if it is a body voxel; either nothing changes, or the neighbour was unmarked and is now marked and appended to the queue; every mark stays reachable from the seed |
| Connectivity.Mark | src/connectivity_checker.cpp:121 | setting `visited` for a voxel adds exactly that voxel to the marked set |
| Connectivity.ExpandNode | src/connectivity_checker.cpp:114-125 | after the direction loop every body face neighbour of the dequeued voxel is marked, and the marks stay reachable from the seed |
| Connectivity.Flood | src/connectivity_checker.cpp:105-126 | when the queue drains, `visited` marks exactly the face component of the seed, and the loop has dequeued exactly as many voxels as the component holds, so none was queued twice |
| Connectivity.DrainedIsComponent | src/connectivity_checker.cpp:110-126 | reachable marks that are closed under adjacency are the whole component |
| Connectivity.MarkedIffReachable | src/connectivity_checker.cpp:128-131 | after the flood a voxel is visited exactly when the seed reaches it |
| Connectivity.ScanLastLayer | src/connectivity_checker.cpp:128-137 | the final scan answers true exactly when every body voxel of the last layer is reachable from the seed |
| Connectivity.ScanLastRow | src/connectivity_checker.cpp:130-134 | one row of the final scan finds no unvisited body voxel exactly when every body voxel of that row of the last layer is reachable from the seed |
| Connectivity.SingleLayerSpans | src/connectivity_checker.cpp:67-137 | with one layer the answer is true exactly when layer 0 has a body voxel and every body voxel is in the seed's component |
| Volume.InBoxUniform | src/connectivity_checker.cpp:312-314 | `isInside` holds exactly for the voxels of a uniform volume |
| Volume.BoxSize | src/connectivity_checker.cpp:148-166 | the raster scan's voxel set has depth·height·width elements |
| Volume.IdxInjective | src/connectivity_checker.cpp:334 | the index `y*W + x` is one-to-one on the cells of a slice |
| Volume.IdxBounds | src/connectivity_checker.cpp:334 | the index `y*W + x` lies in `0..H*W-1` |
| Porosity.ComputePorosityStats | src/connectivity_checker.cpp:140-214 | `total_voxels` is the number of voxels, D·H·W; `empty_voxels` is the number of void voxels; `pore_count` is the number of void 26-components with no voxel on a face of the box |
| Porosity.Porosity | src/connectivity_checker.cpp:212 | the porosity is a share between 0 and 1 |
| Porosity.FullNeighbourIsStep | src/connectivity_checker.cpp:156-159 | every one of the 26 full neighbours is some template offset `(dz[i], dy[i], dx[j])` |
| Porosity.FullStepIsNeighbour | src/connectivity_checker.cpp:182-186 | every template offset other than the voxel itself is a full neighbour |
| Porosity.VisitFull | src/connectivity_checker.cpp:184-198 | one template cell: an in-bounds, unvisited void neighbour is marked, queued and checked against the border; the marks grow by voxels reachable from the start, the queue by one entry per new mark, and the flag tells whether the fill meets a face |
| Porosity.Mark | src/connectivity_checker.cpp:176 | setting `visited` for a voxel adds exactly that voxel to the marked set |
| Porosity.ExpandRow | src/connectivity_checker.cpp:183-199 | after the three `dx` cells of template row i, each of them is a body voxel, outside the box or marked |
| Porosity.ExpandFull | src/connectivity_checker.cpp:182-200 | after the template loops every void full neighbour of the dequeued voxel is marked |
| Porosity.FloodStep | src/connectivity_checker.cpp:179-200 | one turn of the flood loop keeps its invariant: marks reached from the start, each expanded or queued, `local_empty_count` plus the queue length equal to the fill's size, and the border flag |
| Porosity.ScanVoxel | src/connectivity_checker.cpp:165-207 | one voxel of the raster scan keeps the scan's invariant: the marks are the closed void components met so far, `empty_voxels` is their size and `pore_count` the number of them off the border |
| Porosity.ScanRow | src/connectivity_checker.cpp:164-208 | a row of the raster scan keeps the scan's invariant and counts its voxels into `total_voxels` |
| Porosity.ScanLayer | src/connectivity_checker.cpp:162-210 | a layer of the raster scan keeps the scan's invariant and counts its voxels into `total_voxels` |
| Porosity.FloodVoid | src/connectivity_checker.cpp:168-201 | the fill marks exactly the void component of the start voxel, new to the marks; `local_empty_count` is its size and `touches_border` tells whether it meets a face |
| Porosity.VoidsWithinBox | src/connectivity_checker.cpp:166-203 | the void voxels are among all voxels, so `empty_voxels <= total_voxels` |
| Porosity.ThinVolumeHasNoPores | src/connectivity_checker.cpp:169-206 | when some dimension is at most 2, every void voxel is on a face and there is no pore |
| Porosity.PoreIsWalledIn | src/connectivity_checker.cpp:188-195 | every full neighbour of a pore voxel is inside the box and belongs to the same pore or to the body |
| Porosity.SolidHasNoPores | src/connectivity_checker.cpp:167-206 | a volume without void voxels has no empty voxel and no pore |
| FloatingIslands.DetectFloatingIslands3D | src/connectivity_checker.cpp:316-385 | the count is the number of face components of the body with no voxel in layer 0 and at least `min_voxels` voxels, and it is at most the number of components |
| FloatingIslands.LabelBodies | src/connectivity_checker.cpp:321-360 | after the scan the labels 1..current-1 name the body components, each exactly once, and `label_voxels` lists each component's voxels once each under its label |
| FloatingIslands.FloodBody | src/connectivity_checker.cpp:335-356 | the flood labels exactly the component of the start voxel, with the current label, and lists each of its voxels once; it dequeues exactly as many voxels as the component holds, so none is queued twice |
| FloatingIslands.SetLabel | src/connectivity_checker.cpp:350 | after the current label is written at `y*W + x`, every cell still carries its right label: 0 exactly off the marked voxels, else the number of its component, with the new voxel joining the component being labelled |
| FloatingIslands.Label | src/connectivity_checker.cpp:350 | the label write in terms of the volume's shape: the new voxel joins the component being labelled |
| FloatingIslands.Admit | src/connectivity_checker.cpp:350-352 | a new body neighbour is labelled, queued and appended to the component's voxel list, which keeps listing the fill once each |
| FloatingIslands.VisitDir | src/connectivity_checker.cpp:344-353 | one direction: the neighbour ends up labelled if it is an inside body voxel, and the fill grows only by reachable voxels, each queued and listed once |
| FloatingIslands.ExpandDirs | src/connectivity_checker.cpp:343-354 | after the directions loop every body face neighbour of the dequeued voxel is labelled |
| FloatingIslands.ScanVoxel | src/connectivity_checker.cpp:334-357 | one voxel of the raster scan keeps the scan's invariant: labels 1..current-1 name the distinct components met so far, in full, each listed in `label_voxels` |
| FloatingIslands.ScanRow | src/connectivity_checker.cpp:332-358 | a row of the raster scan keeps the scan's invariant |
| FloatingIslands.ScanLayer | src/connectivity_checker.cpp:331-360 | a layer of the raster scan keeps the scan's invariant |
| FloatingIslands.FaceNeighbourIsDir | src/connectivity_checker.cpp:326-329 | every face neighbour is reached by one of the six `directions` |
| FloatingIslands.DirIsFaceNeighbour | src/connectivity_checker.cpp:326-329 | each of the six `directions` leads to a face neighbour |
| FloatingIslands.LabelSizesSumToBody | src/connectivity_checker.cpp:331-360 | the list lengths under the labels add up to the number of body voxels, so each body voxel carries exactly one label |
| FloatingIslands.TouchesLayer0 | src/connectivity_checker.cpp:369-375 | the flag is set exactly when some listed voxel lies in layer 0 |
| FloatingIslands.SizeT | src/connectivity_checker.cpp:377 | `static_cast<size_t>` keeps a non-negative `min_voxels` and maps a negative one to at least 2^64 - 2^31 |
| FloatingIslands.FloatingByList | src/connectivity_checker.cpp:369-377 | the test on a component's list decides whether the component is floating |
| FloatingIslands.CountFloating | src/connectivity_checker.cpp:362-384 | the loop over `label_voxels` counts the floating components in label order |
| FloatingIslands.FloatingCountIsSize | src/connectivity_checker.cpp:362-384 | over distinct components, counting label by label gives the number of floating components |
| FloatingIslands.FloatingWithinComponents | src/connectivity_checker.cpp:362-384 | the floating components are among the components, so the count is at most the number of labels |
| FloatingIslands.SingleLayerHasNoFloating | src/connectivity_checker.cpp:369-377 | a one-layer volume has no floating component |
| FloatingIslands.FloatingIsDetached | src/connectivity_checker.cpp:331-377 | no voxel of layer 0 reaches a voxel of a floating component |
| FloatingIslands.NegativeMinimumReportsNothing | src/connectivity_checker.cpp:377 | a negative `min_voxels` wraps to a bound no volume of fewer than 2^64 - 2^31 voxels meets, so nothing is counted |
| FloatingIslands.SliceReports | src/connectivity_checker.cpp:296-303 | a slice reports exactly its components 1..n-1 with area below `min_area`, each with its area, in label order |
| FloatingIslands.DetectFloatingIslands | src/connectivity_checker.cpp:286-305 | the reports are exactly the small non-background components of every slice, each with its area, ordered by slice, then by component |
| FloatingIslands.OrderedAppend | src/connectivity_checker.cpp:289-304 | reports of a later slice come after those of earlier slices |
| Generator.VolumeGenerator.constructor | src/volume_generator.cpp:5-6 | the generator keeps the three dimensions it is given |
| Generator.VolumeGenerator.Generate | src/volume_generator.cpp:8-15 | the three shape selectors give the sphere, the cube and the hollow sphere; any other selector gives no slices |
| Generator.VolumeGenerator.GenerateSphere | src/volume_generator.cpp:17-34 | `depth` slices of `height` × `width` cells, each 255 exactly when its squared distance from the centre is at most r², r = min(w, h, d)/2 - 1, and 0 otherwise |
| Generator.VolumeGenerator.SphereSlice | src/volume_generator.cpp:23-30 | one sphere slice, painted cell by cell into a zeroed buffer |
| Generator.VolumeGenerator.GenerateCube | src/volume_generator.cpp:36-52 | `depth` slices of `height` × `width` cells, each 255 exactly when margin <= z < depth-margin, margin <= y < height-margin and margin <= x < width-margin, with margin = width/5 |
| Generator.VolumeGenerator.CubeSlice | src/volume_generator.cpp:41-48 | one cube slice: the inset square when z is within the margin range, else all 0 |
| Generator.VolumeGenerator.GenerateHollowSphere | src/volume_generator.cpp:54-73 | `depth` slices of `height` × `width` cells, each 255 exactly when rInner² <= dist² <= rOuter², rInner = rOuter/2 truncated, and 0 otherwise |
| Generator.VolumeGenerator.HollowSlice | src/volume_generator.cpp:61-69 | one hollow-sphere slice, painted cell by cell into a zeroed buffer |
| Generator.Quot | src/volume_generator.cpp:19-20 | C++ `a / d` truncates toward zero: the remainder has the sign of `a` and is smaller than `d` in size |
| Generator.VolumeGenerator.HollowWithinSphere | src/volume_generator.cpp:57-67 | for the same dimensions every body cell of the hollow sphere is a body cell of the sphere |
| Generator.VolumeGenerator.CubeOuterSlicesEmpty | src/volume_generator.cpp:41-42 | the cube slices with z < margin or z >= depth - margin are entirely 0 |
| Generator.VolumeGenerator.SphereAvoidsLowFaces | src/volume_generator.cpp:19-28 | when every dimension is at least 2, the sphere's body cells have z, y and x at least 1 |
| Generator.VolumeGenerator.SphereDoesNotSpan | src/volume_generator.cpp:17-34 | for dimensions at least 2 the sphere's layer 0 is empty, so `is3DConnected` answers false on it |
| Generator.VolumeGenerator.HollowSphereDoesNotSpan | src/volume_generator.cpp:54-73 | for dimensions at least 2 the hollow sphere's layer 0 is empty, so `is3DConnected` answers false on it |
| Generator.VolumeGenerator.CubeDoesNotSpan | src/volume_generator.cpp:36-52 | from width 5 on the cube's layer 0 is empty, so `is3DConnected` answers false on it |
| Generator.Freeze | src/volume_generator.cpp:31 | the painted buffer becomes a slice value with the same cells |

## Left out

- `loadSlices` (src/connectivity_checker.cpp:14-65) and `saveSlices` (src/volume_generator.cpp:75-81): filesystem iteration, file-name parsing and image reading and writing. Volumes are parameters and results.
- `compareWithReferenceMetrics`: JSON file input and floating-point tolerance comparison.
- `createBorderedCollageWithContours`, src/viewer.cpp, src/visualization_utils.cpp and the drivers src/main.cpp and src/analyzer_main.cpp: drawing, display and program entry. All console and error logging is left out too.
- The `ConnectivityChecker` class called from src/main.cpp is not part of this model: it is not defined in any of the files this model is built from. The static API declared in include/volume_generator.h is not part of this model either: it does not match src/volume_generator.cpp.
- Porosity.Porosity: the `double` division at src/connectivity_checker.cpp:212 is stated as an exact real quotient. Rounding to `double` is not modelled, and `computePorosityStats` returns the integer counts it divides.
- FloatingIslands.DetectFloatingIslands: `cv::connectedComponentsWithStats` (8-connected labelling) is a library call. Each slice's component-area table is a parameter, with entry 0 the background. Each printed line becomes a report of its slice, component and area.
- FloatingIslands.DetectFloatingIslands3D: the per-component messages it prints are not modelled. Only the returned count is.
- 32-bit `int` overflow is not modelled: the counters `total_voxels`, `empty_voxels`, `pore_count` and `floating_count`, the labels, the squared distances in the generators and `y*W + x` are unbounded integers. The source's results agree only while these fit in an `int`.
- Porosity.ComputePorosityStats and FloatingIslands.DetectFloatingIslands3D require a non-empty volume with slices of one size. The source reads `volume[0]` and reads every slice over slice 0's height and width without checking. Its behaviour is undefined for an empty volume or a slice smaller than slice 0. A slice larger than slice 0 is analysed by the source through its top-left window of slice 0's size; that case is not modelled.
- Generator.VolumeGenerator.GenerateSphere, GenerateCube, GenerateHollowSphere and Generate require non-negative `width` and `height` only when `depth` is positive, since a slice of negative size cannot be built. A non-positive `depth` yields no slices for any width and height, as in the source.
- The queues are sequences that the methods reassign; `label_voxels` is a map whose list for the current label is built during the flood and stored under the label when it ends. The stored lists are the same.
