# COLMAP scene viewer core, modelled in Dafny

This project models the computational core of a web viewer for COLMAP
reconstructions (3D points, registered images and cameras of a scene).
The model covers:

- **Binary decoders.** These read `images.bin`, `points3D.bin` and
  `cameras.bin` through a little-endian DataView (`src/hooks/useCOLMAPLoader.ts`).
  `little_endian.dfy` and `data_view.dfy` model the DataView reads.
  `image_decoder.dfy`, `point_decoder.dfy` and `camera_decoder.dfy` model the
  three parsers. Each parser is a method with loops over a byte sequence,
  proved equal to a decoding function. Round trips are proved against
  encoders: decoding an encoded file gives back its records, whatever
  bytes follow.
- **The image modal** (`src/components/ImageModal.tsx`), in `image_modal.dfy`:
  - the six-digit shard path `getId`;
  - the S3 photo URL;
  - the split of an image name on `/`;
  - the Wikimedia file and category links.
- **The camera geometry of `src/scripts/draw_cam_colmap.py`**, in
  `camera_geometry.dfy`, over exact reals:
  - the rotation of a quaternion, and its orthonormality for unit quaternions;
  - the camera centre and the 4x4 pose;
  - the choice of intrinsics by camera-model family;
  - the calibration matrix K, built in place, and its scaled copy.
- **The scene search** (`src/components/SearchBar.tsx`), in `search_bar.dfy`:
  the option normalisation and the case-insensitive substring filter.
- **The side panel** (`src/components/SidePanel.tsx`), in `side_panel.dfy`: a
  class whose two state cells the three handlers update, with pure step
  functions and a reachable-state invariant.

The DataView is modelled as follows:

- A DataView read either returns the stored value or fails with the one
  error the source can raise, `RangeError`.
- Every failing read ends the whole parse with no partial result (a `Result`
  threaded with `:-`).
- 64-bit float fields are kept as their eight stored bytes.
- Integers are exact.

What the code does, and so what the model does:

- The code reads only the full binary format. It has no "mini" variant and
  no mini/full fetch fallback.
- The code has no camera-model registry. A camera keeps its numeric
  `modelId`, and every camera has exactly four parameters.
- parseImageData's record-count check (lines 72-76) can never fire: the loop
  pushes one record per pass or throws. `ParseImageData` asserts this in
  place of the unreachable branch.
- parseCOLMAP and parseCameraData have no count check at all.
- The 2D-point track skipped after the last image is never read, and so is
  the track after the last point. A file truncated inside that final track
  still decodes.
- The intrinsics mapping is the script's if/elif over model names. It
  stands apart from the two-way rule in `Camera2.tsx`, which is not part of
  this model.

## Model

| member | source | states |
|---|---|---|
| LittleEndian.FromToLE | src/hooks/useCOLMAPLoader.ts:27 | decoding the k-byte little-endian encoding of any n < 256^k gives n back |
| LittleEndian.ToFromLE | src/hooks/useCOLMAPLoader.ts:27 | encoding the value of a byte string at its own width gives the bytes back, so the byte reading of an integer is a bijection |
| LittleEndian.FromLEAppend | src/hooks/useCOLMAPLoader.ts:27 | the low bytes come first: a concatenation is worth the low part plus 256^\|lo\| times the high part |
| LittleEndian.ToInt32 | src/hooks/useCOLMAPLoader.ts:162-163 | the two's-complement reading of getInt32 lands in [-2^31, 2^31) and is undone by FromInt32 |
| LittleEndian.Int32RoundTrip | src/hooks/useCOLMAPLoader.ts:162-163 | every 32-bit signed value survives being stored as its bit pattern and read back |
| DataView.GetUint8 | src/hooks/useCOLMAPLoader.ts:54 | getUint8 succeeds exactly when the offset lies in the buffer, and returns the byte stored there |
| DataView.GetUint32 | src/hooks/useCOLMAPLoader.ts:33 | getUint32 succeeds exactly when all four bytes lie in the buffer; otherwise it raises RangeError |
| DataView.GetInt32 | src/hooks/useCOLMAPLoader.ts:162 | getInt32 succeeds exactly when all four bytes lie in the buffer |
| DataView.GetBigUint64 | src/hooks/useCOLMAPLoader.ts:27 | getBigUint64 succeeds exactly when all eight bytes lie in the buffer |
| DataView.GetFloat64 | src/hooks/useCOLMAPLoader.ts:37 | getFloat64 succeeds exactly when all eight bytes lie in the buffer |
| DataView.U32AtSlice | src/hooks/useCOLMAPLoader.ts:33 | reading a u32 in place equals decoding its four bytes little-endian |
| DataView.U64AtSlice | src/hooks/useCOLMAPLoader.ts:27 | reading a u64 in place equals decoding its eight bytes little-endian |
| DataView.U32RoundTrip | src/hooks/useCOLMAPLoader.ts:33 | a u32 written anywhere in a buffer is read back unchanged |
| DataView.I32RoundTrip | src/hooks/useCOLMAPLoader.ts:162-163 | an i32 written anywhere in a buffer is read back unchanged, sign included |
| DataView.U64RoundTrip | src/hooks/useCOLMAPLoader.ts:27 | a u64 written anywhere in a buffer is read back unchanged |
| DataView.F64RoundTrip | src/hooks/useCOLMAPLoader.ts:37-45 | the bit pattern of an f64 written anywhere is read back unchanged |
| ImageDecoder.ReadImageName | src/hooks/useCOLMAPLoader.ts:52-57 | the byte-by-byte name loop returns the name and cursor of ScanName: the bytes before the first 0, one char each, the 0 consumed |
| ImageDecoder.ScanNameMeaning | src/hooks/useCOLMAPLoader.ts:52-57 | the name holds no 0 byte and is the chars of the bytes it covers; the scan stops just past the first 0, or at the end of the buffer when there is none |
| ImageDecoder.ScanNameBytes | src/hooks/useCOLMAPLoader.ts:52-57 | a name stored with its terminator is scanned back exactly and the cursor lands right after the terminator |
| ImageDecoder.UnterminatedNameFails | src/hooks/useCOLMAPLoader.ts:53-59 | with no 0 byte after the fixed block, the name runs to the end and the following u64 read fails the record |
| ImageDecoder.ReadImage | src/hooks/useCOLMAPLoader.ts:33-61 | one pass of the record loop reads id, qvec, tvec, camera id, name and 2D-point count and skips 24 bytes per point, as ImageAt states |
| ImageDecoder.FixedBlockRoundTrip | src/hooks/useCOLMAPLoader.ts:33-50 | the 64-byte fixed block is u32 id, four f64 qvec in stored order, three f64 tvec, u32 camera id, each read back as written |
| ImageDecoder.ImageAtWellFormed | src/hooks/useCOLMAPLoader.ts:33-69 | every decoded record has 32-bit ids, four qvec and three tvec values and a name of 0-free single-byte chars |
| ImageDecoder.ImageRoundTrip | src/hooks/useCOLMAPLoader.ts:33-61 | a record written with n 2D points decodes to itself and the cursor moves past header and 24·n bytes |
| ImageDecoder.ImagesFromStep | src/hooks/useCOLMAPLoader.ts:32-70 | a decoded record is pushed and decoding carries on from where it ended |
| ImageDecoder.ParseImageData | src/hooks/useCOLMAPLoader.ts:23-79 | the parser reads the count at offset 0 and then that many records, and its result (records or RangeError) is DecodeImages |
| ImageDecoder.ImagesFromCount | src/hooks/useCOLMAPLoader.ts:32-70 | a successful loop over n remaining records adds exactly n records |
| ImageDecoder.DecodeImagesCount | src/hooks/useCOLMAPLoader.ts:72-76 | a decoded file holds exactly the number of records its u64 header announces |
| ImageDecoder.DecodeEncodeImages | src/hooks/useCOLMAPLoader.ts:23-79 | decoding an encoded images file (count, then records with their 2D points) gives back its records, whatever bytes follow |
| PointDecoder.ReadPoint | src/hooks/useCOLMAPLoader.ts:112-132 | one pass of the point loop reads id, position, colour, error and track length, then skips 8 bytes per track entry, as PointAt states |
| PointDecoder.PointRoundTrip | src/hooks/useCOLMAPLoader.ts:112-132 | a stored point decodes to itself and the cursor advances exactly 51 + 8·track_length bytes |
| PointDecoder.HeaderFields | src/hooks/useCOLMAPLoader.ts:112-130 | each field of the 51-byte point header is read back from its own offset as written |
| PointDecoder.Positions | src/hooks/useCOLMAPLoader.ts:126 | the position array holds three values per point |
| PointDecoder.Colours | src/hooks/useCOLMAPLoader.ts:127 | the colour array holds three values per point |
| PointDecoder.TripleAt | src/hooks/useCOLMAPLoader.ts:126-127 | position triple i is point i's (x, y, z) and colour triple i is the colour function applied to point i's (r, g, b) |
| PointDecoder.CloudIgnoresRest | src/hooks/useCOLMAPLoader.ts:112-124 | id, error and track length never reach the output: points agreeing on position and colour give the same arrays |
| PointDecoder.ParseCOLMAP | src/hooks/useCOLMAPLoader.ts:103-133 | the parser returns DecodeCloud: the positions and colours of the count-many points read from offset 8, or RangeError |
| PointDecoder.PointsFromCount | src/hooks/useCOLMAPLoader.ts:111-133 | a successful loop over n remaining points adds exactly n points |
| PointDecoder.CloudSizes | src/hooks/useCOLMAPLoader.ts:108-133 | both arrays of a decoded file have length 3 times the announced point count |
| PointDecoder.DecodeEncodePoints | src/hooks/useCOLMAPLoader.ts:108-133 | decoding an encoded points file gives back its points, whatever bytes follow |
| CameraDecoder.ParamsAt | src/hooks/useCOLMAPLoader.ts:168-173 | the inner loop always reads exactly four parameters |
| CameraDecoder.ReadCamera | src/hooks/useCOLMAPLoader.ts:162-175 | one pass of the camera loop, inner parameter loop included, returns CameraAt: the 56 bytes at the cursor or RangeError |
| CameraDecoder.ParseCameraData | src/hooks/useCOLMAPLoader.ts:152-179 | the parser returns DecodeCameras: the count, then that many cameras |
| CameraDecoder.DecodeCamerasMeaning | src/hooks/useCOLMAPLoader.ts:156-176 | decoding succeeds exactly when 8 + 56·count bytes are present; camera i is then the record at 8 + 56·i, with four params whatever its modelId |
| CameraDecoder.ParamsRoundTrip | src/hooks/useCOLMAPLoader.ts:168-173 | the four parameters of a stored camera read back unchanged, parameter j from offset 24 + 8·j |
| CameraDecoder.CameraRoundTrip | src/hooks/useCOLMAPLoader.ts:162-173 | a stored camera, signed ids included, reads back unchanged |
| CameraDecoder.CameraInFile | src/hooks/useCOLMAPLoader.ts:156-166 | camera i of an encoded file lies in the buffer at offset 8 + 56·i and reads back as camera i |
| CameraDecoder.DecodeEncodeCameras | src/hooks/useCOLMAPLoader.ts:152-179 | decoding an encoded cameras file gives back its cameras, whatever bytes follow |
| ImageModal.NatToString | src/components/ImageModal.tsx:18 | toString of a non-negative integer is a non-empty string of decimal digits |
| ImageModal.IntToString | src/components/ImageModal.tsx:18 | toString reads back as the id: it starts with '-' exactly for a negative id, and the digits after it (or all of it) denote the magnitude |
| ImageModal.NatToStringValue | src/components/ImageModal.tsx:18 | the digits of toString read back as the number |
| ImageModal.NatToStringLength | src/components/ImageModal.tsx:18 | toString has at most k digits exactly when n < 10^k |
| ImageModal.FixedDigitsValue | src/components/ImageModal.tsx:18 | the k-digit zero-padded numeral of n < 10^k reads back as n |
| ImageModal.PadStart | src/components/ImageModal.tsx:18 | padStart returns s unchanged when it is long enough, else s preceded by fill up to the width |
| ImageModal.PaddedNumeral | src/components/ImageModal.tsx:18 | padding toString(n) with zeros to k places is the k-digit numeral of n, for n < 10^k |
| ImageModal.GetId | src/components/ImageModal.tsx:17-21 | the shard path is always seven characters with '/' in the middle |
| ImageModal.GetIdInRange | src/components/ImageModal.tsx:17-21 | for 0 <= id < 10^6 the path without its slash is the six-digit numeral of id and reads back as id |
| ImageModal.GetIdInjective | src/components/ImageModal.tsx:17-21 | two ids below 10^6 with the same shard path are equal |
| ImageModal.GetIdLongIds | src/components/ImageModal.tsx:17-21 | ids of seven or more digits keep only their first six, so id and id / 10 share a path |
| ImageModal.GetIdDigits | src/components/ImageModal.tsx:17-21 | for non-negative ids the path holds only digits beside its slash |
| ImageModal.GetIdShortExample | src/components/ImageModal.tsx:17-21 | 42 maps to "000/042" |
| ImageModal.GetIdSixDigitExample | src/components/ImageModal.tsx:17-21 | 123456 maps to "123/456" |
| ImageModal.GetIdLongExample | src/components/ImageModal.tsx:17-21 | 1234567 maps to "123/456", the same as 123456 |
| ImageModal.GetIdNegativeExample | src/components/ImageModal.tsx:17-21 | -5 maps to "000/0-5": the sign is padded like a digit |
| ImageModal.PhotoUrl | src/components/ImageModal.tsx:48-50 | the photo URL is the S3 base, the seven-character shard path, '/', then the name |
| ImageModal.KeyedUrlInjective | src/components/ImageModal.tsx:48-50 | URLs built from the same base with keys of equal length are equal only for equal keys and names |
| ImageModal.PhotoUrlInjective | src/components/ImageModal.tsx:48-50 | distinct (id below 10^6, name) pairs get distinct photo URLs |
| ImageModal.Split | src/components/ImageModal.tsx:63 | split("/") yields at least one piece, none holding a slash |
| ImageModal.JoinSplit | src/components/ImageModal.tsx:63 | joining the pieces with '/' gives the name back, and there is one piece more than there are slashes |
| ImageModal.SplitJoin | src/components/ImageModal.tsx:63 | splitting slash-free pieces joined with '/' gives the pieces back |
| ImageModal.Segment | src/components/ImageModal.tsx:63 | destructuring element k is defined exactly when the name has at least k slashes, and it holds no slash |
| ImageModal.WikiImageUrl | src/components/ImageModal.tsx:113-118 | the Wikimedia link is the file-page prefix followed by piece 4 of the name's split, or by "undefined" when the name has fewer than four slashes |
| ImageModal.WikiCatUrl | src/components/ImageModal.tsx:126-128 | the category link is the category-page prefix followed by piece 1 of the name's split, or by "undefined" when the name has no slash |
| ImageModal.WikiLinks | src/components/ImageModal.tsx:113-126 | for a name with five or more pieces, the file link ends in piece 4 and the category link in piece 1 |
| ImageModal.WikiLinksShortName | src/components/ImageModal.tsx:113-126 | with fewer than five pieces the file link ends in "undefined", and so does the category link without a slash |
| CameraGeometry.QvecToRotmat | src/scripts/draw_cam_colmap.py:4-23 | the nine entries as the script writes them; the identity quaternion (1, 0, 0, 0) gives the identity matrix; the lemmas below prove it orthonormal for a unit quaternion and recover the quaternion from it |
| CameraGeometry.RotmatRecoversQuat | src/scripts/draw_cam_colmap.py:4-23 | the skew-symmetric part of R is 4w times (x, y, z), and for a unit quaternion the trace is 4w^2 - 1 |
| CameraGeometry.RotmatSignInvariant | src/scripts/draw_cam_colmap.py:4-23 | q and -q give the same rotation |
| CameraGeometry.TransposeIsConjugate | src/scripts/draw_cam_colmap.py:4-23 | the transpose of the rotation of q is the rotation of its conjugate |
| CameraGeometry.UnitRow0 | src/scripts/draw_cam_colmap.py:8-10 | for a unit quaternion the first row as written has squared length 1 |
| CameraGeometry.UnitRow1 | src/scripts/draw_cam_colmap.py:13-15 | for a unit quaternion the second row as written has squared length 1 |
| CameraGeometry.UnitRow2 | src/scripts/draw_cam_colmap.py:18-20 | for a unit quaternion the third row as written has squared length 1 |
| CameraGeometry.PerpendicularRows01 | src/scripts/draw_cam_colmap.py:8-15 | for a unit quaternion the first two rows are perpendicular |
| CameraGeometry.PerpendicularRows02 | src/scripts/draw_cam_colmap.py:8-20 | for a unit quaternion the first and third rows are perpendicular |
| CameraGeometry.PerpendicularRows12 | src/scripts/draw_cam_colmap.py:13-20 | for a unit quaternion the second and third rows are perpendicular |
| CameraGeometry.RotmatRowsOrthonormal | src/scripts/draw_cam_colmap.py:4-23 | for a unit quaternion R @ R.T is the identity |
| CameraGeometry.RotmatColumnsOrthonormal | src/scripts/draw_cam_colmap.py:33-34 | for a unit quaternion R.T @ R is the identity, so R_T undoes R |
| CameraGeometry.CameraCentre | src/scripts/draw_cam_colmap.py:33-35 | t = -R.T @ tvec; with tvec = 0 it is the origin, and CentreMapsToCameraOrigin proves R @ t + tvec = 0 for a unit quaternion |
| CameraGeometry.CentreMapsToCameraOrigin | src/scripts/draw_cam_colmap.py:33-35 | for a unit quaternion, R @ t + tvec = 0: the centre is the world point at the camera's origin |
| CameraGeometry.Pose | src/scripts/draw_cam_colmap.py:70-71 | T is 4x4 with R.T in its upper-left block, the centre t = -R.T @ tvec as its fourth column and (0, 0, 0, 1) as its last row |
| CameraGeometry.HomogeneousIsAffine | src/scripts/draw_cam_colmap.py:70-71 | the stacked [M \| t; 0 0 0 1] matrix sends (p, 1) to (M @ p + t, 1) |
| CameraGeometry.PoseInvertsWorldToCamera | src/scripts/draw_cam_colmap.py:33-35 | for a unit quaternion, T sends R @ p + tvec back to (p, 1): T is the camera-to-world inverse of [R \| tvec] |
| CameraGeometry.SelectIntrinsics | src/scripts/draw_cam_colmap.py:41-54 | the if/elif choice returns LaidOutIntrinsics: each family's parameter layout, an unsupported model, or too few parameters |
| CameraGeometry.FamiliesDisjoint | src/scripts/draw_cam_colmap.py:41-50 | no model name is in both families, so the if/elif order does not matter |
| CameraGeometry.IntrinsicsFromFourParams | src/scripts/draw_cam_colmap.py:41-54 | four parameters succeed exactly for the seven listed models: single-focal models give fx = fy = params[0], cx = params[1], cy = params[2]; two-focal models read params[0..4] in order |
| CameraGeometry.IntrinsicsIgnoreTrailingParams | src/scripts/draw_cam_colmap.py:41-54 | parameters after the fourth never change the intrinsics |
| CameraGeometry.Calibration | src/scripts/draw_cam_colmap.py:56-60 | K holds fx and fy on the diagonal, cx and cy in the last column, and the identity elsewhere |
| CameraGeometry.BuildCalibration | src/scripts/draw_cam_colmap.py:56-60 | the in-place construction yields a fresh 3x3 array equal to Calibration entry by entry |
| CameraGeometry.ScaledCopy | src/scripts/draw_cam_colmap.py:66 | K.copy() / scale is a fresh array of the same shape with every entry divided by scale |
| CameraGeometry.PinholeProjection | src/scripts/draw_cam_colmap.py:56-60 | K sends a point at depth z to pixel (fx x/z + cx, fy y/z + cy) |
| CameraGeometry.ScaledSamePixels | src/scripts/draw_cam_colmap.py:64-66 | dividing all of K by scale changes no pixel, since the homogeneous point is scaled as a whole |
| CameraGeometry.ScaledCalibrationUnprojectsAtDepth | src/scripts/draw_cam_colmap.py:64-66 | the point on the ray through pixel (u, v) at depth scale is the one K / scale sends to (u, v, 1) |
| SearchBar.KeepIf | src/components/SearchBar.tsx:87-89 | filtering keeps exactly the elements that pass, each as often as in the input, in their order |
| SearchBar.KeepIfNarrowing | src/components/SearchBar.tsx:87-89 | filtering with a stricter test after a looser one equals filtering with the stricter test |
| SearchBar.ReplaceAll | src/components/SearchBar.tsx:16 | replace(/_/g, " ") keeps the length, changes exactly the underscores, and leaves none behind |
| SearchBar.StripMarks | src/components/SearchBar.tsx:18 | removing U+0300-U+036F leaves no combining mark, keeps every other character as often as before, and keeps the order |
| SearchBar.StripMarksIdempotent | src/components/SearchBar.tsx:18 | text without combining marks is unchanged, so stripping twice is stripping once |
| SearchBar.StripMarksConcat | src/components/SearchBar.tsx:18 | stripping a concatenation strips each part |
| SearchBar.ProcessName | src/components/SearchBar.tsx:15-18 | an option holds no combining mark and is the decomposed, underscore-free name with the marks left out |
| SearchBar.ProcessNameHasNoUnderscore | src/components/SearchBar.tsx:16-18 | no '_' remains in an option when decomposition adds none |
| SearchBar.ProcessedOptions | src/components/SearchBar.tsx:14-19 | exactly one option per scene, in scene order |
| SearchBar.ProcessedOptionsConcat | src/components/SearchBar.tsx:14-19 | the options of two scene lists in turn are those of their concatenation |
| SearchBar.Includes | src/components/SearchBar.tsx:88 | includes holds exactly when the needle occurs at some position of the text |
| SearchBar.IncludesTransitive | src/components/SearchBar.tsx:88 | text holding a word holds every piece of that word |
| SearchBar.IncludesTrivial | src/components/SearchBar.tsx:88 | every text holds the empty string and itself |
| SearchBar.FilterOptions | src/components/SearchBar.tsx:85-92 | empty input shows all options; otherwise exactly the matching options, each as often as it occurs, as an order-preserving subsequence of processedOptions |
| SearchBar.FilterMembership | src/components/SearchBar.tsx:85-92 | an option is shown exactly when it is a processed option and the input is empty or matches it |
| SearchBar.NarrowingInputAgrees | src/components/SearchBar.tsx:87 | when the new lower-cased input contains the old one, refiltering the old result equals filtering processedOptions |
| SearchBar.FilterIdempotent | src/components/SearchBar.tsx:85-92 | filtering a filtered list with the same input changes nothing |
| SidePanel.Toggle | src/components/SidePanel.tsx:14-22 | togglePanel flips isOpen and shows "right" when closing, "line" when opening |
| SidePanel.MouseEnter | src/components/SidePanel.tsx:24-28 | handleMouseEnter changes the state exactly when it is open with "line", and then only to "left" |
| SidePanel.MouseLeave | src/components/SidePanel.tsx:30-34 | handleMouseLeave shows "line" when open and leaves a closed panel alone |
| SidePanel.StepPreservesReachable | src/components/SidePanel.tsx:14-34 | each handler keeps closed ⇒ "right" and open ⇒ "line" or "left" |
| SidePanel.RunPreservesReachable | src/components/SidePanel.tsx:14-34 | any sequence of handler calls keeps that invariant |
| SidePanel.EveryRunFromInitialIsReachable | src/components/SidePanel.tsx:11-34 | every state reached from the initial closed/"right" state satisfies the invariant |
| SidePanel.ToggleTwiceFromClosed | src/components/SidePanel.tsx:14-22 | toggling a closed panel twice gives closed/"right" |
| SidePanel.HoverIdempotent | src/components/SidePanel.tsx:24-34 | entering twice is entering once, and leaving twice is leaving once |
| SidePanel.GetIcon | src/components/SidePanel.tsx:36-65 | "line" and "left" have their own glyphs; every other value shows the right chevron; the line has stroke 4, the chevrons 3 |
| SidePanel.IconShowsWhetherOpen | src/components/SidePanel.tsx:36-65 | in a reachable state the right chevron shows exactly when the panel is closed |
| SidePanel.Panel.constructor | src/components/SidePanel.tsx:11-12 | the panel starts closed, showing "right" |
| SidePanel.Panel.TogglePanel | src/components/SidePanel.tsx:14-22 | updates both cells as Toggle does, and always leaves a reachable state |
| SidePanel.Panel.HandleMouseEnter | src/components/SidePanel.tsx:24-28 | updates the icon as MouseEnter does, keeps isOpen, and preserves the invariant |
| SidePanel.Panel.HandleMouseLeave | src/components/SidePanel.tsx:30-34 | updates the icon as MouseLeave does, keeps isOpen, and preserves the invariant |
| SidePanel.Panel.CurrentIcon | src/components/SidePanel.tsx:36-65 | returns getIcon of the current state; in a reachable state that is the right chevron exactly when closed |

## Left out

- Fetching, blob URLs, React hooks and effects are not modelled. These are `useImageData`, `useCameraData`, `useCOLMAPLoader`, the image fetch in `ImageModal.tsx`, delayed link activation and `window.open`. They are I/O and framework lifecycle.
- `enhanceColor` is floating-point HSL arithmetic through `THREE.Color`. `PointDecoder.ParseCOLMAP` takes it as a colour function parameter applied to (r, g, b).
- The THREE geometry, the materials and the Float32 conversion of the position and colour arrays are not modelled.
- 64-bit float fields are never interpreted as numbers. They are kept as their eight bytes.
- `Number(numPoints2D) * 24` and `Number(track_length) * 8` lose precision above 2^53. The model skips the exact byte count.
- The camera geometry is over exact reals, not IEEE doubles.
- `np.linalg.inv(K)` is not computed. `CameraGeometry.ScaledCalibrationUnprojectsAtDepth` states what the inverse computes without forming it.
- The script's `print` calls and its hard-coded sample values are not modelled.
- The script's `K.copy() / scale` would give infinities for scale 0. `CameraGeometry.ScaledCopy` requires a non-zero scale because reals have no infinities.
- `ImageModal.NatToString` does not model JavaScript's exponent notation for numbers of 1e21 and above, nor non-integer ids.
- `SearchBar.ProcessName` takes Unicode canonical decomposition (`normalize("NFD")`) as a string-function parameter. `SearchBar.FilterOptions` does the same with `toLowerCase`. No Unicode tables are modelled.
- `SearchBar.ProcessNameHasNoUnderscore` assumes decomposition introduces no '_'.
- The 300 ms debounce and its cancellation are not modelled. The filter is applied to the current input directly.
- The virtualised list rendering and all markup, styling and layout are not modelled.
- Pose and frustum code in `Camera.tsx`, `Camera2.tsx` and the `Image*.tsx` files is not part of this model. It relies on THREE.js matrices, quaternions and scene-graph mutation.
