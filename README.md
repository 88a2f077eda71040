# ECG analysis page: a verified model

This project models the computational core of the ECG analysis page of
`medical_app.py`.

- **Annotations:** the user draws named rectangles on an ECG strip. A left click inside a rectangle deletes it. Every edit is recorded in a linear undo/redo history of full snapshots.
- **Coordinates:** a rectangle's scene coordinates are scaled to slice indices of the displayed image, and the region is cut out with NumPy's slice rules.
- **Background:** background separation turns every pixel whose HSV triple is in the "black" range `[0,0,0]..[180,255,220]` pure black and every other pixel pure white. The digitise dialog's variant keeps in-range pixels as they are.
- **Digitizer:** the lead digitiser scans the grey image column by column. A pixel is foreground when its grey level is at most 1. It emits `(x * time_scale, max - (max - min) * y / height)` for the midpoint row `y` of every column holding foreground. The dialog's variant uses threshold 127 and emits `(x, mean foreground row)`.
- **Export:** areas are saved under the first free name `label.png`, `label_1.png`, … (or `label_copy1.png`, … in the observation dialog). A directory is modelled as the finite set of its file names. Saving stops at the first area whose region is empty, because `cv2.imwrite` raises on an array with no rows or no columns. The background-free image is written to `<path before the last dot>_nobg.png`.
- **Observations:** the observation dialog keeps a record of validated labels where the first write wins. It also keeps a repetition-free list of validated labels, the shrinking list of labels still offered, and the Valid/Save button rules.

Modules:
- `Wrappers` and `Lists` hold `Option`, `list.remove`, `list.count` and distinctness.
- `Annotations` holds the `AnnotationPage` class over the live list, the snapshot list and the index, specified by the pure `Timeline` functions `Commit`, `Undo` and `Redo`.
- `Coordinates`, `Background` and `Digitizer` hold the pure pixel and coordinate rules. The column loops are methods proved against the signal functions.
- `Export` holds the name search (a `while` loop) and the save loop.
- `Observations` holds the `ObservationForm` class, specified by the pure `FormState` functions `Validate` and `RefreshValid`.

Python `int()` on a float is truncation toward zero (`Coordinates.Trunc`). Floats are modelled as reals. The OpenCV colour and grey conversions are taken as input grids, linked to the pixels only by the facts the model needs.

## Model

| member | source | states |
|---|---|---|
| Lists.RemoveFirst | medical_app.py:1195 | `list.remove(x)` on a list holding `x` removes exactly one occurrence: length one less, multiset minus `{x}` |
| Lists.RemoveFirstAt | medical_app.py:1191-1195 | removing the first element equal to `s[k]` drops position `k` and keeps the others in order |
| Lists.RemoveFirstCount | medical_app.py:506-507 | `remove(x)` lowers the count of `x` by one and leaves every other count unchanged |
| Annotations.Normalized | medical_app.py:1220-1232 | the stored rectangle has `x1 <= x2`, `y1 <= y2`, takes its corners from the press and release points, and carries the typed name |
| Annotations.FirstHit | medical_app.py:1191-1193 | the index of the first rectangle in list order containing the point (inclusive bounds); none exactly when no rectangle contains it |
| Annotations.Commit | medical_app.py:1161-1168 | `add_to_history` keeps snapshots `0..index`, appends the live list, points at it, and leaves the live list synchronised with it |
| Annotations.Undo | medical_app.py:1170-1175 | one step back with the live list set to that snapshot; a no-op at index 0 |
| Annotations.Redo | medical_app.py:1178-1183 | one step forward with the live list set to that snapshot; a no-op at the last index |
| Annotations.RedoAfterCommitIsNoop | medical_app.py:1165-1168 | a commit leaves nothing to redo |
| Annotations.UndoRevertsEdit | medical_app.py:1161-1175 | undo right after any committed edit restores the list and the index from before the edit |
| Annotations.UndoRedoRoundTrip | medical_app.py:1170-1183 | redo after undo, and undo after redo, give back the same state whenever the first step moved |
| Annotations.CommitDiscardsRedoFuture | medical_app.py:1161-1168 | add A, add B, undo, add C: B is unreachable, redo is a no-op, and the live list is [A, C] |
| Annotations.ClearWithoutCommitDesyncs | medical_app.py:1129-1131 | clearing a non-empty list without a commit leaves the live list out of step with the history |
| Annotations.AnnotationPage.constructor | medical_app.py:706-713 | the history starts as one snapshot of the existing list at index 0, with no drag in progress |
| Annotations.AnnotationPage.OpenImage | medical_app.py:895-927 | a cancelled file dialog changes nothing; a chosen path is recorded, and the page accepts mouse input once some image could be read |
| Annotations.AnnotationPage.AddToHistory | medical_app.py:1161-1168 | the new state is `Commit` of the old one |
| Annotations.AnnotationPage.UndoAction | medical_app.py:1170-1175 | the new state is `Undo` of the old one |
| Annotations.AnnotationPage.RedoAction | medical_app.py:1178-1183 | the new state is `Redo` of the old one |
| Annotations.AnnotationPage.DeleteSelected | medical_app.py:931-936 | a selected listed rectangle is removed and the selection cleared, without a commit; otherwise nothing changes |
| Annotations.AnnotationPage.ResetWorkspace | medical_app.py:1121-1131 | once a path is known the list is emptied and the selection cleared, with the history untouched; otherwise nothing changes |
| Annotations.AnnotationPage.OnLeftPress | medical_app.py:1186-1207 | without an image nothing happens and the event passes on; a press inside a rectangle deletes the first hit (every other rectangle kept in order) and commits, as `DeleteRect` says; a press elsewhere changes no list and starts a drag at the point |
| Annotations.AnnotationPage.OnLeftRelease | medical_app.py:1216-1240 | a release while drawing ends the drag and removes the rubber band, which every drag has (`Valid`); an accepted non-empty name appends the normalised rectangle and commits, as `AddRect` says; a cancelled dialog or an empty name leaves list and history unchanged |
| Annotations.DrawOnEmptySpace | medical_app.py:1186-1240 | a press on empty space and a named release grow the list by exactly the normalised rectangle, with the history kept in step |
| Coordinates.Trunc | medical_app.py:954 | `int()` truncates toward zero for either sign |
| Coordinates.TruncMonotone | medical_app.py:954-957 | truncation is monotone |
| Coordinates.ScaleMonotone | medical_app.py:954-957 | `int(c * resized / original)` is monotone in `c` |
| Coordinates.ScaledSliceOrdered | medical_app.py:954-957 | `ScaledSlice` (the crossed-axis `int(c * resized / original)` of each corner) never inverts a normalised rectangle |
| Coordinates.ScaledSliceCanBeEmpty | medical_app.py:954-957 | nothing clamps: a one-unit rectangle can give an empty slice |
| Coordinates.CrossedAxesExample | medical_app.py:904 | x is scaled by resized width over original height and y by resized height over original width |
| Coordinates.SliceBound | medical_app.py:960 | a slice index counts from the end when negative and is clamped to `[0, n]` |
| Coordinates.Crop | medical_app.py:960 | `img[y1:y2, x1:x2]` has the clamped size and holds the pixels at the clamped offsets |
| Coordinates.Region | medical_app.py:954-960 | the region of a rectangle is never larger than the image |
| Coordinates.CropInBounds | medical_app.py:960 | for indices inside the image the region is exactly `(y2-y1) x (x2-x1)` pixels from `(y1, x1)` |
| Coordinates.RegionEmptyIff | medical_app.py:954-960 | on an image of the displayed size, the cut-out region has no row or no column exactly when the scaled slice is empty in either axis |
| Coordinates.ClickWithoutDragIsEmpty | medical_app.py:954-960 | a rectangle with no width, as a click without a drag gives, always has an empty region |
| Coordinates.CrossedAxesOverrunIsEmpty | medical_app.py:954-960 | a 2000x1000 image shown at 1260x630: the scene rectangle (1100,100)-(1200,200) maps to columns 1386..1512, past the edge, so its region is empty |
| Background.InkIffDark | medical_app.py:999-1004 | for a converted pixel the range test holds exactly when its largest channel is at most 220 |
| Background.RemoveBackground | medical_app.py:999-1022 | same shape; an in-range pixel becomes black and every other pixel white |
| Background.RemoveBackgroundTwoLevel | medical_app.py:1013-1022 | the output holds only black and white |
| Background.RemoveBackgroundIdempotent | medical_app.py:999-1022 | separating an already separated image changes nothing |
| Background.DialogSeparate | medical_app.py:649-652 | the dialog keeps the colour of in-range pixels and whitens exactly the pixels `remove_background` whitens |
| Digitizer.InkRows | medical_app.py:1077-1079 | the rows found are foreground rows of the column, in increasing order |
| Digitizer.InkRowsComplete | medical_app.py:1077-1079 | no foreground row of the column is missed |
| Digitizer.ColumnRows | medical_app.py:1079-1080 | a column yields rows exactly when it holds a foreground pixel |
| Digitizer.InkColumns | medical_app.py:1076-1080 | the columns kept hold foreground and come in increasing order |
| Digitizer.InkColumnsComplete | medical_app.py:1076-1080 | no column holding foreground is skipped |
| Digitizer.DigitalizeLead | medical_app.py:1076-1091 | the loop builds exactly `LeadSignal` of all columns |
| Digitizer.LeadSignalPerInkColumn | medical_app.py:1076-1091 | one sample per foreground column, in column order, each that column's sample |
| Digitizer.LeadSignalLength | medical_app.py:1076-1091 | at most one sample per column; none for an all-background image |
| Digitizer.LeadSignalTimes | medical_app.py:1088-1090 | times strictly increase, and a column holds foreground exactly when some sample carries its time |
| Digitizer.TimeStrictlyIncreasing | medical_app.py:1088 | a later column gets a later time |
| Digitizer.TimeInjective | medical_app.py:1088 | distinct columns get distinct times |
| Digitizer.MidRowBounds | medical_app.py:1082 | `(first + last) // 2` lies between the first and last foreground rows |
| Digitizer.AmplitudeBounds | medical_app.py:1085 | for a row inside the image the amplitude lies in `(min, max]` |
| Digitizer.LeadAmplitudeBounds | medical_app.py:1067-1091 | every emitted amplitude lies in `(min, max]` |
| Digitizer.SinglePixelScan | medical_app.py:1076-1082 | a single foreground pixel yields exactly its column and its row |
| Digitizer.LeadSignalSinglePixel | medical_app.py:1067-1091 | with the defaults (-1, 1, 0.01), a single pixel at row r, column x gives the one sample `(0.01 x, 1 - 2r/H)` |
| Digitizer.DefaultAmplitude | medical_app.py:1067-1085 | with the defaults, row r of H maps to `1 - 2r/H` |
| Digitizer.MeanBounds | medical_app.py:667 | `np.mean` of increasing rows lies between the first and the last |
| Digitizer.DigitalizeSelected | medical_app.py:663-669 | the dialog's loop builds exactly `DialogSignal` of all columns |
| Digitizer.DialogSignalPerInkColumn | medical_app.py:663-669 | one `(x, mean row)` entry per column holding foreground at threshold 127, in column order |
| Digitizer.DialogColumnsIncrease | medical_app.py:663-669 | entry columns strictly increase, at most one entry per column |
| Digitizer.DialogColumnsExact | medical_app.py:663-669 | a column has an entry exactly when it holds foreground at threshold 127 |
| Digitizer.DialogSignalMeans | medical_app.py:665-669 | every entry's column is inside the region and its mean lies between its column's first and last foreground rows |
| Digitizer.ForegroundAfterRemoval | medical_app.py:1016-1022 | after background removal a pixel is foreground for the lead scan exactly when it was in the ink range |
| Export.NatToString | medical_app.py:968 | the counter is rendered as non-empty decimal digits without a leading zero |
| Export.ParseNatToString | medical_app.py:968 | reading back the rendered counter gives the counter |
| Export.NatToStringInjective | medical_app.py:968 | different counters render differently |
| Export.CandidatesDistinct | medical_app.py:963-969 | the search never tries the same file name twice |
| Export.FirstFreeUnique | medical_app.py:966-969 | there is only one first free candidate |
| Export.FreshStem | medical_app.py:966-969 | the loop ends on a name not in the directory, and every earlier candidate is taken |
| Export.SameLabelTwice | medical_app.py:963-969 | saving label II twice into an empty directory writes `II.png` then `II_1.png` |
| Export.SaveAllAreas | medical_app.py:940-976 | nothing is written without rectangles, an image or a directory, whatever size is recorded (a positive size is needed only once there are rectangles and an image, which drawing implies); otherwise the rectangles are saved in order, each file holding its non-empty scaled slice and named by the search against the directory plus the earlier files, until the first rectangle whose region is empty: `imwrite` raises there, the handler reports failure, and that rectangle and all after it are not saved; without such a rectangle every rectangle is saved; never an existing file, never the same file twice |
| Export.SavedInOrderAt | medical_app.py:950-972 | the i-th file holds the i-th rectangle's scaled slice, which is not empty, and was named against the directory plus the files before it |
| Export.SaveNeverOverwrites | medical_app.py:963-972 | a later file is neither in the directory nor equal to an earlier file of the run |
| Export.FirstSaveFresh | medical_app.py:963-972 | the first file written is not in the directory |
| Export.SavedRunFresh | medical_app.py:963-972 | no file of a save run is in the directory, and no two files of the run coincide |
| Export.SaveClickOnly | medical_app.py:950-976 | when the only rectangle is a click without a drag, the save fails at once and writes nothing |
| Export.SaveBeforeOpening | medical_app.py:33-34 | before any image is opened (`img` None, recorded size (0, 0)) Save writes nothing and reports no failure, as the guard at 940-942 does |
| Export.SaveAfterResetReload | medical_app.py:1123-1135 | after a reset reloads a file that could not be read when opened, `img` is set, the size is still (0, 0) and there are no rectangles: Save writes nothing and reports no failure, as the guard at 940-942 does |
| Export.LastIndexOf | medical_app.py:1038 | the last occurrence of the dot, or none when the path has no dot |
| Export.NobgPathShape | medical_app.py:1038 | `NobgPath` gives the path before its last dot (all of it if there is none) followed by `_nobg.png` |
| Export.NobgPathExample | medical_app.py:1038 | `scan.jpg` becomes `scan_nobg.png` |
| Export.NobgPathDottedFolder | medical_app.py:1038 | the split is on the last dot of the whole path, so `a.b/scan` becomes `a_nobg.png` |
| Observations.FirstNamed | medical_app.py:546-548 | the first rectangle carrying the label, none exactly when no rectangle carries it |
| Observations.AreaFiles | medical_app.py:564-570 | an area's image is always written, and its observation text exactly when the note is non-empty |
| Observations.Selected | medical_app.py:540-548 | the labels saved are exactly the validated labels that have a record and a rectangle |
| Observations.SelectedSplit | medical_app.py:540-548 | selection distributes over a split of the validated list, so the saved labels keep the order of `valid_selections` |
| Observations.SelectedStopsAt | medical_app.py:540-565 | when the save stops at a selected label, the labels selected before it, that label, and those after it make up all the selected labels, in that order |
| Observations.SavedInOrderAt | medical_app.py:540-576 | each saved area comes from a non-empty region and was named against the directory plus the files of the areas before it |
| Observations.SaveNeverOverwrites | medical_app.py:555-565 | the dialog's save never writes an image over a file of the directory, nor two areas to one image file |
| Observations.ManifestEntries | medical_app.py:572-574 | a class manifest lists only stems of areas of that class |
| Observations.ManifestListsArea | medical_app.py:572-574 | every saved area is listed in the manifest of its class |
| Observations.OpenedConsistent | medical_app.py:369-378 | the dialog opens with every label offered (`Opened(Names(rects))`) and nothing validated, which is consistent |
| Observations.ValidateKeepsRecord | medical_app.py:498-511 | after `on_validate` the record and the validated list hold the same labels, the list has no repetition, and Save is enabled |
| Observations.ValidateKeepsOffered | medical_app.py:506-507 | offered labels stay within the rectangle labels, and every label that lost an occurrence was validated |
| Observations.ValidateConsistent | medical_app.py:493-511 | `on_validate` keeps the dialog consistent |
| Observations.ValidateAgain | medical_app.py:498-504 | first write wins: validating a label again changes neither the record nor the list |
| Observations.ValidateRecords | medical_app.py:498-504 | a label validated for the first time is recorded with that text and class and appended to the list |
| Observations.ObservationForm.constructor | medical_app.py:361-382 | the dialog opens on the rectangles with every label offered in list order (`Names`, the comprehension at 378), nothing recorded, both buttons disabled |
| Observations.ObservationForm.RefreshValidButton | medical_app.py:484-491 | the new state is `RefreshValid` of the old one: Valid is enabled exactly when a label is selected, and the dialog stays consistent |
| Observations.ObservationForm.OnValidate | medical_app.py:493-511 | the new state is `Validate` of the old one, and the dialog stays consistent |
| Observations.ObservationForm.SaveOne | medical_app.py:546-576 | nothing is written exactly when a recorded original dimension is zero (the scaling divides by it), the module's `img` is None (slicing it raises; a failed later read leaves it None beside the earlier image's size) or the first rectangle of the label has an empty region (`imwrite` raises); otherwise that rectangle is saved under the first free `label[_copyK].png`, with its note file when the text is non-empty |
| Observations.ObservationForm.OnSave | medical_app.py:532-578 | nothing is written without a directory; otherwise the selected labels are saved in order, each against the directory as the earlier ones left it; without an error all of them are, and at the first label whose scaling divides by zero, whose slicing finds no image or whose region is empty the uncaught exception stops the run, so exactly the selected labels before it are saved and that label gets no image, note or manifest entry; with a zero original dimension or no image nothing is saved |
| Observations.ValidateOneOfTwo | medical_app.py:493-511 | on two differently labelled rectangles, validating the first leaves only the second offered and enables Save |

## Left out

- The Qt widgets, scene painting, message boxes and file dialogs are not modelled. Whether a file, directory or name dialog returned something is a boolean parameter of the operation that opens it.
- `cv2.imread`/`imwrite`, the colour and grey conversions, and `cv2.resize` are library calls. Their outputs are input grids, and only the V channel of the HSV conversion is constrained.
- The aspect-ratio resize `int(1260 / (w / h))` is not modelled. The displayed size is a parameter.
- Python floats are modelled as exact reals. IEEE rounding can differ in the last bits, and after `int()` that moves a slice index by one: Python's `int(0.29 * 100)` is 28 where exact reals give 29. Amplitudes and mean rows can differ in the last bits.
- Plotting and the CSV and text files are left out; this is output only. The signal is returned as a sequence of rows, with `signal_x`/`signal_y` merged into one sequence of pairs. A class manifest is modelled as its list of stems, each written followed by `, `.
- `digitalize_lead`'s `if not rectangles` guard is left out, as are the opening of the `DigitalizeDialog` before its own scan, that dialog's preview (`preview_selected`) and `digitalize_selected`'s lookup of the previewed area in `processed_images`; the dialog's column scan itself is `DigitalizeSelected`. The lead scan reads the grey conversion of the whole displayed image; the dialog scan reads that of the previewed area after its background separation.
- Mouse-move handling only repaints the rubber band and is left out.
- The `global img` update in `remove_background` and `reset_workspace`'s reload of the image are left out; they replace the displayed pixels.
- The zoom and rotation globals are never used and are left out.
- `on_upload` stores and shows a file name, which the model does not keep; its call of `on_validate_button_enabled` is `RefreshValidButton`. The text box being cleared after validation is left out.
- Observations.ObservationForm.OnValidate: the Valid button's state after `update_dropdown` depends on Qt's index-change signals and is not modelled; the button is left unchanged.
- `medical_app_copy.py` (a launcher shell) and `app.py` (a dashboard of library statistics) are not part of this model.
- The model follows the code, including where it departs from the obvious intent:
  - the hit test takes the first listed rectangle, not the topmost;
  - labels may repeat;
  - `delete_selected` and `reset_workspace` change the list without a commit;
  - the scaling axes are crossed and unclamped, so a region can be empty, and saving an empty region makes `cv2.imwrite` raise, which ends `save_all_areas` in its error handler and stops `on_save` before `accept()`;
  - `_nobg` splits on the last dot of the whole path.
- The displayed image is taken to have the size recorded in `img_resized_size`, as `open_image` sets both together; `reset_workspace` reloads the image without updating that size.
- `on_save`'s `accept()` closing the dialog is UI; the model reports whether the run stopped on the uncaught exception. Without a `sys.excepthook`, PyQt5 (5.5 and later) aborts the whole process on an exception escaping a slot, so in practice such a stop ends the application, not only the save.
- `ObservationDialog` is never constructed anywhere in `medical_app.py`, so `on_validate` and `on_save` cannot be reached from the page; `Observations` models the class as written.
- Digitizer.DigitalizeSelected: an area with no rows or no columns gives the empty signal in the model, whereas in the source `preview_selected` stores such an area and then `cv2.cvtColor` raises on it, and `digitalize_selected` would raise again at the HSV conversion; no signal is produced for it.
