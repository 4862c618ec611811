# Imgs2Pdf — a Dafny model of the album window

Imgs2Pdf is a small Windows desktop tool. The user drags JPEG and PNG files onto a list,
chooses a page orientation (portrait or landscape) and whether images may be auto-rotated,
and exports the list as one PDF file. The PDF has one A4 page per image; each image is
turned upright according to its EXIF orientation tag, scaled to fit inside a 16-point
margin and centred.

This project models the main window (`wpf/MainWindow.xaml.cs`) and its list entries
(`wpf/ImgFileItem.cs`):

- `rotation.dfy` (module `Rotation`): the per-image rotation decision. It is a pure
  function of the plain width and height, the EXIF orientation code, the auto-rotate
  option and the page orientation. The lemmas cover each branch and the auto-rotation step.
- `placement.dfy` (module `Placement`): the A4 page size, the printable canvas, where each
  scaled image is placed, and the page loop `ComposePages`.
- `image_list.dfy` (module `ImageList`): what a dropped batch adds. Paths are accepted by
  lower-cased extension, and a JPEG takes its orientation from the first metadata directory
  that has one. Also what "remove selected" leaves behind.
- `path_text.dfy` (module `PathText`): the .NET helpers the drop handler calls
  (`Path.GetExtension`, `Path.GetFileName`, `ToLower`) and the case-insensitive sort of the batch.
- `img_files.dfy` (module `ImgFiles`): the entry, as a value (`ImgFile`) and as an object
  (`ImgFileItem`). Objects are needed because the list removes entries by identity.
- `main_window.dfy` (module `MainWindowModel`): the class `MainWindow` with the entry list,
  the two options and the status line. Its methods are the drop, clear, remove, Delete-key
  and export handlers.
- `wrappers.dfy` (module `Wrappers`): `Option`.

The library calls are inputs to the model:
- Metadata reader: a function from a path to `None` (reading throws) or one optional
  orientation value per metadata directory.
- Image loading: a function from a path to `None` (loading throws) or the image's plain size.
- Scale-to-fit: a function from raw size, rotation and canvas to the scaled size.
- Save dialog: the chosen file name, or `None` when the dialog is cancelled.
- File stream and document creation: an optional error message each.

Three behaviours of the handlers are easy to miss. The model follows the code:
- The export handler copies the check-box options into the window's fields before it
  tests for an empty list (lines 176-179). So exporting an empty list writes nothing, but
  it does update the options.
- From opening the output stream, only an `IOException` is caught (line 199). Creating the
  document catches any exception (line 205), and the metadata loop swallows the exceptions
  of `GetInt32` (line 126). An exception from `ReadMetadata` (line 116) or from
  `Image.GetInstance` (line 218) is not caught, and leaves the handler at that point. The model returns it as an outcome value and keeps
  whatever was already appended or composed.
- When document creation fails (line 206) or an image fails to load, the output stream is
  left open.

## Model

| member | source | states |
|---|---|---|
| Rotation.Decide | wpf/MainWindow.xaml.cs:219-242 | The angle is one of -90, 0, 90, 180, 270. It equals the EXIF correction for the code plus 90 exactly when auto-rotation fires: on, not square, and the EXIF-corrected shape differs from the page orientation. |
| Rotation.NoCorrectionNoRotation | wpf/MainWindow.xaml.cs:227-245 | A code outside 3..8 with auto-rotation off gives angle 0. |
| Rotation.HalfTurnCodes | wpf/MainWindow.xaml.cs:228-229 | Codes 3 and 4 give 180 degrees and keep the portrait/landscape classification. Without auto-rotation the decision is 180; with it, 180 or 270, and 270 exactly when a non-square image's plain shape disagrees with the page. |
| Rotation.QuarterTurnCodes | wpf/MainWindow.xaml.cs:231-235 | Codes 5 and 6 give -90 and codes 7 and 8 give +90. Both invert the portrait classification. Without auto-rotation the decision is that angle; with it, -90 or 0 (codes 5, 6) and 90 or 180 (codes 7, 8), and the quarter turn is added exactly when a non-square image's plain shape matches the page. |
| Rotation.AutoRotationIsAdditive | wpf/MainWindow.xaml.cs:237-242 | With auto-rotation on, the angle is the angle without it plus 90 when it fires. It never replaces the EXIF angle. |
| Rotation.SquareNeverAutoRotated | wpf/MainWindow.xaml.cs:223-242 | A square image gets the EXIF correction alone, whatever the options. |
| Rotation.TurnMatchesShape | wpf/MainWindow.xaml.cs:221-242 | After the turn, a non-square image stands in the page's orientation when auto-rotation is on. Otherwise it stands in its EXIF-corrected shape. |
| Placement.PageSizeFor | wpf/MainWindow.xaml.cs:201-202 | The page is A4 in either orientation. It is taller than wide exactly when the page is portrait. |
| Placement.Canvas | wpf/MainWindow.xaml.cs:211-213 | The canvas is the page less twice the 16-point margin on each axis. |
| Placement.ComposePages | wpf/MainWindow.xaml.cs:216-252 | One page per entry, in list order, each the entry's placement. An image that cannot be loaded stops the loop: the pages before it are kept, and the failing entry is the next one. |
| Placement.PlacementCentred | wpf/MainWindow.xaml.cs:249 | The gaps left and right of the image are equal, and so are the gaps above and below. |
| Placement.PlacementInsideMargins | wpf/MainWindow.xaml.cs:248-249 | An image scaled to fit the canvas lies inside the 16-point margins. |
| Placement.PlacementRotation | wpf/MainWindow.xaml.cs:244-245 | A rotation is set on the image exactly when the decided angle is non-zero, and it is that angle. |
| PathText.ExtensionSpec | wpf/MainWindow.xaml.cs:105 | A non-empty extension is a dot and the rest of the path, with no further dot or separator; it is empty when the last segment has no dot or ends in one. |
| PathText.FileNameSpec | wpf/MainWindow.xaml.cs:110 | The file name is the longest suffix of the path that has no separator. |
| PathText.KeyLeTotal | wpf/MainWindow.xaml.cs:101 | The case-insensitive comparer orders any two paths one way or the other. |
| PathText.KeyLeTransitive | wpf/MainWindow.xaml.cs:101 | The case-insensitive comparer is transitive. |
| PathText.SortByKey | wpf/MainWindow.xaml.cs:101 | Sorting the batch permutes it: the multiset of paths is unchanged. |
| PathText.SortByKeySorted | wpf/MainWindow.xaml.cs:101 | The sorted batch is in case-insensitive order. |
| ImageList.ImagePathIffSuffix | wpf/MainWindow.xaml.cs:105-106 | A path is accepted exactly when it ends with .jpg, .jpeg or .png, ignoring case. |
| ImageList.Accepted | wpf/MainWindow.xaml.cs:103-107 | The accepted paths are exactly the batch's paths that pass the extension test. |
| ImageList.AcceptedKeepsOrder | wpf/MainWindow.xaml.cs:101-107 | Filtering a sorted batch keeps it sorted. |
| ImageList.AcceptedCounts | wpf/MainWindow.xaml.cs:103-107 | Each accepted path occurs as often as in the batch. Every other path does not occur. |
| ImageList.FirstTag | wpf/MainWindow.xaml.cs:111-127 | The orientation is the value of the first directory that has one, with every earlier directory lacking it. It is 0 when no directory has it. |
| ImageList.ReadOrientation | wpf/MainWindow.xaml.cs:111-127 | The loop over the directories, breaking at the first readable tag, returns that first value. |
| ImageList.DropBatchComplete | wpf/MainWindow.xaml.cs:103-131 | A batch fails exactly when one of its JPEGs cannot be read. Otherwise it appends one entry per accepted path, in batch order. A JPEG entry gets its first-directory orientation and a PNG entry gets 0. |
| ImageList.DropBatchFailure | wpf/MainWindow.xaml.cs:114-131 | A failing batch stops at the first JPEG whose metadata read throws. The accepted paths before it have been appended. |
| ImageList.DropBatchStopsAtFailure | wpf/MainWindow.xaml.cs:103-131 | Once the batch has failed, the paths after the failure change nothing. |
| ImageList.DroppedBatch | wpf/MainWindow.xaml.cs:99-131 | A dropped batch whose JPEGs can all be read adds one entry per accepted path, as often as it was dropped, in case-insensitive order. It fails exactly when some JPEG is unreadable. |
| ImageList.WithoutMembers | wpf/MainWindow.xaml.cs:148-162 | What remains after removal is exactly the entries that were present and not selected. |
| ImageList.WithoutNothingSelected | wpf/MainWindow.xaml.cs:150-160 | Removing entries none of which is in the list leaves it unchanged. |
| ImageList.RemoveFirstOfDistinct | wpf/MainWindow.xaml.cs:159 | On a list without repeated entries, `Remove` of one entry removes it wherever it is and keeps the rest in order. |
| ImageList.WithoutOneMore | wpf/MainWindow.xaml.cs:158-159 | Removing one more entry after a selection is the same as removing the larger selection. |
| ImageList.RemoveOneMore | wpf/MainWindow.xaml.cs:158-159 | One turn of the removal loop on a list without repeats extends the removed selection by that entry. |
| ImageList.WithoutKeepsDistinct | wpf/MainWindow.xaml.cs:148-162 | Removal keeps the list free of repeated entries. |
| ImgFiles.ImgFileItem.constructor | wpf/ImgFileItem.cs:13-17 | A new entry carries the given display name, path and orientation. |
| MainWindowModel.MainWindow.constructor | wpf/MainWindow.xaml.cs:35-42 | The window opens with an empty list and the saved orientation and auto-rotate options. |
| MainWindowModel.MainWindow.Drop | wpf/MainWindow.xaml.cs:94-135 | Without a file list nothing changes. Otherwise the old entries stay as a prefix, and the list gains exactly what the sorted batch adds. The handler reports the JPEG whose metadata read failed, if any. |
| MainWindowModel.MainWindow.AppendBatch | wpf/MainWindow.xaml.cs:103-132 | The loop over the sorted batch appends what the batch adds and keeps entries distinct. |
| MainWindowModel.MainWindow.AddPath | wpf/MainWindow.xaml.cs:105-131 | One path appends at most one new entry: none for a rejected path or an unreadable JPEG. It reports failure exactly for an unreadable JPEG. |
| MainWindowModel.MainWindow.ClearAll | wpf/MainWindow.xaml.cs:142-143 | The list becomes empty. |
| MainWindowModel.MainWindow.RemoveSelected | wpf/MainWindow.xaml.cs:148-162 | Exactly the unselected entries remain, in their original order. With no selection the list is unchanged. |
| MainWindowModel.MainWindow.KeyDown | wpf/MainWindow.xaml.cs:164-168 | The Delete key removes the selected entries. Any other key changes nothing. |
| MainWindowModel.MainWindow.Convert | wpf/MainWindow.xaml.cs:174-261 | The options are taken from the controls first. Then an empty list, a cancelled dialog, a stream error and a document error each end the export, with the status the code sets. Otherwise the document gets one centred page per entry in list order, or stops at the first image that fails to load. On success the status names the file and the document opens at page 1. |

## Left out

- Window position and size, and saving the options to the settings store (wpf/MainWindow.xaml.cs:41-86). This is host key/value storage and window chrome. The constructor takes the two saved options as parameters.
- The `-en` command-line switch (wpf/App.xaml.cs:23-32). It only changes the UI culture.
- The save dialog and its default name, the `FileStream`, and `Process.Start` for the hyperlink (wpf/MainWindow.xaml.cs:181-199, 269). These are UI and I/O. The chosen file name and the stream's error message are inputs.
- MainWindowModel.MainWindow.Convert: an exception other than `IOException` from opening the stream (for example `UnauthorizedAccessException`) is not caught by the source. The model does not represent it.
- MainWindowModel.MainWindow.Convert: an exception from `Image.GetInstance` (wpf/MainWindow.xaml.cs:218) is not caught and leaves the handler; the model returns it as the outcome `ImageFailed`. What the host does once the exception has left the handler (with no handler installed in wpf/App.xaml.cs, ending the application) is not modelled.
- MainWindowModel.MainWindow.Drop: an exception from `ReadMetadata` (wpf/MainWindow.xaml.cs:116) is not caught and leaves the handler; the model returns the failing position as `failedAt` and keeps the entries already appended. What happens once the exception has left the handler is not modelled.
- The PDF library: `Document`, `PdfWriter`, `Image.GetInstance`, `ScaleToFit`, `PdfAction` and the bytes written. Image loading and scale-to-fit are input functions. The model does not state how the library scales a rotated image, and it records the fit-page open action only as "page 1".
- The metadata library (`ImageMetadataReader.ReadMetadata`, `GetInt32`). It is an input function returning one optional value per directory, or failure.
- Floating point. Angles are whole degrees and sizes are reals. A4 is 595 x 842 points, the PDF library's rounding of ISO 216's 210 x 297 mm.
- PathText.KeyLe: `StringComparer.InvariantCultureIgnoreCase` is culture-aware. The model compares ordinally after folding ASCII upper case. Non-ASCII letters and culture-specific ordering of punctuation are not modelled.
- PathText.SortByKey: `Array.Sort` is not stable, so the order of paths that differ only in case is not fixed by the source. The model picks one admissible order (insertion sort). The sort is modelled on values, not in place on the array.
- PathText.Extension and PathText.FileName: the .NET Framework's invalid-path-character check, which throws, is not modelled.
- The `ObservableCollection` change notifications and the list view's selection. The selection is an input sequence of entries.
