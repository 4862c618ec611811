/**
 * The main window's state and event handlers: the list of image entries,
 * the two export options, the status line, and the handlers that drop,
 * remove, clear and export. Dialogs, streams and libraries are inputs.
 */
module MainWindowModel {
  import opened Wrappers
  import opened PathText
  import opened ImgFiles
  import opened ImageList
  import opened Placement

  /** What the status line shows; the localized texts are named, not spelled out. */
  datatype Status = Blank | OutputStarted | ErrorMessage(text: string) | OutputDone(fileName: string)

  datatype Key = Delete | OtherKey

  /** What pressing the export button leads to. */
  datatype ExportOutcome =
    | NothingToExport
    | DialogCancelled
    | StreamFailed(message: string)
    | DocumentFailed(message: string)
    | ImageFailed(pathName: string, pagesAdded: seq<PlacedImage>)
    | Written(fileName: string, pageSize: Size, pages: seq<PlacedImage>, openActionPage: nat)

  class MainWindow {
    var fileItems: seq<ImgFileItem>
    var isPortrait: bool
    var autoRotate: bool
    var status: Status

    /** No entry is in the list twice. */
    ghost predicate Valid()
      reads this
    {
      Distinct(fileItems)
    }

    /** The values of the entries, in list order. */
    function Contents(): seq<ImgFile>
      reads this
    {
      Values(fileItems)
    }

    /** The window opens with an empty list and the saved options. */
    constructor (portraitSetting: bool, rotateSetting: bool)
      ensures Valid()
      ensures fileItems == [] && isPortrait == portraitSetting && autoRotate == rotateSetting && status == Blank
    {
      fileItems := [];
      isPortrait := portraitSetting;
      autoRotate := rotateSetting;
      status := Blank;
    }

    /**
     * Files dropped on the list: the batch is sorted case-insensitively and
     * its .jpg, .jpeg and .png paths are appended in that order. `dropped`
     * is None when the drop carries no file list. A metadata read that
     * throws ends the handler; `failedAt` names that file.
     */
    method Drop(dropped: Option<seq<string>>, readMetadata: MetadataReader) returns (failedAt: Option<string>)
      requires Valid()
      modifies this`fileItems
      ensures Valid()
      ensures old(fileItems) <= fileItems
      ensures dropped == None ==> fileItems == old(fileItems) && failedAt == None
      ensures dropped.Some? ==>
        var outcome := DropBatch(SortByKey(dropped.value), readMetadata);
        Contents() == old(Contents()) + outcome.added && failedAt == outcome.failedAt
    {
      failedAt := None;
      if dropped.Some? && |dropped.value| > 0 {
        var files := SortByKey(dropped.value);
        failedAt := AppendBatch(files, readMetadata);
      }
    }

    /** The drop loop over the sorted batch, path by path. */
    method AppendBatch(files: seq<string>, readMetadata: MetadataReader) returns (failedAt: Option<string>)
      requires Valid()
      modifies this`fileItems
      ensures Valid()
      ensures old(fileItems) <= fileItems
      ensures Values(fileItems) == old(Values(fileItems)) + DropBatch(files, readMetadata).added
      ensures failedAt == DropBatch(files, readMetadata).failedAt
    {
      ghost var before := fileItems;
      var i := 0;
      while i < |files|
        invariant 0 <= i <= |files|
        invariant Valid()
        invariant before <= fileItems
        invariant DropBatch(files[..i], readMetadata).failedAt == None
        invariant Values(fileItems) == Values(before) + DropBatch(files[..i], readMetadata).added
      {
        var pathName := files[i];
        assert files[..i + 1][..i] == files[..i] && files[..i + 1][i] == pathName;
        ghost var prev := DropBatch(files[..i], readMetadata);
        assert DropBatch(files[..i + 1], readMetadata) == DropStep(prev, pathName, readMetadata);
        var failed := AddPath(pathName, readMetadata);
        if failed {
          DropBatchStopsAtFailure(files, i + 1, readMetadata);
          return Some(pathName);
        }
        i := i + 1;
      }
      assert files[..i] == files;
      return None;
    }

    /**
     * The body of the drop loop for one path of the sorted batch: an
     * accepted path becomes a new entry at the end of the list, unless its
     * metadata cannot be read.
     */
    method AddPath(pathName: string, readMetadata: MetadataReader) returns (failed: bool)
      requires Valid()
      modifies this`fileItems
      ensures Valid()
      ensures old(fileItems) <= fileItems
      ensures failed == StepFails(pathName, readMetadata)
      ensures Values(fileItems) == old(Values(fileItems)) + StepEntries(pathName, readMetadata)
    {
      failed := false;
      var fileExt := LowerString(Extension(pathName));
      if IsImageExtension(fileExt) {
        var orientation := 0;
        if IsJpegExtension(fileExt) {
          var dirs := readMetadata(pathName);
          if dirs == None {
            return true;
          }
          orientation := ReadOrientation(dirs.value);
        }
        assert StepEntries(pathName, readMetadata) == [EntryFor(pathName, orientation)];
        var item := new ImgFileItem(FileName(pathName), pathName, orientation);
        ValuesAppend(fileItems, item);
        fileItems := fileItems + [item];
      } else {
        assert StepEntries(pathName, readMetadata) == [];
      }
    }

    /** "Clear all" empties the list. */
    method ClearAll()
      modifies this`fileItems
      ensures Valid()
      ensures fileItems == []
    {
      fileItems := [];
    }

    /**
     * "Remove" takes out every selected entry, one by one, and keeps the
     * others in their order; with nothing selected the list is unchanged.
     */
    method RemoveSelected(selectedItems: seq<ImgFileItem>)
      requires Valid()
      modifies this`fileItems
      ensures Valid()
      ensures fileItems == Without(old(fileItems), selectedItems)
    {
      if |selectedItems| == 0 {
        WithoutNothingSelected(fileItems, selectedItems);
        return;
      }
      var items: seq<ImgFileItem> := [];
      for k := 0 to |selectedItems|
        invariant items == selectedItems[..k]
      {
        items := items + [selectedItems[k]];
      }
      assert items == selectedItems;
      ghost var before := fileItems;
      WithoutNothingSelected(before, []);
      for k := 0 to |items|
        invariant fileItems == Without(before, items[..k])
      {
        RemoveOneMore(before, items[..k], items[k]);
        assert items[..k + 1] == items[..k] + [items[k]];
        fileItems := RemoveFirst(fileItems, items[k]);
      }
      assert items[..|items|] == items;
      WithoutKeepsDistinct(before, items);
    }

    /** The Delete key removes the selected entries. */
    method KeyDown(key: Key, selectedItems: seq<ImgFileItem>)
      requires Valid()
      modifies this`fileItems
      ensures Valid()
      ensures fileItems == if key == Delete then Without(old(fileItems), selectedItems) else old(fileItems)
    {
      if key == Delete {
        RemoveSelected(selectedItems);
      }
    }

    /**
     * The export button. The options are first read from the radio buttons
     * and the check box; an empty list then ends it. `saveAs` is the file
     * the save dialog returns (None when cancelled), `streamError` the
     * message of an IOException opening it, `documentError` that of a
     * failure creating the document.
     */
    method Convert(portraitChecked: bool, landscapeChecked: bool, rotateChecked: bool,
                   saveAs: Option<string>, streamError: Option<string>, documentError: Option<string>,
                   loadImage: ImageLoader, scaleToFit: Scaler)
      returns (outcome: ExportOutcome)
      requires Valid()
      modifies this
      ensures Valid() && fileItems == old(fileItems)
      ensures isPortrait == if landscapeChecked then false else if portraitChecked then true else old(isPortrait)
      ensures autoRotate == rotateChecked
      ensures fileItems == [] ==> outcome == NothingToExport && status == old(status)
      ensures fileItems != [] && saveAs == None ==> outcome == DialogCancelled && status == old(status)
      ensures fileItems != [] && saveAs.Some? && streamError.Some? ==>
        outcome == StreamFailed(streamError.value) && status == ErrorMessage(streamError.value)
      ensures fileItems != [] && saveAs.Some? && streamError == None && documentError.Some? ==>
        outcome == DocumentFailed(documentError.value) && status == ErrorMessage(documentError.value)
      ensures fileItems != [] && saveAs.Some? && streamError == None && documentError == None ==>
        outcome.ImageFailed? || outcome.Written?
      ensures outcome.ImageFailed? ==>
        && status == OutputStarted
        && PlacedInOrder(outcome.pagesAdded, Contents(), |outcome.pagesAdded|, isPortrait, autoRotate, loadImage, scaleToFit)
        && |outcome.pagesAdded| < |Contents()|
        && Contents()[|outcome.pagesAdded|].pathName == outcome.pathName
        && loadImage(outcome.pathName) == None
      ensures outcome.Written? ==>
        && saveAs == Some(outcome.fileName)
        && status == OutputDone(outcome.fileName)
        && outcome.pageSize == PageSizeFor(isPortrait)
        && PlacedInOrder(outcome.pages, Contents(), |Contents()|, isPortrait, autoRotate, loadImage, scaleToFit)
        && outcome.openActionPage == 1
    {
      if portraitChecked { isPortrait := true; }
      if landscapeChecked { isPortrait := false; }
      autoRotate := rotateChecked;
      if |fileItems| == 0 {
        return NothingToExport;
      }
      if saveAs == None {
        return DialogCancelled;
      }
      status := OutputStarted;
      if streamError.Some? {
        status := ErrorMessage(streamError.value);
        return StreamFailed(streamError.value);
      }
      var pageSize := PageSizeFor(isPortrait);
      if documentError.Some? {
        status := ErrorMessage(documentError.value);
        return DocumentFailed(documentError.value);
      }
      var pages, failedAt := ComposePages(Values(fileItems), isPortrait, autoRotate, loadImage, scaleToFit);
      if failedAt.Some? {
        return ImageFailed(failedAt.value, pages);
      }
      status := OutputDone(saveAs.value);
      outcome := Written(saveAs.value, pageSize, pages, 1);
    }
  }
}
