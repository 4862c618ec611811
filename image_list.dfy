/**
 * What the image list does to its entries: which dropped paths become
 * entries, in which order and with which orientation, and what removing
 * a selection leaves.
 */
module ImageList {
  import opened Wrappers
  import opened PathText
  import opened ImgFiles

  // ---------------------------------------------------------------------
  // Accepting dropped paths

  /** The lower-cased extensions the drop handler accepts. */
  predicate IsImageExtension(ext: string) {
    ext == ".jpg" || ext == ".jpeg" || ext == ".png"
  }

  /** The lower-cased extensions whose files are read for EXIF data. */
  predicate IsJpegExtension(ext: string) {
    ext == ".jpg" || ext == ".jpeg"
  }

  predicate IsImagePath(path: string) {
    IsImageExtension(LowerString(Extension(path)))
  }

  predicate IsJpegPath(path: string) {
    IsJpegExtension(LowerString(Extension(path)))
  }

  /** `path` ends with `ext` when both are lower-cased. */
  predicate EndsWithFolded(path: string, ext: string) {
    |ext| <= |path| && LowerString(path[|path| - |ext|..]) == ext
  }

  /** Lower-casing never makes or removes a dot or a separator. */
  lemma LowerKeepsDotsAndSeparators(s: string)
    ensures NoDotOrSeparator(s) <==> NoDotOrSeparator(LowerString(s))
  {
    if NoDotOrSeparator(LowerString(s)) {
      forall m | 0 <= m < |s| ensures s[m] != '.' && !IsSeparator(s[m]) {
        assert LowerString(s)[m] == Lower(s[m]);
      }
    }
  }

  /**
   * The extension test is the same as asking whether the path ends with
   * `ext` ignoring case, for any `ext` made of a dot and at least one
   * character that is neither a dot nor a separator.
   */
  lemma {:induction false} ExtensionIsFoldedSuffix(path: string, ext: string)
    requires 2 <= |ext| && ext[0] == '.' && NoDotOrSeparator(ext[1..])
    ensures LowerString(Extension(path)) == ext <==> EndsWithFolded(path, ext)
  {
    var n := |path|;
    var e := Extension(path);
    ExtensionSpec(path);
    if LowerString(e) == ext {
      assert e == path[n - |e|..];
    }
    if EndsWithFolded(path, ext) {
      var s := path[n - |ext|..];
      assert Lower(s[0]) == '.';
      assert s[0] == '.';
      assert LowerString(s[1..]) == ext[1..];
      LowerKeepsDotsAndSeparators(s[1..]);
      assert NoDotOrSeparator(s[1..]);
      assert path[n - |ext|..][1..] == path[n - |ext| + 1..];
      assert path[n - |ext|] == '.';
      assert e != [];
      assert e == s;
    }
  }

  /** A dropped path is accepted exactly when it ends in .jpg, .jpeg or .png, ignoring case. */
  lemma ImagePathIffSuffix(path: string)
    ensures IsImagePath(path) <==>
      EndsWithFolded(path, ".jpg") || EndsWithFolded(path, ".jpeg") || EndsWithFolded(path, ".png")
  {
    ExtensionIsFoldedSuffix(path, ".jpg");
    ExtensionIsFoldedSuffix(path, ".jpeg");
    ExtensionIsFoldedSuffix(path, ".png");
  }

  /** The accepted paths of a batch, in batch order. */
  function Accepted(paths: seq<string>): (r: seq<string>)
    ensures forall p :: p in r <==> p in paths && IsImagePath(p)
    ensures |r| <= |paths|
  {
    if paths == [] then []
    else
      var last := paths[|paths| - 1];
      assert paths == paths[..|paths| - 1] + [last];
      Accepted(paths[..|paths| - 1]) + (if IsImagePath(last) then [last] else [])
  }

  /** Filtering keeps the case-insensitive order of a sorted batch. */
  lemma {:induction false} AcceptedKeepsOrder(paths: seq<string>)
    requires SortedByKey(paths)
    ensures SortedByKey(Accepted(paths))
  {
    if paths != [] {
      var init := paths[..|paths| - 1];
      var last := paths[|paths| - 1];
      assert SortedByKey(init) by {
        forall i, j | 0 <= i < j < |init| ensures KeyLe(init[i], init[j]) {
          assert init[i] == paths[i] && init[j] == paths[j];
        }
      }
      AcceptedKeepsOrder(init);
      var front := Accepted(init);
      forall i | 0 <= i < |front| ensures KeyLe(front[i], last) {
        assert front[i] in init;
        var k :| 0 <= k < |init| && init[k] == front[i];
        assert paths[k] == front[i];
      }
    }
  }

  // ---------------------------------------------------------------------
  // The EXIF orientation of a JPEG

  /**
   * The orientation tag as the metadata directories expose it: the value
   * of the first directory that has one, or 0 when none has.
   */
  function FirstTag(dirs: seq<Option<int>>): (o: int)
    ensures (exists i :: 0 <= i < |dirs| && dirs[i] == Some(o) && forall j :: 0 <= j < i ==> dirs[j] == None)
         || (o == 0 && forall j :: 0 <= j < |dirs| ==> dirs[j] == None)
  {
    if dirs == [] then 0
    else if dirs[0].Some? then dirs[0].value
    else
      var o := FirstTag(dirs[1..]);
      assert forall j :: 0 < j < |dirs| ==> dirs[j] == dirs[1..][j - 1];
      o
  }

  /**
   * The loop over the metadata directories: the first `GetInt32` that
   * does not throw gives the orientation and ends the loop.
   */
  method ReadOrientation(dirs: seq<Option<int>>) returns (orientation: int)
    ensures orientation == FirstTag(dirs)
  {
    orientation := 0;
    var i := 0;
    while i < |dirs|
      invariant 0 <= i <= |dirs|
      invariant FirstTag(dirs[i..]) == FirstTag(dirs)
    {
      assert dirs[i..][1..] == dirs[i + 1..];
      match dirs[i] {
        case Some(value) =>
          orientation := value;
          return;
        case None =>
      }
      i := i + 1;
    }
    assert dirs[i..] == [];
  }

  // ---------------------------------------------------------------------
  // A dropped batch

  /** The entry made for an accepted path with the given orientation. */
  function EntryFor(path: string, orientation: int): ImgFile {
    ImgFile(FileName(path), path, orientation)
  }

  /** The metadata reader: the directories of a file, or None when reading throws. */
  type MetadataReader = string -> Option<seq<Option<int>>>

  /** The orientation an accepted path gets when its metadata can be read. */
  function OrientationOf(path: string, read: MetadataReader): int {
    if IsJpegPath(path) then
      match read(path)
      case Some(dirs) => FirstTag(dirs)
      case None => 0
    else 0
  }

  /** Reference definition: one entry per path, in order. */
  function Entries(paths: seq<string>, read: MetadataReader): seq<ImgFile> {
    seq(|paths|, i requires 0 <= i < |paths| => EntryFor(paths[i], OrientationOf(paths[i], read)))
  }

  /** The entries a batch appends, and the JPEG whose metadata could not be read, if any. */
  datatype DropOutcome = DropOutcome(added: seq<ImgFile>, failedAt: Option<string>)

  /**
   * The drop loop over an already sorted batch: each accepted path is
   * appended in turn; a metadata read that throws ends the loop there.
   */
  function DropBatch(paths: seq<string>, read: MetadataReader): DropOutcome {
    if paths == [] then DropOutcome([], None)
    else DropStep(DropBatch(paths[..|paths| - 1], read), paths[|paths| - 1], read)
  }

  /** One turn of the drop loop: what handling `path` does to the outcome so far. */
  function DropStep(prev: DropOutcome, path: string, read: MetadataReader): DropOutcome {
    if prev.failedAt.Some? then prev
    else DropOutcome(prev.added + StepEntries(path, read), if StepFails(path, read) then Some(path) else None)
  }

  /** The entry handling one path appends: none for a rejected path or an unreadable JPEG. */
  function StepEntries(path: string, read: MetadataReader): seq<ImgFile> {
    if !IsImagePath(path) then []
    else if !IsJpegPath(path) then [EntryFor(path, 0)]
    else
      match read(path)
      case None => []
      case Some(dirs) => [EntryFor(path, FirstTag(dirs))]
  }

  /** Handling one path throws: it is a JPEG whose metadata cannot be read. */
  predicate StepFails(path: string, read: MetadataReader) {
    IsJpegPath(path) && read(path).None?
  }

  /** All JPEGs of the batch have readable metadata. */
  ghost predicate MetadataReadable(paths: seq<string>, read: MetadataReader) {
    forall p :: p in paths && IsJpegPath(p) ==> read(p).Some?
  }

  /**
   * A batch fails exactly when one of its JPEGs cannot be read; otherwise
   * it appends exactly the accepted paths, in batch order, each with the
   * first directory's orientation for a JPEG and 0 for a PNG.
   */
  lemma {:induction false} DropBatchComplete(paths: seq<string>, read: MetadataReader)
    ensures DropBatch(paths, read).failedAt == None <==> MetadataReadable(paths, read)
    ensures DropBatch(paths, read).failedAt == None ==>
      DropBatch(paths, read).added == Entries(Accepted(paths), read)
  {
    if paths != [] {
      var init := paths[..|paths| - 1];
      var path := paths[|paths| - 1];
      assert paths == init + [path];
      DropBatchComplete(init, read);
      var prev := DropBatch(init, read);
      assert MetadataReadable(paths, read) <==>
        MetadataReadable(init, read) && (IsJpegPath(path) ==> read(path).Some?);
      if prev.failedAt == None && IsImagePath(path) {
        EntriesAppend(Accepted(init), path, read);
      }
    }
  }

  lemma EntriesAppend(paths: seq<string>, path: string, read: MetadataReader)
    ensures Entries(paths + [path], read) == Entries(paths, read) + [EntryFor(path, OrientationOf(path, read))]
  {
  }

  /**
   * When a metadata read throws, the batch stops at the first JPEG that
   * cannot be read; the accepted paths before it have been appended.
   */
  lemma {:induction false} DropBatchFailure(paths: seq<string>, read: MetadataReader) returns (k: nat)
    requires DropBatch(paths, read).failedAt.Some?
    ensures var failed := DropBatch(paths, read).failedAt.value;
      && k < |paths| && paths[k] == failed && IsJpegPath(failed) && read(failed) == None
      && MetadataReadable(paths[..k], read)
      && DropBatch(paths, read).added == Entries(Accepted(paths[..k]), read)
  {
    var init := paths[..|paths| - 1];
    var path := paths[|paths| - 1];
    var prev := DropBatch(init, read);
    var failed := DropBatch(paths, read).failedAt.value;
    if prev.failedAt.Some? {
      assert DropBatch(paths, read) == prev;
      k := DropBatchFailure(init, read);
      assert init[..k] == paths[..k];
      assert paths[k] == init[k];
    } else {
      k := |paths| - 1;
      assert failed == path && IsJpegPath(path) && read(path) == None;
      assert DropBatch(paths, read).added == prev.added;
      DropBatchComplete(init, read);
      assert paths[..k] == init;
    }
  }

  /** Once a batch has failed, the rest of it changes nothing. */
  lemma {:induction false} DropBatchStopsAtFailure(paths: seq<string>, k: nat, read: MetadataReader)
    requires k <= |paths| && DropBatch(paths[..k], read).failedAt.Some?
    ensures DropBatch(paths, read) == DropBatch(paths[..k], read)
    decreases |paths| - k
  {
    if k < |paths| {
      assert paths[..k + 1][..k] == paths[..k];
      DropBatchStopsAtFailure(paths, k + 1, read);
    } else {
      assert paths[..k] == paths;
    }
  }

  /** How often each path occurs among the accepted ones: as often as in the batch, or never. */
  lemma {:induction false} AcceptedCounts(paths: seq<string>)
    ensures forall p :: multiset(Accepted(paths))[p] == if IsImagePath(p) then multiset(paths)[p] else 0
  {
    if paths != [] {
      var init := paths[..|paths| - 1];
      var last := paths[|paths| - 1];
      assert paths == init + [last];
      AcceptedCounts(init);
    }
  }

  /** The paths of a list of entries, in order. */
  function PathNames(entries: seq<ImgFile>): seq<string> {
    seq(|entries|, i requires 0 <= i < |entries| => entries[i].pathName)
  }

  /**
   * Dropping a batch whose JPEGs can all be read adds one entry for each
   * accepted path of the batch, as often as it was dropped, and the new
   * entries are in case-insensitive order.
   */
  lemma DroppedBatch(files: seq<string>, read: MetadataReader)
    ensures var outcome := DropBatch(SortByKey(files), read);
      && (outcome.failedAt == None <==> MetadataReadable(files, read))
      && (outcome.failedAt == None ==>
            && multiset(PathNames(outcome.added)) == multiset(Accepted(files))
            && SortedByKey(PathNames(outcome.added)))
  {
    var sorted := SortByKey(files);
    DropBatchComplete(sorted, read);
    SortByKeySorted(files);
    AcceptedKeepsOrder(sorted);
    ReadableOfPermutation(sorted, files, read);
    AcceptedOfPermutation(sorted, files);
    if DropBatch(sorted, read).failedAt == None {
      assert PathNames(Entries(Accepted(sorted), read)) == Accepted(sorted);
    }
  }

  lemma ReadableOfPermutation(a: seq<string>, b: seq<string>, read: MetadataReader)
    requires multiset(a) == multiset(b)
    ensures MetadataReadable(a, read) <==> MetadataReadable(b, read)
  {
    forall p ensures p in a <==> p in b {
      assert p in a <==> p in multiset(a);
      assert p in b <==> p in multiset(b);
    }
  }

  lemma AcceptedOfPermutation(a: seq<string>, b: seq<string>)
    requires multiset(a) == multiset(b)
    ensures multiset(Accepted(a)) == multiset(Accepted(b))
  {
    AcceptedCounts(a);
    AcceptedCounts(b);
  }

  // ---------------------------------------------------------------------
  // Removing entries

  /** No entry occurs twice. */
  ghost predicate Distinct<T>(s: seq<T>) {
    forall i, j :: 0 <= i < j < |s| ==> s[i] != s[j]
  }

  /** The entries of `s` that are not selected, in their original order. */
  function Without<T(==)>(s: seq<T>, selected: seq<T>): seq<T> {
    if s == [] then []
    else (if s[0] in selected then [] else [s[0]]) + Without(s[1..], selected)
  }

  /** What is left is exactly the entries that were there and are not selected. */
  lemma {:induction false} WithoutMembers<T>(s: seq<T>, selected: seq<T>)
    ensures forall i :: 0 <= i < |Without(s, selected)| ==>
      Without(s, selected)[i] in s && Without(s, selected)[i] !in selected
    ensures forall i :: 0 <= i < |s| && s[i] !in selected ==> s[i] in Without(s, selected)
  {
    if s != [] {
      WithoutMembers(s[1..], selected);
      var rest := Without(s[1..], selected);
      assert forall i :: 0 <= i < |rest| ==> rest[i] in s[1..];
      assert forall x :: x in s[1..] ==> x in s;
      forall i | 0 <= i < |s| && s[i] !in selected ensures s[i] in Without(s, selected) {
        if i > 0 {
          assert s[i] == s[1..][i - 1];
        }
      }
    }
  }

  /** `Collection.Remove`: drop the first occurrence of `x`, if any. */
  function RemoveFirst<T(==)>(s: seq<T>, x: T): seq<T> {
    if s == [] then []
    else if s[0] == x then s[1..]
    else [s[0]] + RemoveFirst(s[1..], x)
  }

  /** On a list without repetitions, removing the first occurrence removes them all. */
  lemma {:induction false} RemoveFirstOfDistinct<T>(s: seq<T>, x: T)
    requires Distinct(s)
    ensures RemoveFirst(s, x) == Without(s, [x])
  {
    if s != [] {
      assert Distinct(s[1..]) by {
        forall i, j | 0 <= i < j < |s[1..]| ensures s[1..][i] != s[1..][j] {
          assert s[1..][i] == s[i + 1] && s[1..][j] == s[j + 1];
        }
      }
      RemoveFirstOfDistinct(s[1..], x);
      if s[0] == x {
        assert x !in s[1..];
        WithoutNothingSelected(s[1..], [x]);
      }
    }
  }

  /** Removing entries none of which is present leaves the list as it is. */
  lemma {:induction false} WithoutNothingSelected<T>(s: seq<T>, selected: seq<T>)
    requires forall x :: x in selected ==> x !in s
    ensures Without(s, selected) == s
  {
    if s != [] {
      WithoutNothingSelected(s[1..], selected);
    }
  }

  /** Removing one more entry after a selection is removing the larger selection. */
  lemma {:induction false} WithoutOneMore<T>(s: seq<T>, selected: seq<T>, x: T)
    ensures Without(Without(s, selected), [x]) == Without(s, selected + [x])
  {
    if s != [] {
      WithoutOneMore(s[1..], selected, x);
      var rest := Without(s[1..], selected);
      if s[0] in selected {
        assert s[0] in selected + [x];
        assert Without(s, selected) == [] + rest;
        assert Without(s, selected + [x]) == [] + Without(s[1..], selected + [x]);
        assert Without(s, selected) == rest;
        assert Without(Without(s, selected), [x]) == Without(rest, [x]);
        assert Without(rest, [x]) == Without(s[1..], selected + [x]);
      } else {
        var kept := [s[0]] + rest;
        assert Without(s, selected) == kept;
        assert kept[0] == s[0] && kept[1..] == rest;
        if s[0] == x {
          assert s[0] in selected + [x];
          assert Without(kept, [x]) == Without(rest, [x]);
        } else {
          assert s[0] !in selected + [x];
          assert Without(kept, [x]) == [s[0]] + Without(rest, [x]);
        }
      }
    }
  }

  /** One turn of the removal loop: removing the next selected entry extends the selection. */
  lemma RemoveOneMore<T>(s: seq<T>, selected: seq<T>, x: T)
    requires Distinct(s)
    ensures RemoveFirst(Without(s, selected), x) == Without(s, selected + [x])
  {
    WithoutKeepsDistinct(s, selected);
    RemoveFirstOfDistinct(Without(s, selected), x);
    WithoutOneMore(s, selected, x);
  }

  /** Removing entries keeps the list free of repetitions. */
  lemma {:induction false} WithoutKeepsDistinct<T>(s: seq<T>, selected: seq<T>)
    requires Distinct(s)
    ensures Distinct(Without(s, selected))
  {
    if s != [] {
      assert Distinct(s[1..]) by {
        forall i, j | 0 <= i < j < |s[1..]| ensures s[1..][i] != s[1..][j] {
          assert s[1..][i] == s[i + 1] && s[1..][j] == s[j + 1];
        }
      }
      WithoutKeepsDistinct(s[1..], selected);
      WithoutMembers(s[1..], selected);
      assert s[0] !in s[1..];
    }
  }
}
