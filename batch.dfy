/**
 * One pass of the main loop of build_ad.py for a descriptor listed in the index: the dated post
 * folder, the descriptor copy, the decision whether to compose and save the post image, then
 * the post video. The check `images_generated_before` and the files `save_img` writes disagree
 * by a '.': `Process`, `ProcessDescriptor` and the loop over the index run the check as written
 * (`Compositor.GeneratedBefore`), and `ProcessCorrected` is the pass with the '.' put back
 * (`SavedBefore`); the lemmas below set the two side by side.
 */
module Batch {
  import opened Wrappers
  import opened PyStr
  import opened Files
  import opened Descriptor
  import opened Geometry
  import opened TextShaper
  import opened Compositor

  /** `date_folder + post_folder.replace(".", "")`: the date prefix, then the folder without dots. */
  function DatedPostFolder(date: string, postFolder: string): (p: Path)
    ensures |date| <= |p| && p[..|date|] == date
    ensures '.' !in p[|date|..]
  {
    ReplaceCharRemoves(postFolder, '.', "");
    var p := date + Replace(postFolder, ".", "");
    assert p[|date|..] == Replace(postFolder, ".", "");
    p
  }

  /** A folder name without dots is kept as it is. */
  lemma DatedPostFolderPlain(date: string, postFolder: string)
    requires '.' !in postFolder
    ensures DatedPostFolder(date, postFolder) == date + postFolder
  {
    ContainsChar(postFolder, '.');
    ReplaceAbsent(postFolder, ".", "");
  }

  /** The name the main loop saves a post image under: `os.path.splitext(desc_file)[0]`. */
  function OutputName(descFile: Path): string {
    SplitExt(descFile).0
  }

  /** Every file `save_img` writes under `root` for the formats exists. */
  predicate AllSaved(fs: FileSystem, folder: Path, root: string, formats: seq<string>) {
    forall i :: 0 <= i < |formats| ==> SavedName(folder, root, formats[i]) in fs
  }

  /** The corrected check: every file `save_img` writes for the formats exists. */
  predicate SavedBefore(fs: FileSystem, descFile: Path, formats: seq<string>, folder: Path) {
    AllSaved(fs, folder, Stem(descFile), formats)
  }

  /** `images_generated_before` with the '.' that `save_img` puts before the extension. */
  method ImagesSavedBefore(fs: FileSystem, descFile: Path, formats: seq<string>, folder: Path)
    returns (r: bool)
    ensures r == SavedBefore(fs, descFile, formats, folder)
  {
    r := FormatsSaved(fs, folder, Stem(descFile), formats);
  }

  /** The loop of `ImagesSavedBefore`: stop at the first format whose file is missing. */
  method FormatsSaved(fs: FileSystem, folder: Path, root: string, formats: seq<string>) returns (r: bool)
    ensures r == AllSaved(fs, folder, root, formats)
  {
    r := true;
    var i := 0;
    while i < |formats| && r
      invariant 0 <= i <= |formats|
      invariant r <==> forall j :: 0 <= j < i ==> SavedName(folder, root, formats[j]) in fs
    {
      r := SavedName(folder, root, formats[i]) in fs;
      i := i + 1;
    }
  }

  /** What the save step of the main loop did: the file system after it and the files it wrote. */
  datatype SaveOutcome = SaveOutcome(fs: FileSystem, written: set<Path>)

  /**
   * The save step as the code is written: nothing is written when the dotless files are all there,
   * when the post does not compose or when the folder is missing; otherwise every format is saved.
   */
  function SaveStepAsWritten(fs: FileSystem, desc: Post, descFile: Path, folder: Path): (r: SaveOutcome)
    ensures r.fs == fs + r.written
    ensures r.written == {} || r.written == SavedFiles(folder, OutputName(descFile), desc.saveFormats)
    ensures GeneratedBefore(fs, descFile, desc.saveFormats, folder) || !Composes(fs, desc, folder) || folder !in fs
      ==> r.written == {}
    ensures !GeneratedBefore(fs, descFile, desc.saveFormats, folder) && Composes(fs, desc, folder) && folder in fs
      ==> r.written == SavedFiles(folder, OutputName(descFile), desc.saveFormats)
  {
    if GeneratedBefore(fs, descFile, desc.saveFormats, folder) || !Composes(fs, desc, folder) || folder !in fs
    then SaveOutcome(fs, {})
    else
      var files := SavedFiles(folder, OutputName(descFile), desc.saveFormats);
      SaveOutcome(fs + files, files)
  }

  /** The save step with the corrected check: a post whose saved files all exist is skipped. */
  function SaveStep(fs: FileSystem, desc: Post, descFile: Path, folder: Path): (r: SaveOutcome)
    ensures r.fs == fs + r.written
    ensures r.written == {} || r.written == SavedFiles(folder, OutputName(descFile), desc.saveFormats)
    ensures SavedBefore(fs, descFile, desc.saveFormats, folder) || !Composes(fs, desc, folder) || folder !in fs
      ==> r.written == {}
    ensures !SavedBefore(fs, descFile, desc.saveFormats, folder) && Composes(fs, desc, folder) && folder in fs
      ==> r.written == SavedFiles(folder, OutputName(descFile), desc.saveFormats)
  {
    if SavedBefore(fs, descFile, desc.saveFormats, folder) || !Composes(fs, desc, folder) || folder !in fs
    then SaveOutcome(fs, {})
    else
      var files := SavedFiles(folder, OutputName(descFile), desc.saveFormats);
      SaveOutcome(fs + files, files)
  }

  /** The index of a shortest string of a non-empty list. */
  function Shortest(xs: seq<string>): (m: nat)
    requires xs != []
    ensures m < |xs| && forall j :: 0 <= j < |xs| ==> |xs[m]| <= |xs[j]|
    decreases |xs|
  {
    if |xs| == 1 then 0
    else
      var m := Shortest(xs[1..]) + 1;
      if |xs[0]| <= |xs[m]| then 0 else m
  }

  /**
   * Saving under a plain descriptor name never produces the dotless file the check looks for
   * with the shortest format, so a check that failed before saving still fails after it.
   */
  lemma DotlessNeverSaved(fs: FileSystem, descFile: Path, formats: seq<string>, folder: Path)
    requires '/' !in descFile && formats != []
    requires forall i :: 0 <= i < |formats| ==> CheckedOutput(folder, descFile, formats[i]) !in fs
    ensures !GeneratedBefore(fs + SavedFiles(folder, OutputName(descFile), formats), descFile, formats, folder)
  {
    var root := OutputName(descFile);
    StemOfPlainName(descFile);
    var m := Shortest(formats);
    var c := CheckedOutput(folder, descFile, formats[m]);
    SavedFilesMembers(folder, root, formats, c);
    forall i | 0 <= i < |formats|
      ensures c != SavedName(folder, root, formats[i])
    {
      assert |c| < |SavedName(folder, root, formats[i])|;
    }
  }

  /**
   * As written, a freshly saved post is not recognised: when no dotless file was there before,
   * the check still fails after the images were saved, so the next run composes and writes the
   * same files again.
   */
  lemma RerunWritesAgain(fs: FileSystem, desc: Post, descFile: Path, folder: Path)
    requires '/' !in descFile
    requires forall i :: 0 <= i < |desc.saveFormats| ==> CheckedOutput(folder, descFile, desc.saveFormats[i]) !in fs
    ensures var first := SaveStepAsWritten(fs, desc, descFile, folder);
      first.written != {} ==>
        && !GeneratedBefore(first.fs, descFile, desc.saveFormats, folder)
        && SaveStepAsWritten(first.fs, desc, descFile, folder).written == first.written
  {
    var first := SaveStepAsWritten(fs, desc, descFile, folder);
    if first.written != {} {
      assert desc.saveFormats != [];
      DotlessNeverSaved(fs, descFile, desc.saveFormats, folder);
      ComposesGrows(fs, first.fs, desc, folder);
    }
  }

  /** With the corrected check a saved post is recognised, and the next run writes nothing. */
  lemma RerunWritesNothing(fs: FileSystem, desc: Post, descFile: Path, folder: Path)
    requires '/' !in descFile
    ensures var first := SaveStep(fs, desc, descFile, folder);
      && SavedBefore(first.fs, descFile, desc.saveFormats, folder)
           == (first.written != {} || SavedBefore(fs, descFile, desc.saveFormats, folder))
      && SaveStep(first.fs, desc, descFile, folder).fs == first.fs
      && (first.written != {} ==> SaveStep(first.fs, desc, descFile, folder).written == {})
  {
    var formats := desc.saveFormats;
    var first := SaveStep(fs, desc, descFile, folder);
    var root := OutputName(descFile);
    StemOfPlainName(descFile);
    if first.written != {} {
      forall i | 0 <= i < |formats|
        ensures SavedName(folder, Stem(descFile), formats[i]) in first.fs
      {
        SavedFilesMembers(folder, root, formats, SavedName(folder, root, formats[i]));
      }
    }
  }

  /** `create_post_video` at the end of a pass; the descriptor it could not load is the error. */
  function VideoPass(readDesc: Path -> Post, folder: Path, fs: FileSystem, desc: Post): (r: Result<FileSystem, Path>)
    ensures r.Err? ==> StartsWith(r.error, folder)
  {
    var run := PostVideo(readDesc, folder, fs, desc);
    if run.failure.Some? then Err(run.failure.value) else Ok(run.fs)
  }

  /**
   * What one pass of the main loop does for `desc_file` under `post_folder`, as written. Err names
   * the descriptor that did not load: the post's own when it is in neither place, otherwise a
   * frame descriptor of one of its videos, so always a file in the dated post folder.
   */
  function Process(fs: FileSystem, readDesc: Path -> Post, date: string, postFolder: string, descFile: Path)
    : (r: Result<FileSystem, Path>)
    ensures var folder := DatedPostFolder(date, postFolder);
      "descriptors/" + descFile !in fs && folder + descFile !in fs ==> r == Err(folder + descFile)
    ensures r.Err? ==> StartsWith(r.error, DatedPostFolder(date, postFolder))
  {
    var folder := DatedPostFolder(date, postFolder);
    var fs1 := CopyDescriptorFile(fs, descFile, folder);
    if folder + descFile !in fs1 then
      assert (folder + descFile)[..|folder|] == folder;
      Err(folder + descFile)
    else
      var desc := readDesc(folder + descFile);
      VideoPass(readDesc, folder, SaveStepAsWritten(fs1, desc, descFile, folder).fs, desc)
  }

  /** The same pass with the corrected check deciding whether to compose and save. */
  function ProcessCorrected(fs: FileSystem, readDesc: Path -> Post, date: string, postFolder: string, descFile: Path)
    : (r: Result<FileSystem, Path>)
    ensures var folder := DatedPostFolder(date, postFolder);
      "descriptors/" + descFile !in fs && folder + descFile !in fs ==> r == Err(folder + descFile)
    ensures r.Err? ==> StartsWith(r.error, DatedPostFolder(date, postFolder))
  {
    var folder := DatedPostFolder(date, postFolder);
    var fs1 := CopyDescriptorFile(fs, descFile, folder);
    if folder + descFile !in fs1 then
      assert (folder + descFile)[..|folder|] == folder;
      Err(folder + descFile)
    else
      var desc := readDesc(folder + descFile);
      VideoPass(readDesc, folder, SaveStep(fs1, desc, descFile, folder).fs, desc)
  }

  /** A pass that completes only adds files. */
  lemma ProcessGrows(fs: FileSystem, readDesc: Path -> Post, date: string, postFolder: string, descFile: Path)
    ensures Process(fs, readDesc, date, postFolder, descFile).Ok? ==> fs <= Process(fs, readDesc, date, postFolder, descFile).value
  {
    var folder := DatedPostFolder(date, postFolder);
    var fs1 := CopyDescriptorFile(fs, descFile, folder);
    if folder + descFile in fs1 {
      var desc := readDesc(folder + descFile);
      PostVideoFrames(readDesc, folder, SaveStepAsWritten(fs1, desc, descFile, folder).fs, desc);
    }
  }

  /** A corrected pass that completes only adds files too. */
  lemma ProcessCorrectedGrows(fs: FileSystem, readDesc: Path -> Post, date: string, postFolder: string, descFile: Path)
    ensures ProcessCorrected(fs, readDesc, date, postFolder, descFile).Ok? ==>
      fs <= ProcessCorrected(fs, readDesc, date, postFolder, descFile).value
  {
    var folder := DatedPostFolder(date, postFolder);
    var fs1 := CopyDescriptorFile(fs, descFile, folder);
    if folder + descFile in fs1 {
      var desc := readDesc(folder + descFile);
      PostVideoFrames(readDesc, folder, SaveStep(fs1, desc, descFile, folder).fs, desc);
    }
  }

  /** The body of the main loop of build_ad.py for one descriptor, with the check as written. */
  method ProcessDescriptor(shaper: Shaper, fs: FileSystem, imageSize: Path -> Size, readMeta: Path -> Metadata,
                           readDesc: Path -> Post, date: string, postFolder: string, descFile: Path)
    returns (r: Result<FileSystem, Path>)
    requires shaper.Valid()
    modifies shaper
    ensures shaper.Valid()
    ensures r == Process(fs, readDesc, date, postFolder, descFile)
  {
    var folder := date + Replace(postFolder, ".", "");
    var fs1 := CopyDescriptorFile(fs, descFile, folder);
    var descDict := LoadJson(fs1, readDesc, folder + descFile);
    if descDict.None? {
      return Err(folder + descFile);
    }
    var desc := descDict.value;
    var filename := SplitExt(descFile).0;
    var fs2 := fs1;
    var generated := ImagesGeneratedBefore(fs1, descFile, desc.saveFormats, folder);
    if !generated {
      var img := CreatePostImg(shaper, fs1, imageSize, readMeta, desc, folder);
      if img.Some? {
        var written;
        fs2, written := SaveImg(fs1, img, folder, filename, desc.saveFormats);
      }
    }
    assert fs2 == SaveStepAsWritten(fs1, desc, descFile, folder).fs;
    var run := CreatePostVideo(shaper, fs2, imageSize, readMeta, readDesc, desc, folder);
    if run.failure.Some? {
      return Err(run.failure.value);
    }
    return Ok(run.fs);
  }

  /**
   * The main loop of build_ad.py over the index, one entry per descriptor file in the order the
   * index lists them, paired with its post folder; the first error ends the loop, and it names a
   * file in the dated folder of one of the entries.
   */
  function ProcessAll(fs: FileSystem, readDesc: Path -> Post, date: string, entries: seq<(string, Path)>)
    : (r: Result<FileSystem, Path>)
    ensures r.Err? ==> exists i :: 0 <= i < |entries| && StartsWith(r.error, DatedPostFolder(date, entries[i].0))
    decreases |entries|
  {
    if entries == [] then Ok(fs)
    else
      match Process(fs, readDesc, date, entries[0].0, entries[0].1)
      case Err(e) => Err(e)
      case Ok(fs1) =>
        var r := ProcessAll(fs1, readDesc, date, entries[1..]);
        assert r.Err? ==> exists i :: 1 <= i < |entries| && StartsWith(r.error, DatedPostFolder(date, entries[i].0)) by {
          if r.Err? {
            var i :| 0 <= i < |entries[1..]| && StartsWith(r.error, DatedPostFolder(date, entries[1..][i].0));
            assert entries[1..][i] == entries[i + 1];
          }
        }
        r
  }

  /** A main loop that completes only adds files. */
  lemma {:induction false} ProcessAllGrows(fs: FileSystem, readDesc: Path -> Post, date: string,
                                           entries: seq<(string, Path)>)
    ensures ProcessAll(fs, readDesc, date, entries).Ok? ==> fs <= ProcessAll(fs, readDesc, date, entries).value
    decreases |entries|
  {
    if entries != [] {
      var step := Process(fs, readDesc, date, entries[0].0, entries[0].1);
      ProcessGrows(fs, readDesc, date, entries[0].0, entries[0].1);
      if step.Ok? {
        ProcessAllGrows(step.value, readDesc, date, entries[1..]);
      }
    }
  }

  /** The main loop of build_ad.py over the index entries. */
  method ProcessIndex(shaper: Shaper, fs: FileSystem, imageSize: Path -> Size, readMeta: Path -> Metadata,
                      readDesc: Path -> Post, date: string, entries: seq<(string, Path)>)
    returns (r: Result<FileSystem, Path>)
    requires shaper.Valid()
    modifies shaper
    ensures shaper.Valid()
    ensures r == ProcessAll(fs, readDesc, date, entries)
  {
    var cur := fs;
    for i := 0 to |entries|
      invariant shaper.Valid()
      invariant ProcessAll(cur, readDesc, date, entries[i..]) == ProcessAll(fs, readDesc, date, entries)
    {
      assert entries[i..][0] == entries[i] && entries[i..][1..] == entries[i + 1..];
      var step := ProcessDescriptor(shaper, cur, imageSize, readMeta, readDesc, date, entries[i].0, entries[i].1);
      if step.Err? {
        return Err(step.error);
      }
      cur := step.value;
    }
    assert entries[|entries|..] == [];
    return Ok(cur);
  }
}
