/**
 * The compositing and batch decisions of build_ad.py over an abstract file system: which
 * template files are opened, whether a post's images were generated before, which files
 * `save_img` writes, when `create_post_img` gives up, which captions it renders from which
 * metadata, and how `create_post_video` numbers its frames. Pixels are not modelled; a
 * composite records what was placed where. File contents are given as functions of the path.
 */
module Compositor {
  import opened Wrappers
  import opened PyStr
  import opened Descriptor
  import opened Geometry
  import opened TextShaper
  import opened Files

  /** `is_empty_line(line)`: the line is whitespace only. */
  function IsEmptyLine(line: string): (r: bool)
    ensures r <==> forall i :: 0 <= i < |line| ==> IsSpace(line[i])
  {
    StripEmptyIffAllSpace(line);
    |Strip(line)| == 0
  }

  /** `load_json(path)`: the parsed file when the path exists, None otherwise. */
  function LoadJson<T>(fs: FileSystem, read: Path -> T, path: Path): (r: Option<T>)
    ensures r.Some? <==> path in fs
    ensures r.Some? ==> r.value == read(path)
  {
    if path in fs then Some(read(path)) else None
  }

  // ---------------------------------------------------------------------------------------------
  // Templates

  /** The path `open_template` and `open_template_overlay` look up for a template name. */
  function TemplatePath(name: string): (p: Path)
    ensures Contains(p, "templates/")
    ensures Contains(name, "templates/") ==> p == name
  {
    if Contains(name, "templates/") then name
    else
      var p := "templates/" + name;
      assert p[..|"templates/"|] == "templates/";
      p
  }

  /** Prefixing the template folder twice is the same as once. */
  lemma TemplatePathIdempotent(name: string)
    ensures TemplatePath(TemplatePath(name)) == TemplatePath(name)
  {
  }

  /**
   * `open_template(name)`, and `open_template_overlay(name)`, which is the same code: the image is
   * opened exactly when the prefixed path exists, and it is a path in the template folder.
   */
  function OpenTemplate(fs: FileSystem, name: string): (r: Option<Path>)
    ensures r.Some? <==> TemplatePath(name) in fs
    ensures r.Some? ==> r.value == TemplatePath(name) && Contains(r.value, "templates/")
  {
    var p := TemplatePath(name);
    if p in fs then Some(p) else None
  }

  // ---------------------------------------------------------------------------------------------
  // Generated before, and saving

  /** The file `images_generated_before` looks for: folder, stem and extension with no '.' between. */
  function CheckedOutput(folder: Path, descFile: Path, ext: string): Path {
    folder + Stem(descFile) + ext
  }

  /** What `images_generated_before` reports. */
  predicate GeneratedBefore(fs: FileSystem, descFile: Path, formats: seq<string>, folder: Path) {
    forall i :: 0 <= i < |formats| ==> CheckedOutput(folder, descFile, formats[i]) in fs
  }

  /** `images_generated_before(desc_file, desc_dict, post_folder)` with `formats` its "save_formats". */
  method ImagesGeneratedBefore(fs: FileSystem, descFile: Path, formats: seq<string>, folder: Path)
    returns (r: bool)
    ensures r == GeneratedBefore(fs, descFile, formats, folder)
  {
    r := true;
    var i := 0;
    while i < |formats| && r
      invariant 0 <= i <= |formats|
      invariant r <==> forall j :: 0 <= j < i ==> CheckedOutput(folder, descFile, formats[j]) in fs
    {
      r := CheckedOutput(folder, descFile, formats[i]) in fs;
      i := i + 1;
    }
  }

  /** The file `save_img` writes for one format: folder, name, '.', extension. */
  function SavedName(folder: Path, fname: string, ext: string): Path {
    folder + fname + "." + ext
  }

  /** A picture of a composite: the template, what was pasted on it and the caption texts. */
  datatype Composite = Composite(
    template: Path,
    overlay: Path,
    pasted: seq<Pasted>,
    posts: set<string>,
    captionsRun: bool,
    captions: seq<Option<string>>)

  /** One source photo on the template: its crop, the top-left corner and the size it was resized to. */
  datatype Pasted = Pasted(source: Path, crop: Crop, x: int, y: int, size: Size)

  /** The files `save_img` writes: one per format. */
  function SavedFiles(folder: Path, fname: string, formats: seq<string>): set<Path>
    decreases |formats|
  {
    if formats == [] then {}
    else SavedFiles(folder, fname, formats[..|formats| - 1]) + {SavedName(folder, fname, formats[|formats| - 1])}
  }

  /** A file is among the saved ones exactly when it is the saved name for one of the formats. */
  lemma {:induction false} SavedFilesMembers(folder: Path, fname: string, formats: seq<string>, p: Path)
    ensures p in SavedFiles(folder, fname, formats) <==>
      exists i :: 0 <= i < |formats| && p == SavedName(folder, fname, formats[i])
    decreases |formats|
  {
    if formats != [] {
      var init := formats[..|formats| - 1];
      SavedFilesMembers(folder, fname, init, p);
      if exists i :: 0 <= i < |init| && p == SavedName(folder, fname, init[i]) {
        var i :| 0 <= i < |init| && p == SavedName(folder, fname, init[i]);
        assert formats[i] == init[i];
      }
      if exists i :: 0 <= i < |formats| && p == SavedName(folder, fname, formats[i]) {
        var i :| 0 <= i < |formats| && p == SavedName(folder, fname, formats[i]);
        if i < |init| {
          assert init[i] == formats[i];
        }
      }
    }
  }

  /** `save_img(img, post_folder, fname, formats)`: one file per format when the folder exists. */
  method SaveImg(fs: FileSystem, img: Option<Composite>, folder: Path, fname: string, formats: seq<string>)
    returns (fs': FileSystem, written: seq<Path>)
    ensures folder in fs && img.Some? ==>
      |written| == |formats| && forall i :: 0 <= i < |formats| ==> written[i] == SavedName(folder, fname, formats[i])
    ensures !(folder in fs && img.Some?) ==> written == []
    ensures fs' == if folder in fs && img.Some? then fs + SavedFiles(folder, fname, formats) else fs
  {
    fs', written := fs, [];
    if folder in fs {
      for i := 0 to |formats|
        invariant img.Some? ==> |written| == i
        invariant img.Some? ==> forall j :: 0 <= j < i ==> written[j] == SavedName(folder, fname, formats[j])
        invariant img.None? ==> written == [] && fs' == fs
        invariant img.Some? ==> fs' == fs + SavedFiles(folder, fname, formats[..i])
      {
        assert formats[..i + 1][..i] == formats[..i];
        if img.Some? {
          var p := folder + fname + "." + formats[i];
          written := written + [p];
          fs' := fs' + {p};
        }
      }
      assert formats[..|formats|] == formats;
    }
  }

  // ---------------------------------------------------------------------------------------------
  // create_post_img

  /**
   * `add_img_to_template` for one placement: open `folder + file`, centre-crop it, resize it to
   * the fit size and paste it at (x, y). `imageSize` gives the size of each source photo.
   */
  function PlaceImage(imageSize: Path -> Size, folder: Path, p: Placement): (r: Pasted)
    ensures r.source == folder + p.file && r.x == p.x && r.y == p.y && r.size == Size(p.fitWidth, p.fitHeight)
    ensures r.crop.Cropped? <==> p.cropWidth <= imageSize(r.source).width && p.cropHeight <= imageSize(r.source).height
    ensures r.crop.Cropped? ==>
      && r.crop.box.right - r.crop.box.left == p.cropWidth as real
      && r.crop.box.lower - r.crop.box.upper == p.cropHeight as real
  {
    var src := folder + p.file;
    Pasted(src, CropCenter(imageSize(src), p.cropWidth, p.cropHeight), p.x, p.y, Size(p.fitWidth, p.fitHeight))
  }

  /** The first loop of `create_post_img`: paste every image, giving up at the first missing file. */
  method PasteImages(fs: FileSystem, imageSize: Path -> Size, folder: Path, images: seq<Placement>)
    returns (pasted: Option<seq<Pasted>>)
    ensures pasted.None? <==> exists i :: 0 <= i < |images| && folder + images[i].file !in fs
    ensures pasted.Some? ==> |pasted.value| == |images|
    ensures pasted.Some? ==> forall i :: 0 <= i < |images| ==> pasted.value[i] == PlaceImage(imageSize, folder, images[i])
  {
    var done := [];
    for i := 0 to |images|
      invariant |done| == i
      invariant forall j :: 0 <= j < i ==> folder + images[j].file in fs
      invariant forall j :: 0 <= j < i ==> done[j] == PlaceImage(imageSize, folder, images[j])
    {
      if folder + images[i].file in fs {
        done := done + [PlaceImage(imageSize, folder, images[i])];
      } else {
        return None;
      }
    }
    return Some(done);
  }

  /** `path.split("/")[0]`: the folder a subfolder-qualified image path starts with. */
  function FirstSegment(path: Path): string {
    Split(path, '/')[0]
  }

  /** For a path with a '/', the first segment is what precedes its first '/'. */
  lemma FirstSegmentIsPrefix(path: Path)
    requires '/' in path
    ensures var f := FirstSegment(path);
      |f| < |path| && path[..|f|] == f && path[|f|] == '/' && '/' !in f
  {
    var parts := Split(path, '/');
    SplitJoin(path, '/');
    SplitManyIffSep(path, '/');
    assert path == parts[0] + ['/'] + Join(parts[1..], '/');
  }

  /** The second loop of `create_post_img`: the set `posts` of folders named by image paths. */
  method CollectPosts(images: seq<Placement>) returns (posts: set<string>)
    ensures forall p :: p in posts <==>
      exists i :: 0 <= i < |images| && '/' in images[i].file && p == FirstSegment(images[i].file)
  {
    posts := {};
    for i := 0 to |images|
      invariant forall p :: p in posts <==>
        exists j :: 0 <= j < i && '/' in images[j].file && p == FirstSegment(images[j].file)
    {
      var comps := Split(images[i].file, '/');
      SplitManyIffSep(images[i].file, '/');
      if |comps| > 1 {
        posts := posts + {comps[0]};
      }
    }
  }

  /** The sidecar a caption with "post_folder" reads: `(pf + "/").replace("//", "/")` then "data.json". */
  function AltMetadataPath(folder: Path, pf: string): Path {
    folder + Replace(pf + "/", "//", "/") + "data.json"
  }

  /** For a plain folder name the replacement does nothing. */
  lemma AltMetadataPathPlain(folder: Path, pf: string)
    requires '/' !in pf
    ensures AltMetadataPath(folder, pf) == folder + pf + "/data.json"
  {
    var s := pf + "/";
    ContainsIffOccurs(s, "//");
    forall i: nat ensures !OccursAt(s, "//", i) {
      if i + 2 <= |s| {
        assert s[i..i + 2][0] == s[i];
        assert s[i..i + 2][1] == s[i + 1];
        if i < |pf| {
          assert s[i] == pf[i];
        }
      }
    }
    ReplaceAbsent(s, "//", "/");
    assert folder + s + "data.json" == folder + pf + "/data.json";
  }

  /** The metadata a caption is rendered from: its own sidecar with "post_folder", else the post's. */
  function CaptionMetadata(fs: FileSystem, readMeta: Path -> Metadata, folder: Path,
                           loaded: Option<Metadata>, cap: Caption): Option<Metadata>
  {
    match cap.postFolder
    case Some(pf) => LoadJson(fs, readMeta, AltMetadataPath(folder, pf))
    case None => loaded
  }

  /** The text a caption is drawn with, or None where `render_text_to_img` returns for want of metadata. */
  function CaptionText(shaper: Shaper, fs: FileSystem, readMeta: Path -> Metadata, folder: Path,
                       loaded: Option<Metadata>, cap: Caption): Option<string>
  {
    match CaptionMetadata(fs, readMeta, folder, loaded, cap)
    case None => None
    case Some(m) => Some(shaper.PostText(m, cap))
  }

  /** The captions loop of `create_post_img`: `render_text_to_img` for each caption in order. */
  method RenderCaptions(shaper: Shaper, fs: FileSystem, readMeta: Path -> Metadata, folder: Path,
                        loaded: Option<Metadata>, captions: seq<Caption>)
    returns (texts: seq<Option<string>>)
    requires shaper.Valid()
    modifies shaper
    ensures shaper.Valid()
    ensures |texts| == |captions|
    ensures forall i :: 0 <= i < |captions| ==>
      texts[i] == CaptionText(shaper, fs, readMeta, folder, loaded, captions[i])
  {
    texts := [];
    for i := 0 to |captions|
      invariant shaper.Valid()
      invariant |texts| == i
      invariant forall j :: 0 <= j < i ==>
        texts[j] == CaptionText(shaper, fs, readMeta, folder, loaded, captions[j])
    {
      var cap := captions[i];
      var imgTexts := loaded;
      if cap.postFolder.Some? {
        var pf := cap.postFolder.value + "/";
        imgTexts := LoadJson(fs, readMeta, folder + Replace(pf, "//", "/") + "data.json");
      }
      if imgTexts.None? {
        texts := texts + [None];
      } else {
        var text := shaper.GetPostText(imgTexts.value, cap);
        texts := texts + [Some(text)];
      }
    }
  }

  /** Where `draw_text_to_img` puts a caption: font size, background rectangle, text position. */
  datatype TextLayout = TextLayout(fontSize: nat, background: Box, position: (real, real))

  /**
   * `draw_text_to_img` for a caption box at (x, y) of size `fit`; nothing is drawn when the font
   * file is missing. `measure(k)` is the rendered size of the caption text at font size k.
   */
  method DrawText(fs: FileSystem, fontFile: Path, measure: nat -> Size, x: int, y: int, fit: Size)
    returns (layout: Option<TextLayout>)
    requires fontFile in fs ==> exists k: nat :: k >= 8 && !FitsInside(measure(k), fit)
    ensures layout.None? <==> fontFile !in fs
    ensures layout.Some? ==>
      var l := layout.value;
      && l.fontSize >= 7
      && (forall k: nat :: 8 <= k <= l.fontSize ==> FitsInside(measure(k), fit))
      && !FitsInside(measure(l.fontSize + 1), fit)
      && l.background == Box(x as real, y as real, (x + fit.width) as real, (y + fit.height) as real)
      && l.position == CenteredPosition(measure(l.fontSize), fit, x, y)
  {
    if fontFile !in fs {
      return None;
    }
    var size := MaxFontSize(measure, fit);
    var background := Box(x as real, y as real, (x + fit.width) as real, (y + fit.height) as real);
    var position := CenteredPosition(measure(size), fit, x, y);
    return Some(TextLayout(size, background, position));
  }

  /** Template, overlay and every placed image exist: `create_post_img` will not return False. */
  predicate Composes(fs: FileSystem, desc: Post, folder: Path) {
    && TemplatePath(desc.template) in fs
    && TemplatePath(desc.overlay) in fs
    && forall i :: 0 <= i < |desc.images| ==> folder + desc.images[i].file in fs
  }

  /** `create_post_img(desc_dict, post_folder)`; None stands for its `False`. */
  method CreatePostImg(shaper: Shaper, fs: FileSystem, imageSize: Path -> Size,
                       readMeta: Path -> Metadata, desc: Post, folder: Path)
    returns (img: Option<Composite>)
    requires shaper.Valid()
    modifies shaper
    ensures shaper.Valid()
    ensures img.Some? <==> Composes(fs, desc, folder)
    ensures img.Some? ==>
      var c := img.value;
      && c.template == TemplatePath(desc.template)
      && c.overlay == TemplatePath(desc.overlay)
      && |c.pasted| == |desc.images|
      && (forall i :: 0 <= i < |desc.images| ==> c.pasted[i] == PlaceImage(imageSize, folder, desc.images[i]))
      && (forall p :: p in c.posts <==>
            exists i :: 0 <= i < |desc.images| && '/' in desc.images[i].file && p == FirstSegment(desc.images[i].file))
      && (c.captionsRun <==>
            folder + "data.json" in fs || exists i :: 0 <= i < |desc.images| && '/' in desc.images[i].file)
      && (!c.captionsRun ==> c.captions == [])
      && (c.captionsRun ==> |c.captions| == |desc.captions|)
      && (c.captionsRun ==> forall i :: 0 <= i < |desc.captions| ==>
            c.captions[i] == CaptionText(shaper, fs, readMeta, folder, LoadJson(fs, readMeta, folder + "data.json"), desc.captions[i]))
  {
    var template := OpenTemplate(fs, desc.template);
    var overlay := OpenTemplate(fs, desc.overlay);
    if template.None? || overlay.None? {
      return None;
    }
    var pasted := PasteImages(fs, imageSize, folder, desc.images);
    if pasted.None? {
      return None;
    }
    var posts := CollectPosts(desc.images);
    assert |posts| > 0 <==> exists i :: 0 <= i < |desc.images| && '/' in desc.images[i].file by {
      if exists i :: 0 <= i < |desc.images| && '/' in desc.images[i].file {
        var i :| 0 <= i < |desc.images| && '/' in desc.images[i].file;
        assert FirstSegment(desc.images[i].file) in posts;
      }
      if |posts| > 0 {
        var p :| p in posts;
      }
    }
    var imgTexts := LoadJson(fs, readMeta, folder + "data.json");
    var run := imgTexts.Some? || |posts| > 0;
    var captions: seq<Option<string>> := [];
    if run {
      captions := RenderCaptions(shaper, fs, readMeta, folder, imgTexts, desc.captions);
    }
    return Some(Composite(template.value, overlay.value, pasted.value, posts, run, captions));
  }

  // ---------------------------------------------------------------------------------------------
  // create_post_video

  /** One frame of a video: its video, its source, whether a cached image was reused, its file. */
  datatype Frame = Frame(video: string, source: Path, reused: bool, path: Path)

  /**
   * What the video loops carry: the file system, the frames numbered so far (the counter is
   * their number) and, once the run has stopped, the descriptor path that could not be loaded.
   */
  datatype VideoRun = VideoRun(fs: FileSystem, frames: seq<Frame>, failure: Option<Path>)

  /** Frame k of a video is `<folder><video>/<k>.jpg`. */
  function FramePath(folder: Path, video: string, k: nat): Path {
    folder + video + "/" + NatToString(k) + ".jpg"
  }

  /** The image `image_exists` looks for: the frame source's stem with ".jpg", directly in the post folder. */
  function CachedImage(folder: Path, source: Path): (p: Path)
    ensures |folder| + 4 <= |p| && p[..|folder|] == folder && p[|p| - 4..] == ".jpg"
    ensures '/' !in p[|folder|..]
  {
    StemNoSlash(source);
    JpgInFolder(folder, Stem(source));
    folder + Stem(source) + ".jpg"
  }

  /** A '/'-free name with ".jpg" appended to a folder names a file directly in that folder. */
  lemma JpgInFolder(folder: Path, name: string)
    requires '/' !in name
    ensures var p := folder + name + ".jpg";
      && |folder| + 4 <= |p| && p[..|folder|] == folder && p[|p| - 4..] == ".jpg"
      && '/' !in p[|folder|..]
  {
    var ext := ".jpg";
    assert '/' !in ext;
    var p := folder + name + ext;
    assert p[|folder|..] == name + ext;
    assert p[|p| - |ext|..] == ext;
  }

  /**
   * `copy_descriptor_file(desc, dest)`: make `dest` and copy the descriptor into it when
   * "descriptors/" holds it, and otherwise change nothing.
   */
  function CopyDescriptorFile(fs: FileSystem, desc: Path, dest: Path): (r: FileSystem)
    ensures fs <= r && r - fs <= {dest, dest + desc}
    ensures "descriptors/" + desc in fs ==> dest in r && dest + desc in r
    ensures "descriptors/" + desc !in fs ==> r == fs
  {
    if "descriptors/" + desc in fs then fs + {dest, dest + desc} else fs
  }

  /** Frame source `src` gets a frame: its cached image exists, or its descriptor exists and composes. */
  predicate FrameReady(readDesc: Path -> Post, folder: Path, fs: FileSystem, src: Path) {
    CachedImage(folder, src) in fs || (folder + src in fs && Composes(fs, readDesc(folder + src), folder))
  }

  lemma FrameReadyGrows(readDesc: Path -> Post, folder: Path, fs: FileSystem, fs': FileSystem, src: Path)
    requires fs <= fs' && FrameReady(readDesc, folder, fs, src)
    ensures FrameReady(readDesc, folder, fs', src)
  {
    if CachedImage(folder, src) !in fs {
      ComposesGrows(fs, fs', readDesc(folder + src), folder);
    }
  }

  /**
   * One pass of the inner loop of `create_post_video`, for frame source `src`: a stopped run stays
   * as it is, at most one frame is appended, and the run stops only on a frame descriptor that is
   * not there. `FrameStepOutcome` says which of these happens.
   */
  function FrameStep(readDesc: Path -> Post, folder: Path, video: string, run: VideoRun, src: Path): (r: VideoRun)
    ensures run.failure.Some? ==> r == run
    ensures run.fs <= r.fs
    ensures |run.frames| <= |r.frames| <= |run.frames| + 1 && r.frames[..|run.frames|] == run.frames
    ensures run.failure.None? && r.failure.Some? ==> r.failure.value == folder + src && r.failure.value !in r.fs
  {
    if run.failure.Some? then run
    else
      var fs := CopyDescriptorFile(run.fs, src, folder);
      var target := FramePath(folder, video, |run.frames|);
      if CachedImage(folder, src) in fs then
        VideoRun(fs + {target}, run.frames + [Frame(video, src, true, target)], None)
      else if folder + src !in fs then
        VideoRun(fs, run.frames, Some(folder + src))
      else if !Composes(fs, readDesc(folder + src), folder) then
        VideoRun(fs, run.frames, None)
      else if folder + video + "/" in fs then
        VideoRun(fs + {target}, run.frames + [Frame(video, src, false, target)], None)
      else
        VideoRun(fs, run.frames + [Frame(video, src, false, target)], None)
  }

  /**
   * After its descriptor is copied, a source gets the next frame number exactly when it is ready,
   * reusing the cached image exactly when there is one; the run stops exactly when neither the
   * cached image nor the descriptor exists (the `TypeError` of `create_post_img(None, ...)`).
   */
  lemma FrameStepOutcome(readDesc: Path -> Post, folder: Path, video: string, run: VideoRun, src: Path)
    requires run.failure.None?
    ensures var r := FrameStep(readDesc, folder, video, run, src);
      var fs1 := CopyDescriptorFile(run.fs, src, folder);
      && (|r.frames| == |run.frames| + 1 <==> FrameReady(readDesc, folder, fs1, src))
      && (r.failure.Some? <==> CachedImage(folder, src) !in fs1 && folder + src !in fs1)
      && (|r.frames| == |run.frames| + 1 ==>
            r.frames[|run.frames|] == Frame(video, src, CachedImage(folder, src) in fs1, FramePath(folder, video, |run.frames|)))
  {
  }

  /** The inner loop over the frame sources of one video: frames are only appended, at most one per source. */
  function RunFrames(readDesc: Path -> Post, folder: Path, video: string, run: VideoRun, srcs: seq<Path>): (r: VideoRun)
    ensures run.fs <= r.fs
    ensures |run.frames| <= |r.frames| <= |run.frames| + |srcs| && r.frames[..|run.frames|] == run.frames
    decreases |srcs|
  {
    if srcs == [] then run
    else
      var step := FrameStep(readDesc, folder, video, run, srcs[0]);
      var r := RunFrames(readDesc, folder, video, step, srcs[1..]);
      assert r.frames[..|run.frames|] == r.frames[..|step.frames|][..|run.frames|];
      r
  }

  /**
   * One pass of the outer loop: create the video's folder if absent, then run its frames; a
   * stopped run stays as it is, and the frames are only appended, at most one per source.
   */
  function VideoStep(readDesc: Path -> Post, folder: Path, run: VideoRun, v: Video): (r: VideoRun)
    ensures run.failure.Some? ==> r == run
    ensures run.fs <= r.fs
    ensures |run.frames| <= |r.frames| <= |run.frames| + |v.images| && r.frames[..|run.frames|] == run.frames
  {
    if run.failure.Some? then run
    else RunFrames(readDesc, folder, v.name, VideoRun(run.fs + {folder + v.name + "/"}, run.frames, None), v.images)
  }

  /** The outer loop over the videos; the frame counter is not reset between videos, and frames are only appended. */
  function RunVideos(readDesc: Path -> Post, folder: Path, run: VideoRun, videos: seq<Video>): (r: VideoRun)
    ensures run.fs <= r.fs
    ensures |run.frames| <= |r.frames| && r.frames[..|run.frames|] == run.frames
    decreases |videos|
  {
    if videos == [] then run
    else
      var step := VideoStep(readDesc, folder, run, videos[0]);
      var r := RunVideos(readDesc, folder, step, videos[1..]);
      assert r.frames[..|run.frames|] == r.frames[..|step.frames|][..|run.frames|];
      r
  }

  /**
   * What `create_post_video(desc_dict, post_folder)` does to the file system and the frames it
   * numbers: nothing without "videos", and a run stops only on a frame descriptor of one of its
   * videos that is not in the post folder.
   */
  function PostVideo(readDesc: Path -> Post, folder: Path, fs: FileSystem, desc: Post): (r: VideoRun)
    ensures desc.videos.None? ==> r == VideoRun(fs, [], None)
    ensures r.failure.Some? ==>
      && desc.videos.Some? && r.failure.value !in r.fs
      && exists v, i :: 0 <= v < |desc.videos.value| && 0 <= i < |desc.videos.value[v].images|
           && r.failure.value == folder + desc.videos.value[v].images[i]
  {
    match desc.videos
    case None => VideoRun(fs, [], None)
    case Some(videos) =>
      RunVideosFailure(readDesc, folder, VideoRun(fs, [], None), videos);
      RunVideos(readDesc, folder, VideoRun(fs, [], None), videos)
  }

  /** A run that has stopped stays as it is through the remaining frame sources. */
  lemma {:induction false} RunFramesStopped(readDesc: Path -> Post, folder: Path, video: string,
                                            run: VideoRun, srcs: seq<Path>)
    requires run.failure.Some?
    ensures RunFrames(readDesc, folder, video, run, srcs) == run
    decreases |srcs|
  {
    if srcs != [] {
      RunFramesStopped(readDesc, folder, video, run, srcs[1..]);
    }
  }

  /** A run that has stopped stays as it is through the remaining videos. */
  lemma {:induction false} RunVideosStopped(readDesc: Path -> Post, folder: Path, run: VideoRun, videos: seq<Video>)
    requires run.failure.Some?
    ensures RunVideos(readDesc, folder, run, videos) == run
    decreases |videos|
  {
    if videos != [] {
      RunVideosStopped(readDesc, folder, run, videos[1..]);
    }
  }

  /** The frame loop stops only on a frame descriptor of its sources that is not in the post folder. */
  lemma {:induction false} RunFramesFailure(readDesc: Path -> Post, folder: Path, video: string,
                                            run: VideoRun, srcs: seq<Path>)
    requires run.failure.None?
    ensures var r := RunFrames(readDesc, folder, video, run, srcs);
      r.failure.Some? ==> r.failure.value !in r.fs && exists i :: 0 <= i < |srcs| && r.failure.value == folder + srcs[i]
    decreases |srcs|
  {
    if srcs != [] {
      var step := FrameStep(readDesc, folder, video, run, srcs[0]);
      if step.failure.Some? {
        RunFramesStopped(readDesc, folder, video, step, srcs[1..]);
      } else {
        RunFramesFailure(readDesc, folder, video, step, srcs[1..]);
        var r := RunFrames(readDesc, folder, video, step, srcs[1..]);
        if r.failure.Some? {
          var i :| 0 <= i < |srcs[1..]| && r.failure.value == folder + srcs[1..][i];
          assert srcs[1..][i] == srcs[i + 1];
        }
      }
    }
  }

  /** The video loop stops only on a frame descriptor of one of its videos that is not in the post folder. */
  lemma {:induction false} RunVideosFailure(readDesc: Path -> Post, folder: Path, run: VideoRun, videos: seq<Video>)
    requires run.failure.None?
    ensures var r := RunVideos(readDesc, folder, run, videos);
      r.failure.Some? ==>
        && r.failure.value !in r.fs
        && exists v, i :: 0 <= v < |videos| && 0 <= i < |videos[v].images| && r.failure.value == folder + videos[v].images[i]
    decreases |videos|
  {
    if videos != [] {
      var v0 := videos[0];
      var step := VideoStep(readDesc, folder, run, v0);
      RunFramesFailure(readDesc, folder, v0.name, VideoRun(run.fs + {folder + v0.name + "/"}, run.frames, None), v0.images);
      if step.failure.Some? {
        RunVideosStopped(readDesc, folder, step, videos[1..]);
        var i :| 0 <= i < |v0.images| && step.failure.value == folder + v0.images[i];
        assert videos[0].images[i] == v0.images[i];
      } else {
        RunVideosFailure(readDesc, folder, step, videos[1..]);
        var r := RunVideos(readDesc, folder, step, videos[1..]);
        if r.failure.Some? {
          var v, i :| 0 <= v < |videos[1..]| && 0 <= i < |videos[1..][v].images|
            && r.failure.value == folder + videos[1..][v].images[i];
          assert videos[1..][v] == videos[v + 1];
        }
      }
    }
  }

  /** The frame sources from position j on: one step, then the sources after it. */
  lemma RunFramesFrom(readDesc: Path -> Post, folder: Path, video: string, run: VideoRun, srcs: seq<Path>, j: nat)
    requires j < |srcs|
    ensures RunFrames(readDesc, folder, video, run, srcs[j..])
         == RunFrames(readDesc, folder, video, FrameStep(readDesc, folder, video, run, srcs[j]), srcs[j + 1..])
  {
    assert srcs[j..][1..] == srcs[j + 1..];
  }

  /** The videos from position v on: one step, then the videos after it. */
  lemma RunVideosFrom(readDesc: Path -> Post, folder: Path, run: VideoRun, videos: seq<Video>, v: nat)
    requires v < |videos|
    ensures RunVideos(readDesc, folder, run, videos[v..])
         == RunVideos(readDesc, folder, VideoStep(readDesc, folder, run, videos[v]), videos[v + 1..])
  {
    assert videos[v..][1..] == videos[v + 1..];
  }

  /** The inner loop as `create_post_video` writes it, starting with `counter == |start.frames|`. */
  method VideoFrames(shaper: Shaper, imageSize: Path -> Size, readMeta: Path -> Metadata,
                     readDesc: Path -> Post, folder: Path, video: Video, start: VideoRun, counter0: nat)
    returns (run: VideoRun, counter: nat)
    requires shaper.Valid()
    requires start.failure.None? && counter0 == |start.frames|
    modifies shaper
    ensures shaper.Valid()
    ensures run == RunFrames(readDesc, folder, video.name, start, video.images)
    ensures counter == |run.frames|
  {
    run, counter := start, counter0;
    assert video.images[0..] == video.images;
    for j := 0 to |video.images|
      invariant shaper.Valid()
      invariant RunFrames(readDesc, folder, video.name, run, video.images[j..])
             == RunFrames(readDesc, folder, video.name, start, video.images)
      invariant run.failure.None?
      invariant counter == |run.frames|
    {
      RunFramesFrom(readDesc, folder, video.name, run, video.images, j);
      ghost var before := run;
      var src := video.images[j];
      var fs := CopyDescriptorFile(run.fs, src, folder);
      var fname := NatToString(counter);
      var dir := folder + video.name + "/";
      var target := folder + video.name + "/" + fname + ".jpg";
      assert target == FramePath(folder, video.name, |before.frames|);
      if CachedImage(folder, src) in fs {
        run := VideoRun(fs + {target}, run.frames + [Frame(video.name, src, true, target)], None);
        assert run == FrameStep(readDesc, folder, video.name, before, src);
      } else {
        var imgDict := LoadJson(fs, readDesc, folder + src);
        if imgDict.None? {
          run := VideoRun(fs, run.frames, Some(folder + src));
          assert run == FrameStep(readDesc, folder, video.name, before, src);
          RunFramesStopped(readDesc, folder, video.name, run, video.images[j + 1..]);
          return;
        }
        var img := CreatePostImg(shaper, fs, imageSize, readMeta, imgDict.value, folder);
        if img.None? {
          run := VideoRun(fs, run.frames, None);
          assert run == FrameStep(readDesc, folder, video.name, before, src);
          continue;
        }
        var fs', written := SaveImg(fs, img, dir, fname, ["jpg"]);
        SavedFrameName(folder, video.name, counter);
        run := VideoRun(fs', run.frames + [Frame(video.name, src, false, target)], None);
        assert run == FrameStep(readDesc, folder, video.name, before, src);
      }
      counter := counter + 1;
    }
  }

  /** `save_img` of frame k in jpg format writes the file named `FramePath`, and only that. */
  lemma SavedFrameName(folder: Path, video: string, k: nat)
    ensures SavedFiles(folder + video + "/", NatToString(k), ["jpg"]) == {FramePath(folder, video, k)}
  {
    assert "." + "jpg" == ".jpg";
    assert SavedName(folder + video + "/", NatToString(k), "jpg") == FramePath(folder, video, k);
  }

  /** `create_post_video(desc_dict, post_folder)`, without the final encoder call of each video. */
  method CreatePostVideo(shaper: Shaper, fs: FileSystem, imageSize: Path -> Size,
                         readMeta: Path -> Metadata, readDesc: Path -> Post, desc: Post, folder: Path)
    returns (run: VideoRun)
    requires shaper.Valid()
    modifies shaper
    ensures shaper.Valid()
    ensures run == PostVideo(readDesc, folder, fs, desc)
  {
    run := VideoRun(fs, [], None);
    if desc.videos.None? {
      return;
    }
    var videos := desc.videos.value;
    var counter: nat := 0;
    ghost var start := run;
    assert videos[0..] == videos;
    for v := 0 to |videos|
      invariant shaper.Valid()
      invariant RunVideos(readDesc, folder, run, videos[v..]) == RunVideos(readDesc, folder, start, videos)
      invariant run.failure.None?
      invariant counter == |run.frames|
    {
      RunVideosFrom(readDesc, folder, run, videos, v);
      var video := videos[v];
      var dir := folder + video.name + "/";
      var current := run.fs;
      if dir !in current {
        current := current + {dir};
      }
      assert current == run.fs + {dir};
      ghost var before := run;
      run, counter := VideoFrames(shaper, imageSize, readMeta, readDesc, folder, video,
                                  VideoRun(current, run.frames, None), counter);
      assert run == VideoStep(readDesc, folder, before, video);
      if run.failure.Some? {
        RunVideosStopped(readDesc, folder, run, videos[v + 1..]);
        return;
      }
    }
  }

  // ---------------------------------------------------------------------------------------------
  // Properties of the video run

  /** Frame k carries the number k: one counter, starting at 0, across all videos. */
  ghost predicate Numbered(folder: Path, frames: seq<Frame>) {
    forall k :: 0 <= k < |frames| ==> frames[k].path == FramePath(folder, frames[k].video, k)
  }

  /** Every numbered frame file exists. */
  ghost predicate OnDisk(run: VideoRun) {
    forall k :: 0 <= k < |run.frames| ==> run.frames[k].path in run.fs
  }

  /** Each frame was either copied from a cached image or composed from a descriptor that composes. */
  ghost predicate Earned(readDesc: Path -> Post, folder: Path, run: VideoRun) {
    forall k :: 0 <= k < |run.frames| ==>
      var f := run.frames[k];
      if f.reused then CachedImage(folder, f.source) in run.fs
      else folder + f.source in run.fs && Composes(run.fs, readDesc(folder + f.source), folder)
  }

  ghost predicate Good(readDesc: Path -> Post, folder: Path, run: VideoRun) {
    Numbered(folder, run.frames) && OnDisk(run) && Earned(readDesc, folder, run)
  }

  lemma ComposesGrows(fs: FileSystem, fs': FileSystem, desc: Post, folder: Path)
    requires fs <= fs' && Composes(fs, desc, folder)
    ensures Composes(fs', desc, folder)
  {
  }

  lemma FrameStepGood(readDesc: Path -> Post, folder: Path, video: string, run: VideoRun, src: Path)
    requires Good(readDesc, folder, run)
    requires folder + video + "/" in run.fs
    ensures var next := FrameStep(readDesc, folder, video, run, src);
      && Good(readDesc, folder, next) && run.fs <= next.fs && folder + video + "/" in next.fs
  {
    if run.failure.None? {
      var fs := CopyDescriptorFile(run.fs, src, folder);
      var k := |run.frames|;
      var target := FramePath(folder, video, k);
      var next := FrameStep(readDesc, folder, video, run, src);
      assert run.fs <= fs;
      if CachedImage(folder, src) in fs {
        GoodAppend(readDesc, folder, run, fs + {target}, Frame(video, src, true, target));
      } else if folder + src !in fs {
        GoodGrows(readDesc, folder, run, fs);
      } else if !Composes(fs, readDesc(folder + src), folder) {
        GoodGrows(readDesc, folder, run, fs);
      } else if folder + video + "/" in fs {
        ComposesGrows(fs, fs + {target}, readDesc(folder + src), folder);
        GoodAppend(readDesc, folder, run, fs + {target}, Frame(video, src, false, target));
      } else {
        assert false;
      }
    }
  }

  /** Growing the file system keeps a run good. */
  lemma GoodGrows(readDesc: Path -> Post, folder: Path, run: VideoRun, fs: FileSystem)
    requires Good(readDesc, folder, run) && run.fs <= fs
    ensures Good(readDesc, folder, VideoRun(fs, run.frames, run.failure))
  {
    forall k | 0 <= k < |run.frames| && !run.frames[k].reused
      ensures Composes(fs, readDesc(folder + run.frames[k].source), folder)
    {
      ComposesGrows(run.fs, fs, readDesc(folder + run.frames[k].source), folder);
    }
  }

  /** Appending the next numbered frame, present in a larger file system, keeps a run good. */
  lemma GoodAppend(readDesc: Path -> Post, folder: Path, run: VideoRun, fs: FileSystem, f: Frame)
    requires Good(readDesc, folder, run) && run.fs <= fs
    requires f.path == FramePath(folder, f.video, |run.frames|) && f.path in fs
    requires f.reused ==> CachedImage(folder, f.source) in fs
    requires !f.reused ==> folder + f.source in fs && Composes(fs, readDesc(folder + f.source), folder)
    ensures Good(readDesc, folder, VideoRun(fs, run.frames + [f], None))
  {
    GoodGrows(readDesc, folder, run, fs);
    var grown := VideoRun(fs, run.frames, run.failure);
    var next := VideoRun(fs, run.frames + [f], None);
    forall k | 0 <= k < |next.frames|
      ensures next.frames[k].path == FramePath(folder, next.frames[k].video, k)
      ensures next.frames[k].path in next.fs
    {
      if k < |run.frames| {
        assert next.frames[k] == run.frames[k];
      }
    }
    forall k | 0 <= k < |next.frames|
      ensures var g := next.frames[k];
        if g.reused then CachedImage(folder, g.source) in next.fs
        else folder + g.source in next.fs && Composes(next.fs, readDesc(folder + g.source), folder)
    {
      if k < |run.frames| {
        assert next.frames[k] == grown.frames[k];
      }
    }
  }

  lemma {:induction false} RunFramesGood(readDesc: Path -> Post, folder: Path, video: string,
                                         run: VideoRun, srcs: seq<Path>)
    requires Good(readDesc, folder, run)
    requires folder + video + "/" in run.fs
    ensures var next := RunFrames(readDesc, folder, video, run, srcs);
      && Good(readDesc, folder, next) && run.fs <= next.fs && folder + video + "/" in next.fs
    decreases |srcs|
  {
    if srcs != [] {
      FrameStepGood(readDesc, folder, video, run, srcs[0]);
      RunFramesGood(readDesc, folder, video, FrameStep(readDesc, folder, video, run, srcs[0]), srcs[1..]);
    }
  }

  lemma VideoStepGood(readDesc: Path -> Post, folder: Path, run: VideoRun, v: Video)
    requires Good(readDesc, folder, run)
    ensures var next := VideoStep(readDesc, folder, run, v);
      Good(readDesc, folder, next) && run.fs <= next.fs
  {
    if run.failure.None? {
      var made := VideoRun(run.fs + {folder + v.name + "/"}, run.frames, None);
      GoodGrows(readDesc, folder, run, made.fs);
      RunFramesGood(readDesc, folder, v.name, made, v.images);
    }
  }

  lemma {:induction false} RunVideosGood(readDesc: Path -> Post, folder: Path, run: VideoRun, videos: seq<Video>)
    requires Good(readDesc, folder, run)
    ensures var next := RunVideos(readDesc, folder, run, videos);
      Good(readDesc, folder, next) && run.fs <= next.fs
    decreases |videos|
  {
    if videos != [] {
      VideoStepGood(readDesc, folder, run, videos[0]);
      RunVideosGood(readDesc, folder, VideoStep(readDesc, folder, run, videos[0]), videos[1..]);
    }
  }

  /**
   * The frames `create_post_video` writes are numbered 0, 1, 2, ... in processing order across all
   * of its videos, each numbered file exists afterwards, each frame was either a cached image or a
   * descriptor that composes, and nothing already on disk disappears.
   */
  lemma PostVideoFrames(readDesc: Path -> Post, folder: Path, fs: FileSystem, desc: Post)
    ensures var run := PostVideo(readDesc, folder, fs, desc);
      && fs <= run.fs
      && (forall k :: 0 <= k < |run.frames| ==> run.frames[k].path == FramePath(folder, run.frames[k].video, k))
      && (forall k :: 0 <= k < |run.frames| ==> run.frames[k].path in run.fs)
      && Earned(readDesc, folder, run)
  {
    if desc.videos.Some? {
      RunVideosGood(readDesc, folder, VideoRun(fs, [], None), desc.videos.value);
    }
  }

  /** The frame sources of one video, each with the name of the video. */
  function Tagged(video: string, srcs: seq<Path>): seq<(string, Path)> {
    seq(|srcs|, i requires 0 <= i < |srcs| => (video, srcs[i]))
  }

  /** The frame sources of the videos in processing order, each with the name of its video. */
  function VideoSources(videos: seq<Video>): seq<(string, Path)>
    decreases |videos|
  {
    if videos == [] then [] else Tagged(videos[0].name, videos[0].images) + VideoSources(videos[1..])
  }

  /** The video and the source of each frame, in order. */
  function FrameSources(frames: seq<Frame>): seq<(string, Path)> {
    seq(|frames|, k requires 0 <= k < |frames| => (frames[k].video, frames[k].source))
  }

  /** A ready source gets the next frame and the run goes on. */
  lemma FrameStepReady(readDesc: Path -> Post, folder: Path, video: string, run: VideoRun, src: Path)
    requires run.failure.None? && FrameReady(readDesc, folder, run.fs, src)
    ensures var r := FrameStep(readDesc, folder, video, run, src);
      r.failure.None? && FrameSources(r.frames) == FrameSources(run.frames) + [(video, src)]
  {
    FrameReadyGrows(readDesc, folder, run.fs, CopyDescriptorFile(run.fs, src, folder), src);
    FrameStepOutcome(readDesc, folder, video, run, src);
    var r := FrameStep(readDesc, folder, video, run, src);
    assert r.frames == run.frames + [r.frames[|run.frames|]] by {
      assert r.frames[..|run.frames|] == run.frames;
    }
    FrameSourcesAppend(run.frames, [r.frames[|run.frames|]]);
  }

  lemma FrameSourcesAppend(a: seq<Frame>, b: seq<Frame>)
    ensures FrameSources(a + b) == FrameSources(a) + FrameSources(b)
  {
  }

  /** Sources that are all ready get one frame each, in order, and the run does not stop. */
  lemma {:induction false} RunFramesProduces(readDesc: Path -> Post, folder: Path, video: string,
                                             run: VideoRun, srcs: seq<Path>)
    requires run.failure.None?
    requires forall i :: 0 <= i < |srcs| ==> FrameReady(readDesc, folder, run.fs, srcs[i])
    ensures var r := RunFrames(readDesc, folder, video, run, srcs);
      r.failure.None? && FrameSources(r.frames) == FrameSources(run.frames) + Tagged(video, srcs)
    decreases |srcs|
  {
    if srcs == [] {
      assert Tagged(video, srcs) == [];
    } else {
      var step := FrameStep(readDesc, folder, video, run, srcs[0]);
      FrameStepReady(readDesc, folder, video, run, srcs[0]);
      ReadyTail(readDesc, folder, run.fs, step.fs, srcs);
      RunFramesProduces(readDesc, folder, video, step, srcs[1..]);
      TaggedCons(video, srcs);
      var r := RunFrames(readDesc, folder, video, step, srcs[1..]);
      assert RunFrames(readDesc, folder, video, run, srcs) == r;
      AppendStep(FrameSources(r.frames), FrameSources(step.frames), FrameSources(run.frames),
                 [(video, srcs[0])], Tagged(video, srcs[1..]), Tagged(video, srcs));
    }
  }

  /** `whole` is `mid` then `rest`, and `mid` is `start` then `first`: so `whole` is `start` then `first` and `rest`. */
  lemma AppendStep<T>(whole: seq<T>, mid: seq<T>, start: seq<T>, first: seq<T>, rest: seq<T>, all: seq<T>)
    requires whole == mid + rest && mid == start + first && all == first + rest
    ensures whole == start + all
  {
  }

  /** The sources after the first stay ready in a larger file system. */
  lemma ReadyTail(readDesc: Path -> Post, folder: Path, fs: FileSystem, fs': FileSystem, srcs: seq<Path>)
    requires srcs != [] && fs <= fs'
    requires forall i :: 0 <= i < |srcs| ==> FrameReady(readDesc, folder, fs, srcs[i])
    ensures forall i :: 0 <= i < |srcs[1..]| ==> FrameReady(readDesc, folder, fs', srcs[1..][i])
  {
    forall i | 0 <= i < |srcs[1..]| ensures FrameReady(readDesc, folder, fs', srcs[1..][i]) {
      FrameReadyGrows(readDesc, folder, fs, fs', srcs[i + 1]);
    }
  }

  lemma TaggedCons(video: string, srcs: seq<Path>)
    requires srcs != []
    ensures Tagged(video, srcs) == [(video, srcs[0])] + Tagged(video, srcs[1..])
  {
  }

  /** Every frame source of every video is ready. */
  predicate AllReady(readDesc: Path -> Post, folder: Path, fs: FileSystem, videos: seq<Video>) {
    forall v, i :: 0 <= v < |videos| && 0 <= i < |videos[v].images| ==> FrameReady(readDesc, folder, fs, videos[v].images[i])
  }

  lemma AllReadyGrows(readDesc: Path -> Post, folder: Path, fs: FileSystem, fs': FileSystem, videos: seq<Video>)
    requires fs <= fs' && AllReady(readDesc, folder, fs, videos)
    ensures AllReady(readDesc, folder, fs', videos)
  {
    forall v, i | 0 <= v < |videos| && 0 <= i < |videos[v].images|
      ensures FrameReady(readDesc, folder, fs', videos[v].images[i])
    {
      FrameReadyGrows(readDesc, folder, fs, fs', videos[v].images[i]);
    }
  }

  /** The later videos are ready when all are. */
  lemma AllReadyRest(readDesc: Path -> Post, folder: Path, fs: FileSystem, videos: seq<Video>)
    requires videos != [] && AllReady(readDesc, folder, fs, videos)
    ensures AllReady(readDesc, folder, fs, videos[1..])
  {
    forall v, i | 0 <= v < |videos[1..]| && 0 <= i < |videos[1..][v].images|
      ensures FrameReady(readDesc, folder, fs, videos[1..][v].images[i])
    {
      assert videos[1..][v] == videos[v + 1];
    }
  }

  /** Sources of the videos that are all ready get one frame each, in processing order, across all videos. */
  lemma {:induction false} RunVideosProduces(readDesc: Path -> Post, folder: Path, run: VideoRun, videos: seq<Video>)
    requires run.failure.None? && AllReady(readDesc, folder, run.fs, videos)
    ensures var r := RunVideos(readDesc, folder, run, videos);
      r.failure.None? && FrameSources(r.frames) == FrameSources(run.frames) + VideoSources(videos)
    decreases |videos|
  {
    if videos != [] {
      VideoStepProduces(readDesc, folder, run, videos);
      var step := VideoStep(readDesc, folder, run, videos[0]);
      AllReadyRest(readDesc, folder, run.fs, videos);
      AllReadyGrows(readDesc, folder, run.fs, step.fs, videos[1..]);
      RunVideosProduces(readDesc, folder, step, videos[1..]);
      var r := RunVideos(readDesc, folder, step, videos[1..]);
      assert RunVideos(readDesc, folder, run, videos) == r;
      AppendStep(FrameSources(r.frames), FrameSources(step.frames), FrameSources(run.frames),
                 Tagged(videos[0].name, videos[0].images), VideoSources(videos[1..]), VideoSources(videos));
    }
  }

  /** The first video of ready videos gets one frame per source, in order. */
  lemma VideoStepProduces(readDesc: Path -> Post, folder: Path, run: VideoRun, videos: seq<Video>)
    requires videos != [] && run.failure.None? && AllReady(readDesc, folder, run.fs, videos)
    ensures var r := VideoStep(readDesc, folder, run, videos[0]);
      r.failure.None? && FrameSources(r.frames) == FrameSources(run.frames) + Tagged(videos[0].name, videos[0].images)
  {
    var v := videos[0];
    var made := VideoRun(run.fs + {folder + v.name + "/"}, run.frames, None);
    AllReadyGrows(readDesc, folder, run.fs, made.fs, videos);
    assert forall i :: 0 <= i < |v.images| ==> FrameReady(readDesc, folder, made.fs, v.images[i]);
    RunFramesProduces(readDesc, folder, v.name, made, v.images);
  }

  /**
   * When every frame source of every video has its cached image or a descriptor that composes,
   * `create_post_video` does not stop, and frame k is the k-th source in processing order, saved
   * under the number k in its video's folder.
   */
  lemma PostVideoProduces(readDesc: Path -> Post, folder: Path, fs: FileSystem, desc: Post)
    requires desc.videos.Some? && AllReady(readDesc, folder, fs, desc.videos.value)
    ensures var run := PostVideo(readDesc, folder, fs, desc);
      && run.failure.None? && FrameSources(run.frames) == VideoSources(desc.videos.value)
      && forall k :: 0 <= k < |run.frames| ==>
           run.frames[k].path == FramePath(folder, run.frames[k].video, k) && run.frames[k].path in run.fs
  {
    RunVideosProduces(readDesc, folder, VideoRun(fs, [], None), desc.videos.value);
    PostVideoFrames(readDesc, folder, fs, desc);
  }

  /** Two frames of one video never share a file name. */
  lemma FramePathInjective(folder: Path, video: string, a: nat, b: nat)
    ensures FramePath(folder, video, a) == FramePath(folder, video, b) ==> a == b
  {
    var pre := folder + video + "/";
    var sa, sb := NatToString(a), NatToString(b);
    if FramePath(folder, video, a) == FramePath(folder, video, b) {
      assert |sa| == |sb|;
      assert sa == FramePath(folder, video, a)[|pre|..|pre| + |sa|];
      assert sb == FramePath(folder, video, b)[|pre|..|pre| + |sb|];
      NatToStringInjective(a, b);
    }
  }
}
