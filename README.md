# motor-ads-generator in Dafny

This project models the core of motor-ads-generator, a pair of Python scripts that turn car
listings into social-media ad images.

- `resources_crawler.py` fetches a listing page. It downloads the listing's photos as numbered
  JPEG files into a dated directory named after the URL, and saves the English and Arabic
  mileage, model, price and phone number as `data.json`.
- `build_ad.py` composes ad images from JSON post descriptors:
  - it opens a template and an overlay;
  - it centre-crops, resizes and pastes the listing photos;
  - it draws captions taken from `data.json`, shaped for right-to-left scripts, at the largest
    font size that fits their box;
  - it saves the result in every requested format;
  - it assembles the frames of the descriptor's videos, reusing cached images where they exist.
  The main loop runs this for every descriptor listed in the index. It is meant to skip
  composition when the outputs already exist. As written, its check looks for file names without
  the '.' before the extension, so it never skips a post it saved (see "## Findings").

## How the model is built

- The file system is the set of paths that exist (`Files.FileSystem`). Operations receive it
  and return the new set.
- The contents of JSON files are functions from a path to the parsed value, fixed for a run.
- The libraries the scripts call are function-valued parameters or fields:
  - `unicodedata.name`, `str.isalpha`, the Arabic reshaper and the bidirectional reordering;
  - the font metrics `getsize`;
  - the image sizes;
  - HTTP plus the XPath queries, as one function from a URL to the query results on that page.
- Python's built-ins are written out in `PyStr`. They follow CPython:
  - `str.replace`: non-overlapping, left to right;
  - `str.split` on one character;
  - `str.strip` with the `isspace` code points;
  - `str(n)`, negative indexing, `os.path.basename` and `os.path.splitext`, including the
    leading-dot rule.
- Where the code works by updating state, the model does too:
  - the memo table `latin_letters` is a field of the class `TextShaper.Shaper`, and the methods
    that query it modify it;
  - the loops of the source are loops in methods, each proved equal to a specification function.

Module layout:

| file | module | contents |
|---|---|---|
| `files.dfy` | `Files` | the file-system types |
| `wrappers.dfy` | `Wrappers` | `Option`, `Result` |
| `pystr.dfy` | `PyStr` | Python string and path built-ins |
| `geometry.dfy` | `Geometry` | crop box, font-size search, centring |
| `descriptor.dfy` | `Descriptor` | post descriptor and metadata records |
| `shaper.dfy` | `TextShaper` | script test with memo, shaping, caption lookup |
| `compositor.dfy` | `Compositor` | templates, the generated-before check, saving, `create_post_img`, the video frame loop |
| `batch.dfy` | `Batch` | the main loop of `build_ad.py` |
| `crawler.dfy` | `Crawler` | `resources_crawler.py` |

### Where the model follows the code rather than the intended behaviour

- **Skipping finished outputs (the finding below).** The intended behaviour is that reruns skip
  finished outputs. As written, `images_generated_before` never recognises the files that
  `save_img` writes, so every run composes and saves again.
  - `Compositor.ImagesGeneratedBefore` models the check as written.
  - The main loop uses that check, as the code does: `Batch.SaveStepAsWritten`, `Batch.Process`,
    `Batch.ProcessDescriptor`, `Batch.ProcessAll` and `Batch.ProcessIndex`.
  - The corrected check is `Batch.ImagesSavedBefore`. The pass that uses it is `Batch.SaveStep`
    and `Batch.ProcessCorrected`; `Batch.RerunWritesNothing` proves what it gains.
- **The video frame counter.** The counter of `create_post_video` is shared by all videos of a
  descriptor. Frames of later videos continue the numbering instead of restarting at 0. It is not
  advanced when a frame's descriptor does not compose.
- **The main loop's save name.** The name comes from `os.path.splitext(desc_file)` without
  `basename`, while the check takes the base name first. The corrected check keeps the base name,
  as the source's check does. It therefore matches the saved files only for a descriptor name
  without '/'.
- **A missing descriptor.** When a descriptor file is missing, `load_json` returns `None`. The
  next lookup raises. The model reports this as an error naming the path.
- **No language segment in the URL.** `download_url` on a URL with neither `/en/` nor `/ar/`
  downloads the images and then fails with an unbound variable. The model keeps the downloaded
  files and returns `NoLanguage`.
- **The empty URL.** `download_url("")` raises `IndexError`; the model returns `NoDirName`.

## Model

| member | source | states |
|---|---|---|
| PyStr.ContainsIffOccurs | build_ad.py:99 | `sub in s` holds exactly when `sub` occurs at some index of `s` |
| PyStr.Contains | build_ad.py:99 | a string contained in another is no longer than it; `ContainsIffOccurs` gives the meaning |
| PyStr.ContainsChar | build_ad.py:305 | a one-character pattern occurs exactly when the character is in the string |
| PyStr.Replace | build_ad.py:305 | a replacement as long as the pattern keeps the length of the string |
| PyStr.ReplaceAbsent | build_ad.py:305 | `replace` leaves a string without the pattern unchanged |
| PyStr.ReplaceShowsReplacement | resources_crawler.py:101 | when the pattern occurs, the replacement text occurs in the result |
| PyStr.ReplaceCharRemoves | build_ad.py:305 | replacing a character by text without it removes every copy of it |
| PyStr.Split | build_ad.py:212 | `split` always yields at least one part |
| PyStr.SplitJoin | build_ad.py:212 | joining the parts with the separator gives back the string; no part contains the separator |
| PyStr.SplitSepFree | build_ad.py:212-213 | a string without the separator splits into itself alone |
| PyStr.SplitAfterSep | resources_crawler.py:85 | splitting `x + sep + y` with `sep` not in `x` yields `x` followed by the parts of `y` |
| PyStr.JoinSplit | resources_crawler.py:85 | splitting a join of separator-free parts gives back the parts |
| PyStr.SplitTrailingSep | resources_crawler.py:85-89 | a trailing separator adds one empty last part and keeps the others |
| PyStr.SplitLastEmpty | resources_crawler.py:86 | the last part is empty exactly when the string is empty or ends with the separator |
| PyStr.SplitManyIffSep | build_ad.py:212-213 | there is more than one part exactly when the separator occurs |
| PyStr.LStrip | resources_crawler.py:20 | the result is a suffix; every dropped character is whitespace; the result does not start with whitespace |
| PyStr.RStrip | resources_crawler.py:20 | the result is a prefix; every dropped character is whitespace; the result does not end with whitespace |
| PyStr.Strip | build_ad.py:20 | the result is no longer than the input and neither starts nor ends with whitespace |
| PyStr.StripInfix | resources_crawler.py:20 | the stripped text is the infix of the input between whitespace-only ends |
| PyStr.StripIdempotent | resources_crawler.py:40 | stripping twice equals stripping once |
| PyStr.StripEmptyIffAllSpace | build_ad.py:20 | `strip` gives the empty string exactly when every character is whitespace |
| PyStr.NatToString | resources_crawler.py:77 | `str(n)` is a non-empty string of decimal digits with no leading zero; it starts with "0" only for 0 |
| PyStr.ParseNatToString | resources_crawler.py:77 | reading the digits of `str(n)` gives back `n` |
| PyStr.NatToStringInjective | build_ad.py:270 | distinct numbers have distinct decimal strings |
| PyStr.RFind | build_ad.py:188 | the index holds the character and no later index does; -1 when absent |
| PyStr.Basename | build_ad.py:188 | the base name is the longest '/'-free suffix, preceded by a '/' when shorter than the path |
| PyStr.SplitExt | build_ad.py:189 | root + ext is the path; a non-empty ext starts with its only '.' and holds no '/' |
| PyStr.SplitExtWhen | build_ad.py:189 | an extension is split off exactly when the last path component has a '.' after some character other than '.'; so ".bashrc" has none |
| PyStr.StemOfPlainName | build_ad.py:188-189 | for a name without '/', the base name is the name and the stem is the `splitext` root |
| Geometry.CropCenter | build_ad.py:117-127 | the image is cropped exactly when both target sides fit; the box has the target size, lies in the image and has equal margins |
| Geometry.MaxFontSize | build_ad.py:46-55 | the size is at least 7; every size from 8 up to it fits strictly; the next size does not; 7 when size 8 does not fit |
| Geometry.MaxFontSizeUnique | build_ad.py:46-55 | the size the search settles on is the only one meeting its postcondition |
| Geometry.CenteredPosition | build_ad.py:58-62 | the margins left and right of the text, and above and below it, are equal |
| Geometry.CenteredInsideBox | build_ad.py:58-62 | text that fits its box is placed inside the box |
| TextShaper.Shaper.constructor | build_ad.py:26 | the memo table starts empty and consistent |
| TextShaper.Shaper.IsLatin | build_ad.py:29-32 | the answer is whether the character's Unicode name contains LATIN; the table keeps every entry and gains this one |
| TextShaper.Shaper.OnlyRomanChars | build_ad.py:35-36 | true exactly when every letter is Latin; the table only gains entries for letters of the string |
| TextShaper.Shaper.FixArabicText | build_ad.py:39-43 | a Latin-only text comes back unchanged, any other text reshaped and reordered |
| TextShaper.Shaper.LatinTextUnchanged | build_ad.py:40-41 | a text whose letters are all Latin is returned as is |
| TextShaper.Shaper.ForeignLetterReshapes | build_ad.py:43 | one non-Latin letter sends the whole text through reshaping and reordering |
| TextShaper.Shaper.GetPostText | build_ad.py:156-164 | the shaped `metadata[lang][text]` when both keys resolve, else the empty string; the table is untouched when nothing resolves |
| TextShaper.Shaper.PostTextWhenUnresolved | build_ad.py:157-164 | a caption without a resolving language or field renders as "" |
| TextShaper.Shaper.PostTextWhenResolved | build_ad.py:157-162 | a caption whose keys resolve renders as the shaped metadata value |
| Compositor.IsEmptyLine | build_ad.py:19-23 | true exactly when every character is whitespace |
| Compositor.LoadJson | build_ad.py:65-69 | the file is read exactly when its path exists, and the result is what the path holds |
| Compositor.TemplatePath | build_ad.py:97-100 | the path always contains "templates/", and is the name itself when that already does |
| Compositor.TemplatePathIdempotent | build_ad.py:107-110 | prefixing the template folder twice is the same as once |
| Compositor.OpenTemplate | build_ad.py:97-114 | a template opens exactly when its prefixed path exists, and that path is in the template folder |
| Compositor.ImagesGeneratedBefore | build_ad.py:186-192 | true exactly when `folder + stem + ext` exists for every save format, with no '.' before the extension |
| Compositor.SavedFilesMembers | build_ad.py:227-229 | a path is saved exactly when it is `folder + fname + "." + ext` for one of the formats |
| Compositor.SaveImg | build_ad.py:225-229 | with an existing folder and an image, one file per format named `folder + fname + "." + ext` is added; otherwise nothing changes |
| Compositor.PlaceImage | build_ad.py:139-143 | the photo is taken from the post folder and pasted at (x, y) at the fit size; it is cropped exactly when the crop fits the photo, to a box of the crop size |
| Compositor.PasteImages | build_ad.py:202-206 | fails exactly when some source image is missing; otherwise each image is centre-cropped, resized and pasted at its position, in order |
| Compositor.FirstSegmentIsPrefix | build_ad.py:212-214 | for a path with a '/', the post name is the '/'-free text before its first '/' |
| Compositor.CollectPosts | build_ad.py:210-214 | a name is collected exactly when it is the first segment of an image path that contains a '/' |
| Compositor.AltMetadataPathPlain | build_ad.py:169-171 | for a plain folder name the alternate metadata path is `folder + pf + "/data.json"` |
| Compositor.RenderCaptions | build_ad.py:167-175 | one text per caption, in order, each from the caption's own metadata when it names a post folder |
| Compositor.DrawText | build_ad.py:146-153 | nothing is drawn exactly when the font is missing; otherwise the largest fitting size, the fit-box background and the centred position |
| Compositor.CreatePostImg | build_ad.py:195-222 | an image is made exactly when both templates and every source exist; it states the templates, placements, posts, the caption guard and the captions |
| Compositor.CopyDescriptorFile | build_ad.py:250-253 | with the descriptor in "descriptors/", the folder and the copy exist afterwards; without it nothing changes; nothing else is added |
| Compositor.CachedImage | build_ad.py:232-236 | the cached image is a ".jpg" file directly in the post folder |
| Compositor.FrameStep | build_ad.py:268-277 | a stopped run stays as it is; at most one frame is appended; the run stops only on the frame's own descriptor, which is then missing |
| Compositor.FrameStepOutcome | build_ad.py:270-277 | after the descriptor copy, the source gets the next frame number exactly when its cached image exists or its descriptor exists and composes; the frame names that source and is reused exactly when cached; the run stops exactly when neither the cached image nor the descriptor exists |
| Compositor.RunFrames | build_ad.py:268-277 | frames are only appended, at most one per frame source |
| Compositor.VideoStep | build_ad.py:265-278 | a stopped run stays as it is; frames are only appended, at most one per source of the video |
| Compositor.RunVideos | build_ad.py:265-278 | the counter runs on across videos: frames are only appended |
| Compositor.PostVideo | build_ad.py:262-278 | nothing happens without "videos"; a run stops only on a missing frame descriptor of one of the videos |
| Compositor.RunFramesStopped | build_ad.py:271-272 | once a frame's descriptor is missing, the remaining frames of the video change nothing |
| Compositor.RunVideosStopped | build_ad.py:265-272 | once a frame's descriptor is missing, the remaining videos change nothing |
| Compositor.RunFramesFailure | build_ad.py:271-273 | the frame loop stops only on a frame descriptor of its sources that is not in the post folder |
| Compositor.RunVideosFailure | build_ad.py:265-273 | the video loop stops only on a frame descriptor of one of its videos that is not in the post folder |
| Compositor.VideoFrames | build_ad.py:268-277 | the frame loop of one video computes the reference run, and the counter is the number of frames so far |
| Compositor.SavedFrameName | build_ad.py:276 | saving a frame in "jpg" writes exactly `folder + video + "/" + str(k) + ".jpg"` |
| Compositor.CreatePostVideo | build_ad.py:262-278 | the videos of a descriptor are processed in order as the reference run of the outer loop |
| Compositor.ComposesGrows | build_ad.py:199-206 | composition depends only on files existing, so adding files never stops it |
| Compositor.FrameStepGood | build_ad.py:268-277 | one frame keeps the frames numbered, on disk and justified, and only adds files |
| Compositor.RunFramesGood | build_ad.py:268-277 | the frame loop keeps the frames numbered, on disk and justified, and only adds files |
| Compositor.VideoStepGood | build_ad.py:265-278 | one video keeps that invariant and only adds files |
| Compositor.RunVideosGood | build_ad.py:265-278 | all videos keep it and only add files |
| Compositor.RunFramesProduces | build_ad.py:268-277 | when every source is ready, the run goes on and gets one frame per source, in order |
| Compositor.RunVideosProduces | build_ad.py:265-278 | when every source of every video is ready, the run goes on and the frames are the sources in processing order, across the videos |
| Compositor.PostVideoProduces | build_ad.py:262-278 | when every frame source of every video has its cached image or a descriptor that composes, nothing stops and frame k is the k-th source with its video, saved as number k |
| Compositor.PostVideoFrames | build_ad.py:262-278 | frame k is `folder + video + "/" + str(k) + ".jpg"` and exists; each frame was copied from a cached image or composed from a descriptor that composes |
| Compositor.FramePathInjective | build_ad.py:270 | distinct frame numbers give distinct frame files |
| Batch.DatedPostFolder | build_ad.py:305 | the dated folder starts with the date and has no '.' after it |
| Batch.DatedPostFolderPlain | build_ad.py:305 | a post folder without '.' is appended to the date unchanged |
| Batch.ImagesSavedBefore | build_ad.py:186-192 | true exactly when `folder + stem + "." + ext` exists for every format; for a descriptor name without '/' these are the files `save_img` writes |
| Batch.SaveStepAsWritten | build_ad.py:309-312 | as written: nothing is saved when every dotless name exists, when the post does not compose or when the folder is missing; otherwise every format is saved |
| Batch.SaveStep | build_ad.py:309-312 | with the corrected check: a post whose saved files all exist is skipped; otherwise as `SaveStepAsWritten` |
| Batch.DotlessNeverSaved | build_ad.py:186-192 | saving never creates the dotless file the check looks for with the shortest format |
| Batch.RerunWritesAgain | build_ad.py:303-312 | with the check as written, a run that saved is followed by a run that composes and writes the same files again |
| Batch.RerunWritesNothing | build_ad.py:303-312 | with the corrected check, after a save the check holds and a second run writes nothing |
| Batch.Process | build_ad.py:303-314 | one pass as written: a descriptor missing everywhere is the error; every error names a file in the dated post folder |
| Batch.ProcessCorrected | build_ad.py:303-314 | the same pass with the corrected check, with the same error guarantees |
| Batch.ProcessGrows | build_ad.py:303-314 | a pass over one descriptor that completes only adds files |
| Batch.ProcessCorrectedGrows | build_ad.py:303-314 | a corrected pass that completes only adds files too |
| Batch.ProcessAll | build_ad.py:302-314 | the loop over the index stops at the first error, which names a file in the dated folder of one of the entries |
| Batch.ProcessDescriptor | build_ad.py:303-314 | one pass of the main loop with the check as written computes `Process`: copy, load, check, compose and save, videos |
| Batch.ProcessAllGrows | build_ad.py:303-314 | a main loop that completes only adds files |
| Batch.ProcessIndex | build_ad.py:302-314 | the loop over the index entries computes `ProcessAll`: the passes in index order, stopping at the first error |
| Crawler.DirName | resources_crawler.py:85-89 | the directory name is one path segment: it holds no '/' |
| Crawler.DirNameDefined | resources_crawler.py:85-89 | the directory segment exists for every URL except the empty one |
| Crawler.TrailingSlashSameDir | resources_crawler.py:85-89 | a URL with a '/' names the same directory with or without a trailing '/' |
| Crawler.NoSlashCounterexample | resources_crawler.py:85-89 | without a '/' the trailing slash does matter: "abc" names "abc", "abc/" names "" |
| Crawler.OutDir | resources_crawler.py:85-91 | there is a directory exactly when there is a name; it is the date followed by a '/'-free name |
| Crawler.LanguagePair | resources_crawler.py:99-104 | a pairing exists exactly when the URL has "/en/" or "/ar/"; "/en/" wins; the URL is fetched first; each side carries its language |
| Crawler.ExtractImgs | resources_crawler.py:57-68 | one URL per image source, in order, with "thumb/" replaced by "o_" |
| Crawler.ImageFileInjective | resources_crawler.py:77 | different counters give different image files |
| Crawler.ImageFilesMembers | resources_crawler.py:75-81 | the download writes exactly `outDir + "/" + str(k) + ".jpg"` for k from 1 to n, all inside the directory |
| Crawler.ImageFilesCount | resources_crawler.py:75-81 | n downloads write n distinct files |
| Crawler.DownloadImgs | resources_crawler.py:71-81 | the directory and the n numbered files are added, and the URLs are requested in order |
| Crawler.TelNumbers | resources_crawler.py:28-34 | at most one number per link |
| Crawler.TelNumbersFromLinks | resources_crawler.py:32-34 | every number collected is a link starting with "tel:" with "tel:" removed |
| Crawler.CollectTels | resources_crawler.py:30-34 | the loop over the links computes `TelNumbers` |
| Crawler.TelNumbersFirst | resources_crawler.py:28-34 | a phone number is found exactly when a link starts with "tel:"; the first is the first such link without "tel:" |
| Crawler.CleanPrice | resources_crawler.py:40 | the cleaned price neither starts nor ends with whitespace |
| Crawler.CleanPriceWithoutCurrency | resources_crawler.py:40 | a price without "QAR" is only stripped |
| Crawler.PageInfo | resources_crawler.py:15-46 | failure is always an empty query; mileage, model and price come out without whitespace at either end |
| Crawler.PageInfoProperties | resources_crawler.py:15-46 | fails exactly when a query is empty, in the order mileage, model, price; the phone is present exactly when a link starts with "tel:" |
| Crawler.ExtractInfo | resources_crawler.py:15-46 | `extract_info` on a page computes `PageInfo` |
| Crawler.FetchInfos | resources_crawler.py:99-104 | with no language segment nothing is fetched; otherwise the pair is fetched in its order |
| Crawler.FetchPair | resources_crawler.py:99-104 | the second page is requested exactly when the first one parses; a failure is an empty query |
| Crawler.FetchPairRecord | resources_crawler.py:99-110 | the record exists exactly when both pages parse; its keys are "ar" and "en" with each language's info; the first request is the URL's own language |
| Crawler.CrawlUrl | resources_crawler.py:84-112 | nothing is fetched exactly when there is no directory name or the directory exists; a successful crawl returns the page directory |
| Crawler.DownloadUrl | resources_crawler.py:84-112 | the crawl computes the reference crawl |
| Crawler.FetchOnce | resources_crawler.py:93-94 | an existing directory is returned without network access or writes |
| Crawler.CrawlWritesInside | resources_crawler.py:84-112 | a crawl only adds files, each the directory itself or inside it |
| Crawler.CrawlOrder | resources_crawler.py:96-110 | a crawl fetches the page, then the images in order; the images stay on disk even when the info pages fail; a saved record has keys "ar" and "en" |

## Left out

- Pixels are not modelled: no image decoding, cropping, resizing, pasting, drawing or encoding. A composite records which files, boxes, positions, sizes and texts went into it.
- The RGBA mask of `paste_img` (build_ad.py:130-136) concerns pixels only.
- `save_video` (build_ad.py:256-259) calls an external encoder through the shell, so it is not modelled. The frames it would encode are modelled.
- HTTP requests and XPath evaluation are one function from a URL to the query results, and their exceptions are not modelled.
- The `print` calls are not modelled.
- File contents are not tracked, only whether a path exists. JSON parsing is a function of the path, and a copied descriptor reads the same as its original.
- A missing mandatory JSON key (`KeyError`) is not modelled; the descriptor records always carry those keys.
- A malformed `font_color` makes `bytes.fromhex` (build_ad.py:177) raise `ValueError`, which ends the batch. As with a missing key, malformed descriptors are not modelled: `Caption.fontColor` keeps the colour as text and is never parsed.
- `datetime.now()` is a `date` parameter.
- `save_info` (resources_crawler.py:49-54) is modelled as adding `outDir + "/data.json"`.
- The command-line entry points are left out as I/O: `sys.argv`, `get_urls`, `read_index` and the `__main__` blocks. `download_resources` is a plain loop over `download_url`, which is modelled. `read_descriptor` is `load_json`, which is modelled.
- `os.makedirs` creating missing parent directories, and `os.mkdir` failing when the parent is missing, are not modelled. Creating a directory adds its path.
- Batch.ProcessCorrected: the corrected check is modelled for one pass. The loop over the index (`Batch.ProcessAll`, `Batch.ProcessIndex`) runs the code as written.
- `PyStr.Replace` requires a non-empty pattern. Every call site passes a non-empty constant.
- `Geometry.MaxFontSize` requires that some size from 8 up does not fit. Without that, the source loop does not terminate.
- `Compositor.DrawText` requires the same hypothesis when the font exists.
- `Compositor.RenderCaptions` returns the caption texts rather than drawing them.
- `os.path.exists` is exact membership of the path string: no normalisation of "//" or "./".
- `Compositor.SaveImg` and the frame step both add files. A file that existed before is not distinguished from one overwritten.

## Findings

| source | as written | input that shows it | evidently intended | confidence | as-written member | corrected member |
|---|---|---|---|---|---|---|
| build_ad.py:190 | `images_generated_before` tests `post_folder + f + ext`, without the '.' that `save_img` (build_ad.py:229) puts before the extension. A saved post is therefore never recognised, and the main loop (build_ad.py:309-312) composes and saves it again on every run. | desc_file "post.json", save_formats ["jpg"], post folder "d/": saving writes "d/post.jpg", the check asks for "d/postjpg" | test `post_folder + f + "." + ext`, so that a second run writes nothing | not executed | Batch.RerunWritesAgain | Batch.RerunWritesNothing |
