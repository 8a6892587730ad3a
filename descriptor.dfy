/**
 * The JSON records the compositor reads (build_ad.py), as typed values. Keys the source tests
 * with `in` are `Option`s; keys it indexes directly are plain fields.
 */
module Descriptor {
  import opened Wrappers
  import opened Files

  /** The metadata sidecar `data.json`: language ("ar", "en") to field ("price", ...) to text. */
  type Metadata = map<string, map<string, string>>

  /** One entry of a descriptor's "images" list. */
  datatype Placement = Placement(
    file: Path,
    cropWidth: int, cropHeight: int,
    fitWidth: int, fitHeight: int,
    x: int, y: int)

  /** One entry of a descriptor's "captions" list; "lang", "text" and "post_folder" may be absent. */
  datatype Caption = Caption(
    lang: Option<string>,
    text: Option<string>,
    postFolder: Option<string>,
    fontFile: Path,
    fontColor: string,
    fontSize: int,
    x: int, y: int,
    width: int, height: int)

  /** One entry of a descriptor's "videos" list: frame sources in order. */
  datatype Video = Video(name: string, images: seq<Path>, imageDuration: int)

  /** A post descriptor; "videos" may be absent. */
  datatype Post = Post(
    template: Path,
    overlay: Path,
    images: seq<Placement>,
    captions: seq<Caption>,
    saveFormats: seq<string>,
    videos: Option<seq<Video>>)

  /**
   * The raw caption text `get_post_text` looks up: `metadata[lang][text]`, when the caption
   * names both keys and both resolve.
   */
  function CaptionLookup(meta: Metadata, cap: Caption): Option<string> {
    if cap.lang.Some? && cap.lang.value in meta && cap.text.Some? && cap.text.value in meta[cap.lang.value]
    then Some(meta[cap.lang.value][cap.text.value])
    else None
  }
}
