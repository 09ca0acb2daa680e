/**
 * One media item of a post turned into a download job: images keep their
 * `media_url_https` and take their extension from it, videos pick a variant
 * URL and are always saved as `.mp4`.
 */
module Media {
  import opened Wrappers
  import Text

  /**
   * One playback variant of a video. The API leaves `bitrate` out for
   * streaming-playlist variants, so it is optional here.
   */
  datatype Variant = Variant(bitrate: Option<int>, url: string)

  /**
   * An entry of `extended_entities.media`. `videoInfo` is `video_info.variants`
   * when the item carries `video_info` (videos and animated GIFs), `None` for images.
   */
  datatype MediaItem = MediaItem(mediaUrlHttps: string, videoInfo: Option<seq<Variant>>)

  /** A download to perform: fetch `url` and write it to `path`. */
  datatype Job = Job(url: string, path: string)

  /** The message thrown when no variant can be selected. */
  const VIDEO_URL_ERROR := "video url could not found"

  /** JavaScript's `v.bitrate > threshold`; an absent bitrate compares false. */
  predicate BitrateAbove(v: Variant, threshold: int)
  {
    v.bitrate.Some? && v.bitrate.value > threshold
  }

  /** A variant the selection loop can pick: its bitrate is present and positive. */
  predicate Playable(v: Variant)
  {
    BitrateAbove(v, 0)
  }

  /** The bitrate of a playable variant. */
  function Rate(v: Variant): int
    requires Playable(v)
  {
    v.bitrate.value
  }

  /**
   * The position of the last playable variant. This is what the selection loop
   * computes, since its threshold stays at 0 for the whole loop.
   */
  function LastPlayable(vs: seq<Variant>): (r: Option<nat>)
    ensures r.Some? ==> r.value < |vs| && Playable(vs[r.value])
    ensures r.Some? ==> forall j :: r.value < j < |vs| ==> !Playable(vs[j])
    ensures r.None? <==> forall j :: 0 <= j < |vs| ==> !Playable(vs[j])
  {
    if vs == [] then None
    else if Playable(vs[|vs| - 1]) then Some(|vs| - 1)
    else LastPlayable(vs[..|vs| - 1])
  }

  /** The URL the program downloads for a video with these variants, if any. */
  function SelectedUrl(vs: seq<Variant>): (r: Option<string>)
    ensures r.None? <==> forall j :: 0 <= j < |vs| ==> !Playable(vs[j])
    ensures r.Some? ==> exists k :: 0 <= k < |vs| && Playable(vs[k]) && r.value == vs[k].url &&
                                    forall j :: k < j < |vs| ==> !Playable(vs[j])
  {
    match LastPlayable(vs)
    case None => None
    case Some(k) => Some(vs[k].url)
  }

  /**
   * The selection loop as written: `bitrate` starts at 0 and is never
   * reassigned, so every playable variant overwrites `url`.
   */
  method SelectVideoUrl(variants: seq<Variant>) returns (url: Option<string>)
    ensures url == SelectedUrl(variants)
    ensures url.None? <==> forall j :: 0 <= j < |variants| ==> !Playable(variants[j])
  {
    var bitrate := 0;
    url := None;
    for i := 0 to |variants|
      invariant url == SelectedUrl(variants[..i])
    {
      var v := variants[i];
      if BitrateAbove(v, bitrate) {
        url := Some(v.url);
      }
      assert variants[..i + 1][..i] == variants[..i];
    }
    assert variants[..|variants|] == variants;
  }

  /**
   * Reference definition of the selection the loop's naming suggests: the
   * playable variant of strictly greatest bitrate, the earliest one on ties.
   */
  function BestPlayable(vs: seq<Variant>): (r: Option<nat>)
    ensures r.Some? ==> r.value < |vs| && Playable(vs[r.value])
    ensures r.Some? ==> forall j :: 0 <= j < |vs| && Playable(vs[j]) ==> Rate(vs[j]) <= Rate(vs[r.value])
    ensures r.Some? ==> forall j :: 0 <= j < r.value && Playable(vs[j]) ==> Rate(vs[j]) < Rate(vs[r.value])
    ensures r.None? <==> forall j :: 0 <= j < |vs| ==> !Playable(vs[j])
  {
    if vs == [] then None
    else
      var best := BestPlayable(vs[..|vs| - 1]);
      var last := vs[|vs| - 1];
      if Playable(last) && (best.None? || Rate(last) > Rate(vs[best.value])) then Some(|vs| - 1)
      else best
  }

  /** The program fails on a video exactly when the arg-max selection would find nothing. */
  lemma SelectionFailsLikeBest(vs: seq<Variant>)
    ensures LastPlayable(vs).None? <==> BestPlayable(vs).None?
  {
  }

  /**
   * The program picks the highest-bitrate variant exactly when the last
   * playable variant beats every earlier playable one.
   */
  lemma SelectionIsBestIff(vs: seq<Variant>)
    requires LastPlayable(vs).Some?
    ensures LastPlayable(vs) == BestPlayable(vs) <==>
      forall j :: 0 <= j < LastPlayable(vs).value && Playable(vs[j]) ==> Rate(vs[j]) < Rate(vs[LastPlayable(vs).value])
  {
  }

  /** With playable bitrates strictly increasing in list order, the program picks the best variant. */
  lemma IncreasingBitratesPickBest(vs: seq<Variant>)
    requires forall i, j :: 0 <= i < j < |vs| && Playable(vs[i]) && Playable(vs[j]) ==> Rate(vs[i]) < Rate(vs[j])
    ensures LastPlayable(vs) == BestPlayable(vs)
  {
  }

  /**
   * Bitrates [300, 1200, 800]: the program downloads the 800 variant, while
   * the highest bitrate is 1200.
   */
  lemma HighestBitrateNotChosen()
    ensures var vs := [Variant(Some(300), "a"), Variant(Some(1200), "b"), Variant(Some(800), "c")];
      SelectedUrl(vs) == Some("c") && BestPlayable(vs) == Some(1)
  {
  }

  /** Equal top bitrates [1200, 1200]: the program takes the later one, not the first. */
  lemma TieGoesToLastListed()
    ensures var vs := [Variant(Some(1200), "first"), Variant(Some(1200), "second")];
      SelectedUrl(vs) == Some("second") && BestPlayable(vs) == Some(0)
  {
  }

  /**
   * A variant that is not playable (no bitrate, or one not above 0) is never
   * selected: appending it leaves the choice unchanged.
   */
  lemma {:induction false} UnplayableNeverChosen(vs: seq<Variant>, v: Variant)
    requires !Playable(v)
    ensures SelectedUrl(vs + [v]) == SelectedUrl(vs)
  {
    assert (vs + [v])[..|vs|] == vs;
  }

  /** Example: a playlist variant without a bitrate, listed after an mp4 one, is skipped. */
  lemma PlaylistVariantSkipped()
    ensures SelectedUrl([Variant(Some(832000), "mp4"), Variant(None, "m3u8")]) == Some("mp4")
  {
  }

  /** `path.join(dir, name)`, without its normalisation of `.` and `..` pieces. */
  function Destination(dir: string, name: string): (path: string)
    ensures dir + "/" <= path && path[|dir| + 1..] == name
  {
    dir + "/" + name
  }

  /** The template `${prefix}_${i}.${ext}`. */
  function FileName(prefix: string, i: nat, ext: string): (name: string)
    ensures prefix + "_" <= name
  {
    prefix + "_" + Text.Decimal(i) + "." + ext
  }

  /**
   * What follows `<prefix>_` in a file name splits at its dots into the
   * printed index and the extension, so the index can be read back.
   */
  lemma FileNameSplits(prefix: string, i: nat, ext: string)
    requires '.' !in ext
    ensures Text.Split(FileName(prefix, i, ext)[|prefix| + 1..], '.') == [Text.Decimal(i), ext]
  {
    var tail := Text.Decimal(i) + "." + ext;
    assert FileName(prefix, i, ext)[|prefix| + 1..] == tail;
    Text.SplitAfterSegment(Text.Decimal(i), '.', ext);
    Text.SplitSegment(ext, '.');
  }

  /**
   * A file name determines its parts: with dot-free extensions, equal names
   * have the same prefix, the same index and the same extension.
   */
  lemma FileNameInjective(p1: string, a: nat, e1: string, p2: string, b: nat, e2: string)
    requires '.' !in e1 && '.' !in e2
    ensures FileName(p1, a, e1) == FileName(p2, b, e2) ==> p1 == p2 && a == b && e1 == e2
  {
    var d1, d2 := Text.Decimal(a), Text.Decimal(b);
    if FileName(p1, a, e1) == FileName(p2, b, e2) {
      assert FileName(p1, a, e1) == (p1 + ['_'] + d1) + ['.'] + e1;
      assert FileName(p2, b, e2) == (p2 + ['_'] + d2) + ['.'] + e2;
      Text.LastPieceDetermined(p1 + ['_'] + d1, e1, p2 + ['_'] + d2, e2, '.');
      assert !Text.IsDigit('_');
      Text.LastPieceDetermined(p1, d1, p2, d2, '_');
      Text.DecimalInjective(a, b);
    }
  }

  /** The extension every video is saved with. */
  const VIDEO_EXTENSION := "mp4"

  /**
   * The callback of `media.map` for item `i` of a post whose timestamp prints
   * as `prefix`, downloading into `dir`.
   */
  function PlanMedia(dir: string, prefix: string, i: nat, m: MediaItem): (r: Result<Job, string>)
    ensures m.videoInfo.None? ==> r.Success? && r.value.url == m.mediaUrlHttps
    ensures m.videoInfo.Some? ==>
      (r.Failure? <==> forall j :: 0 <= j < |m.videoInfo.value| ==> !Playable(m.videoInfo.value[j]))
    ensures m.videoInfo.Some? && r.Success? ==> Some(r.value.url) == SelectedUrl(m.videoInfo.value)
    ensures r.Failure? ==> r.error == VIDEO_URL_ERROR
    ensures r.Success? ==> r.value.path == Destination(dir, FileName(prefix, i, SavedExtension(m)))
  {
    match m.videoInfo
    case None =>
      var url := m.mediaUrlHttps;
      Success(Job(url, Destination(dir, FileName(prefix, i, Text.Extension(url)))))
    case Some(variants) =>
      match SelectedUrl(variants)
      case None => Failure(VIDEO_URL_ERROR)
      case Some(url) => Success(Job(url, Destination(dir, FileName(prefix, i, VIDEO_EXTENSION))))
  }

  /** The extension a media item is saved with. */
  function SavedExtension(m: MediaItem): (ext: string)
    ensures '.' !in ext
  {
    if m.videoInfo.None? then Text.Extension(m.mediaUrlHttps) else VIDEO_EXTENSION
  }

  /**
   * An image job downloads `media_url_https` into `dir` under
   * `<prefix>_<i>.<ext>`, where ext is the fourth dot-separated piece of the
   * URL, or `undefined` when the URL has fewer than four pieces.
   */
  lemma ImageJob(dir: string, prefix: string, i: nat, pieces: seq<string>)
    requires |pieces| >= 1 && Text.SeparatorFree(pieces, '.')
    ensures var url := Text.Join(pieces, '.');
      PlanMedia(dir, prefix, i, MediaItem(url, None)) ==
        Success(Job(url, Destination(dir, FileName(prefix, i, if |pieces| >= 4 then pieces[3] else "undefined"))))
  {
    Text.ExtensionOfPieces(pieces);
  }

  /** A video job's file name is `<prefix>_<i>.mp4` whatever its variants are. */
  lemma VideoNameIgnoresVariants(dir: string, prefix: string, i: nat, m: MediaItem, m': MediaItem)
    requires m.videoInfo.Some? && m'.videoInfo.Some?
    requires PlanMedia(dir, prefix, i, m).Success? && PlanMedia(dir, prefix, i, m').Success?
    ensures PlanMedia(dir, prefix, i, m).value.path == PlanMedia(dir, prefix, i, m').value.path
    ensures PlanMedia(dir, prefix, i, m).value.path == Destination(dir, FileName(prefix, i, "mp4"))
  {
  }

  /** Names built from different indices never coincide, whatever their extensions. */
  lemma {:induction false} FileNamesDistinct(dir: string, prefix: string, a: nat, b: nat, ea: string, eb: string)
    requires a != b && '.' !in ea && '.' !in eb
    ensures Destination(dir, FileName(prefix, a, ea)) != Destination(dir, FileName(prefix, b, eb))
  {
    var da, db := Text.Decimal(a), Text.Decimal(b);
    var head := dir + "/" + prefix + "_";
    assert Destination(dir, FileName(prefix, a, ea)) == head + (da + "." + ea);
    assert Destination(dir, FileName(prefix, b, eb)) == head + (db + "." + eb);
    if head + (da + "." + ea) == head + (db + "." + eb) {
      assert (head + (da + "." + ea))[|head|..] == da + "." + ea;
      assert (head + (db + "." + eb))[|head|..] == db + "." + eb;
      Text.FirstPieceDetermined(da, ea, db, eb, '.');
      Text.DecimalInjective(a, b);
    }
  }

  /** Two items of one post never share a destination: their indices differ. */
  lemma DistinctIndicesDistinctPaths(dir: string, prefix: string, a: nat, b: nat, ma: MediaItem, mb: MediaItem)
    requires a != b
    requires PlanMedia(dir, prefix, a, ma).Success? && PlanMedia(dir, prefix, b, mb).Success?
    ensures PlanMedia(dir, prefix, a, ma).value.path != PlanMedia(dir, prefix, b, mb).value.path
  {
    FileNamesDistinct(dir, prefix, a, b, SavedExtension(ma), SavedExtension(mb));
  }

  /**
   * The first item of a post at 2023-06-01 10:15:30, an image whose URL's
   * fourth piece is `jpg`, is saved as `2023-06-01_10-15-30_0.jpg`.
   */
  lemma ImageNameExample(dir: string, pieces: seq<string>)
    requires |pieces| >= 4 && Text.SeparatorFree(pieces, '.') && pieces[3] == "jpg"
    ensures PlanMedia(dir, "2023-06-01_10-15-30", 0, MediaItem(Text.Join(pieces, '.'), None)).value.path
      == Destination(dir, "2023-06-01_10-15-30_0.jpg")
  {
    ImageJob(dir, "2023-06-01_10-15-30", 0, pieces);
    ExampleFileName();
  }

  /** The example post's first name, with the index printed as `0`. */
  lemma ExampleFileName()
    ensures FileName("2023-06-01_10-15-30", 0, "jpg") == "2023-06-01_10-15-30_0.jpg"
  {
    assert Text.Decimal(0) == "0";
  }

  /** The extension of `https://pbs.twimg.com/media/B.jpg` is its fourth piece, `jpg`. */
  lemma ExtensionExample()
    ensures Text.Extension("https://pbs.twimg.com/media/B.jpg") == "jpg"
  {
    var pieces := ["https://pbs", "twimg", "com/media/B", "jpg"];
    assert Text.SeparatorFree(pieces, '.');
    assert Text.Join(pieces, '.') == "https://pbs.twimg.com/media/B.jpg";
    Text.ExtensionOfPieces(pieces);
  }
}
