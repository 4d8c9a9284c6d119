/**
 The two file-name decisions of the inspection app: how `display_media_files`
 decides whether a path is shown as a video, as an image, or not at all, and
 the name under which the report is offered for download.
 */
module Media {
  import opened Strings
  import opened Paths

  datatype MediaKind = Video | Image | Neither

  const VideoExts: seq<string> := [".mp4", ".avi", ".mov", ".mkv"]
  const ImageExts: seq<string> := [".jpg", ".jpeg", ".png", ".bmp", ".gif"]

  /** The kind an extension stands for, compared after lower-casing. */
  function KindOfExt(e: string): MediaKind {
    var l := Lower(e);
    if l in VideoExts then Video
    else if l in ImageExts then Image
    else Neither
  }

  /** No extension is both a video and an image extension. */
  lemma ExtensionListsDisjoint(e: string)
    ensures !(e in VideoExts && e in ImageExts)
  {
  }

  /** The branch `display_media_files` takes for a path: its lower-cased splitext suffix decides. */
  function ClassifyMedia(path: string): (k: MediaKind)
    ensures k == Video <==> Lower(Ext(path)) in VideoExts
    ensures k == Image <==> Lower(Ext(path)) in ImageExts
    ensures k == Neither ==> Lower(Ext(path)) !in VideoExts && Lower(Ext(path)) !in ImageExts
  {
    KindOfExt(Ext(path))
  }

  /** The classification ignores letter case anywhere in the path. */
  lemma ClassifyIgnoresCase(path: string)
    ensures ClassifyMedia(Lower(path)) == ClassifyMedia(path)
  {
    SplitExtLower(path);
    LowerIdempotent(Ext(path));
  }

  /**
   A file named by a stem and an extension is classified by that extension
   alone, as long as the stem's last component is not only dots.
   */
  lemma ClassifyStemAndExt(stem: string, e: string)
    requires ValidExt(e)
    requires !AllDots(Basename(stem))
    ensures ClassifyMedia(stem + e) == KindOfExt(e)
  {
    SplitExtOfStemAndExt(stem, e);
  }

  /** A hidden file such as `.mp4` has no extension, so it is neither a video nor an image. */
  lemma HiddenFileIsNeither(dir: string, e: string)
    requires ValidExt(e)
    ensures ClassifyMedia(dir + "/" + e) == Neither
  {
    var p := dir + "/" + e;
    assert p == (dir + "/") + e;
    LastIndexOfAppend(dir + "/", e, '/');
    var sep := |dir|;
    LastIndexOfIs(dir + "/", '/', sep);
    var dot := LastIndexOf(p, '.');
    LastOccurrence(dir + "/", e[1..], '.');
    assert p == (dir + "/") + ['.'] + e[1..] by { assert e == ['.'] + e[1..]; }
    LastIndexOfIs(p, '.', sep + 1);
    assert p[sep + 1..dot] == [];
    assert Ext(p) == [];
    NoExtIsNeither(p);
  }

  /** The same without a directory: a bare `.mp4` is neither a video nor an image. */
  lemma BareHiddenFileIsNeither(e: string)
    requires ValidExt(e)
    ensures ClassifyMedia(e) == Neither
  {
    CutsOfExt(e);
    assert AllDots(e[0..0]);
    assert Ext(e) == [];
    NoExtIsNeither(e);
  }

  /** A path that splitext gives no extension is neither a video nor an image. */
  lemma NoExtIsNeither(p: string)
    requires Ext(p) == []
    ensures ClassifyMedia(p) == Neither
  {
    assert Lower([]) == [];
  }

  /** `f"inspection_report_{work_order_number if work_order_number else 'analysis'}.txt"`. */
  function ReportFilename(workOrderNumber: string): (name: string)
    ensures |name| >= 22
    ensures name[..18] == "inspection_report_" && name[|name| - 4..] == ".txt"
    ensures workOrderNumber != "" ==> name[18..|name| - 4] == workOrderNumber
    ensures workOrderNumber == "" ==> name[18..|name| - 4] == "analysis"
  {
    "inspection_report_" + (if workOrderNumber != "" then workOrderNumber else "analysis") + ".txt"
  }

  /**
   Two numbers share a report name exactly when they are equal, or when
   one is empty and the other is `analysis`.
   */
  lemma ReportFilenameCollisions(a: string, b: string)
    ensures ReportFilename(a) == ReportFilename(b) <==>
              a == b || (a in {"", "analysis"} && b in {"", "analysis"})
  {
    var na, nb := ReportFilename(a), ReportFilename(b);
    if na == nb {
      assert na[18..|na| - 4] == nb[18..|nb| - 4];
    }
  }
}
