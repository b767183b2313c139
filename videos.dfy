/**
 * Turning the saved figures into videos, as the last step of Plot_all.py
 * does (one video per output folder) and as VideoMaker.py does on its own.
 *
 * Both list a folder, keep the `.jpg` names, order them with `FrameOrder`,
 * decode them and hand the decoded images to a video writer at 5 frames per
 * second. Decoding is the parameter `imread(folder, name)`: the decoded
 * image, or None where `cv2.imread` returns None. The writer keeps the
 * frames it is given.
 */
module Videos {
  import opened Wrappers
  import opened FrameOrder
  import opened Profiles

  /** A decoded image: its size and its pixels. */
  datatype Image = Image(width: nat, height: nat, pixels: seq<int>)

  /** A finished video: its file name, frame rate, frame size and frames. */
  datatype Video = Video(file: string, fps: nat, width: nat, height: nat, frames: seq<Image>)

  /** What happens for one folder: no video, a video, or an exception the
      script does not catch (a `.jpg` name without digits makes the sort
      key raise), which ends the run. */
  datatype FolderResult = NoVideo | Made(video: Video) | Crash

  /** The frame rate both scripts pass to `cv2.VideoWriter`. */
  const Fps: nat := 5

  /** `cv2.VideoWriter`: opened with a file name, a rate and a frame size;
      every `write` appends a frame. */
  class VideoWriter {
    var file: string
    var fps: nat
    var width: nat
    var height: nat
    var frames: seq<Image>

    constructor(file: string, fps: nat, width: nat, height: nat)
      ensures this.file == file && this.fps == fps
      ensures this.width == width && this.height == height
      ensures frames == []
    {
      this.file := file;
      this.fps := fps;
      this.width := width;
      this.height := height;
      frames := [];
    }

    method Write(img: Image)
      modifies this
      ensures frames == old(frames) + [img]
      ensures file == old(file) && fps == old(fps)
      ensures width == old(width) && height == old(height)
    {
      frames := frames + [img];
    }

    /** The video as written so far. */
    function Contents(): Video
      reads this
    {
      Video(file, fps, width, height, frames)
    }
  }

  /** The image one decode leaves, if any. */
  function Kept(o: Option<Image>): (r: seq<Image>)
    ensures |r| <= 1
  {
    if o.Some? then [o.value] else []
  }

  /** The images of `names` that decode, in the order of `names`. */
  function Decoded(folder: string, names: seq<string>, imread: (string, string) -> Option<Image>): (r: seq<Image>)
    ensures |r| <= |names|
  {
    if |names| == 0 then []
    else Decoded(folder, names[..|names| - 1], imread) + Kept(imread(folder, names[|names| - 1]))
  }

  lemma DecodedStep(folder: string, names: seq<string>, i: nat, imread: (string, string) -> Option<Image>)
    requires i < |names|
    ensures Decoded(folder, names[..i + 1], imread) == Decoded(folder, names[..i], imread) + Kept(imread(folder, names[i]))
  {
    assert names[..i + 1][..i] == names[..i];
  }

  /** A frame is kept exactly when its name decodes: every kept image is
      the decoding of some listed name, and every decodable name gives a
      kept image. */
  lemma {:induction false} DecodedIff(folder: string, names: seq<string>, imread: (string, string) -> Option<Image>, img: Image)
    ensures img in Decoded(folder, names, imread) <==> exists k :: 0 <= k < |names| && imread(folder, names[k]) == Some(img)
    decreases |names|
  {
    if |names| > 0 {
      var init := names[..|names| - 1];
      DecodedIff(folder, init, imread, img);
      if img in Decoded(folder, init, imread) {
        var k :| 0 <= k < |init| && imread(folder, init[k]) == Some(img);
        assert imread(folder, names[k]) == Some(img);
      }
      if exists k :: 0 <= k < |names| && imread(folder, names[k]) == Some(img) {
        var k :| 0 <= k < |names| && imread(folder, names[k]) == Some(img);
        if k < |names| - 1 {
          assert imread(folder, init[k]) == Some(img);
        }
      }
    }
  }

  /** No name decodes exactly when nothing is kept. */
  lemma {:induction false} DecodedEmptyIff(folder: string, names: seq<string>, imread: (string, string) -> Option<Image>)
    ensures Decoded(folder, names, imread) == [] <==> forall k :: 0 <= k < |names| ==> imread(folder, names[k]).None?
    decreases |names|
  {
    if |names| > 0 {
      var init := names[..|names| - 1];
      DecodedEmptyIff(folder, init, imread);
      assert forall k :: 0 <= k < |init| ==> init[k] == names[k];
    }
  }

  /** When the first name decodes, its image is the first kept one. */
  lemma {:induction false} DecodedFirst(folder: string, names: seq<string>, imread: (string, string) -> Option<Image>)
    requires |names| > 0 && imread(folder, names[0]).Some?
    ensures |Decoded(folder, names, imread)| > 0
    ensures Decoded(folder, names, imread)[0] == imread(folder, names[0]).value
    decreases |names|
  {
    if |names| > 1 {
      var init := names[..|names| - 1];
      assert init[0] == names[0];
      DecodedFirst(folder, init, imread);
    }
  }

  /** The video step of Plot_all.py for one folder (lines 200-222): the
      images that decode, in frame order, written at the size of the first of
      them; nothing when the folder holds no `.jpg` or none decodes. */
  function PlotAllVideo(folder: string, listing: seq<string>, imread: (string, string) -> Option<Image>): (r: FolderResult)
    ensures r.Crash? <==> |JpgFiles(listing)| > 0 && FrameOrder.FrameOrder(listing).None?
    ensures r.Made? ==> r.video.file == folder + ".avi" && r.video.fps == Fps && |r.video.frames| > 0
    ensures r.Made? ==> r.video.width == r.video.frames[0].width && r.video.height == r.video.frames[0].height
  {
    if |JpgFiles(listing)| == 0 then NoVideo
    else
      match FrameOrder.FrameOrder(listing)
      case None => Crash
      case Some(order) =>
        var imgs := Decoded(folder, order, imread);
        if |imgs| == 0 then NoVideo
        else Made(Video(folder + ".avi", Fps, imgs[0].width, imgs[0].height, imgs))
  }

  /** The same step as the script performs it: decoded images are collected
      one by one, then written one by one. */
  method PlotAllFolderVideo(folder: string, listing: seq<string>, imread: (string, string) -> Option<Image>)
    returns (r: FolderResult)
    ensures r == PlotAllVideo(folder, listing, imread)
  {
    if |JpgFiles(listing)| == 0 {
      return NoVideo;
    }
    var sorted := FrameOrder.FrameOrder(listing);
    if sorted.None? {
      return Crash;
    }
    var imgArray := ReadFrames(folder, sorted.value, imread);
    if |imgArray| == 0 {
      return NoVideo;
    }
    var video := WriteVideo(folder + ".avi", imgArray);
    r := Made(video);
  }

  /** The first loop of the step: every file in frame order is read and
      the images that decode are collected in that order. */
  method ReadFrames(folder: string, order: seq<string>, imread: (string, string) -> Option<Image>)
    returns (imgs: seq<Image>)
    ensures imgs == Decoded(folder, order, imread)
  {
    imgs := [];
    var i := 0;
    while i < |order|
      invariant 0 <= i <= |order|
      invariant imgs == Decoded(folder, order[..i], imread)
    {
      var img := imread(folder, order[i]);
      DecodedStep(folder, order, i, imread);
      if img.Some? {
        imgs := imgs + [img.value];
      }
      i := i + 1;
    }
    assert order[..i] == order;
  }

  /** The second loop: a writer sized by the first image receives every
      image in turn. */
  method WriteVideo(file: string, imgs: seq<Image>) returns (v: Video)
    requires |imgs| > 0
    ensures v == Video(file, Fps, imgs[0].width, imgs[0].height, imgs)
  {
    var out := new VideoWriter(file, Fps, imgs[0].width, imgs[0].height);
    var j := 0;
    while j < |imgs|
      invariant 0 <= j <= |imgs|
      invariant out.frames == imgs[..j]
      invariant out.file == file && out.fps == Fps
      invariant out.width == imgs[0].width && out.height == imgs[0].height
    {
      out.Write(imgs[j]);
      assert imgs[..j + 1] == imgs[..j] + [imgs[j]];
      j := j + 1;
    }
    assert imgs[..j] == imgs;
    v := out.Contents();
  }

  /** VideoMaker.py for one variable (lines 13-58): skipped when the
      directory is missing, holds no `.jpg`, or its first file in frame
      order does not decode; otherwise every file that decodes is written,
      the first included, at the size of the first. */
  function VideoMakerVideo(folder: string, present: bool, listing: seq<string>,
                           imread: (string, string) -> Option<Image>): (r: FolderResult)
    ensures r.Crash? <==> present && |JpgFiles(listing)| > 0 && FrameOrder.FrameOrder(listing).None?
    ensures r.Made? ==> r.video.file == folder + ".avi" && r.video.fps == Fps && |r.video.frames| > 0
    ensures r.Made? ==> r.video.width == r.video.frames[0].width && r.video.height == r.video.frames[0].height
  {
    if !present || |JpgFiles(listing)| == 0 then NoVideo
    else
      match FrameOrder.FrameOrder(listing)
      case None => Crash
      case Some(order) =>
        match imread(folder, order[0])
        case None => NoVideo
        case Some(first) =>
          DecodedFirst(folder, order, imread);
          Made(Video(folder + ".avi", Fps, first.width, first.height, Decoded(folder, order, imread)))
  }

  method VideoMakerFolder(folder: string, present: bool, listing: seq<string>,
                          imread: (string, string) -> Option<Image>)
    returns (r: FolderResult)
    ensures r == VideoMakerVideo(folder, present, listing, imread)
  {
    if !present {
      return NoVideo;
    }
    if |JpgFiles(listing)| == 0 {
      return NoVideo;
    }
    var sorted := FrameOrder.FrameOrder(listing);
    if sorted.None? {
      return Crash;
    }
    var order := sorted.value;
    var first := imread(folder, order[0]);
    if first.None? {
      return NoVideo;
    }
    var out := new VideoWriter(folder + ".avi", Fps, first.value.width, first.value.height);
    var i := 0;
    while i < |order|
      invariant 0 <= i <= |order|
      invariant out.frames == Decoded(folder, order[..i], imread)
      invariant out.file == folder + ".avi" && out.fps == Fps
      invariant out.width == first.value.width && out.height == first.value.height
    {
      var img := imread(folder, order[i]);
      DecodedStep(folder, order, i, imread);
      if img.Some? {
        out.Write(img.value);
      }
      i := i + 1;
    }
    assert order[..i] == order;
    r := Made(out.Contents());
  }

  /** Where the first file in frame order decodes, the two scripts make the
      same video. */
  lemma SameVideoWhenFirstDecodes(folder: string, listing: seq<string>, imread: (string, string) -> Option<Image>)
    requires |JpgFiles(listing)| > 0 && FrameOrder.FrameOrder(listing).Some?
    requires imread(folder, FrameOrder.FrameOrder(listing).value[0]).Some?
    ensures PlotAllVideo(folder, listing, imread) == VideoMakerVideo(folder, true, listing, imread)
    ensures PlotAllVideo(folder, listing, imread).Made?
  {
    DecodedFirst(folder, FrameOrder.FrameOrder(listing).value, imread);
  }

  /** Where the first file does not decode but a later one does,
      Plot_all.py still makes a video and VideoMaker.py skips the
      variable. */
  lemma FirstUnreadableDiffers(folder: string, listing: seq<string>, imread: (string, string) -> Option<Image>, k: nat)
    requires |JpgFiles(listing)| > 0 && FrameOrder.FrameOrder(listing).Some?
    requires imread(folder, FrameOrder.FrameOrder(listing).value[0]).None?
    requires k < |FrameOrder.FrameOrder(listing).value| && imread(folder, FrameOrder.FrameOrder(listing).value[k]).Some?
    ensures PlotAllVideo(folder, listing, imread).Made?
    ensures VideoMakerVideo(folder, true, listing, imread) == NoVideo
  {
    var order := FrameOrder.FrameOrder(listing).value;
    DecodedEmptyIff(folder, order, imread);
  }

  /** Plot_all.py writes no video exactly when no file decodes (given that
      the folder holds `.jpg` files whose names all carry digits). */
  lemma PlotAllNoVideoIff(folder: string, listing: seq<string>, imread: (string, string) -> Option<Image>)
    requires |JpgFiles(listing)| > 0 && FrameOrder.FrameOrder(listing).Some?
    ensures PlotAllVideo(folder, listing, imread) == NoVideo
        <==> forall k :: 0 <= k < |FrameOrder.FrameOrder(listing).value| ==> imread(folder, FrameOrder.FrameOrder(listing).value[k]).None?
  {
    DecodedEmptyIff(folder, FrameOrder.FrameOrder(listing).value, imread);
  }

  /** Every video either script makes runs at 5 frames per second, is named
      after its folder and holds, in frame order, exactly the folder's
      images that decode, and at least one of them. */
  lemma MadeVideoShape(folder: string, listing: seq<string>, imread: (string, string) -> Option<Image>)
    ensures PlotAllVideo(folder, listing, imread).Made? ==>
      var v := PlotAllVideo(folder, listing, imread).video;
      && v.fps == Fps && v.file == folder + ".avi" && |v.frames| > 0
      && v.frames == Decoded(folder, FrameOrder.FrameOrder(listing).value, imread)
    ensures VideoMakerVideo(folder, true, listing, imread).Made? ==>
      var v := VideoMakerVideo(folder, true, listing, imread).video;
      && v.fps == Fps && v.file == folder + ".avi" && |v.frames| > 0
      && v.frames == Decoded(folder, FrameOrder.FrameOrder(listing).value, imread)
  {
    if VideoMakerVideo(folder, true, listing, imread).Made? {
      DecodedFirst(folder, FrameOrder.FrameOrder(listing).value, imread);
    }
  }

  /** Both scripts visit the six folders in order, one step per folder.
      The result is the videos made so far and whether an exception ended
      the run; after one, no later folder is visited. */
  function Collected(folders: seq<string>, step: string -> FolderResult): (seq<Video>, bool) {
    if |folders| == 0 then ([], false)
    else
      var (before, crashed) := Collected(folders[..|folders| - 1], step);
      var r := step(folders[|folders| - 1]);
      if crashed || r.Crash? then (before, true)
      else if r.Made? then (before + [r.video], false)
      else (before, false)
  }

  lemma CollectedStep(folders: seq<string>, i: nat, step: string -> FolderResult)
    requires i < |folders|
    ensures Collected(folders[..i + 1], step)
         == (var (before, crashed) := Collected(folders[..i], step);
             var r := step(folders[i]);
             if crashed || r.Crash? then (before, true)
             else if r.Made? then (before + [r.video], false)
             else (before, false))
  {
    assert folders[..i + 1][..i] == folders[..i];
  }

  /** Once a folder crashes, the later folders change nothing. */
  lemma {:induction false} CrashIsFinal(folders: seq<string>, i: nat, step: string -> FolderResult)
    requires i <= |folders|
    requires i == |folders| || Collected(folders[..i], step).1
    ensures Collected(folders, step) == Collected(folders[..i], step)
    decreases |folders| - i
  {
    if i < |folders| {
      CollectedStep(folders, i, step);
      CrashIsFinal(folders, i + 1, step);
    } else {
      assert folders[..i] == folders;
    }
  }

  /** Every video collected is the one its folder's step makes, and the run
      crashes exactly when some folder's step does. */
  lemma {:induction false} CollectedIff(folders: seq<string>, step: string -> FolderResult)
    ensures Collected(folders, step).1 <==> exists k :: 0 <= k < |folders| && step(folders[k]).Crash?
    ensures forall v :: v in Collected(folders, step).0 ==> exists f :: f in folders && step(f) == Made(v)
    decreases |folders|
  {
    if |folders| > 0 {
      var init := folders[..|folders| - 1];
      CollectedIff(init, step);
      assert forall k :: 0 <= k < |init| ==> init[k] == folders[k];
      assert forall f :: f in init ==> f in folders;
    }
  }

  /** Without a crash, every folder's video is collected. */
  lemma {:induction false} CollectedComplete(folders: seq<string>, step: string -> FolderResult, k: nat)
    requires !Collected(folders, step).1
    requires k < |folders| && step(folders[k]).Made?
    ensures step(folders[k]).video in Collected(folders, step).0
    decreases |folders|
  {
    var init := folders[..|folders| - 1];
    if k < |folders| - 1 {
      assert init[k] == folders[k];
      CollectedComplete(init, step, k);
    }
  }

  /** The Plot_all.py step for one folder of the listing map: a folder that
      is missing makes `os.listdir` raise. */
  function PlotAllStep(dirs: map<string, seq<string>>, imread: (string, string) -> Option<Image>): (step: string -> FolderResult)
    ensures forall f :: f !in dirs ==> step(f) == Crash
    ensures forall f :: f in dirs ==> step(f) == PlotAllVideo(f, dirs[f], imread)
  {
    f => if f in dirs then PlotAllVideo(f, dirs[f], imread) else Crash
  }

  /** The VideoMaker.py step for one folder: a missing folder is skipped. */
  function VideoMakerStep(dirs: map<string, seq<string>>, imread: (string, string) -> Option<Image>): (step: string -> FolderResult)
    ensures forall f :: f !in dirs ==> step(f) == NoVideo
    ensures forall f :: f in dirs ==> step(f) == VideoMakerVideo(f, true, dirs[f], imread)
  {
    f => VideoMakerVideo(f, f in dirs, if f in dirs then dirs[f] else [], imread)
  }

  /** The video loop of Plot_all.py (lines 200-222). */
  method PlotAllVideos(dirs: map<string, seq<string>>, imread: (string, string) -> Option<Image>)
    returns (videos: seq<Video>, crashed: bool)
    ensures (videos, crashed) == Collected(Folders, PlotAllStep(dirs, imread))
  {
    videos, crashed := [], false;
    var i := 0;
    while i < |Folders| && !crashed
      invariant 0 <= i <= |Folders|
      invariant (videos, crashed) == Collected(Folders[..i], PlotAllStep(dirs, imread))
      decreases |Folders| - i
    {
      var f := Folders[i];
      var r := Crash;
      if f in dirs {
        r := PlotAllFolderVideo(f, dirs[f], imread);
      }
      CollectedStep(Folders, i, PlotAllStep(dirs, imread));
      if r.Made? {
        videos := videos + [r.video];
      } else if r.Crash? {
        crashed := true;
      }
      i := i + 1;
    }
    CrashIsFinal(Folders, i, PlotAllStep(dirs, imread));
  }

  /** The loop of VideoMaker.py (lines 13-58). */
  method MakeVideos(dirs: map<string, seq<string>>, imread: (string, string) -> Option<Image>)
    returns (videos: seq<Video>, crashed: bool)
    ensures (videos, crashed) == Collected(Folders, VideoMakerStep(dirs, imread))
  {
    videos, crashed := [], false;
    var i := 0;
    while i < |Folders| && !crashed
      invariant 0 <= i <= |Folders|
      invariant (videos, crashed) == Collected(Folders[..i], VideoMakerStep(dirs, imread))
      decreases |Folders| - i
    {
      var f := Folders[i];
      var r := VideoMakerFolder(f, f in dirs, if f in dirs then dirs[f] else [], imread);
      CollectedStep(Folders, i, VideoMakerStep(dirs, imread));
      if r.Made? {
        videos := videos + [r.video];
      } else if r.Crash? {
        crashed := true;
      }
      i := i + 1;
    }
    CrashIsFinal(Folders, i, VideoMakerStep(dirs, imread));
  }
}
