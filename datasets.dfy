/**
 * The dataset loop of Plot_all.py: every dataset of every group of the
 * results store is named `<prefix>_<tag>_<time>`; a dataset whose tag is a
 * plotted variable becomes the image `<tag>_<time>.jpg` in that variable's
 * folder, titled with the time; any other tag is skipped, and a failure
 * while handling one dataset is reported and the loop moves on.
 */
module Datasets {
  import opened Wrappers
  import opened Text
  import opened Profiles

  /** One dataset of the store: its name, and whether reading its matrix,
      drawing it and saving the figure go through (they raise otherwise). */
  datatype Dataset = Dataset(name: string, drawable: bool)

  /** A saved figure: the variable drawn, the file written in
      `Folder(variable)`, and the title. */
  datatype Image = Image(variable: Variable, file: string, title: string)

  /** What the loop body does with one dataset. */
  datatype Outcome =
    | Saved(image: Image)
    | Skipped(tag: string)   // the tag is not one of the plotted variables
    | Failed                 // an exception was caught

  /** `dset.split("_", 2)`. */
  function NameParts(name: string): (r: seq<string>)
    ensures 1 <= |r| <= 3
    ensures |r| >= 2 ==> '_' !in r[0] && '_' !in r[1]
  {
    SplitMax(name, '_', 2)
  }

  /** `dset.split("_", 1)[1] + ".jpg"`, for a name holding an underscore. */
  function OutFigureName(name: string): string
    requires |SplitMax(name, '_', 1)| == 2
  {
    SplitMax(name, '_', 1)[1] + ".jpg"
  }

  /** The loop body for one dataset. */
  function Process(d: Dataset): (r: Outcome)
    ensures r.Saved? <==> |NameParts(d.name)| == 3 && NameParts(d.name)[1] in VariableList && d.drawable
    ensures r.Skipped? <==> |NameParts(d.name)| >= 2 && NameParts(d.name)[1] !in VariableList
    ensures r.Saved? ==>
      && Tag(r.image.variable) == NameParts(d.name)[1]
      && r.image.title == NameParts(d.name)[2]
      && r.image.file == Tag(r.image.variable) + "_" + r.image.title + ".jpg"
  {
    var parts := NameParts(d.name);
    if |parts| < 2 then Failed
    else
      match TagOf(parts[1])
      case None => Skipped(parts[1])
      case Some(v) =>
        if |parts| < 3 || !d.drawable then Failed
        else
          OutNameIsTagAndTime(d.name);
          Saved(Image(v, OutFigureName(d.name), parts[2]))
  }

  /** The figure name, taken after the first underscore, is the tag and the
      time label joined by an underscore. */
  lemma OutNameIsTagAndTime(name: string)
    requires |NameParts(name)| == 3
    ensures |SplitMax(name, '_', 1)| == 2
    ensures SplitMax(name, '_', 1)[1] == NameParts(name)[1] + "_" + NameParts(name)[2]
  {
    var i := IndexOf(name, '_').value;
    var t := name[i + 1..];
    var j := IndexOf(t, '_').value;
    assert SplitMax(name, '_', 1) == [name[..i], t];
    assert NameParts(name) == [name[..i], t[..j], t[j + 1..]];
    assert t == t[..j] + "_" + t[j + 1..];
  }

  /** Splitting at an underscore-free head and the underscore after it. */
  lemma PartsOfJoined(a: string, b: string, m: nat)
    requires '_' !in a && m >= 1
    ensures SplitMax(a + "_" + b, '_', m) == [a] + SplitMax(b, '_', m - 1)
  {
    var s := a + "_" + b;
    assert s[..|a|] == a && s[|a| + 1..] == b && s[|a|] == '_';
    IndexOfFirst(s, '_', |a|);
  }

  lemma TagWithoutUnderscore(v: Variable)
    ensures '_' !in Tag(v)
  {
  }

  /** A name built from a prefix without underscores, a variable's tag and
      any time label (underscores allowed) is read back into that tag and
      that time label. */
  lemma NameRoundTrip(prefix: string, v: Variable, time: string)
    requires '_' !in prefix
    ensures Process(Dataset(prefix + "_" + Tag(v) + "_" + time, true))
         == Saved(Image(v, Tag(v) + "_" + time + ".jpg", time))
  {
    var name := prefix + "_" + Tag(v) + "_" + time;
    PartsOfName(prefix, v, time);
    OutNameIsTagAndTime(name);
    TagRoundTrip(v);
  }

  /** The three parts of a well-formed dataset name. */
  lemma PartsOfName(prefix: string, v: Variable, time: string)
    requires '_' !in prefix
    ensures NameParts(prefix + "_" + Tag(v) + "_" + time) == [prefix, Tag(v), time]
  {
    var t := Tag(v) + "_" + time;
    assert prefix + "_" + Tag(v) + "_" + time == prefix + "_" + t;
    TagWithoutUnderscore(v);
    PartsOfJoined(prefix, t, 2);
    PartsOfJoined(Tag(v), time, 1);
    assert SplitMax(time, '_', 0) == [time];
  }

  /** A tag outside `variable_list` is skipped, whatever follows it. */
  lemma UnknownTagSkipped(prefix: string, tag: string, rest: string, drawable: bool)
    requires '_' !in prefix && '_' !in tag && tag !in VariableList
    ensures Process(Dataset(prefix + "_" + tag + "_" + rest, drawable)) == Skipped(tag)
  {
    var t := tag + "_" + rest;
    assert prefix + "_" + tag + "_" + rest == prefix + "_" + t;
    PartsOfJoined(prefix, t, 2);
    PartsOfJoined(tag, rest, 1);
  }

  /** A name without an underscore has no tag: the index error is caught
      and nothing is saved. */
  lemma NoUnderscoreFails(name: string, drawable: bool)
    requires '_' !in name
    ensures Process(Dataset(name, drawable)) == Failed
  {
    assert IndexOf(name, '_').None?;
  }

  /** A plotted tag with no time label after it fails at the second split,
      after the tag test, and nothing is saved. */
  lemma MissingTimeFails(prefix: string, v: Variable, drawable: bool)
    requires '_' !in prefix
    ensures Process(Dataset(prefix + "_" + Tag(v), drawable)) == Failed
  {
    TagWithoutUnderscore(v);
    PartsOfJoined(prefix, Tag(v), 2);
    assert IndexOf(Tag(v), '_').None?;
  }

  /** The figure an outcome leaves behind, if any. */
  function SavedOf(o: Outcome): (r: seq<Image>)
    ensures |r| <= 1
  {
    if o.Saved? then [o.image] else []
  }

  /** The figures the loop saves, in order, for a sequence of datasets. */
  function SavedFrom(ds: seq<Dataset>): (r: seq<Image>)
    ensures |r| <= |ds|
  {
    if |ds| == 0 then [] else SavedFrom(ds[..|ds| - 1]) + SavedOf(Process(ds[|ds| - 1]))
  }

  lemma SavedFromStep(ds: seq<Dataset>, d: nat)
    requires d < |ds|
    ensures SavedFrom(ds[..d + 1]) == SavedFrom(ds[..d]) + SavedOf(Process(ds[d]))
  {
    assert ds[..d + 1][..d] == ds[..d];
  }

  /** The figures saved for a whole store, group after group. */
  function SavedFromStore(groups: seq<seq<Dataset>>): (r: seq<Image>)
    ensures |r| <= DatasetCount(groups)
  {
    if |groups| == 0 then []
    else SavedFromStore(groups[..|groups| - 1]) + SavedFrom(groups[|groups| - 1])
  }

  /** The number of datasets in the store. */
  function DatasetCount(groups: seq<seq<Dataset>>): nat {
    if |groups| == 0 then 0 else DatasetCount(groups[..|groups| - 1]) + |groups[|groups| - 1]|
  }

  lemma SavedFromStoreStep(groups: seq<seq<Dataset>>, g: nat)
    requires g < |groups|
    ensures SavedFromStore(groups[..g + 1]) == SavedFromStore(groups[..g]) + SavedFrom(groups[g])
  {
    assert groups[..g + 1][..g] == groups[..g];
  }

  /** Every figure the loop saves comes from a dataset of a plotted
      variable, is a `.jpg` named after its tag and time, and lands in one
      of the six output folders. */
  lemma {:induction false} SavedImagesWellFormed(ds: seq<Dataset>)
    ensures forall k :: 0 <= k < |SavedFrom(ds)| ==>
      SavedFrom(ds)[k].file == Tag(SavedFrom(ds)[k].variable) + "_" + SavedFrom(ds)[k].title + ".jpg"
      && Folder(SavedFrom(ds)[k].variable) in Folders
    decreases |ds|
  {
    FoldersAreTheVideoFolders();
    if |ds| > 0 {
      SavedImagesWellFormed(ds[..|ds| - 1]);
    }
  }

  /** A dataset is saved exactly when `Process` says so: the loop neither
      drops a drawable dataset nor saves anything for one it skips. */
  lemma {:induction false} SavedIffProcessed(ds: seq<Dataset>, img: Image)
    ensures img in SavedFrom(ds) <==> exists k :: 0 <= k < |ds| && Process(ds[k]) == Saved(img)
    decreases |ds|
  {
    if |ds| > 0 {
      var init := ds[..|ds| - 1];
      SavedIffProcessed(init, img);
      if img in SavedFrom(init) {
        var k :| 0 <= k < |init| && Process(init[k]) == Saved(img);
        assert Process(ds[k]) == Saved(img);
      }
      if exists k :: 0 <= k < |ds| && Process(ds[k]) == Saved(img) {
        var k :| 0 <= k < |ds| && Process(ds[k]) == Saved(img);
        if k < |ds| - 1 {
          assert Process(init[k]) == Saved(img);
        }
      }
    }
  }

  /** The same for the whole store: every figure `PlotAll` saves is a
      `.jpg` named after its tag and time, in one of the six folders. */
  lemma {:induction false} StoreImagesWellFormed(groups: seq<seq<Dataset>>)
    ensures forall k :: 0 <= k < |SavedFromStore(groups)| ==>
      SavedFromStore(groups)[k].file == Tag(SavedFromStore(groups)[k].variable) + "_" + SavedFromStore(groups)[k].title + ".jpg"
      && Folder(SavedFromStore(groups)[k].variable) in Folders
    decreases |groups|
  {
    if |groups| > 0 {
      var init := groups[..|groups| - 1];
      StoreImagesWellFormed(init);
      SavedImagesWellFormed(groups[|groups| - 1]);
      var a: seq<Image> := SavedFromStore(init);
      var b: seq<Image> := SavedFrom(groups[|groups| - 1]);
      var all := a + b;
      assert SavedFromStore(groups) == all;
      forall k | 0 <= k < |all|
        ensures all[k].file == Tag(all[k].variable) + "_" + all[k].title + ".jpg"
          && Folder(all[k].variable) in Folders
      {
        if k >= |a| {
          assert all[k] == b[k - |a|];
        }
      }
    }
  }

  /** A figure is among those `PlotAll` saves exactly when the loop over
      one of the groups saves it. */
  lemma StoreSavedIffGroupSaved(groups: seq<seq<Dataset>>, img: Image)
    ensures img in SavedFromStore(groups) <==> exists g :: 0 <= g < |groups| && img in SavedFrom(groups[g])
  {
    var parts := PerGroup(groups);
    StoreIsFlat(groups);
    InFlat(parts, img);
    assert forall g :: 0 <= g < |groups| ==> parts[g] == SavedFrom(groups[g]);
  }

  /** The figures of each group, group by group. */
  function PerGroup(groups: seq<seq<Dataset>>): (r: seq<seq<Image>>)
    ensures |r| == |groups|
  {
    seq(|groups|, g requires 0 <= g < |groups| => SavedFrom(groups[g]))
  }

  /** The images of a sequence of groups of images, in order. */
  function Flat(parts: seq<seq<Image>>): seq<Image> {
    if |parts| == 0 then [] else Flat(parts[..|parts| - 1]) + parts[|parts| - 1]
  }

  lemma {:induction false} InFlat(parts: seq<seq<Image>>, img: Image)
    ensures img in Flat(parts) <==> exists g :: 0 <= g < |parts| && img in parts[g]
    decreases |parts|
  {
    if |parts| > 0 {
      var n := |parts| - 1;
      InFlat(parts[..n], img);
      forall g | 0 <= g < n ensures parts[..n][g] == parts[g] { }
    }
  }

  /** The store's figures are the figures of its groups, concatenated. */
  lemma {:induction false} StoreIsFlat(groups: seq<seq<Dataset>>)
    ensures SavedFromStore(groups) == Flat(PerGroup(groups))
    decreases |groups|
  {
    if |groups| > 0 {
      var n := |groups| - 1;
      StoreIsFlat(groups[..n]);
      assert PerGroup(groups)[..n] == PerGroup(groups[..n]);
    }
  }

  /** A figure is among those `PlotAll` saves exactly when some dataset of
      some group is processed into it. */
  lemma StoreSavedIffProcessed(groups: seq<seq<Dataset>>, img: Image)
    ensures img in SavedFromStore(groups) <==>
      exists g, k :: 0 <= g < |groups| && 0 <= k < |groups[g]| && Process(groups[g][k]) == Saved(img)
  {
    StoreSavedIffGroupSaved(groups, img);
    forall g | 0 <= g < |groups| {
      SavedIffProcessed(groups[g], img);
    }
  }

  /** The loop over groups and datasets: each dataset is processed in turn
      and the loop continues after a skipped or failed one. */
  method PlotAll(groups: seq<seq<Dataset>>) returns (saved: seq<Image>)
    ensures saved == SavedFromStore(groups)
  {
    saved := [];
    var g := 0;
    while g < |groups|
      invariant 0 <= g <= |groups|
      invariant saved == SavedFromStore(groups[..g])
    {
      var group := groups[g];
      var d := 0;
      var inGroup: seq<Image> := [];
      while d < |group|
        invariant 0 <= d <= |group|
        invariant inGroup == SavedFrom(group[..d])
      {
        var outcome := Process(group[d]);
        SavedFromStep(group, d);
        inGroup := inGroup + SavedOf(outcome);
        d := d + 1;
      }
      assert group[..d] == group;
      SavedFromStoreStep(groups, g);
      saved := saved + inGroup;
      g := g + 1;
    }
    assert groups[..g] == groups;
  }
}
