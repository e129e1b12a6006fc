/** `merge_audio_files`: the introduction, when a path is given, followed by
    every `.wav` file of the folder in ascending name order, concatenated.
    A recording is its sequence of samples; reading a file is the injected
    `load`. */
module AudioMerge {
  import opened Wrappers
  import opened Seqs
  import opened Text
  import opened Listing
  import Narration

  type Audio = Narration.Audio

  const Wav: string := ".wav"

  /** `if intro_path:` — no path and the empty path both leave the
      introduction out. */
  function IntroPaths(intro: Option<string>): (r: seq<string>)
    ensures |r| <= 1
    ensures |r| == 1 <==> intro.Some? && intro.value != ""
    ensures |r| == 1 ==> r[0] == intro.value
  {
    if intro.Some? && intro.value != "" then [intro.value] else []
  }

  /** The folder's `.wav` files, in the order they are appended. */
  function WavFiles(folder: string, names: seq<string>): (r: seq<string>)
    ensures |r| == |Listed(names, Wav)|
  {
    Map((f: string) => PathJoin(folder, f), Listed(names, Wav))
  }

  /** The files read, in the order they are concatenated. */
  function MergePaths(intro: Option<string>, folder: string, names: seq<string>): (r: seq<string>)
    ensures r == IntroPaths(intro) + WavFiles(folder, names)
    ensures |r| == |IntroPaths(intro)| + |Listed(names, Wav)|
  {
    IntroPaths(intro) + WavFiles(folder, names)
  }

  /** `combined` after the loop. */
  function MergeAudio(intro: Option<string>, folder: string, names: seq<string>, load: string -> Audio): Audio {
    Flatten(Map(load, MergePaths(intro, folder, names)))
  }

  // ---------------------------------------------------------------------
  // properties

  /** The merged recording opens with the introduction when one is given
      and is just the files otherwise. */
  lemma MergeStartsWithIntro(intro: Option<string>, folder: string, names: seq<string>, load: string -> Audio)
    ensures intro.Some? && intro.value != "" ==>
      MergeAudio(intro, folder, names, load) == load(intro.value) + MergeAudio(None, folder, names, load)
    ensures !(intro.Some? && intro.value != "") ==>
      MergeAudio(intro, folder, names, load) == MergeAudio(None, folder, names, load)
  {
    var files := WavFiles(folder, names);
    if intro.Some? && intro.value != "" {
      var paths := [intro.value] + files;
      assert MergePaths(None, folder, names) == files;
      assert MergePaths(intro, folder, names) == paths;
      assert Map(load, paths) == [load(intro.value)] + Map(load, files) by {
        MapAppend(load, [intro.value], files);
      }
      FlattenCons(load(intro.value), Map(load, files));
    } else {
      assert MergePaths(intro, folder, names) == files;
      assert MergePaths(None, folder, names) == files;
    }
  }

  /** Merging adds lengths: the result is as long as all the parts. */
  lemma {:induction false} FlattenLength(parts: seq<Audio>)
    ensures |Flatten(parts)| == SumNat(Map<Audio, nat>((a: Audio) => |a|, parts))
    decreases |parts|
  {
    if parts != [] {
      FlattenLength(parts[1..]);
    }
  }

  lemma MergeLength(intro: Option<string>, folder: string, names: seq<string>, load: string -> Audio)
    ensures |MergeAudio(intro, folder, names, load)| ==
      SumNat(Map<string, nat>((p: string) => |load(p)|, MergePaths(intro, folder, names)))
  {
    var paths := MergePaths(intro, folder, names);
    FlattenLength(Map(load, paths));
    MapCompose(load, paths);
  }

  lemma {:induction false} MapCompose(load: string -> Audio, paths: seq<string>)
    ensures Map<Audio, nat>((a: Audio) => |a|, Map(load, paths)) == Map<string, nat>((p: string) => |load(p)|, paths)
    decreases |paths|
  {
    if paths != [] {
      MapCompose(load, paths[1..]);
    }
  }

  /** The order in which the folder lists its files does not matter. */
  lemma MergeIndependent(intro: Option<string>, folder: string, a: seq<string>, b: seq<string>, load: string -> Audio)
    requires multiset(a) == multiset(b)
    ensures MergeAudio(intro, folder, a, load) == MergeAudio(intro, folder, b, load)
  {
    ListedIndependent(a, b, Wav);
  }

  /** A file without the `.wav` suffix is not read. */
  lemma MergeIgnores(intro: Option<string>, folder: string, names: seq<string>, other: string, load: string -> Audio)
    requires !EndsWith(other, Wav)
    ensures MergeAudio(intro, folder, names + [other], load) == MergeAudio(intro, folder, names, load)
  {
    WithSuffixIgnores(names, other, Wav);
  }

  /** There is no deduplication: an introduction that also lies in the
      folder is read twice, first and again among the files. */
  lemma IntroReadTwice(folder: string, names: seq<string>, f: string)
    requires f in names && EndsWith(f, Wav)
    ensures PathJoin(folder, f) != ""
    ensures MergePaths(Some(PathJoin(folder, f)), folder, names)[0] == PathJoin(folder, f)
    ensures exists j :: (1 <= j < |MergePaths(Some(PathJoin(folder, f)), folder, names)| &&
                         MergePaths(Some(PathJoin(folder, f)), folder, names)[j] == PathJoin(folder, f))
  {
    var p := PathJoin(folder, f);
    JoinedNonEmpty(folder, f);
    var files := WavFiles(folder, names);
    var k := WavFileAt(folder, names, f);
    assert IntroPaths(Some(p)) == [p];
    AtTwice(p, files, k);
  }

  lemma JoinedNonEmpty(folder: string, f: string)
    requires EndsWith(f, Wav)
    ensures PathJoin(folder, f) != ""
  {
    var r := PathJoin(folder, f);
    assert |r| >= |f| >= 4;
  }

  lemma AtTwice(p: string, files: seq<string>, k: nat)
    requires k < |files| && files[k] == p
    ensures ([p] + files)[0] == p
    ensures exists j :: 1 <= j < |[p] + files| && ([p] + files)[j] == p
  {
    assert ([p] + files)[1 + k] == p;
  }

  /** Every `.wav` name of the folder is read from the folder. */
  lemma WavFileAt(folder: string, names: seq<string>, f: string) returns (k: nat)
    requires f in names && EndsWith(f, Wav)
    ensures k < |WavFiles(folder, names)| && WavFiles(folder, names)[k] == PathJoin(folder, f)
  {
    var listed := Listed(names, Wav);
    assert f in listed;
    k :| 0 <= k < |listed| && listed[k] == f;
    MapAt((g: string) => PathJoin(folder, g), listed, k);
  }

  lemma {:induction false} MapAt<T, U>(f: T -> U, xs: seq<T>, k: nat)
    requires k < |xs|
    ensures Map(f, xs)[k] == f(xs[k])
    decreases k
  {
    if k > 0 {
      MapAt(f, xs[1..], k - 1);
    }
  }

  // ---------------------------------------------------------------------
  // the chunk files of a narration

  /** The `.wav` files of `n` chunks, numbered from zero, in chunk order. */
  function ChunkFiles(n: nat): (r: seq<string>)
    ensures |r| == n
    ensures forall i :: 0 <= i < n ==> r[i] == Narration.AudioName(Narration.ChunkId(i))
  {
    seq(n, (i: int) requires 0 <= i < n => Narration.AudioName(Narration.ChunkId(i)))
  }

  lemma ChunkFilesSorted(n: nat)
    requires n <= 1000000
    ensures Sorted(ChunkFiles(n))
  {
    var s := ChunkFiles(n);
    forall i, j | 0 <= i < j < |s|
      ensures !LexLess(s[j], s[i])
    {
      Narration.ChunkNamesOrdered(j, i);
    }
  }

  lemma {:induction false} WithSuffixAll(names: seq<string>, suffix: string)
    requires forall i :: 0 <= i < |names| ==> EndsWith(names[i], suffix)
    ensures WithSuffix(names, suffix) == names
    decreases |names|
  {
    if names != [] {
      WithSuffixAll(names[1..], suffix);
    }
  }

  lemma ChunkFilesWav(n: nat)
    ensures forall i :: 0 <= i < n ==> EndsWith(ChunkFiles(n)[i], Wav)
  {
    forall i | 0 <= i < n
      ensures EndsWith(ChunkFiles(n)[i], Wav)
    {
      var id := Narration.ChunkId(i);
      assert (id + Wav)[|id|..] == Wav;
    }
  }

  /** Chunk files, listed in any order, are merged in chunk order: the
      six-digit names sort as their numbers do. */
  lemma ChunksMergeInOrder(n: nat, names: seq<string>)
    requires n <= 1000000
    requires multiset(names) == multiset(ChunkFiles(n))
    ensures Listed(names, Wav) == ChunkFiles(n)
  {
    var c := ChunkFiles(n);
    ChunkFilesWav(n);
    WithSuffixAll(c, Wav);
    ChunkFilesSorted(n);
    SortedFixed(c);
    ListedIndependent(names, c, Wav);
  }
}
