/** The file-selection step of the soundboard's refresh: a directory listing
    becomes the ordered list of entries the window shows, one button per
    `.mp3`/`.wav` file, or a single placeholder label when there is none.
    The sound directory is a parameter (the application derives it from its
    own install location) and the listing is an input sequence. */
module Soundboard {
  import opened Strings
  import opened Sorting
  import opened Paths

  /** Text of the label shown when the folder holds no sound file
      ("no sound files in the sounds/ folder"). */
  const PlaceholderText: string := "(ไม่มีไฟล์เสียงในโฟลเดอร์ sounds/)"

  /** One widget of the sound list: the placeholder label, or a button whose
      text is `name` and which plays the file at `path` when clicked. */
  datatype Entry = Placeholder | Button(name: string, path: string)

  datatype Option<T> = None | Some(value: T)

  /** The text the widget displays. */
  function Caption(e: Entry): string
  {
    match e
    case Placeholder => PlaceholderText
    case Button(name, _) => name
  }

  /** The file the widget plays when clicked, if any: the placeholder is a
      label and plays nothing. */
  function Click(e: Entry): (r: Option<string>)
    ensures r.Some? <==> e.Button?
    ensures r.Some? ==> r.value == e.path
  {
    match e
    case Placeholder => None
    case Button(_, path) => Some(path)
  }

  /** The name's lowercased form ends with `.mp3` or `.wav`. */
  predicate IsSoundFile(f: string): (b: bool)
    ensures b ==> |f| >= 4 && f[|f| - 4] == ExtSep
  {
    var l := Lower(f);
    assert EndsWith(l, ".mp3") || EndsWith(l, ".wav") ==> l[|l| - 4..][0] == l[|f| - 4];
    EndsWith(l, ".mp3") || EndsWith(l, ".wav")
  }

  predicate NoSoundFiles(listing: seq<string>)
  {
    forall f :: f in listing ==> !IsSoundFile(f)
  }

  /** The names of `listing` that are sound files, in listing order. */
  function Filter(listing: seq<string>): (r: seq<string>)
    ensures forall i :: 0 <= i < |r| ==> IsSoundFile(r[i])
    ensures forall f :: multiset(r)[f] == if IsSoundFile(f) then multiset(listing)[f] else 0
  {
    if |listing| == 0 then
      []
    else
      assert listing == [listing[0]] + listing[1..];
      if IsSoundFile(listing[0]) then [listing[0]] + Filter(listing[1..])
      else Filter(listing[1..])
  }

  /** The `files` list of the refresh: the sound files of the listing,
      sorted. Each matching name occurs as often as it was listed, so
      nothing is added or dropped. */
  function SoundFiles(listing: seq<string>): (files: seq<string>)
    ensures Sorted(files)
    ensures forall i :: 0 <= i < |files| ==> IsSoundFile(files[i])
    ensures forall f :: multiset(files)[f] == if IsSoundFile(f) then multiset(listing)[f] else 0
    ensures forall f :: f in files <==> f in listing && IsSoundFile(f)
    ensures |files| == 0 <==> NoSoundFiles(listing)
  {
    var files := Sort(Filter(listing));
    assert forall f :: f in files <==> multiset(files)[f] > 0;
    assert forall f :: f in listing <==> multiset(listing)[f] > 0;
    assert |files| == 0 ==> NoSoundFiles(listing) by {
      if |files| == 0 {
        forall f | f in listing ensures !IsSoundFile(f) {
          assert multiset(files)[f] == 0;
        }
      }
    }
    files
  }

  /** The button for one sound file: its text is the file name with the
      final extension removed, and it plays the file inside `dir`. */
  function MakeButton(dir: string, f: string): (e: Entry)
    ensures e.Button?
    ensures e.name + SplitExt(f).1 == f
    ensures EndsWith(e.path, f)
    ensures Sep !in f ==> Basename(e.path) == f
  {
    assert Sep !in f ==> Basename(Join(dir, f)) == f by {
      if Sep !in f {
        BasenameOfJoin(dir, f);
      }
    }
    Button(SplitExt(f).0, Join(dir, f))
  }

  /** One button per file, in the files' order. */
  function Buttons(dir: string, files: seq<string>): seq<Entry>
  {
    seq(|files|, i requires 0 <= i < |files| => MakeButton(dir, files[i]))
  }

  /** The entry list a refresh builds from a listing of `dir`. */
  function Entries(dir: string, listing: seq<string>): (r: seq<Entry>)
    ensures |r| > 0
    ensures r == [Placeholder] <==> NoSoundFiles(listing)
    ensures !NoSoundFiles(listing) ==> Placeholder !in r
    ensures !NoSoundFiles(listing) ==> |r| == |SoundFiles(listing)|
    ensures !NoSoundFiles(listing) ==>
      forall i :: 0 <= i < |r| ==> r[i] == MakeButton(dir, SoundFiles(listing)[i])
  {
    var files := SoundFiles(listing);
    if |files| == 0 then
      [Placeholder]
    else
      var bs := Buttons(dir, files);
      assert forall i :: 0 <= i < |bs| ==> bs[i].Button?;
      assert bs[0] != Placeholder;
      assert forall i :: 0 <= i < |bs| ==> bs[i] == MakeButton(dir, files[i]);
      bs
  }

  /** Refreshing discards the previous entries and shows those of the new
      listing. */
  function Refresh(previous: seq<Entry>, dir: string, listing: seq<string>): (r: seq<Entry>)
    ensures r == [Placeholder] <==> NoSoundFiles(listing)
    ensures !NoSoundFiles(listing) ==> |r| == |SoundFiles(listing)|
    ensures !NoSoundFiles(listing) ==>
      forall i :: 0 <= i < |r| ==> r[i] == MakeButton(dir, SoundFiles(listing)[i])
  {
    Entries(dir, listing)
  }

  /** What a refresh shows does not depend on what was shown before. */
  lemma RefreshForgetsPrevious(p1: seq<Entry>, p2: seq<Entry>, dir: string, listing: seq<string>)
    ensures Refresh(p1, dir, listing) == Refresh(p2, dir, listing)
  {
  }

  /** The file name each button plays, recovered from its path. */
  function PlayedFiles(es: seq<Entry>): (r: seq<string>)
    ensures |r| <= |es|
  {
    if |es| == 0 then []
    else if es[0].Button? then [Basename(es[0].path)] + PlayedFiles(es[1..])
    else PlayedFiles(es[1..])
  }

  /** On a list of buttons only, `PlayedFiles` keeps one file per button,
      in order. */
  lemma {:induction false} PlayedFilesOfAllButtons(es: seq<Entry>)
    requires forall i :: 0 <= i < |es| ==> es[i].Button?
    ensures |PlayedFiles(es)| == |es|
    ensures forall i :: 0 <= i < |es| ==> PlayedFiles(es)[i] == Basename(es[i].path)
  {
    if |es| > 0 {
      PlayedFilesOfAllButtons(es[1..]);
    }
  }

  /** The buttons built for a list of file names play exactly those files,
      one button each, in order. File names come from a directory listing and
      so contain no separator. */
  lemma PlayedFilesOfButtons(dir: string, files: seq<string>)
    requires forall i :: 0 <= i < |files| ==> Sep !in files[i]
    ensures PlayedFiles(Buttons(dir, files)) == files
  {
    var bs := Buttons(dir, files);
    PlayedFilesOfAllButtons(bs);
  }

  lemma EntriesPlaySoundFiles(dir: string, listing: seq<string>)
    requires forall i :: 0 <= i < |listing| ==> Sep !in listing[i]
    ensures PlayedFiles(Entries(dir, listing)) == SoundFiles(listing)
  {
    var files := SoundFiles(listing);
    if |files| > 0 {
      forall i | 0 <= i < |files| ensures Sep !in files[i] {
        assert files[i] in listing;
      }
      PlayedFilesOfButtons(dir, files);
    }
  }

  /** Hence the played files are in ascending order, every listed sound file
      has its button, and no other file has one. */
  lemma EntriesCompleteAndSorted(dir: string, listing: seq<string>)
    requires forall i :: 0 <= i < |listing| ==> Sep !in listing[i]
    ensures Sorted(PlayedFiles(Entries(dir, listing)))
    ensures forall f :: f in PlayedFiles(Entries(dir, listing)) <==> f in listing && IsSoundFile(f)
  {
    EntriesPlaySoundFiles(dir, listing);
  }

  /** With a directory path that does not end in a separator, as the
      application's is, every button plays `dir + "/" + file`. */
  lemma EntriesPaths(dir: string, listing: seq<string>)
    requires |dir| > 0 && dir[|dir| - 1] != Sep
    requires forall i :: 0 <= i < |listing| ==> Sep !in listing[i]
    requires !NoSoundFiles(listing)
    ensures forall i :: 0 <= i < |Entries(dir, listing)| ==>
      Entries(dir, listing)[i].path == dir + [Sep] + SoundFiles(listing)[i]
  {
    var files := SoundFiles(listing);
    forall i | 0 <= i < |files| ensures Sep !in files[i] {
      assert files[i] in listing;
    }
  }

  /** The case of the extension does not matter, and it must be a real
      extension: a name that is only `mp3` or ends in another suffix is not
      selected. */
  lemma IsSoundFileExamples()
    ensures IsSoundFile("X.WAV") && IsSoundFile("y.Mp3") && IsSoundFile("song.wav")
    ensures !IsSoundFile("a.txt") && !IsSoundFile("mp3") && !IsSoundFile("song.mp3.txt")
  {
    IsSoundFileByLastFour("X.WAV");
    IsSoundFileByLastFour("y.Mp3");
    IsSoundFileByLastFour("song.wav");
    IsSoundFileByLastFour("a.txt");
    IsSoundFileByLastFour("mp3");
    IsSoundFileByLastFour("song.mp3.txt");
  }

  /** Only the last four characters decide: a dot, then `mp3` or `wav` in
      any mix of cases. */
  lemma IsSoundFileByLastFour(f: string)
    ensures IsSoundFile(f) <==> |f| >= 4 && f[|f| - 4] == '.' && SoundSuffix(f[|f| - 3..])
  {
    if |f| >= 4 {
      var n := |f| - 4;
      var l := Lower(f);
      assert l[n..] == [l[n], l[n + 1], l[n + 2], l[n + 3]];
      assert f[|f| - 3..] == [f[n + 1], f[n + 2], f[n + 3]];
    }
  }

  /** `mp3` or `wav`, each letter in either case. */
  predicate SoundSuffix(s: string)
  {
    |s| == 3 &&
    ((s[0] in "mM" && s[1] in "pP" && s[2] == '3') ||
     (s[0] in "wW" && s[1] in "aA" && s[2] in "vV"))
  }

  /** A selected file's button text is its name without the four-character
      extension, except for names such as `.mp3` or `..wav` whose stem is
      nothing but dots: there the dot is a leading dot, the name has no
      extension, and the text is the whole name. */
  lemma SoundFileLabel(f: string)
    requires IsSoundFile(f) && Sep !in f
    ensures AllDots(f[..|f| - 4]) ==> SplitExt(f) == (f, [])
    ensures !AllDots(f[..|f| - 4]) ==> SplitExt(f) == (f[..|f| - 4], f[|f| - 4..])
  {
    var n := |f| - 4;
    SoundExtensionShape(f);
    if AllDots(f[..n]) {
      SoundSplitIsAtExtension(f);
      assert Basename(f[..n]) == f[..n];
    } else {
      assert Basename(f[..n]) == f[..n];
      SplitExtUnique(f, f[..n], f[n..]);
    }
  }

  /** The last four characters of a sound file form an extension. */
  lemma SoundExtensionShape(f: string)
    requires IsSoundFile(f)
    ensures |f| >= 4 && ExtensionShape(f[|f| - 4..])
  {
    IsSoundFileByLastFour(f);
    var n := |f| - 4;
    assert f[n + 1..] == f[|f| - 3..];
    assert forall k :: n < k < |f| ==> f[k] != ExtSep && f[k] != Sep;
  }

  /** If `splitext` splits a sound file at all, it splits off exactly the
      four-character extension. */
  lemma SoundSplitIsAtExtension(f: string)
    requires IsSoundFile(f)
    ensures SplitExt(f).1 == [] || SplitExt(f).0 == f[..|f| - 4]
  {
    SoundExtensionShape(f);
    var n := |f| - 4;
    var (root, ext) := SplitExt(f);
    if ext != [] {
      assert f == root + ext;
      assert root == f[..n];
    }
  }

  /** `a.b.mp3` shows as `a.b`: only the final extension is removed. */
  lemma LabelKeepsInnerDots()
    ensures MakeButton("sounds", "a.b.mp3").name == "a.b"
  {
    IsSoundFileByLastFour("a.b.mp3");
    assert "a.b.mp3"[..3] == "a.b" && "a.b"[0] == 'a';
    SoundFileLabel("a.b.mp3");
  }

  /** `song.wav` shows as `song`. */
  lemma LabelDropsExtension()
    ensures MakeButton("sounds", "song.wav").name == "song"
  {
    IsSoundFileByLastFour("song.wav");
    assert "song.wav"[..4] == "song" && "song"[0] == 's';
    SoundFileLabel("song.wav");
  }

  /** `.mp3` is selected but, its only dot being a leading one, keeps its
      whole name as its text. */
  lemma LabelOfDotFile()
    ensures IsSoundFile(".mp3")
    ensures MakeButton("sounds", ".mp3").name == ".mp3"
  {
    IsSoundFileByLastFour(".mp3");
    SoundFileLabel(".mp3");
  }

  /** Re-sorting the selected files changes nothing. */
  lemma SoundFilesResortUnchanged(listing: seq<string>)
    ensures Sort(SoundFiles(listing)) == SoundFiles(listing)
  {
    SortOfSorted(SoundFiles(listing));
  }

  /** The order in which the directory lists its names does not matter. */
  lemma SoundFilesIgnoreListingOrder(l1: seq<string>, l2: seq<string>)
    requires multiset(l1) == multiset(l2)
    ensures SoundFiles(l1) == SoundFiles(l2)
  {
    SortedUnique(SoundFiles(l1), SoundFiles(l2));
  }

  /** An empty or newly created folder shows only the placeholder. */
  lemma EmptyFolderShowsPlaceholder(dir: string)
    ensures Entries(dir, []) == [Placeholder]
  {
  }

  /** The mixed listing `b.wav`, `A.mp3`, `a.txt` shows `A.mp3` then `b.wav`:
      the text file is dropped and the capital letter sorts first. */
  lemma MixedListingExample()
    ensures SoundFiles(["b.wav", "A.mp3", "a.txt"]) == ["A.mp3", "b.wav"]
  {
    var listing := ["b.wav", "A.mp3", "a.txt"];
    MixedListingFilter();
    var expected := ["A.mp3", "b.wav"];
    assert LessEq("A.mp3", "b.wav");
    assert Sorted(expected);
    assert multiset(Filter(listing)) == multiset(expected);
    SortedUnique(SoundFiles(listing), expected);
  }

  lemma MixedListingFilter()
    ensures Filter(["b.wav", "A.mp3", "a.txt"]) == ["b.wav", "A.mp3"]
  {
    IsSoundFileByLastFour("b.wav");
    FilterTailOfMixedListing();
    assert ["b.wav", "A.mp3", "a.txt"][1..] == ["A.mp3", "a.txt"];
  }

  lemma FilterTailOfMixedListing()
    ensures Filter(["A.mp3", "a.txt"]) == ["A.mp3"]
  {
    IsSoundFileByLastFour("A.mp3");
    IsSoundFileByLastFour("a.txt");
    assert ["A.mp3", "a.txt"][1..] == ["a.txt"];
    assert Filter(["a.txt"]) == [];
  }

  /** Clicking the i-th button plays the i-th sound file in sorted order, and
      the button's text is that file's name less its extension: every button
      is bound to its own file. */
  lemma ClickPlaysItsFile(dir: string, listing: seq<string>, i: int)
    requires forall k :: 0 <= k < |listing| ==> Sep !in listing[k]
    requires !NoSoundFiles(listing)
    requires 0 <= i < |Entries(dir, listing)|
    ensures Click(Entries(dir, listing)[i]).Some?
    ensures Basename(Click(Entries(dir, listing)[i]).value) == SoundFiles(listing)[i]
    ensures Caption(Entries(dir, listing)[i]) + SplitExt(SoundFiles(listing)[i]).1 == SoundFiles(listing)[i]
  {
    assert SoundFiles(listing)[i] in listing;
  }

  /** A sound file added to the folder gets its button at the next refresh,
      whatever was shown before. */
  lemma RefreshSeesNewFile(previous: seq<Entry>, dir: string, listing: seq<string>, f: string)
    requires forall k :: 0 <= k < |listing| ==> Sep !in listing[k]
    requires Sep !in f && IsSoundFile(f)
    ensures f in PlayedFiles(Refresh(previous, dir, listing + [f]))
  {
    var l := listing + [f];
    assert f in l;
    EntriesCompleteAndSorted(dir, l);
  }
}
