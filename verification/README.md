# CF-Soundboard: the sound list of a refresh

CF-Soundboard is a one-window desktop soundboard. Its only logic of its own
is the refresh of the sound list (`SoundboardApp.refresh_sounds`). The
refresh lists the `sounds` folder and keeps the names whose lowercased form
ends in `.mp3` or `.wav`. It sorts them with Python's default `str` order.
It then shows one button per file: the button's text is the file name
without its final extension, and a click plays the file's path inside the
folder. When no file qualifies, a single placeholder label is shown instead.

This project models that step as pure functions over a listing
(`seq<string>`, standing for what `os.listdir` returns):

- `strings.dfy` (`Strings`): ASCII lowercasing, `endswith`, and the
  code-point lexicographic order of Python `str`, with proofs that it is a
  total order.
- `sorting.dfy` (`Sorting`): `sorted` as an insertion sort. It is proved
  sorted and a permutation of its input. Sorted permutations are unique, so
  sorting is idempotent and ignores listing order.
- `paths.dfy` (`Paths`): POSIX `os.path.join` for two components,
  `os.path.splitext` (including its rule that leading dots never start an
  extension), and `os.path.basename`.
- `soundboard.dfy` (`Soundboard`): the `Entry` datatype
  (`Placeholder | Button(name, path)`), the selection filter, the sorted file
  list, the entry list a refresh builds, and the properties of the result.

The sound folder's path is a parameter `dir`: the application derives it
from its own install location. File names in a directory listing never
contain `/`, so lemmas that recover a file name from a button's path assume
that of the listing.

The volume slider's value reaches the audio library unchanged
(mainX.py:59), and volume is not modelled. A directory listing has no
duplicates; the model accepts any listing and keeps each name as often as it
is listed.

## Model

| member | source | states |
|---|---|---|
| Strings.LessEqReflexive | mainX.py:78 | Every name compares `<=` to itself under Python's `str` order. |
| Strings.LessEqAntisymmetric | mainX.py:78 | Two names that are each `<=` the other are equal, so the sorted order of distinct names is strict. |
| Strings.LessEqTransitive | mainX.py:78 | The `str` order is transitive. |
| Strings.LessEqTotal | mainX.py:78 | Any two names are comparable, so `sorted` always has a single answer. |
| Strings.UpperBeforeLower | mainX.py:78 | The sort is case-sensitive: a name starting with a capital ASCII letter sorts strictly before one starting with a lower-case letter (`B.wav` before `a.mp3`). |
| Sorting.Insert | mainX.py:78 | Inserting a name into a sorted list keeps it sorted and adds exactly that one name. |
| Sorting.Sort | mainX.py:78 | `sorted` returns an ascending list holding exactly the input's names, each as often as it occurred. |
| Sorting.SortedUnique | mainX.py:78 | Two ascending lists with the same names are equal, so the sorted list is fully determined. |
| Sorting.SortIsTheSortedPermutation | mainX.py:78 | Any ascending rearrangement of the input is what sorting returns. |
| Sorting.SortOfSorted | mainX.py:78 | Sorting an already ascending list returns it unchanged. |
| Sorting.SortIdempotent | mainX.py:78 | Sorting twice gives the same list as sorting once. |
| Sorting.SortIgnoresListingOrder | mainX.py:78 | Two listings with the same names, in any order, sort to the same list. |
| Paths.Join | mainX.py:87 | The joined path ends with the file name. An absolute name replaces the folder. With a folder that does not end in `/`, the path is folder + `/` + name. |
| Paths.BasenameOfJoin | mainX.py:87 | For a name without `/`, the last path component of the joined path is the name again, whatever the folder. |
| Paths.HasNonDot | mainX.py:88 | The leading-dot scan of `splitext` answers whether the span before the last dot holds any character other than a dot. |
| Paths.SplitExt | mainX.py:88 | Root plus extension rebuild the name. A non-empty extension is a dot followed by no further dot or `/`, and the root's last component is not all dots. An empty extension means every dot of the last component is a leading dot. |
| Paths.SplitAtLastDot | mainX.py:88 | When `splitext` splits, the part from the last dot on is an extension, and the root's last component holds a character other than a dot. |
| Paths.NoExtension | mainX.py:88 | When `splitext` does not split, every dot of the last component is a leading dot. |
| Paths.SplitExtUnique | mainX.py:88 | Any split into a root and a non-empty extension of that shape, with a root whose last component is not all dots, is the one `splitext` returns. |
| Soundboard.IsSoundFile | mainX.py:79 | The selection test: the lowercased name ends in `.mp3` or `.wav`. A selected name always has at least four characters and a dot fourth from the end, so `mp3` without a dot is never selected. |
| Soundboard.IsSoundFileByLastFour | mainX.py:79 | A name is selected exactly when it has at least four characters and ends in a dot followed by `mp3` or `wav` in any mix of letter cases. |
| Soundboard.IsSoundFileExamples | mainX.py:79 | `X.WAV`, `y.Mp3` and `song.wav` are selected. `a.txt`, `mp3` (no dot) and `song.mp3.txt` are not. |
| Soundboard.Filter | mainX.py:78-79 | Every kept name is a sound file. Every sound file in the listing is kept exactly as often as it is listed, and nothing else is kept. |
| Soundboard.SoundFiles | mainX.py:78-80 | The file list is ascending, holds only sound files, and holds every listed sound file as often as it is listed. A name is in it if and only if it is listed and is a sound file. It is empty if and only if the listing has no sound file. |
| Soundboard.MakeButton | mainX.py:87-89 | A button's text plus the extension `splitext` removes rebuilds the file name. Its path ends with the file name. For a name without `/`, the last component of the path is the name. |
| Soundboard.Entries | mainX.py:80-91 | The list is never empty. It is exactly the single placeholder if and only if no listed name is a sound file. Otherwise it holds no placeholder and has one button per selected file, in sorted order: the i-th button is built from the i-th sorted sound file. |
| Soundboard.Refresh | mainX.py:70-91 | The previous list plays no part: the result is the single placeholder if and only if the new listing has no sound file, and otherwise exactly one button per sorted sound file, the i-th built from the i-th file. |
| Soundboard.RefreshSeesNewFile | mainX.py:70-91 | After a sound file is added to the folder, the next refresh has a button that plays it, whatever was shown before. |
| Soundboard.RefreshForgetsPrevious | mainX.py:71-73 | Two refreshes with the same listing show the same list, whatever was shown before each. |
| Soundboard.PlayedFilesOfAllButtons | mainX.py:86-91 | On a list of buttons, the played files are one per button, in order, each the last component of the button's path. |
| Soundboard.PlayedFilesOfButtons | mainX.py:86-91 | The buttons built for a list of file names play exactly those names, in that order. |
| Soundboard.EntriesPlaySoundFiles | mainX.py:78-91 | Reading back the file each button plays gives exactly the sorted sound-file list. The placeholder plays nothing. |
| Soundboard.EntriesCompleteAndSorted | mainX.py:78-91 | The played files are in ascending order. A file has a button if and only if it is listed and is a sound file. |
| Soundboard.EntriesPaths | mainX.py:87 | With a folder path not ending in `/`, the i-th button plays folder + `/` + the i-th sorted sound file. |
| Soundboard.ClickPlaysItsFile | mainX.py:86-91 | Clicking the i-th button plays the i-th sorted sound file. Its text plus the removed extension is that file's name. |
| Soundboard.SoundFileLabel | mainX.py:88 | For a selected name, the text is the name minus its four-character extension. A name whose stem is only dots (`.mp3`, `..wav`) keeps its whole name as its text. |
| Soundboard.SoundSplitIsAtExtension | mainX.py:88 | If `splitext` splits a selected name at all, it splits off exactly the four-character `.mp3`/`.wav` extension. |
| Soundboard.LabelKeepsInnerDots | mainX.py:88 | `a.b.mp3` shows as `a.b`: only the final extension is removed. |
| Soundboard.LabelDropsExtension | mainX.py:88 | `song.wav` shows as `song`. |
| Soundboard.LabelOfDotFile | mainX.py:79-88 | `.mp3` is selected, and its text is `.mp3`. |
| Soundboard.SoundFilesResortUnchanged | mainX.py:78 | Re-sorting the selected files changes nothing. |
| Soundboard.SoundFilesIgnoreListingOrder | mainX.py:78-79 | The order in which the folder lists its names does not change the file list. |
| Soundboard.EmptyFolderShowsPlaceholder | mainX.py:80-84 | An empty or newly created folder shows only the placeholder. |
| Soundboard.MixedListingExample | mainX.py:78-79 | The listing `b.wav`, `A.mp3`, `a.txt` gives `A.mp3` then `b.wav`. |

## Left out

- Window, widgets, packing, scrolling and canvas resizing (mainX.py:14-56, 101-105): toolkit behaviour with nothing to state. The placeholder's text is kept as a constant, and `Caption` gives each entry's text.
- Audio playback (`play_audio`, `stop_audio`, `change_volume`, mixer initialisation; mainX.py:21-24, 42, 58-62, 93-99): calls into an audio library that is not part of this model. A click is modelled only as the path it would play (`Click`).
- Volume: the slider's floating-point value is passed to the audio library unchecked. There is no logic to model.
- Creating the folder and listing it (mainX.py:75-78): filesystem I/O. The listing is an input sequence, and the folder path is the parameter `dir`.
- `open_folder` (mainX.py:64-68): runs a shell command or shows a dialog. This is platform I/O.
- Error dialogs: side-effecting UI.
- Strings.Lower: maps only `A`..`Z`. Python's `str.lower` also maps other letters and can change a string's length. No character outside `A`..`Z` lowercases to text containing one of the characters of `.mp3` or `.wav`, so the selection test gives the same answer either way.
- Names that the operating system could not decode: Python represents their stray bytes as lone surrogate code points, which a Dafny `char` cannot hold.
- Paths.SplitExt and Paths.Join: POSIX rules only (`/` separator). The Windows variants, with `\` and drive letters, are not modelled.
