# MNE-BIDS naming and pointer-rewriting core, in Dafny

This project models the pure core of `mne_bids/utils.py`. That file names the
files and folders of a Brain Imaging Data Structure (BIDS) dataset and copies
BrainVision recordings under a new name. The model follows Python 3
semantics throughout (string methods, `'{:02}'.format`, `'%s' %`). It has
eight modules:

- `Values` (values.dfy) holds the loosely typed Python arguments. A `Value` is
  `None`, a string, an integer (a `bool` counts as one) or any other object.
  It also holds the errors the core raises and the exception class each one
  surfaces as.
- `Text` (text.dfy) holds the Python string operations the core relies on,
  written out: `str.strip()` with Python's whitespace set, `str.split(sep)`,
  `sep.join(parts)`, `str.replace(pat, rep)` (an empty pattern included) and the
  decimal rendering behind `'{:02}'.format`.
- `Paths` (paths.dfy) is `os.path.join` on POSIX for relative parts.
- `Validation` (validation.dfy) is `_check_types` and `_check_key_val`.
- `Filenames` (filenames.dfy) is `make_bids_filename`. It renders up to eight
  entities as `key-value` tokens in the fixed order `sub`, `ses`, `task`,
  `acq`, `run`, `proc`, `space`, `recording`. An integer run is zero-padded to
  two digits. The tokens are joined with `_`, an optional suffix comes last,
  and an optional prefix is path-joined in front.
- `Folders` (folders.dfy) is `make_bids_folders`. It computes
  `[root/]sub-<subject>[/ses-<session>][/<kind>]` and returns the directory
  creation it would ask for as data.
- `Description` (description.dfy) is the field selection of
  `make_dataset_description`. The string fields `authors`, `funding` and
  `references_and_links` are split on `", "`. The nine fields are placed in
  their fixed order, and the keys of the fields left `None` are popped one by
  one, by a loop verified against a filter.
- `BrainVision` (brainvision.dfy) is `copyfile_brainvision`. Its checks run in
  order: the source exists, the extensions match, the extension is a
  BrainVision one. A `.eeg` file is then copied byte for byte. A `.vhdr` or
  `.vmrk` file is copied line by line, by a loop verified against a per-line
  function. A line whose stripped text is `DataFile=<src>.eeg` or
  `MarkerFile=<src>.vmrk` gets every occurrence of the source basename
  replaced by the destination basename.

Line numbers in comments refer to `mne_bids/utils.py`.

The model follows the code where the code and its documentation part ways:

- The guard "At least one parameter must be given" of `make_bids_filename`
  (line 126) tests the dictionary's keys, which are always strings, so it never
  fires. `MakeBidsFilename` keeps the guard in the form that is equivalent for
  the fixed key table. `NothingGiven` shows that an empty call returns the
  empty name.
- The docstring example of `make_bids_folders` (lines 180-182) passes the
  session `my_session`. The session check rejects it with a `ValueError`
  (`DocstringSessionRejected`), so the path shown there is never returned. The
  subject `sub_01` of the same example is not checked, and
  `FullHierarchy` shows it would pass.
- Type errors from `_check_types` are `ValueError`s (line 276). A `run`
  that `'{:02}'.format` cannot render fails earlier, and the model gives
  that failure the class `TypeError`, which is what an object without a
  numeric format raises under Python 3.
- `line.replace` rewrites every occurrence of the source basename in a pointer
  line, including any inside the key text. With basename `Data`, the pointer
  `DataFile=Data.eeg` loses its key (`KeyTextRewritten`). When the basename
  occurs only in the file name the line points to, the line is retargeted cleanly
  (`PointerRetargeted`).

## Model

| member | source | states |
|---|---|---|
| Validation.CheckTypes | mne_bids/utils.py:272-277 | succeeds exactly when every value is a string or `None`; otherwise the error is the type error, of class `ValueError` |
| Validation.CheckKeyVal | mne_bids/utils.py:292-297 | succeeds exactly when the value holds no `-`, `_` or `/`, and then returns the pair unchanged; otherwise a `ValueError` naming the key and the value |
| Filenames.EntityKeysAreLabels | mne_bids/utils.py:112-119 | no entity key contains a delimiter |
| Filenames.FormatRun | mne_bids/utils.py:120-122 | `'{:02}'` of a non-negative integer is at least two decimal digits that read back as the integer; below 10 it is exactly two digits with a leading `0`; from 10 on there is no leading zero; a negative integer is `-` followed by the digits of its magnitude |
| Filenames.NormalizeRun | mne_bids/utils.py:120-122 | the run is accepted exactly when it is not an unformattable object; afterwards it is a string or `None`; a string or `None` is kept; a non-negative integer becomes its decimal digits |
| Filenames.FormatRunExamples | mne_bids/utils.py:120-122 | 7 is rendered `07` and 123 is rendered `123` |
| Filenames.IntRunIsFormatted | mne_bids/utils.py:120-122 | an integer run gives the same result as the string `'{:02}'` makes of it |
| Filenames.NegativeRunRejected | mne_bids/utils.py:120-133 | a call with a negative integer run always fails; with an ill-typed value it fails with the type error, and otherwise, when no entity before `run` holds a delimiter, with the delimiter `ValueError` naming `run` and `-` followed by the run's digits |
| Filenames.IntRunPadded | mne_bids/utils.py:120-133 | a subject with the integer run 7 gives `sub-<subject>_run-07` |
| Filenames.StringRunKept | mne_bids/utils.py:120-133 | a subject with the string run `7` gives `sub-<subject>_run-7`: a string run is not padded |
| Filenames.GivenOrdered | mne_bids/utils.py:129-133 | the given entities are visited in strictly increasing key position, so none appears twice and the order is the fixed key order |
| Filenames.GivenComplete | mne_bids/utils.py:129-133 | every entity that is not `None` is among the given entities, with its value |
| Filenames.RenderTokens | mne_bids/utils.py:129-133 | building the tokens succeeds exactly when no given value holds a delimiter |
| Filenames.RenderTokensGiven | mne_bids/utils.py:129-133 | the tokens are exactly the given entities rendered `key-value`, one each, in key order |
| Filenames.RenderTokensFirstError | mne_bids/utils.py:129-133 | a failed build reports the first offending entity in key order, by its key and value; all entities before it passed |
| Filenames.MakeBidsFilename | mne_bids/utils.py:63-141 | a name is returned exactly when the run is formattable, every value is a string or `None` and no value holds a delimiter; an unformattable run raises a `TypeError`; an ill-typed value raises the type error before any token is built; a value with a delimiter raises the `ValueError` naming the key and value of the first offending entity in key order, all entities before it having passed |
| Filenames.NameFromTokens | mne_bids/utils.py:135-140 | once the tokens are built, the name is the tokens and then the suffix joined by `_`, path-joined under a string prefix |
| Filenames.ParseTokenInverse | mne_bids/utils.py:133 | a token `key-value` splits at its first `-` back into the key and the value |
| Filenames.FilenameRoundTrip | mne_bids/utils.py:112-138 | for a successful call without a prefix, whose suffix (if a string) holds no `_`, and with at least one entity or a suffix given: split at `_`, the name holds one token per given entity, in the fixed key order, each decoding to its key and value, followed by the suffix when one was given |
| Filenames.SubjectAndRun | mne_bids/utils.py:112-138 | a subject and a string run give `sub-<subject>_run-<run>` |
| Filenames.SubjectSessionTask | mne_bids/utils.py:112-138 | a subject, session, task and suffix give `sub-<s>_ses-<x>_task-<t>_<suffix>` |
| Filenames.DocstringExample | mne_bids/utils.py:108-109 | `subject='test', session='two', task='mytask', suffix='data.csv'` gives `sub-test_ses-two_task-mytask_data.csv` |
| Filenames.NothingGiven | mne_bids/utils.py:126-140 | with every entity `None` and no suffix the guard does not raise, and the name is empty; with a prefix it is the prefix joined with the empty name |
| Filenames.PrefixAndSuffix | mne_bids/utils.py:135-140 | a string prefix is path-joined in front of the name without changing whether the call succeeds; a suffix or prefix that is not a string is ignored |
| Paths.JoinSegments | mne_bids/utils.py:194-196 | the `/`-segments of a joined path are those of its two parts, when the left part is not empty and has no trailing `/` |
| Paths.Join | mne_bids/utils.py:194-196 | `os.path.join` of two relative parts is as long as both together, plus at most the one `/` it inserts; joining onto an empty part gives the other part, and joining onto a part that already ends with `/` inserts nothing; its partner `JoinSegments` states that the parts' `/`-segments survive the join |
| Folders.FolderSegments | mne_bids/utils.py:189-193 | the list holds `sub-<subject>` first, then `ses-<session>` if the session is a string, then the kind if it is a string |
| Folders.Render | mne_bids/utils.py:189 | `'%s'` renders a string as itself and `None` as `None` |
| Folders.JoinAll | mne_bids/utils.py:194 | `os.path.join(*path)` is at least as long as its last segment; its partners `JoinAllEndsWithLast` and `JoinAllSegments` state that it ends with that segment and splits back into the segments |
| Folders.FolderPath | mne_bids/utils.py:189-196 | an accepted call returns the segments joined, under the root when one is given |
| Folders.JoinAllEndsWithLast | mne_bids/utils.py:194 | the joined path ends with the last segment |
| Folders.JoinAllSegments | mne_bids/utils.py:194 | joining segments without `/`, all but the last non-empty, gives a path whose `/`-segments are exactly those segments |
| Folders.MakeBidsFolders | mne_bids/utils.py:144-200 | a path is returned exactly when all four values are strings or `None` and a given session holds no delimiter; the type error comes first, then the session error naming `ses`; a directory is requested, with the overwrite flag, exactly when `make_dir` is set and both checks passed |
| Folders.PathSegments | mne_bids/utils.py:189-196 | for an accepted call whose subject and kind hold no `/` and whose root, when given, is non-empty without a trailing `/`: the path's `/`-segments are the root's, then `sub-<subject>`, then `ses-<session>` and the kind when given |
| Folders.PathIndependentOfCreation | mne_bids/utils.py:198-200 | the path does not depend on `make_dir` or `overwrite`, and without `make_dir` nothing is requested |
| Folders.NoneSubject | mne_bids/utils.py:189 | a `None` subject is rendered into the folder name as `sub-None` |
| Folders.FullHierarchy | mne_bids/utils.py:185-196 | a root, subject, valid session and kind give `root/sub-<subject>/ses-<session>/<kind>`; the subject is not delimiter-checked |
| Folders.DocstringSessionRejected | mne_bids/utils.py:180-187 | the session `my_session` of the docstring example is rejected with the session error, and no directory is requested |
| Description.SplitList | mne_bids/utils.py:249-254 | a string becomes a non-empty list whose items, joined back with `", "`, give the string and none of which holds `", "`; a list or `None` is kept |
| Description.Entries | mne_bids/utils.py:257-265 | the dictionary holds the nine keys in the fixed order, each with its value |
| Description.Selected | mne_bids/utils.py:266-268 | the reference filter for the popping: never longer than the dictionary; `SelectedMembers`, `SelectedKeepsOrder` and `KeyPresentIffSet` state which entries it keeps and in what order |
| Description.PopKeys | mne_bids/utils.py:266 | the popped keys and the entries kept by `Selected` together number the entries of the dictionary; `PopKeysAreKeys` and `WithoutPopKeys` state that the popped keys are keys of the dictionary and that popping them leaves `Selected` |
| Description.OnlyListFieldsSplit | mne_bids/utils.py:249-265 | string authors, funding and references are split on `", "`; acknowledgements and how-to-acknowledge are kept as given |
| Description.Pop | mne_bids/utils.py:268 | popping a key keeps exactly the entries under other keys |
| Description.WithoutNothing | mne_bids/utils.py:266-268 | before any pop the dictionary is unchanged |
| Description.PopWithout | mne_bids/utils.py:266-268 | popping one more key continues the removal of the keys popped so far |
| Description.WithoutAbsentKey | mne_bids/utils.py:266-268 | popping a key that no entry carries changes nothing |
| Description.PopKeysAreKeys | mne_bids/utils.py:266 | every key of `pop_keys` is a key of the dictionary |
| Description.WithoutPopKeys | mne_bids/utils.py:266-268 | with distinct keys, popping all of `pop_keys` leaves exactly the entries whose value is not `None`, in order |
| Description.PopAll | mne_bids/utils.py:267-268 | the loop succeeds exactly when every key is still present at its turn, and then leaves exactly the entries whose key is none of the keys, in their order; otherwise it raises `KeyError` for the first key that is no longer there |
| Description.PopKeysDistinct | mne_bids/utils.py:266 | with distinct dictionary keys, `pop_keys` names no key twice |
| Description.WithoutKeepsKey | mne_bids/utils.py:267-268 | a key of the dictionary that is not among the popped keys is still there after they are popped |
| Description.EveryPopFindsItsKey | mne_bids/utils.py:266-268 | with distinct dictionary keys, each key of `pop_keys` is still present when the loop pops it, so no `pop` raises `KeyError` |
| Description.MakeDatasetDescription | mne_bids/utils.py:248-268 | the file name is `dataset_description.json` under the path, and the loop raises no `KeyError` and leaves the fixed-order dictionary with its `None` fields removed |
| Description.DescriptionKeysDistinct | mne_bids/utils.py:257-265 | the nine keys are pairwise distinct |
| Description.EntriesDistinct | mne_bids/utils.py:257-265 | no key appears twice in the dictionary |
| Description.SelectedMembers | mne_bids/utils.py:266-268 | an entry survives exactly when it was in the dictionary and its value is not `None` |
| Description.SelectedKeysAreKeys | mne_bids/utils.py:266-268 | every surviving key was a key of the dictionary |
| Description.SelectedKeepsOrder | mne_bids/utils.py:257-268 | the surviving entries keep the relative order of their keys |
| Description.VersionAlwaysPresent | mne_bids/utils.py:258 | `BIDSVersion` is always present, with the version |
| Description.KeyPresentIffSet | mne_bids/utils.py:257-268 | a key is present exactly when its value is not `None`, and then with that value |
| Description.KeysInFixedOrder | mne_bids/utils.py:257-268 | the keys come out in the order Name, BIDSVersion, License, Authors, Acknowledgements, HowToAcknowledge, Funding, ReferencesAndLinks, DatasetDOI |
| BrainVision.BasenameOfPath | mne_bids/utils.py:431-432 | the basename is the last path component: it holds no `/`, and a directory in front does not change it |
| BrainVision.Basename | mne_bids/utils.py:431-432 | the last `/`-component of the stem holds no `/`; its partner `BasenameOfPath` states that the directory in front does not change it |
| BrainVision.SearchLines | mne_bids/utils.py:434-435 | there are two search lines and they differ; its partner `PaddedPointerRecognised` states that a whitespace-padded pointer line matches them |
| BrainVision.RewriteLine | mne_bids/utils.py:443-448 | a line that does not point at the source is written unchanged, and a new basename as long as the old one keeps every line's length; `SameBasenameIdentity`, `PointerRetargeted` and `KeyTextRewritten` state what it does to a pointer line |
| BrainVision.RewriteLines | mne_bids/utils.py:442-448 | the output has as many lines as the input, in order, each the rewrite of its input line; a line that is not a pointer to the source is copied verbatim |
| BrainVision.CopyBrainVision | mne_bids/utils.py:399-448 | a missing source raises `IOError`, then differing extensions raise `ValueError`, then an extension outside `.eeg`, `.vhdr`, `.vmrk` raises `ValueError`; only then is a `.eeg` file copied as bytes; lines are written exactly for `.vhdr` and `.vmrk`, one per input line; with equal basenames the lines are unchanged |
| BrainVision.SameBasenameIdentity | mne_bids/utils.py:443-448 | rewriting with equal source and destination basenames leaves every line unchanged |
| BrainVision.PaddedPointerRecognised | mne_bids/utils.py:434-435 | a `DataFile=<b>.eeg` or `MarkerFile=<b>.vmrk` line padded with whitespace is recognised as a pointer to `b`, in both kinds of file |
| BrainVision.ReplaceInPointer | mne_bids/utils.py:444-445 | when the basename occurs only in the file name the line points to, exactly that occurrence is replaced |
| BrainVision.PointerRetargeted | mne_bids/utils.py:434-448 | such a pointer line keeps its whitespace and key, comes to name the destination, and is a pointer to the destination |
| BrainVision.KeyTextRewritten | mne_bids/utils.py:444-445 | with basename `Data`, the pointer `DataFile=Data.eeg` becomes `<dest>File=<dest>.eeg` |
| Text.StripLeft | mne_bids/utils.py:443 | the result is no longer than the input and does not start with whitespace |
| Text.StripLeftSuffix | mne_bids/utils.py:443 | stripping on the left keeps a suffix of the input and removes only whitespace |
| Text.StripRight | mne_bids/utils.py:443 | the result is no longer than the input and does not end with whitespace |
| Text.StripRightPrefix | mne_bids/utils.py:443 | stripping on the right keeps a prefix of the input and removes only whitespace |
| Text.Strip | mne_bids/utils.py:443 | `str.strip()` is no longer than its input and neither starts nor ends with whitespace; its partner `StripPadded` states that it removes exactly the whitespace padding around a text |
| Text.StripPadded | mne_bids/utils.py:443 | stripping text that starts and ends with non-whitespace, padded with whitespace, gives the text |
| Text.SplitOn | mne_bids/utils.py:250 | a split yields at least one piece |
| Text.JoinSplit | mne_bids/utils.py:250 | joining the pieces of a split with the separator gives back the string |
| Text.JoinWith | mne_bids/utils.py:138 | `sep.join(parts)` is at least as long as its first part; its partners `JoinSplit` and `SplitJoin` state that it inverts a split and is inverted by one |
| Text.SplitWithoutSeparator | mne_bids/utils.py:431 | a string without the separator splits into itself |
| Text.SplitAround | mne_bids/utils.py:431 | splitting around one separator splits both sides independently |
| Text.SplitPiecesWithoutSeparator | mne_bids/utils.py:431 | no piece of a split holds the separator |
| Text.SplitFirstPrefix | mne_bids/utils.py:250 | the first piece of a split is a prefix of the string |
| Text.SplitPiecesAvoidSeparator | mne_bids/utils.py:250 | for any non-empty separator, no piece of a split holds an occurrence of it |
| Text.SplitJoin | mne_bids/utils.py:138 | pieces without the separator, joined and split again, come back unchanged |
| Text.ReplaceAllSame | mne_bids/utils.py:444-445 | replacing a string by itself changes nothing |
| Text.ReplaceAbsent | mne_bids/utils.py:444-445 | a string in which the pattern does not occur is unchanged |
| Text.ReplaceSkipsPrefix | mne_bids/utils.py:444-445 | a prefix in which the pattern does not start is kept as is |
| Text.ReplaceSingle | mne_bids/utils.py:444-445 | when the pattern occurs once, exactly that occurrence is replaced |
| Text.ReplaceAll | mne_bids/utils.py:444-445 | `str.replace` with a non-empty pattern gives a string no longer than the input when the replacement is no longer than the pattern, and no shorter when it is no shorter; its partners `ReplaceAllSame`, `ReplaceAbsent`, `ReplaceSkipsPrefix` and `ReplaceSingle` state what it keeps and what it replaces |
| Text.Decimal | mne_bids/utils.py:122 | the rendering is non-empty decimal digits, one digit exactly below 10, without a leading zero from 10 on |
| Text.ParseDecimalOfDecimal | mne_bids/utils.py:122 | the rendering of a number reads back as the number |
| Text.ParseLeadingZero | mne_bids/utils.py:122 | a leading `0` does not change the value read |

## Left out

- Directory creation. `_mkdir_p` (`os.makedirs`, `shutil.rmtree`, errno handling) is not modelled. `MakeBidsFolders` returns the call it would make as a `MkdirRequest`.
- `print_dir_tree`: it walks the file system and prints.
- `_write_json`: JSON serialisation and the file write. `MakeDatasetDescription` returns the file name and the ordered dictionary instead.
- `_read_events`: it wraps numpy and MNE readers.
- `make_test_brainvision_data`: it writes random floating-point test data.
- File handling in `copyfile_brainvision`:
  - the existence of the source is a boolean input;
  - the source's lines, as `readlines` gives them, are an input;
  - the byte copy of `sh.copyfile` is only the `CopiedBytes` outcome;
  - the lines written are the returned `CopiedText` lines.
- `_parse_ext`: `mne_bids/io.py` is not part of this model. The copier takes each path already split into its stem and its extension (`PathParts`).
- `BIDS_VERSION`: `mne_bids/config.py` is not part of this model. The version is a parameter of `MakeDatasetDescription`.
- Paths.Join: does not model the reset `os.path.join` performs when a later part is an absolute path; every part is treated as relative.
- Filenames.FormatRun: covers integers (and booleans, which Python formats as integers) only. A floating-point run such as `1.5`, which `'{:02}'` renders as `1.5`, is not modelled. Neither is a complex run, for which `'{:02}'` raises `ValueError`. Every other non-string, non-`None` run is modelled as failing with `TypeError`.
- Python 2: the code also runs under Python 2 through `six`. There `'{:02}'` formats an arbitrary object through `str()`, and `strip()` on a byte string removes only ASCII whitespace. Only Python 3 behaviour is modelled.
- Description.Field: distinguishes `None`, a string and a list of strings. A field value of any other type is not modelled.
- Exception messages: only the exception class and, for the delimiter check, the key and the value are modelled.
- Verbose output: every `verbose` print is left out.
