# Meta-Data-Remover core, modelled in Dafny

Meta-Data-Remover has two scripts.

- `get_meta_data.py` walks a directory of an OpenEXR image sequence. It keeps the `.exr` files, puts them in frame
  order and builds one metadata record per file from the file's header. It then tries to write a filename-to-record
  report as JSON.
- `proto-type.py` is a Qt image viewer. It keeps dropped `.jpg`/`.jpeg`/`.png` files and shows each file's EXIF tags
  under their names. It tries to write a copy without metadata next to the selected file.

This project models the pure logic of both scripts:

| module | file | what it models |
|---|---|---|
| `Outcomes` and `Text` | `text.dfy` | `Option`, ASCII lower-casing, `str.endswith`, digit extraction and decimal value, lexicographic string order, Python's `str.replace`, `os.path.basename` and `os.path.join` |
| `FrameOrder` | `frame_order.dfy` | the sort key of `process_exr_sequence` and the stable sort it drives, including the `TypeError` raised when keys are mixed |
| `ExrRecord` | `exr_record.dfy` | `get_all_exr_metadata`: header copy, normalisation of geometry values, `width`/`height`/`channel_details`, the error record |
| `ExrSequence` | `exr_sequence.dfy` | `process_exr_sequence`: missing path, listing error, `.exr` filter, empty listing, sort, the report loop, opening the output file, the JSON dump failing or the final message |
| `Exif` | `exif.dfy` | `get_metadata`: tag-id renaming, last-wins on name clashes, the `"Error"` entry |
| `Viewer` | `viewer.dfy` | `dropEvent`'s filter, `load_selected_image`'s first basename match, `remove_metadata`'s output path |

How the external parts are represented:

- **EXR decoder.** Opening a file yields a `Decoded` value: either the error message or the header. The header is a
  sequence of (name, attribute) pairs in iteration order. Each name appears once, as in the dict the header is.
- **Attributes.** An attribute is readable, with a tagged value, or its lookup raises.
- **Directory and decoder inputs.** These are inputs of `ExrSequence.ProcessSequence`:
  - whether the path exists;
  - the directory listing, or the error `os.listdir` raises;
  - each entry's `isfile` answer;
  - the decoder;
  - whether `open(output_file, 'w')` opens the file, or the error it raises.
- **EXIF reader.** Image opening and EXIF reading become an `ExifRead` value.
- **Viewer window.** The window is reduced to three things: the stored paths, the list texts and the selected path.

## Model

| member | source | states |
|---|---|---|
| ExrRecord.LookupFindsEachPair | get_meta_data.py:24-27 | every name the loop enumerates looks up the attribute paired with it |
| ExrRecord.Lookup | get_meta_data.py:27 | `header[key]` finds a value exactly when the name is one the header enumerates, and the value is one bound to that name |
| ExrRecord.CopyHeader | get_meta_data.py:24-35 | the loop finishes exactly when every attribute is readable, and then has exactly the header's names, with Box2i/V2f stored as their text and other values unchanged; otherwise it raises with the message of the first unreadable attribute in header order |
| ExrRecord.UnreadableAttributeFailsFile | get_meta_data.py:24-35 | an attribute whose lookup raises also raises in the `except` branch, so the whole file yields the error record carrying that message |
| ExrRecord.ErrorRecord | get_meta_data.py:59-60 | the error record has the single key `Error`, and its text starts with `Failed to process <path>: ` |
| ExrRecord.ExtractMetadata | get_meta_data.py:11-60 | a file that cannot be opened yields exactly `{"Error": "Failed to process <path>: <cause>"}`; any other failure yields a record whose single key is `Error` and whose text starts with `Failed to process <path>: `; a well-formed header yields exactly its names plus width, height and channel_details, with the header values normalised and the three derived values computed from the data window and channel list |
| ExrRecord.WithDerivedContents | get_meta_data.py:38-53 | after the header loop, the derived assignments add exactly `width`, `height` and `channel_details`, leave every other copied entry alone and hold the data-window extents and the channel table |
| ExrRecord.WindowThenChannels | get_meta_data.py:38-53 | for an all-readable header whose last two entries are a Box2i `dataWindow` and then a `channels` list, the header is well formed and the record holds width `max.x - min.x + 1`, height `max.y - min.y + 1` and the channel table |
| ExrRecord.EncodableExactly | get_meta_data.py:92-93 | `json.dump` can encode a file's record exactly when processing the file failed or no header value the record keeps under its own name is an Imath object or a non-empty channel table |
| ExrRecord.ChannelsBlockDump | get_meta_data.py:92-93 | a read file with at least one channel keeps the channel table under `channels`, so `json.dump` cannot encode its record |
| ExrRecord.EmptyChannelTableEncodes | get_meta_data.py:93 | a header with a data window and an empty channel table gives a record `json.dump` can encode |
| ExrRecord.CompressionBlocksDump | get_meta_data.py:29-32 | a `compression` enum object is stored as it is, so the record cannot be encoded by the later `json.dump`, even with an empty channel table |
| ExrRecord.Encodable | get_meta_data.py:93 | `json.dump` can write a string, an integer and the channel details; it cannot write a kept Imath object; a kept channel table can be written exactly when it is empty |
| ExrRecord.WithDerived | get_meta_data.py:41-53 | the derived assignments add `width`, `height` and `channel_details`, leave every other entry alone, and hold the data-window extents and the channel table |
| ExrRecord.DataWindowSize | get_meta_data.py:38-42 | a data window from (0,0) to (639,479) gives width 640 and height 480 |
| ExrRecord.DerivedFieldOverridesHeader | get_meta_data.py:41 | a header attribute named `width` is overwritten by the computed width |
| ExrRecord.CopyHeaderWithFallback | get_meta_data.py:33-35 | the corrected loop: every header name is stored; a readable value is normalised and an unreadable one is stored as its text |
| ExrRecord.FallbackKeepsUnreadable | get_meta_data.py:24-35 | where the loop as written raises on an unreadable attribute, the corrected loop stores that attribute's text under its name |
| ExrSequence.ExrNames | get_meta_data.py:71-73 | the kept names are exactly those of regular-file entries whose lower-cased name ends in `.exr` |
| ExrSequence.ExrNamesAppend | get_meta_data.py:71-73 | the filter keeps the listing's relative order: filtering a concatenation concatenates the filtered parts |
| ExrSequence.ExrFilterExamples | get_meta_data.py:71-73 | `X.EXR` is kept, a directory named `X.exr` is dropped, and `X.exr.txt` is dropped |
| ExrSequence.KeepFirstOfThree | get_meta_data.py:71-73 | an accepted entry followed by two rejected ones leaves only the accepted name |
| ExrSequence.ExrNamesDistinct | get_meta_data.py:71-73 | distinct listing names stay distinct after filtering |
| ExrSequence.StoreEffect | get_meta_data.py:89 | `all_metadata[name] = record` stores the record under that name and changes no other entry; a new name is appended to the dict's order |
| ExrSequence.BuildReport | get_meta_data.py:83-89 | the report has one entry per sorted name, each holding that file's record, so a failing file does not stop later ones; with distinct names the report's order is the sorted order |
| ExrSequence.ProcessSequence | get_meta_data.py:63-95 | a missing path gives only its message; a listing error is passed on; an empty filter result gives only its message; mixed keys raise, and no report results; otherwise the report covers exactly the kept names, each with its record, in sorted order; after every file has been read, an error of `open(output_file, 'w')` is passed on; once the file is open, `json.dump` raises exactly when some record cannot be encoded; the report is written, with the closing message, exactly when the file opens and every record can be encoded, so only when every file that was read has an empty channel table and no Imath object the dump cannot encode |
| FrameOrder.Key | get_meta_data.py:80 | the key is a number exactly when the name has a digit, and otherwise it is the name itself |
| FrameOrder.FrameNameKey | get_meta_data.py:80 | a name made of a digit-free prefix, a digit run and a digit-free suffix has the decimal value of the run as its key |
| FrameOrder.TwoDigitRuns | get_meta_data.py:80 | digits from separate runs are concatenated left to right |
| FrameOrder.ScatteredDigitsKey | get_meta_data.py:80 | `a01_b2.exr` has key 12 |
| FrameOrder.SortByKey | get_meta_data.py:80 | the sort raises exactly when digit-bearing and digit-free names are mixed; otherwise it returns a permutation of the input in non-decreasing key order, keeping names with equal keys in their prior order |
| FrameOrder.InsertionSort | get_meta_data.py:80 | the sort returns a permutation of its input |
| FrameOrder.MixedKeys | get_meta_data.py:80 | the names are mixed exactly when one has an `int` key and another a `str` key, which Python cannot compare; mixed names number at least two |
| FrameOrder.InsertionSortSorted | get_meta_data.py:80 | the sort's result is in non-decreasing key order |
| FrameOrder.InsertionSortStable | get_meta_data.py:80 | for every key, the names carrying it appear in the result in their input order |
| FrameOrder.NumericOrder | get_meta_data.py:80 | when every name has a digit, the sort succeeds and the numeric keys never decrease |
| FrameOrder.LexicalOrder | get_meta_data.py:80 | when no name has a digit, the sort succeeds and the names are in lexicographic order |
| FrameOrder.FrameNumbersSortNumerically | get_meta_data.py:80 | frames numbered 2, 10, 1 come out 1, 2, 10, numerically and not as text |
| Exif.RenameTags | proto-type.py:17-19 | the keys are exactly the tag ids after renaming, and each key holds the value of the last item that renames to it |
| Exif.GetMetadata | proto-type.py:11-22 | any exception gives the single `Error` entry holding its text; a missing or empty EXIF block gives an empty map; otherwise the keys are exactly the renamed tag ids, each holding the value of the last item renamed to it |
| Exif.RenamesKnownKeepsUnknown | proto-type.py:18 | a known tag id is stored under its table name, and an unknown one under the id itself |
| Exif.LaterTagWins | proto-type.py:17-19 | two ids that the table gives the same name keep only the later value |
| Viewer.AcceptedImages | proto-type.py:70-73 | the kept paths are exactly the dropped paths whose lower-cased form ends in `.jpg`, `.jpeg` or `.png` |
| Viewer.AcceptedImagesAppend | proto-type.py:70-73 | the filter keeps drop order |
| Viewer.Drop | proto-type.py:68-75 | earlier paths stay in place and the accepted dropped paths are appended once each, in drop order, with their basenames appended to the list in the same order; every list text remains the basename of its path; the selection is unchanged |
| Viewer.DropAddsImagePaths | proto-type.py:70-73 | the paths a drop adds are exactly the dropped paths that pass the image test |
| Viewer.DropTwice | proto-type.py:68-75 | two drops in a row have the same effect as one drop of both lists |
| Viewer.DropFilterExamples | proto-type.py:72 | `a.PNG` and `c.jpeg` are kept in order, and `b.gif` is dropped |
| Viewer.GifIsNotImage | proto-type.py:72 | a path ending in `.gif`, in any letter case, is not accepted |
| Viewer.KeepFirstAndLast | proto-type.py:72-73 | an ignored path between two accepted ones leaves the two in drop order |
| Viewer.SelectItem | proto-type.py:77-85 | with a matching stored path, the first path whose basename equals the item text is selected; without one, nothing changes |
| Viewer.FirstIndex | proto-type.py:81-85 | the loop stops at the first position holding the value, and finds none exactly when the value is absent |
| Viewer.SelectingShownItemFindsPath | proto-type.py:77-85 | clicking row `i` selects a path at or before row `i` with the clicked basename |
| Viewer.DuplicateBasenameSelectsFirst | proto-type.py:81-85 | of two paths with the same basename, clicking the second row still selects the first path |
| Viewer.DuplicateBasenameExample | proto-type.py:81-85 | `/a/x.png` is selected over `/b/x.png` |
| Viewer.CleanPath | proto-type.py:110 | the three rewrites never shorten the path |
| Viewer.CleanPathIdentityIff | proto-type.py:110 | the output path equals the input exactly when none of `.jpg`, `.jpeg`, `.png` occurs in it, case-sensitively |
| Viewer.CleanPathWithoutLowerPatterns | proto-type.py:110 | a path without lower-case `j` and `p` is its own output path |
| Viewer.CleanPathSingleExtension | proto-type.py:110 | for a path whose only dot starts a lower-case image extension, `_clean` goes right before the extension |
| Viewer.CleanPathMarksEveryPattern | proto-type.py:110 | for every path, the three chained replacements do not interfere: the result is that of one left-to-right pass writing `_clean` in front of each `.jpg`, `.jpeg` and `.png`, wherever it stands |
| Viewer.Mark | proto-type.py:110 | the one-pass reference rewrite is defined by its body, one character at a time; its contract states only that the result is never shorter than the path |
| Viewer.IsImagePath | proto-type.py:72 | an accepted path ends, ignoring case, in `.jpg`, `.jpeg` or `.png`, so it is at least four characters long |
| Viewer.ImagePathIgnoresCase | proto-type.py:72 | the drop test ignores letter case: a path is accepted exactly when its lower-cased form is |
| Viewer.UpperCaseImageMapsToItself | proto-type.py:110 | `/d/IMG.JPG` passes the drop filter, yet its output path is the input path |
| Viewer.DirectoryNameRewritten | proto-type.py:110 | `/a.png.d/x.png` becomes `/a_clean.png.d/x_clean.png` |
| Viewer.CleanOutputPath | proto-type.py:110 | the corrected output path: a non-image path is unchanged; an image path differs from its output path, which is still an image path, and `_clean` is inserted only before the final, case-insensitive extension, which holds no `/` |
| Viewer.CleanOutputPathAgrees | proto-type.py:110 | on a path whose only dot starts a lower-case image extension, the corrected output path equals the code's |
| Viewer.CleanOutputPathExamples | proto-type.py:110 | the corrected output path of `/d/IMG.JPG` is `/d/IMG_clean.JPG`, and `/a.png.d/x.png` becomes `/a.png.d/x_clean.png` |
| Viewer.RemoveTarget | proto-type.py:108-110 | an output path exists exactly when a non-empty path is selected; it equals the selected path exactly when none of `.jpg`, `.jpeg`, `.png` occurs in it, and it is never shorter |
| Viewer.RemoveTargetOverwritesUpperCase | proto-type.py:108-111 | with `/d/IMG.JPG` selected, the copy is written to `/d/IMG.JPG` itself |
| Viewer.CorrectedRemoveTarget | proto-type.py:108-110 | the corrected target: present exactly when a non-empty path is selected; for an image path it differs from the input and is still an image path, so the original is never overwritten |
| Text.Digits | get_meta_data.py:80 | `filter(str.isdigit, x)` yields only digits, never more than the name has |
| Text.DigitsEmptyIff | get_meta_data.py:80 | the digit string is non-empty exactly when `any(c.isdigit() for c in x)` holds |
| Text.DecimalValue | get_meta_data.py:80 | `int()` of `n` digits is below `10^n`, and one digit reads as its own value |
| Text.DecimalValueAppend | get_meta_data.py:80 | `int()` of concatenated digit strings shifts the first by the length of the second |
| Text.Replace | proto-type.py:110 | `str.replace` with a replacement at least as long as the pattern never shortens the string |
| Text.ReplaceAbsent | proto-type.py:110 | `str.replace` with an absent pattern returns the string unchanged |
| Text.ReplaceFirst | proto-type.py:110 | `str.replace` rewrites the leftmost occurrence and continues after it, without rescanning the replacement |
| Text.ReplaceLength | proto-type.py:110 | replacing with a longer text never shortens the string, and lengthens it when the pattern occurs |
| Text.Basename | proto-type.py:74 | `os.path.basename` is the slash-free tail of the path |
| Text.BasenameStopsAtSlash | proto-type.py:74 | the basename is the longest slash-free tail: a basename shorter than the path is preceded by `/` |
| Text.BasenameAfterSlash | proto-type.py:74 | the basename of `dir/name` is `name` when `name` has no slash |
| Text.Join | get_meta_data.py:87 | `os.path.join(dir, name)` ends with `name`, and starts with `dir` unless `name` is absolute |
| Text.JoinThenBasename | get_meta_data.py:87 | joining a slash-free name to any directory and taking the basename gives the name back |
| Text.Lower | get_meta_data.py:73 | lower-casing keeps the length and maps each character on its own, `A`-`Z` to `a`-`z` |
| Text.EndsWithIgnoringCase | get_meta_data.py:73 | `s.lower().endswith(suffix)` holds exactly when the last `len(suffix)` characters of `s`, lower-cased, are `suffix` |
| Text.LexLess | get_meta_data.py:80 | the `str` order the sort uses on digit-free names: a proper prefix comes first, and a string is never before one of its own prefixes |
| ExrRecord.Normalize | get_meta_data.py:29-32 | a Box2i or V2f value is stored as its text and any other value as itself, so the stored field can be encoded by `json.dump` exactly when the value is neither a non-geometry Imath object nor a non-empty channel table |
| ExrRecord.FailureCause | get_meta_data.py:24-53 | the message of the exception that stops a file that is not well formed: an unreadable attribute's message comes first; with every attribute readable, a missing `dataWindow` gives the `KeyError` text for that key |
| ExrSequence.Store | get_meta_data.py:89 | `all_metadata[name] = record` holds `record` under `name`, keeps every other name present or absent as it was, and only extends the dict's order |
| Exif.TagKeyOf | proto-type.py:18 | `TAGS.get(tag, tag)` is the table's name exactly when the id is in the table, and otherwise the id itself |

## Left out

- **Decoding and files:** OpenEXR/Imath decoding, PIL's `Image.open` and `_getexif`, `os.listdir`, `os.path.exists`,
  `os.path.isfile` and `open`. These are foreign calls, so they become inputs.
- **Paths:** `os.path.basename` and `os.path.join` are modelled with POSIX semantics: `/` is the only separator. The
  Windows forms, with `\` separators and drive letters, are not modelled.
- **Listing order:** `os.listdir` returns entries in an unspecified order, so the model takes the listing as given.
- **JSON output:** the model returns the report handed to `json.dump` instead of writing it.
- ExrSequence.ProcessSequence: a read file's record keeps the `channels` value, a dict of Imath channel objects, and the
  header's other Imath objects, such as `compression` and `lineOrder`. `json.dump` raises `TypeError` on any of them at
  get_meta_data.py:93, so the report of a real sequence is not written once a file was read. The output file has
  already been opened, and "Metadata written to …" is not printed. The model has this `DumpRaised` outcome. It does
  not model the partly written file. It no longer promises that a written report holds only failed files: a read
  header whose channel table is empty and which holds no other Imath object can be written. Which header values are
  Imath objects is part of the decoder input. A value that is not an Imath object is taken to be a plain JSON value.
- ExrSequence.ProcessSequence: `os.path.exists` also holds for a plain file, and `os.listdir` then raises, uncaught.
  The model takes this as the `ListingFailed` input and ends with `ListingRaised`. The error text is opaque.
- **Printing:** `print` is a side effect. Its messages appear only as the strings carried by `RunOutcome`.
- **Value rendering:** the exact `str()` rendering of Imath values and of exceptions is opaque text. A `Box2i`/`V2f`
  carries its rendering as a field.
- **Channel details:** `channel_details` stores each channel's `Channel` entry (pixel type code and sampling rates)
  rather than a nested dict with the three keys. The content is the same; the JSON shape is not modelled.
- ExrRecord.FailureCause: the message of a `dataWindow` or `channels` value of the wrong kind is a stand-in text naming
  the key, because Python's attribute-error text is not modelled.
- **Closing the file:** `exr_file.close()` is an I/O effect and is not modelled.
- **Character classes:** lower-casing and `str.isdigit` are modelled on ASCII only. Unicode digits that `isdigit`
  accepts and `int()` rejects are outside the model.
- FrameOrder.SortByKey: the model orders a number key before a name key only to make the order total. Python never
  performs that comparison, because mixed keys raise first.
- **Image re-encoding:** the re-save without EXIF (`remove_metadata` at proto-type.py:24-30) is an external image
  encoder. Its True-or-error result and the message appended at proto-type.py:111-115 are left out.
- Viewer.RemoveTarget: an unset `selected_image_path` is modelled as `None`. In the code, the attribute is not created
  until `load_metadata` runs, so reading it earlier would raise.
- Viewer.SelectItem: `load_metadata` is reduced to setting the selected path at proto-type.py:99. Before that,
  line 97 passes each metadata key to `QListWidget.addItem`. `get_metadata` keeps an unknown tag id as an `int`
  (`Exif.TagId`), and `addItem` accepts no `int`. For such an image, line 97 would raise and leave the previous path
  selected, although line 83 has already shown the new image. This is not modelled: the model always selects the
  matched path.
- **GUI:** Qt widgets, drag-and-drop plumbing, `display_image`, `load_metadata`'s text display,
  `show_selected_metadata` (proto-type.py:101-106) and the `__main__` block are left out.
- **Module-level run:** the module-level call with a placeholder path at get_meta_data.py:7-8 and 99 is left out.

## Findings

| source | as written | input that shows it | evidently intended | confidence | as-written member | corrected member |
|---|---|---|---|---|---|---|
| proto-type.py:110 | the output path comes from case-sensitive replacements, while the drop filter at proto-type.py:72 accepts extensions in any case | `/d/IMG.JPG` is accepted, but its output path is `/d/IMG.JPG` itself, so the metadata-free copy would overwrite the original | insert `_clean` before the extension, whatever its case | not executed | Viewer.UpperCaseImageMapsToItself, Viewer.RemoveTargetOverwritesUpperCase | Viewer.CleanOutputPath, Viewer.CorrectedRemoveTarget |
| proto-type.py:110 | every occurrence of a pattern anywhere in the path is rewritten, directory names included | `/a.png.d/x.png` becomes `/a_clean.png.d/x_clean.png`, a directory that need not exist | rewrite only the final extension of the file name | not executed | Viewer.DirectoryNameRewritten | Viewer.CleanOutputPathExamples |
| get_meta_data.py:33-35 | the fallback for an attribute whose lookup raised evaluates `header[key]` again, so it raises again and the whole file gets the error record | a header with an attribute whose lookup raises: the file's record is `{"Error": …}` instead of the other attributes plus that one as text | store the attribute's string form and go on with the loop | not executed | ExrRecord.UnreadableAttributeFailsFile | ExrRecord.CopyHeaderWithFallback, ExrRecord.FallbackKeepsUnreadable |

`Viewer.CleanPath` and `Viewer.RemoveTarget` model the code as written. `Viewer.CleanOutputPath` is the corrected
output path, and `Viewer.CorrectedRemoveTarget` uses it. `Viewer.CleanOutputPathAgrees` proves that the two output
paths agree on paths whose only dot starts a lower-case image extension.

`ExrRecord.CopyHeader` and `ExrRecord.ExtractMetadata` follow the header loop as written.
`ExrRecord.CopyHeaderWithFallback` is the corrected loop. Whether the decoder's header lookup can raise at all is
outside the model.
