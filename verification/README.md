# HEIC batch converter: a Dafny model

The script converts every `.heic` file of a directory to PNG or JPEG, resizing it
when asked. `convert_heic_to_image` converts one file. `batch_convert_heic`
walks a directory listing and calls it once per selected entry. Decoding,
resampling and encoding are left to Pillow and pillow_heif. What is modelled
here is the script's own logic:

- the output-format check, and where its `ValueError` escapes;
- the resize decision, which follows Python truthiness;
- the open / resize / save steps, whose failures are caught and reported;
- the input-directory check and the creation of the output directory;
- the case-insensitive `.heic` filter, in listing order;
- the derivation of input and output paths (`os.path.join`, `os.path.splitext`).

Files:

- `wrappers.dfy`: `Option` and `Result`.
- `text.dfy`: `str.lower`, `str.upper`, `str.endswith`, `str.rfind`.
- `paths.dfy`: `os.path.join` (two components), `basename`, `splitext`, as `posixpath` defines them.
- `converter.dfy`: the format check, the resize decision, the image library as
  an oracle (`Codec`), the specification function `Conversion` and the method
  `ConvertHeicToImage`, which reassigns the image step by step.
- `batch.dfy`: the filter `Selected`, the per-entry step `Entry`, the loop as
  the function `Run`, and the method `BatchConvertHeic` with its loop.

The filesystem is an input. `existing` is the set of paths that exist and
`listing` is what `os.listdir` returns for the input directory. The method
reports whether it called `os.makedirs` through `createdOutput`. The image
library is a value of `Codec`. `open` reads a file's header, giving its size,
or fails. `resize` and `save` succeed or fail per call, and both receive the
input path. That is because the pixel data is only decoded at those steps, so a
file with a sound header and corrupt data fails at resize or save, and only that
file fails. `resize` yields exactly the requested size.
The messages the script prints become the `Outcome` of each record: the saved
size, or the step that failed.

The two `ValueError`s are `UnsupportedFormat` and `DirectoryNotFound`. The
format check sits outside the `try`, so its error escapes the batch. The check
runs inside the conversion of each file, not up front. With an unsupported
format, a batch whose listing has no `.heic` entry therefore completes, and
the output directory has been created even when the error escapes.

The output name uses the format exactly as passed, not lower-cased
(main.py:55). The format handed to the save call is upper-cased (main.py:31).
A width or height of `0` counts as absent, as Python truthiness has it, so
only a non-zero value for both leads to a resize (main.py:27).

## Model

| member | source | states |
|---|---|---|
| `Paths.Join` | main.py:54-56 | an absolute second component replaces the first; otherwise the result starts with the directory and ends with the name, with exactly one `/` between them when the directory is non-empty and does not end in `/`, and none when it is empty or ends in `/` |
| `Paths.JoinBasename` | main.py:54-56 | the basename of the joined path is the entry name, for any entry name without a separator |
| `Paths.SplitExt` | main.py:55 | the stem followed by the extension is the whole name |
| `Paths.SplitExtShape` | main.py:55 | the extension is empty, or a dot followed by no dot and no separator; the last component of a split-off stem is never all dots |
| `Converter.ValidFormat` | main.py:19 | a format that passes the check is three or four characters long, all ASCII letters |
| `Converter.ShouldResize` | main.py:27 | (with its helper `Truthy`, Python truthiness of an optional int) no resize is asked for when either dimension is `None` or `0`; a resize implies both are given |
| `Converter.Conversion` | main.py:19-34 | (with its helper `TargetSize`, the size the image is saved at) the format error happens exactly when the lower-cased format is neither "png" nor "jpeg", and before the file is opened; no other error escapes; a failed open stops the attempt; a resize is requested exactly when the file opened and both dimensions are truthy; a failed resize ends the attempt as `Failed(Resize)`, before anything is saved; the outcome is `Failed(Save)` exactly when open and any resize succeeded and the save did not; the image is saved exactly when open, any resize and save all succeed; a saved image has the requested size, or its decoded size when no resize was requested |
| `Converter.ConvertHeicToImage` | main.py:8-34 | the step-by-step method returns exactly what `Conversion` describes |
| `Converter.ValidFormatIgnoresCase` | main.py:19 | the format check gives the same answer for the format, its upper-cased and its lower-cased spelling |
| `Converter.SaveFormatName` | main.py:31 | a format that passed the check is saved under "PNG" or "JPEG" respectively |
| `Batch.IsHeic` | main.py:53 | a selected name has at least five characters |
| `Batch.OutputName` | main.py:55 | the output name ends in "." and the format as given, and what precedes that is a prefix of the entry name |
| `Batch.Entry` | main.py:54-58 | the loop body fails exactly for an unsupported format; otherwise its record has input path `Join(input directory, name)` and output path `Join(output directory, OutputName(name, format))`, and its resize flag and outcome are what `Conversion` gives for those two paths with the job's format, width and height |
| `Batch.Run` | main.py:52-58 | the loop yields at most one record per selected entry, and the only error that can end it is the format error, for an unsupported format |
| `Batch.Selected` | main.py:52-53 | the selection is no longer than the listing and holds only listed names that end in ".heic" in some case |
| `Batch.SelectedExactly` | main.py:52-53 | every ".heic" entry is selected as often as it is listed, and no other entry is selected |
| `Batch.SelectedAppend` | main.py:52-53 | the selection keeps listing order: selecting from a concatenation concatenates the selections |
| `Batch.IsHeicIgnoresCase` | main.py:53 | an entry is selected exactly when its last five characters lower-case to ".heic", whatever case the name is in; for ASCII case changes, upper-casing the name does not change whether it is selected |
| `Batch.HeicSuffix` | main.py:53 | a selected name ends in a dot followed by four characters that are not dots |
| `Batch.HeicLastDot` | main.py:53-55 | the last dot of a selected name is the one five characters from its end |
| `Batch.HeicOutputName` | main.py:55 | for "<prefix>.heic" with a non-dot character in the prefix, the output name is "<prefix>.<format>", the format keeping its case |
| `Batch.DotsOnlyOutputName` | main.py:55 | for a name made of dots and ".heic", nothing is split off, and the output name is the whole name, then ".", then the format |
| `Batch.RunValid` | main.py:52-58 | with a supported format no error escapes; there is one record per selected entry, in listing order, each the conversion of that entry, whether or not others failed |
| `Batch.RunInvalidFormat` | main.py:52-58 | with an unsupported format the error escapes exactly when some entry is selected; otherwise the loop ends with no records |
| `Batch.RunPrefixFailure` | main.py:58 | once the error escapes at an entry, the entries after it do not change the result |
| `Batch.BatchPaths` | main.py:54-56 | the i-th record's input path joins the input directory and the i-th selected name; its output path joins the output directory and that name, with ".heic" replaced by "." and the format (or with "." and the format appended, for a dot-only prefix) |
| `Batch.BatchConvertHeic` | main.py:36-58 | a missing input directory gives `DirectoryNotFound`, with nothing created and nothing converted; otherwise the output directory is created exactly when it is missing, the loop produces what `Run` describes, and with a supported format there is one record per selected entry |

## Left out

- Pillow and pillow_heif (main.py:2-6, 24, 28, 31): decoding, Lanczos resampling and encoding are the `Codec` oracle. Pixel data is not modelled, only image size. The oracle alone decides whether a resize to a non-positive size fails. Whether `resize` or `save` fails may depend on the input path, the image size and, for `save`, the output path and format; what in the file's data causes it is not modelled.
- Filesystem effects (main.py:47-52): `os.path.exists`, `os.makedirs` and `os.listdir` become the inputs `existing` and `listing` and the output `createdOutput`. Not modelled: a path that exists but is not a directory (`listdir` would raise), a failing `makedirs`, and changes made by other processes.
- The listing order is whatever `os.listdir` returns. The model keeps that order and does not sort.
- Console output (main.py:32, 34): the messages become each record's `Outcome`.
- The `__main__` block with its fixed paths and values (main.py:61-68), and the trailing comments (main.py:70-73).
- `Text.Lower` and `Text.Upper` change only ASCII letters, while Python's `str.lower`/`str.upper` use full Unicode case mapping. The decisions made with them come out the same. No non-ASCII character lower-cases to any of `.`, `h`, `e`, `i`, `c`, `p`, `n`, `g` or `j`. The only multi-character lower-casing (U+0130) ends in a combining mark, which cannot be part of ".heic". So a format that passes the check is plain ASCII letters (the contract of `Converter.ValidFormat` states this of the model), and its upper-cased form is the same.
- Entry names that hold lone surrogates are not represented. On POSIX, `os.listdir` returns such names for bytes that do not decode, and Dafny's `char` cannot hold them. The `.heic` test and the `splitext` split treat such a character like any other that is not a dot, a separator or an ASCII letter, so they would decide the same for these names.
- Arguments of other Python types (a float or string width, a non-string format) are not modelled. Widths and heights are `Option<int>`.
- Running a batch twice gives the same records, because the model is deterministic. Byte-identical output files are a matter of the codec and are not modelled.
