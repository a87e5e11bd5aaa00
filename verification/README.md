# ImageMagick conversion tool: task validation and command construction

A Dafny model of the core of a small batch tool that converts images by running
ImageMagick. The tool reads a list of conversion tasks. Each task names an input
file, an optional output size, an output base name and an optional output format.
For each task the tool checks the input file. If the file passes, the tool builds a
`magick convert` command and runs it. At the end it reports how many tasks were
converted and how many failed.

The model covers these parts of `main.py`:

- **Size normalisation** (`get_image_size`), module `ImageSize`. The requested size
  becomes a percentage string ending in `%`, or the sentinel `100%`, which means
  "do not resize".
- **Output file name** (`get_filename_with_extension`), module `OutputName`. The
  name is the base name, one dot, and the lower-cased format. The format falls back
  to `jpeg`.
- **Input validation** (`file_exist_and_is_valid`), module `Validator`. The path
  must be non-empty, must have a `.jpg` or `.jpeg` extension in any case, and must
  name an existing file. The set of existing files is passed in by the caller.
- **Command construction** (`convert_image`), module `Command`. This builds the
  argument list `magick convert <input> [-resize <size>] <output>` and the command
  string for the shell. Module `Shell` models how the shell splits that string
  into words.
- **Batch orchestration** (`process_single_image`, `process_images_from_json_file`),
  module `Batch`. Tasks are processed in file order, and valid ones are converted
  and counted. The method also returns the commands in the order they run. So the
  model shows that a rejected task runs no command.

Module `Text` holds the string helpers. These are ASCII lower-casing, Python's
`endswith`, reading and printing integers, and the extension after the last dot.

## Model

| member | source | states |
|---|---|---|
| Text.Lower | main.py:47 | the lower-cased path has the same length, and each character is the lower-cased character at that position |
| Text.ParseInt | main.py:94 | a string parses exactly when it is an optional `+` or `-` followed by at least one digit; the sign decides whether the value is negative |
| Text.ParseIntLeadingZero | main.py:94 | a leading zero is accepted and does not change the value, with or without a sign: `int("0" + d) == int(d)` |
| Text.ParseNatToString | main.py:94 | `int(str(n)) == n` for every natural n, also with a `+` or `-` in front |
| Text.DigitsValueOfNatToString | main.py:94 | the printed digits of n read back as n |
| Text.LastDotExtension | main.py:47 | the extension is the dot-free text after the last dot, which ends the string; with no extension, the string holds no dot |
| Text.EndsWithDotIffExtension | main.py:47 | for a dot-free e, "ends with `.e`" holds exactly when the extension after the last dot is e |
| ImageSize.GetImageSize | main.py:85-100 | an absent or empty size gives `100%`; every result ends in `%` and its numeric part is an integer <= 100; the result is the sentinel or the input with `%` appended when it lacked one |
| ImageSize.SentinelIsNormalized | main.py:6 | `100%` is itself a normalised size |
| ImageSize.GetImageSizeByNumericPart | main.py:89-100 | for a non-empty size, a numeric part that parses to n <= 100 gives that part plus `%`; anything else gives `100%` |
| ImageSize.PercentSignOptional | main.py:89-90 | a size and the same size with `%` appended normalise to the same string |
| ImageSize.GetImageSizeFixedPoints | main.py:85-100 | a string is left unchanged exactly when it is a normalised size |
| ImageSize.GetImageSizeIdempotent | main.py:85-100 | normalising twice is the same as normalising once |
| ImageSize.GetImageSizeOfNumber | main.py:92-98 | `str(n)` and `str(n) + "%"` both give `str(n) + "%"` for n <= 100, and `100%` for n > 100 |
| ImageSize.NegativeSizePassesThrough | main.py:95-98 | `"-n"` gives `"-n%"`, because only values above 100 are replaced by the sentinel |
| ImageSize.NonNumericIsSentinel | main.py:93-100 | a numeric part with a character that is neither a digit nor a leading sign gives `100%` |
| ImageSize.SizeExamples | main.py:85-100 | `"50"` and `"50%"` give `"50%"`; `"050"` gives `"050%"`; `"abc"`, `"%"` and `"150"` give `100%` |
| OutputName.GetFilenameWithExtension | main.py:78-82 | the name is the base name unchanged, one dot, then the lower-cased format, or `jpeg` when the format is absent or empty; nothing after the dot is upper case |
| OutputName.OutputExtensionIsFormat | main.py:82 | for a dot-free format, the extension after the last dot of the name is exactly the lower-cased format, whatever dots the base name holds |
| OutputName.FormatCaseInsensitive | main.py:82 | a format and its lower-cased form give the same name |
| OutputName.DefaultFormatUsed | main.py:80-81 | an absent or empty format gives `<base>.jpeg` |
| OutputName.FilenameExamples | main.py:78-82 | `("photo", "")` gives `photo.jpeg` and `("photo", "PNG")` gives `photo.png` |
| Validator.FileExistAndIsValid | main.py:35-53 | an accepted path is non-empty and exists; a path without a `.jpg`/`.jpeg` suffix (any case) is rejected; a path with one is accepted exactly when it exists |
| Validator.ValidIffJpegExtensionAndExists | main.py:43-53 | a path is accepted exactly when the text after its last dot is `jpg` or `jpeg` in any case and the file exists; the empty-path test is implied |
| Validator.ValidMonotoneInFiles | main.py:50-53 | adding files never turns an accepted path into a rejected one |
| Validator.ValidatorExamples | main.py:43-53 | `image.png` is always rejected; `missing.jpeg` is accepted exactly when it exists; `LOGO.JPG` is accepted when it exists |
| Command.CommandLine | main.py:103-107 | the list starts `magick`, `convert`, input and ends with the output name; it has length 4 when the size is `100%`, and length 6 with `-resize` and the size at positions 3 and 4 otherwise |
| Command.ConvertImage | main.py:103-112 | the list built in place equals the command line above, and the shell splits the command string back into exactly that list |
| Shell.JoinWithSpacesShape | main.py:111 | the bare-space join of the arguments starts with the first argument and a space, and ends with a space and the last argument |
| Shell.JoinWithSpacesRoundTrip | main.py:111 | the bare-space join is split back correctly when every argument is non-empty and has no space, quote or backslash |
| Shell.JoinWithSpacesSplitsPaths | main.py:111-112 | the bare-space join of the command for input `my photo.jpg` is split into five words, not four |
| Shell.JoinQuotedRoundTrip | main.py:111-112 | the quoted join of any argument list is split back into exactly that list |
| Batch.ValidTasks | main.py:152-156 | the converted tasks are tasks that pass validation, and there are at most as many of them as tasks |
| Batch.ValidTasksMembers | main.py:152-156 | a task is converted exactly when it belongs to the batch and passes validation |
| Batch.CommandsAt | main.py:152-156 | one command per converted task, and the command at each position is built from the task at that position |
| Batch.ValidTasksStep | main.py:152-158 | looking at one more task appends it and its command to those converted so far when it passes validation, and changes nothing otherwise |
| Batch.ValidTasksAppend | main.py:152 | validation keeps file order: the valid tasks of two batches in a row are those of the first, then those of the second |
| Batch.ValidPlusInvalid | main.py:160 | converted plus failed equals the number of tasks |
| Batch.AllConvertedIffAllValid | main.py:150-160 | every task is converted exactly when every task passes validation |
| Batch.ProcessSingleImage | main.py:118-131 | the command is built from the normalised size and the output name with its extension |
| Batch.ProcessTask | main.py:153-158 | one loop step: the task is converted exactly when it passes validation, and a converted task runs its own command |
| Batch.ProcessImages | main.py:150-160 | the count is the number of valid tasks, at most the number of tasks; failures are the invalid tasks, and count plus failures is the number of tasks; the commands run are those of the valid tasks, in file order |
| Batch.ProcessImagesFromJsonFile | main.py:134-161 | an empty file name or a failed load gives no summary; otherwise the summary holds the counts and commands above |
| Batch.SingleValidTaskExample | main.py:150-161 | one existing `logo.jpeg` task at `100%` to `out` as `png` gives one command with no resize option writing `out.png`: one converted, none failed |
| Batch.MissingTaskExample | main.py:154-158 | a task whose input is missing runs no command: none converted, one failed |
| Batch.MixedBatchExample | main.py:150-161 | one valid task and one invalid task give one converted and one failed, in file order |
| Batch.SpacedPathExample | main.py:111-112 | a task for an existing `my photo.jpg` passes validation; the bare-space join breaks its command, and the quoted join keeps it intact |

## Left out

- `run` (main.py:10-27) and the `asyncio.run` call in `convert_image`. Starting a process, its exit code and its output are external I/O. The source swallows every exception there, so the model's conversion always returns normally.
- `log` (main.py:30-32) only prints. No log lines are modelled.
- `load_json_data` (main.py:56-75) reads and parses a file, and exits the process on failure. `Batch.ProcessImagesFromJsonFile` takes the loader's outcome as a parameter, with `None` for a failed load.
- `Path(file_path).is_file()` is replaced by a set of existing paths supplied by the caller. The race between checking a file and using it is not modelled. `Path` normalisation of the path text is not modelled either.
- Batch.ProcessImages: one set of existing files serves every validation in the batch. In the source each conversion finishes, and may write its output file, before the next task is validated, so a later task can find an input that an earlier task of the same batch wrote. The model does not see such files.
- Batch.ProcessImagesFromJsonFile: inherits the fixed set of existing files of `Batch.ProcessImages`; outputs written by earlier tasks of the batch are not seen by later validations.
- The `__main__` block (main.py:164-181) handles `sys.argv` and runs a built-in demo task.
- image.py: the `Image` class only holds a path and a format. It has no logic.
- Missing keys (`KeyError`) are not modelled: a task always has all four fields. The input path and the base name are strings, not null. The size and the format may be null in the file (`None`), which the source treats like an empty string.
- Text.ParseInt: models Python's `int()` only for an optional ASCII sign followed by ASCII digits. Python also accepts surrounding whitespace, underscores between digits and non-ASCII digits, so `" 50"` gives `" 50%"` in the source but `100%` here.
- Text.Lower: lower-cases ASCII letters only. Python's `str.lower()` also lower-cases other Unicode letters.
- Shell.Words: models only spaces, single quotes and backslashes. Tabs, newlines, double quotes, variable expansion, globbing and other shell metacharacters are not modelled.
- Command.ConvertImage: hands the shell the quoted join, not the source's bare-space join (see Findings). The join of the source is `Shell.JoinWithSpaces`.

## Findings

| source | as written | input that shows it | evidently intended | confidence | as-written member | corrected member |
|---|---|---|---|---|---|---|
| main.py:111-112 | the argument list is joined with bare spaces and run through a shell, so an argument holding a space becomes two words | an existing input file `my photo.jpg`, size `100%`, output `out.png`: the shell passes `magick convert my photo.jpg out.png` as five words | the conversion program receives exactly the four arguments of the list | not executed; follows from the shell's word splitting | Shell.JoinWithSpacesSplitsPaths | Shell.JoinQuotedRoundTrip |
