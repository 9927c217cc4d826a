# Handwritten digit recognition: upload rules and sample export

The application is a small Flask service. It accepts an uploaded image of a
handwritten digit, normalises it, runs a pre-trained classifier and returns
the predicted digit. A companion script exports sample digit images from the
MNIST training set into one folder per digit. Almost all of the code is glue
around OpenCV, TensorFlow, matplotlib and the file system. This project
models, in Dafny, the two pieces that carry real logic of their own:

- **`Upload`** (`upload.dfy`, from `app.py`). The extension filter
  `allowed_file` and the order of the checks by which the `/predict` handler
  turns a request away before touching the disk. A filename is allowed when it
  contains a dot and the text after its *last* dot, lower-cased, is `png`,
  `jpg` or `jpeg`. A request is rejected with status 400 for a missing `file`
  part ("No file uploaded"), then for an empty filename ("No file selected"),
  then for a disallowed extension ("Invalid file type"). These are pure
  functions over an abstract request, plus lemmas.
- **`Dataset`** (`dataset.dfy`, from `create_dataset.py`). The selection loop
  of `generate_dataset`. It walks the training labels in order and keeps one
  counter per digit. It writes image `i` to `<output_dir>/<label>/digit_<count>.png`
  only while that digit's counter is below `samples_per_digit`. It stops
  right after the save that brings every counter to a positive quota; with
  a quota of 0 or less nothing is saved and the walk never stops early. `GenerateDataset` is a method
  with the same loop, the same counter update and the same `break`. The
  dataset becomes an input label sequence. Each `cv2.imwrite` call becomes a
  `Saved(index, digit, fileNumber)` record plus the path it writes. The method
  is proved against the selection rule `Selected` and the stopping point
  `StopIndex`. Lemmas then establish the rule's properties: counters bounded
  by max(quota, 0), the first-N-occurrences rule, per-folder numbering
  `0 .. count-1` in dataset order, no cross-digit contamination, distinct
  paths, and the early stop.

## Model

| member | source | states |
|---|---|---|
| Upload.LowerChar | app.py:29 | `lower()` on one character maps each of `A`-`Z` to the matching letter of `a`-`z` (code point + 32) and leaves every other character unchanged; in particular a character becomes `.` exactly when it was `.` |
| Upload.Lower | app.py:29 | lower-casing keeps the length and lowers every character in place |
| Upload.LastIndexOf | app.py:29 | the split point of `rsplit('.', 1)`: present exactly when the character occurs; the position holds that character and no later position does |
| Upload.Extension | app.py:28-29 | the text after the last dot exists exactly when the filename contains a dot |
| Upload.AllowedFile | app.py:27-29 | `allowed_file`: true when the name contains a dot and the text after its last dot, lower-cased, is in the set of app.py:14 (no contract of its own; characterised by AllowedFileIff) |
| Upload.LastIndexOfUnique | app.py:29 | any position holding the character with none after it is the split point, so the last dot is well defined |
| Upload.AllowedFileIff | app.py:27-29 | `allowed_file` holds iff some dot has no dot after it and the text after it lower-cases to one of `png`, `jpg`, `jpeg` (the set of app.py:14) |
| Upload.NoDotRejected | app.py:28 | a filename without a dot is never allowed |
| Upload.ExtensionAfterLastDot | app.py:29 | for `prefix + "." + ext` with a dot-free `ext`, the extension is exactly `ext` and the verdict is whether `ext` lower-cases into the allowed set, whatever the prefix holds (dots included) |
| Upload.PrefixIrrelevant | app.py:29 | changing everything before the last dot never changes the verdict |
| Upload.TrailingDotRejected | app.py:29 | a filename ending in a dot has an empty extension and is rejected |
| Upload.LowerIdempotent | app.py:29 | lower-casing twice is lower-casing once |
| Upload.ExtensionOfLower | app.py:29 | lower-casing moves no dot, and the extension of the lower-cased name is the lower-cased extension |
| Upload.CaseInsensitive | app.py:29 | a filename and its lower-cased form get the same verdict |
| Upload.SameLowerSameVerdict | app.py:29 | two filenames that differ only in letter case (`X.PNG`, `x.png`) get the same verdict |
| Upload.ExampleNestedDots | app.py:29 | `a.b.png` is accepted |
| Upload.ExampleHiddenExtension | app.py:29 | `a.png.exe` is rejected |
| Upload.ExampleUpperCase | app.py:29 | `X.PNG` is accepted |
| Upload.Validate | app.py:62-69 | every rejection carries status 400 and one of the three messages; an accepted request hands on the `file` part of the request |
| Upload.FilePresent | app.py:69 | the truth value of an uploaded part: true when its filename is non-empty (no contract of its own) |
| Upload.MissingPartFirst | app.py:62-63 | a request without a `file` part is answered "No file uploaded"/400 whatever else it holds |
| Upload.EmptyNameBeforeExtension | app.py:65-67 | with a `file` part whose filename is empty the answer is "No file selected"/400, before any extension check |
| Upload.BadExtensionLast | app.py:129 | a present part with a non-empty, disallowed filename is answered "Invalid file type"/400 |
| Upload.AcceptedIff | app.py:62-69 | a request is accepted iff the part is present, its filename is non-empty and `allowed_file` holds; "No file uploaded" iff the part is missing; "No file selected" iff the part is present with an empty filename |
| Upload.AcceptedHasAllowedExtension | app.py:69 | an accepted filename has a dot and an allowed extension |
| Upload.OtherPartsIgnored | app.py:62-65 | parts under other field names never change the outcome |
| Upload.ValidateWithoutTruthTest | app.py:62-69 | the handler's check chain with the `file and` conjunct removed (no contract of its own; the reference for TruthTestRedundant) |
| Upload.TruthTestRedundant | app.py:66-69 | for every request, the handler with the `file and` test gives the same outcome as without it: the test never decides anything once the empty filename has been turned away |
| Dataset.Kept | create_dataset.py:33-40 | a counter after `c` occurrences is at most `c` and at most `Quota(n)` = max(N, 0), equals one of these two, and is below N exactly when `c` is; so it is min(c, max(N, 0)) |
| Dataset.Selected | create_dataset.py:29-40 | the selection rule over the first `k` labels: image `i` is written, numbered by how many earlier images share its digit, exactly when fewer than N earlier images share it (no contract of its own; characterised by SelectedShape, SavedIff, SelectedCount, FolderContents) |
| Dataset.FirstFull | create_dataset.py:43-44 | the first position from `k` at which every digit has occurred at least N times, or the end, with no full prefix in between |
| Dataset.StopIndex | create_dataset.py:29-44 | the number of labels consumed: stopping early only with a positive quota and every digit full, and no shorter prefix is full |
| Dataset.DigitChar | create_dataset.py:36 | `str(label)` is one decimal digit character |
| Dataset.Decimal | create_dataset.py:36 | the decimal rendering is non-empty and ends in the last digit; numbers of two or more digits render with at least two characters |
| Dataset.Join | create_dataset.py:36 | POSIX `os.path.join` of two components, the second not starting with `/`: the first, a slash unless it is empty or already ends in one, then the second (no contract of its own) |
| Dataset.DirPrefix | create_dataset.py:36 | the part of a joined path before the second component (no contract of its own) |
| Dataset.FileName | create_dataset.py:36 | `digit_<n>.png` with `n` in decimal (no contract of its own) |
| Dataset.FilePath | create_dataset.py:36 | `output_dir/<label>/digit_<count>.png`, the path an image is written to (no contract of its own; FilePathInjective shows it determines digit and number) |
| Dataset.AllAtLeast | create_dataset.py:43 | `all(count >= N for count in digit_count.values())` over the ten counters (no contract of its own; CountersFull ties it to every digit being full) |
| Dataset.GenerateDataset | create_dataset.py:26-44 | the loop consumes exactly `StopIndex` labels; its writes are exactly `Selected`; its final counters are the capped occurrence counts; each write goes to `FilePath`; no two writes share a path |
| Dataset.StartState | create_dataset.py:26 | all ten counters start at 0, with nothing written |
| Dataset.SaveStep | create_dataset.py:33-44 | saving image `i` raises its digit's counter by exactly 1 and leaves the other nine counters unchanged; it records the write under the old counter value; the loop then stops iff every digit is full |
| Dataset.SkipStep | create_dataset.py:33 | an image whose digit has reached the quota changes no counter and writes nothing |
| Dataset.CounterStep | create_dataset.py:33-40 | the counter test `digit_count[label] < samples_per_digit` agrees with "fewer than N earlier images of this digit"; the increment moves only that digit |
| Dataset.SelectedStep | create_dataset.py:29-40 | unfolds the selection rule by one label: the selection grows by that image's own write when fewer than N earlier images share its digit, and by nothing otherwise (a step of the definition, used by the loop proof) |
| Dataset.CountersFull | create_dataset.py:43 | under a positive quota, `all(count >= N)` holds exactly when every digit has occurred N times |
| Dataset.NotFullStep | create_dataset.py:33-44 | skipping an image cannot complete the set, so the break is only reached after a save |
| Dataset.StopsAtFirstFull | create_dataset.py:43-44 | breaking at the first full prefix consumes exactly `StopIndex` labels |
| Dataset.RunsToEnd | create_dataset.py:29 | with no full prefix the whole label sequence is consumed |
| Dataset.CountersBounded | create_dataset.py:26-40 | counters start at 0 and never exceed `Quota(n)`, that is max(N, 0): with a negative N they stay at 0 |
| Dataset.SelectedShape | create_dataset.py:33-40 | every write is an image already consumed; it goes to its own digit's folder; its number is the count of earlier images of that digit, below the quota; writes follow dataset order |
| Dataset.SavedIff | create_dataset.py:33 | image `i` is written iff fewer than N earlier images carry its digit |
| Dataset.SelectedCount | create_dataset.py:33-40 | the number of images written for a digit equals its counter, min(max(N, 0), occurrences so far) |
| Dataset.FileNumbersConsecutive | create_dataset.py:36-40 | each write's number is how many images of its digit were written before it |
| Dataset.FileNumbersIncrease | create_dataset.py:36-40 | within one folder, file numbers are distinct and increase in dataset order |
| Dataset.FileNumbersCover | create_dataset.py:36-40 | every number below a digit's write count is used by one of its writes |
| Dataset.FolderContents | create_dataset.py:29-40 | a digit's folder receives exactly the numbers `0 .. count-1`, where `count` is its final counter |
| Dataset.NonPositiveQuotaSavesNothing | create_dataset.py:33-44 | with a quota of 0 or less nothing is written and the whole sequence is walked |
| Dataset.StopsAfterSave | create_dataset.py:40-44 | an early stop comes right after a save: the last image consumed was written and completed the set |
| Dataset.FinalCounts | create_dataset.py:29-44 | each digit ends with min(max(N, 0), occurrences in the whole dataset) images, whether or not the loop stopped early |
| Dataset.DecimalInjective | create_dataset.py:36 | different numbers have different decimal names |
| Dataset.FilePathInjective | create_dataset.py:36 | a path determines its digit folder and file number |
| Dataset.SelectedPathsDistinct | create_dataset.py:36-37 | no two writes go to the same file |

## Left out

- Image preprocessing (app.py:31-49, predict.py:14-24) is left out. It consists of foreign OpenCV calls and floating-point scaling. The web path inverts pixel polarity (app.py:44) and the command-line predictor does not; that divergence is noted here, not modelled.
- Model loading, inference and the response built from it (app.py:19-25, 70-127) are left out. They are TensorFlow calls and float arithmetic, so the "Error processing image" and "Prediction error" answers after acceptance are out of scope too.
- Plotting, the timestamped plot file name and every file-system or HTTP call are left out: `os.makedirs`, `file.save`, `send_from_directory`, `render_template` and `app.run`.
- `secure_filename` is left out. Werkzeug is not part of this model, and the check order does not depend on it because it runs after acceptance.
- Upload.FilePresent: the truth value of an uploaded part is taken to be "its filename is non-empty", which is how werkzeug defines it. Werkzeug itself is not part of this model.
- `request.files` is a multi-dictionary. The model keeps one part per field name, the one the handler reads.
- Upload.LowerChar: lowers only `A`-`Z` and leaves other characters alone, whereas Python's `str.lower` also lowers other alphabets. The verdict is unaffected: the allowed extensions are ASCII, and no non-ASCII character lowers to an ASCII letter other than `k` (KELVIN SIGN) and `i` (from U+0130, followed by a combining dot). Neither letter appears in `png`, `jpg` or `jpeg`.
- The allowed set is the one in app.py:14. config.py:14 also lists `gif`, but that configuration is loaded only by wsgi.py:10 when run as a script. The app's `allowed_file` reads `app.config`, so under that entry point `gif` would also pass; that variant is not modelled.
- `create_directories`, the MNIST load and the summary printout (create_dataset.py:7-15, 20, 46-56) are file-system and dataset I/O. The labels become the method's input. The images themselves are not carried: a write records the image's index.
- Dataset.GenerateDataset: labels are typed as digits 0-9. A label outside that range would raise `KeyError` at create_dataset.py:33; MNIST never supplies one.
- Dataset.FilePath: `os.path.join` is modelled for POSIX separators and for components that do not start with `/`. That is always the case for the label folder and the `digit_<n>.png` name.
