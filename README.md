# Attendance system: a Dafny model of the recognition and bookkeeping core

The attendance system is a small Flask application (`app.py`). Its
`images/` directory holds one photo per registered student, named after
the student. At start-up, and after every administrative change, the
application builds a gallery from those photos. Each photo contributes
either a face embedding or, when the face model is unavailable, a
64-bit perceptual hash. The gallery maps the file name's stem to that
representation.

`/api/verify` compares a probe image with the gallery:

- In embedding mode, the first closest student is accepted when their
  distance is below 0.5.
- In hash mode, the first closest student is accepted when at most 10
  bits differ.

An accepted probe appends a `name,date,time` line to `attendance.csv`,
and the dashboard reads those lines back. `/api/admin/remove_student`
deletes every file matching the pattern `safe + ".*"`, where `safe` is the
sanitized name, and then reloads the gallery.

The model consists of these modules:

- `Wrappers`: the `Option` type.
- `Text`: the parts of Python's `str` that the application uses. These are
  `isspace`, `strip`, `split` on one character, `replace` of one character,
  `partition`, and zero-padded decimals. `Text.Join` (joining on one
  character) is not called by the application; the lemmas use it to state
  what `split` gives back.
- `Names`: `sanitize_name`, the identity a file stands for (its
  `os.path.splitext` stem), and the removal glob.
- `KnownFaces`: `load_known_faces`, written as a loop over the directory
  listing, with a fold `Build` as its specification. The gallery is an
  insertion-ordered dict: a sequence of entries with distinct keys, where
  assigning an existing key keeps its position.
- `Attendance`: the CSV line `record_attendance` writes, and the loop in
  `read_attendance` that parses lines back. The CSV file is a class whose
  `content` field the recording method appends to. Reading splits that
  content into lines the way text-mode iteration does.
- `Verify`: the decision of `api_verify`:
  - the data-URL payload split;
  - the embedding branch as a function over a distance oracle;
  - the hash branch as the source's scanning loop;
  - the two request handlers, which write attendance for accepted probes.
- `Admin`: `api_remove_student`, as a loop over the directory listing that
  returns the response and the directory that remains.

The model treats three things as inputs supplied by the caller:

- Image decoding, face detection and encoding, and the perceptual hash.
  For each directory entry an `Extraction` says whether the image gave a
  representation, had no face, or raised. The probe is given as its
  detected faces or its hash.
- The clock, as a `Timestamp`.
- Whether a write to the attendance file succeeds, as a flag.

## Model

| member | source | states |
|---|---|---|
| Text.TrimStart | app.py:33 | the result is the suffix left after the leading whitespace (Python `isspace`) is dropped, and it does not start with whitespace |
| Text.TrimEnd | app.py:33 | the result is the prefix left after the trailing whitespace is dropped, and it does not end with whitespace |
| Text.Strip | app.py:33 | `strip()` with no argument: `TrimEnd` after `TrimStart`; `StripKeepsChars`, `StripNoop` and `StripEmptyIff` state what it keeps |
| Text.StripKeepsChars | app.py:33 | `strip` introduces no character that was not in its input |
| Text.StripNoop | app.py:223 | a string whose two ends are not whitespace is left unchanged by `strip` |
| Text.TrimStartAppend | app.py:33 | dropping leading whitespace from `s + t` drops it from `s`, and from `t` too when `s` was all whitespace |
| Text.StripLeadingSpace | app.py:33 | a leading whitespace character does not change what `strip` gives |
| Text.StripTrailingSpace | app.py:33 | a trailing whitespace character does not change what `strip` gives |
| Text.StripEmptyIff | app.py:33 | `strip` yields the empty string exactly when every character is whitespace |
| Text.Split | app.py:223 | `split(',')` yields one more piece than there are separators, and no piece holds a separator |
| Text.JoinSplit | app.py:223 | joining the pieces of a split with the separator gives back the string |
| Text.SplitJoin | app.py:223 | splitting a join of separator-free pieces gives back the pieces |
| Text.SplitAfterHead | app.py:223 | a separator-free head followed by a separator splits off as the first piece |
| Text.SplitNoSep | app.py:223 | a string without the separator splits into itself alone |
| Text.ReplaceChar | app.py:33 | `replace(' ', '_')`: every occurrence of one character becomes another and the rest is unchanged; `SpacesReplacedByUnderscore` and `SanitizeNoop` state its effect on names |
| Text.ReplaceCharAbsent | app.py:33 | replacing a character that does not occur changes nothing |
| Text.ReplaceCharOnce | app.py:33 | replacing the single occurrence in `a + [from] + b` gives `a + [to] + b` |
| Text.Partition | app.py:114 | `partition` reassembles to its input; the head holds no separator; the separator is found iff it occurs; the tail is empty when it is not found |
| Text.PartitionAtFirst | app.py:114 | partitioning `head + sep + rest` with a separator-free head yields `(head, found, rest)` |
| Text.DigitsValue | app.py:66 | the number a string of decimal digits denotes, most significant digit first |
| Text.Decimal | app.py:66 | `str(n)` of a natural number is a non-empty string of decimal digits that denotes `n` and has no leading zero unless it is the single digit `0` |
| Text.LeadingZeroValue | app.py:66 | a leading zero does not change the number a digit string denotes |
| Text.LeadingZerosValue | app.py:66 | any number of leading zeros does not change the number a digit string denotes |
| Text.ZeroPad | app.py:66 | `%0Nd` yields decimal digits that denote `n`, as many as `str(n)` has or N when that is more |
| Names.KeepChars | app.py:33 | every character of the input that is a letter, digit, space, `-` or `_` is in the result, and nothing else is; `KeepCharsOne` and `KeepCharsAppend` fix the order and multiplicity |
| Names.KeepCharsOne | app.py:33 | one character is kept iff it is a letter, digit, space, `-` or `_` |
| Names.KeepCharsAppend | app.py:33 | filtering distributes over concatenation, so kept characters stay in input order and count |
| Names.Sanitize | app.py:32-33 | a sanitized name consists only of ASCII letters, digits, `-` and `_`; `SanitizeDropsUnkept`, `SanitizeLeadingSpace`, `SanitizeTrailingSpace` and `SanitizeKeptText` together fix the result for every name |
| Names.SanitizeDropsUnkept | app.py:33 | a character other than a letter, digit, space, `-` or `_` is dropped wherever it sits |
| Names.SanitizeLeadingSpace | app.py:33 | a leading space is dropped |
| Names.SanitizeTrailingSpace | app.py:33 | a trailing space is dropped |
| Names.SanitizeInnerSpace | app.py:33 | a space between two non-empty runs of letters, digits, `-` and `_` becomes `_`: `Sanitize(a + " " + b) == a + "_" + b` |
| Names.SanitizeKeptText | app.py:33 | a string of letters, digits, spaces, `-` and `_` with no space at either end sanitizes to the same length with every space, inner ones included, turned into `_` and every other character in place; with `SanitizeDropsUnkept`, `SanitizeLeadingSpace` and `SanitizeTrailingSpace` this fixes `Sanitize` on every input |
| Names.NameCharsHaveNoSpace | app.py:33 | a string of letters, digits, `-` and `_` holds no space and has no whitespace at either end |
| Names.SanitizeNoop | app.py:32-33 | a name made only of letters, digits, `-` and `_` is its own sanitized form |
| Names.SanitizeIdempotent | app.py:32-33 | sanitizing twice gives the same result as sanitizing once |
| Names.SanitizeEmptyIff | app.py:32-33 | the sanitized name is empty exactly when the input has no letter, digit, `-` or `_` |
| Names.KeepCharsNoop | app.py:33 | filtering a string of kept characters changes nothing |
| Names.StrippedCharsAreKept | app.py:33 | after filtering and stripping, only letters, digits, spaces, `-` and `_` remain |
| Names.SpacesReplacedByUnderscore | app.py:33 | replacing spaces with `_` in such a string leaves only letters, digits, `-` and `_` |
| Names.LastIndexOf | app.py:43 | `rfind`: no result iff the character is absent; otherwise the index holds it and no later position does |
| Names.SplitExt | app.py:43 | `os.path.splitext` on a base name: root + ext is the name. A non-empty ext starts at the last dot and is not preceded by dots only. The ext is empty only when every dot is preceded by dots only |
| Names.Stem | app.py:43 | the identity of an image file is the root `splitext` gives; `SplitExtOfJoined`, `UnlistedStemIsBareName` and `StemOfNameChars` state it for the names the application makes |
| Names.SplitExtOfJoined | app.py:43 | a file named `stem.ext` (stem not all dots, ext without a dot) has identity `stem` |
| Names.MatchesRemovalGlob | app.py:200 | `glob(safe + ".*")` for a literal `safe`: the name starts with `safe.`, and a dot-file is listed only when the pattern starts with a dot; `RemovalGlobSelectsPrefix` states it for sanitized names |
| Names.SanitizedHasNoGlobMagic | app.py:198-200 | a sanitized name has no `*`, `?` or `[`, so the removal pattern is literal |
| Names.NameCharsHaveNoGlobMagic | app.py:198-200 | a string of letters, digits, `-` and `_` has no glob metacharacter |
| Names.RemovalGlobSelectsPrefix | app.py:198-200 | for a sanitized name, the pattern `safe.*` lists a name iff the name starts with `safe.` |
| Names.RemovalGlobCrossesIdentities | app.py:198-200 | removing `alice` also lists `alice.old.png`, whose identity is `alice.old` |
| Names.UnlistedStemIsBareName | app.py:43 | a file whose identity is `safe` but which does not start with `safe.` is named exactly `safe` |
| KnownFaces.FirstFace | app.py:47-49 | embedding mode stores the first detected face, and an image without a face gives nothing |
| KnownFaces.FirstFaceEntry | app.py:41-49 | in embedding mode a listed regular file loads iff its image has a face, and then contributes the first one |
| KnownFaces.Listed | app.py:40 | `glob('*')` lists exactly the non-empty names that do not start with a dot; `BuildSkipsUnloaded` states that other entries leave the gallery unchanged |
| KnownFaces.Lookup | app.py:49 | `d[k]` is present iff `k` is a key, and then it is the value stored with `k` |
| KnownFaces.IndexOfKey | app.py:49 | the found position holds the key; no result means the key is absent |
| KnownFaces.Put | app.py:49 | dict assignment keeps keys distinct, overwrites an existing key in place, and otherwise appends |
| KnownFaces.Build | app.py:36-55 | the gallery built from a listing has distinct keys |
| KnownFaces.LoadKnownFaces | app.py:36-55 | the loop over the listing (unlisted dot-files, non-files and failed extractions skipped) computes `Build` of the listing |
| KnownFaces.ProvidedInSnoc | app.py:40-54 | a key is provided by `d + [e]` iff it is provided by `d` or by `e` |
| KnownFaces.KeysOfPut | app.py:49 | storing under `k` adds `k` to the keys and nothing else |
| KnownFaces.BuildKeys | app.py:40-54 | a key is in the gallery iff some listed file with a representation has that stem |
| KnownFaces.BuildLookupIsLast | app.py:40-54 | a key maps to the representation of the last file providing it |
| KnownFaces.LookupAfterOtherPut | app.py:49 | storing under another identity does not change what a key maps to |
| KnownFaces.BuildSkipsUnloaded | app.py:53-54 | an entry without a representation (no face, exception, not a file, hidden) leaves the gallery unchanged wherever it sits |
| KnownFaces.BuildKeyOrder | app.py:40-54 | gallery order is first-insertion order: an earlier key was provided before any file providing a later key |
| KnownFaces.BuildKeyOrderNewKey | app.py:40-54 | the same order fact for a key the last listed file newly adds |
| Attendance.DateText | app.py:66 | `str(ts.date())`: zero-padded year, month and day joined by `-`; `DateTextFields` states it |
| Attendance.TimeText | app.py:66 | `strftime("%H:%M:%S")`: zero-padded hour, minute and second joined by `:`; `TimeTextFields` states it |
| Attendance.DateTextFields | app.py:66 | the date splits on `-` into three digit fields of widths at least 4, 2 and 2 that denote the year, month and day |
| Attendance.TimeTextFields | app.py:66 | the time splits on `:` into three digit fields of width at least 2 that denote the hour, minute and second |
| Attendance.SplitDigitFields | app.py:66 | three digit strings joined by a non-digit separator split back into those three |
| Attendance.DigitFieldsShape | app.py:66 | digit fields joined by a separator other than a comma or line break hold no comma or line break and start and end with a digit |
| Attendance.DigitsHaveNo | app.py:66 | a string of digits holds no non-digit character |
| Attendance.FormatLine | app.py:66 | the appended line is `name,date,time` and a newline; `ParseFormatRoundTrip` and `StripFormatLine` state what reading it gives |
| Attendance.DateTimeTextShape | app.py:66 | the date and time fields hold no comma or line break, the date does not start with whitespace, and the time does not end with it |
| Attendance.JoinThreeOrMore | app.py:223-225 | a join of three or more fields is the first three joined, followed by nothing when there are exactly three and by the separator otherwise |
| Attendance.ParseLine | app.py:223-225 | one iteration of the reading loop: strip, split on commas, and keep the first three fields when there are at least three; `ParseLineFields` states it |
| Attendance.ParseLineFields | app.py:223-225 | a line gives no row iff its stripped text has fewer than two commas; a row's fields are comma-free and, joined by commas, are the whole stripped line when it has exactly two commas and are followed by a comma otherwise |
| Attendance.ParseFormatRoundTrip | app.py:66 | a line written for a name without comma or line break that does not start with whitespace parses back to that name, date and time |
| Attendance.SplitRecordedFields | app.py:223 | `name,date,time` with comma-free name, date and time splits on commas into exactly those three fields |
| Attendance.StripFormatLine | app.py:66 | stripping a recorded line removes exactly its newline |
| Attendance.StripNewline | app.py:223 | a line whose text before the newline has no whitespace at either end strips to that text |
| Attendance.JoinThree | app.py:66 | joining three fields with commas gives `a,b,c` |
| Attendance.NameCharsAreRecordable | app.py:32-33 | a name of letters, digits, `-` and `_` survives the line format |
| Attendance.SanitizedNameIsRecordable | app.py:32-33 | sanitized names always survive the line format |
| Attendance.Present | app.py:224-225 | keeping the rows of the parsable lines gives at most one row per line |
| Attendance.PresentStep | app.py:224-225 | one more line adds its row at the end when it has one, and nothing otherwise |
| Attendance.Rows | app.py:222-225 | at most one row per line |
| Attendance.FirstLine | app.py:221-222 | text-mode iteration's first line is non-empty and ends at the first `\n`, `\r` or `\r\n` (yielded as `\n`); what remains is a strictly shorter suffix of the content |
| Attendance.FileLines | app.py:221-222 | `for line in f`: the content cut into its lines, first to last; `FirstLineAtBreak`, `FileLinesAppend` and `OneLine` state it |
| Attendance.FirstLineAtBreak | app.py:221-222 | universal newlines: break-free text followed by `\n`, `\r\n`, or a `\r` not followed by `\n`, is read as that text ending in `\n`, and reading resumes right after the break |
| Attendance.FileLinesCons | app.py:221-222 | non-empty content reads as its first line followed by the lines of the rest |
| Attendance.FirstLineAppend | app.py:221-222 | appending text that does not start with `\n` after a line break leaves the first line unchanged |
| Attendance.FileLinesAppend | app.py:221-222 | the lines of `a + b`, for `a` ending with a line break and `b` not starting with `\n`, are those of `a` followed by those of `b` |
| Attendance.OneLine | app.py:221-222 | text without line breaks followed by `\n` reads as exactly one line |
| Attendance.FormatLineIsOneLine | app.py:66 | a line recorded for a name without line breaks reads as exactly one line |
| Attendance.ReadAttendance | app.py:217-228 | with the file's content: nothing when the file does not exist; otherwise the rows of the parsable lines in order, cut off after the lines read before a read error |
| Attendance.RowsSnoc | app.py:222-225 | a parsable line adds its row at the end |
| Attendance.RowsAfterRecord | app.py:66-68 | on a file that is empty or ends with a line break, appending the line recorded for a name without comma or line break, not starting with whitespace, adds exactly its row |
| Attendance.RecordJoinsUnterminatedLine | app.py:66-68 | on a file with text but no line break, the recorded text continues the existing text, so the file still reads as a single line and the record gets no line of its own |
| Attendance.RecordJoinsLastLine | app.py:66-68 | on a file whose terminated lines are followed by a last line without a line break, the earlier lines read as before and the recorded text continues the last line |
| Attendance.LogText | app.py:66-68 | the content written by a sequence of recordings on an empty file; it is empty or ends with a line break |
| Attendance.RecordRow | app.py:66 | the row a record should read back as: its name, date text and time text |
| Attendance.ReadBackRecords | app.py:66 | reading back the content written by recordings for such names gives one row per record, in order, with the recorded names, dates and times |
| Attendance.AttendanceLog.constructor | app.py:29 | the log starts with the file's existing content |
| Attendance.AttendanceLog.RecordAttendance | app.py:62-70 | the formatted line is appended to the content when the write succeeds; otherwise the content is unchanged |
| Verify.ImagePayload | app.py:114-115 | the payload is the whole field when there is no comma; otherwise it is either the whole field or the non-empty text after the first comma |
| Verify.DataUrlPayload | app.py:114-115 | a `data:` URL `header,payload` yields exactly its payload |
| Verify.ArgMin | app.py:132 | `np.argmin` gives the first index of the smallest distance |
| Verify.FirstMinUnique | app.py:132 | there is only one first index of the minimum |
| Verify.FaceDistances | app.py:131 | `face_distance`: the distance oracle applied to each gallery representation and the probe, in gallery order; `EmbeddingVerify` states what the decision makes of it |
| Verify.EmbeddingVerify | app.py:122-137 | "No face found" for a faceless probe, checked before the gallery; "No registered students" for an empty gallery. Otherwise the reported distance is the smallest, accepted iff below 0.5, and the name is a gallery key on acceptance and `Unknown` otherwise |
| Verify.EmbeddingWinner | app.py:131-137 | the decision is exactly that of the first closest student, with that student's distance |
| Verify.Hamming | app.py:144 | hash difference is at most the hash length, and zero iff the hashes are equal |
| Verify.HashVerify | app.py:138-153 | "No registered students" iff the gallery is empty (the 999 sentinel never binds for 64-bit hashes). Otherwise the winner is the first closest entry, its distance is reported, and it is accepted iff at most 10 bits differ |
| Verify.AttendanceText | app.py:135-136 | an accepted probe whose write succeeds appends the formatted line for the accepted name, anything else appends nothing; the handlers' contracts state it |
| Verify.ApiVerifyEmbedding | app.py:122-137 | the embedding response, and exactly one attendance line appended for an accepted probe (none otherwise, none when the write fails) |
| Verify.ApiVerifyHash | app.py:138-153 | the hash response, and exactly one attendance line appended for an accepted probe |
| Admin.Selected | app.py:200 | the glob listing holds exactly the directory entries the pattern matches |
| Admin.Remaining | app.py:200-205 | the remaining entries are exactly those not deleted (deletion needs a match and a regular file) |
| Admin.RemainingAfter | app.py:198-205 | the directory after a removal holds only entries that were there before |
| Admin.ApiRemoveStudent | app.py:195-208 | an empty name gives "name required" and deletes nothing. Otherwise the matching files are deleted, `removed` is true iff some deletion succeeded, and the students are the keys of the gallery rebuilt from what remains |
| Admin.DeletedAreSelectedFiles | app.py:200-205 | an entry is gone after the deletions iff the pattern lists it and it is a regular file |
| Admin.SomeDeletedIffSelectedFile | app.py:199-205 | something is deleted iff an entry the pattern lists is a regular file |
| Admin.DeletesBeforeStep | app.py:200-205 | a deletion among the first i+1 entries is one among the first i or at entry i |
| Admin.RemainingSnoc | app.py:200-205 | scanning one more entry keeps it unless it is deleted |
| Admin.SelectedArePrefixed | app.py:198-200 | the removal selects exactly the entries whose name starts with the sanitized name and a dot |
| Admin.StemOfNameChars | app.py:43 | a name of letters, digits, `-` and `_` is its own identity |
| Admin.RemovedIdentitySurvivesIff | app.py:198-208 | after removal, the removed identity is still a student iff a loadable file named exactly `safe`, with no extension, exists |
| Admin.UnselectedSurvive | app.py:200-205 | an entry whose name does not start with `safe.` survives the removal |

## Left out

- Flask routing, templates, sessions and the admin check (the 401 answers), the login page, `serve_image` and the dashboard view: web plumbing without decision logic.
- `api_add_student` and placeholder-image creation: file creation is not part of this model. A new file enters the model only through the directory listing given to `LoadKnownFaces`.
- Face detection, face encoding, `face_distance`, `imagehash.phash`, PIL decoding and base64 decoding are foreign libraries. Their results are inputs: an `Extraction` per file, the probe's faces or hash, and a distance oracle. The "No image provided" answer and the exception-to-PIL fallback of `_image_from_bytes` depend on them and are not modelled.
- The choice between embedding and hash mode (`FACE_RECOG_AVAILABLE`) is made at import time. The model provides both branches as separate handlers.
- The reassignment of the global `KNOWN_FACES` and any concurrent requests. Handlers receive the gallery, and `ApiRemoveStudent` returns the reloaded gallery's keys.
- Floating point: embedding distances are `real`, so NaN distances and rounding are not modelled.
- Names.IsAlnum: only ASCII letters and digits. Python's `isalnum` also accepts other Unicode letters and digits.
- The filesystem is a value: a listing of entries (name, whether it is a regular file, extraction result), in the order `glob` returns them. `os.remove` succeeds exactly for regular files. Symbolic links are not modelled: `os.path.isfile` follows a link while `os.remove` unlinks any link, so a link to a directory is deleted by the removal yet never loaded, which one `isFile` flag per entry cannot express. Permission errors and races are not modelled.
- Attendance.ReadAttendance: a read error part-way through the file is modelled by the number of lines read before it. The file is given as its content, split into lines as text-mode iteration does (universal newlines); the character encoding is not modelled. Because reading splits at `\n`, `\r` and `\r\n`, the round-trip lemmas (`RowsAfterRecord`, `ReadBackRecords`) require names without line breaks, as every sanitized name is, and `RowsAfterRecord` requires a file that is empty or ends with a line break; `RecordJoinsLastLine` states what happens otherwise (the record continues the unterminated last line), and `RecordJoinsUnterminatedLine` the case of a file with no line break at all.
- Names.MatchesRemovalGlob: only patterns without glob metacharacters, which is every pattern the handler builds from a sanitized name.
- Verify.HashVerify: hashes are 64-bit, the default `phash` size. Larger hash sizes, for which the 999 sentinel could bind, are not modelled.
