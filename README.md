# File upload rules and commit, in Dafny

This project models the upload side of the abstract `File` entity in `Models/File.php`.
A `File` holds four kinds of upload rules:

- a per-property allow-list of extensions;
- a per-property deny-list of extensions;
- a maximum upload size, given as an integer or as a unit string such as `"500K"` or `"2MB"`;
- an optional alternate-name property.

`uploadFiles` takes a batch of upload descriptors keyed by property name and handles them in order:

1. It skips entries with an empty name and entries whose key is not a declared property.
2. It validates each remaining entry: transport status, then size, then extension.
3. It creates the target directory `<data root><bucket>/<extension>` when that directory is missing.
4. It builds a sanitised file name.
5. It moves the temporary file into place, unlinks the file the property named before, and stores the new path in the property.

The first rejection ends the call with `false`. Earlier assignments are not rolled back.

The project has one module per concern:

- `Outcomes`: errors, results, options.
- `Strings`: PHP's ASCII `strtolower`, the `preg_replace` sanitiser, `basename`, the `pathinfo` extension, `empty()` on strings, and the leading-digits reading of an `(int)` cast.
- `SizePolicy`: `parseSize`, how `getMaxSize` resolves the limit, and the `sizeIsOk` comparison.
- `Registry`: the allow-lists and deny-lists.
- `Validator`: `extensionIsOk` and `fileIsOk`, as pure functions.
- `Placement`: directory and file names, plus an abstract filesystem with move and unlink.
- `Commit`: one loop iteration (`StepEntry`) and the whole call (`Upload`), each as a function, with the lemmas about batches.
- `FileModel`: class `File`.

In class `File`, the fields are updated in place by the setters, by `GetMaxSize` (which caches the limit), by `FileIsOk` (which writes `mime`) and by `UploadFiles`. `UploadFiles` is a `while` loop proved to end exactly where `Commit.Upload` says under the `AsWritten` policy.

`Commit.StepEntry` and `Commit.Upload` take a `Policy`:

- `AsWritten` is the commit the code performs: move, then unlink the old value unconditionally.
- `Corrected` skips that unlink when the old value is the new path itself (see "## Findings").

The batch lemmas hold under both policies.

Things the program cannot see are explicit inputs:

- The filesystem is a `Disk` value: a set of files and a set of directories.
- The runtime default for `upload_max_filesize`, the data root and the bucket name are a `Config`.
- For each batch entry, an `Env` gives the clock reading (`time()`) and whether `mkdir`, `move_uploaded_file` and `unlink` succeed.

## Model

| member | source | states |
|---|---|---|
| FileModel.File.constructor | Models/File.php:15-28 | a fresh entity, whose declared properties are other than its own fields, has no lists, no limit and no alternate name; every declared property is null |
| FileModel.File.AddExtension | Models/File.php:39-46 | for a declared property, appends exactly one entry to its allow-list; for any other property, raises the unknown-property error and leaves the lists as they were |
| FileModel.File.SetExtensions | Models/File.php:56-63 | for a declared property, replaces its allow-list wholesale; otherwise raises and changes nothing |
| FileModel.File.SetAltNameProperty | Models/File.php:70-73 | stores the alternate-name property as given, without checking it |
| FileModel.File.AddBadExtension | Models/File.php:82-89 | for a declared property, appends exactly one entry to its deny-list; otherwise raises and changes nothing |
| FileModel.File.SetBadExtensions | Models/File.php:99-106 | for a declared property, replaces its deny-list wholesale; otherwise raises and changes nothing |
| FileModel.File.SetMaxSize | Models/File.php:113-116 | stores the raw limit unparsed |
| FileModel.File.GetMaxSize | Models/File.php:124-130 | an unset limit becomes the runtime default and stays stored; the result is the parse of the stored limit |
| FileModel.File.SizeIsOk | Models/File.php:218-224 | for a numeric limit, true exactly when size <= limit, so equality passes; the limit is resolved and cached on the way |
| FileModel.File.ExtensionIsOk | Models/File.php:203-211 | the lower-cased extension exactly when the allow-list is absent or contains it and the deny-list is absent or lacks it; otherwise none |
| FileModel.File.FileIsOk | Models/File.php:186-195 | returns the verdict of `Validator.CheckFile` and leaves `maxSize` and `mime` as it says |
| FileModel.File.Unlink | Models/File.php:253-259 | an undeclared property reports success and leaves the disk alone; otherwise the effect of `Placement.UnlinkValue` on its value |
| FileModel.File.GetMime | Models/File.php:261-263 | returns the `mime` field |
| FileModel.File.SetMime | Models/File.php:265-268 | sets the `mime` field |
| FileModel.File.CommitEntry | Models/File.php:146-174 | one pass of the loop body (move, then `unlink($ppt)`, then assign) stops, or goes on, with the outcome, entity state and disk that `Commit.StepEntry` gives under the as-written commit |
| FileModel.File.UploadFiles | Models/File.php:138-178 | input that is not a batch raises and changes nothing; for a batch, the result, the entity's properties, `mime`, stored limit and the disk are those of `Commit.Upload` with the as-written commit; the property keys are preserved |
| Registry.Append | Models/File.php:44 | the list for the property gains one entry at the end; every other list is unchanged |
| Registry.Replace | Models/File.php:61 | the list for the property becomes the given one; every other list is unchanged |
| Registry.ReplaceDiscardsAppend | Models/File.php:44-61 | a replace after an append is the same as the replace alone |
| Registry.AppendsCommute | Models/File.php:44 | appends to two different properties commute |
| Registry.AppendTwice | Models/File.php:44 | appends keep their order |
| SizePolicy.Tail | Models/File.php:240-243 | `substr($s, strlen($s) - n)` with PHP's negative offsets: the last n characters when n is at most the length; for a longer n the offset counts back from the end, giving n minus the length characters up to twice the length and the whole string beyond; always a suffix, and shorter than n once n exceeds the length |
| SizePolicy.ParseSize | Models/File.php:232-246 | an int is returned unchanged; null and other non-strings fail on the type; a string ending case-insensitively in k/kb gives its leading number times 1000; otherwise m/mb gives times 1000000; any other string gives no value |
| SizePolicy.ParseKilo | Models/File.php:240-241 | every rendered number followed by k, K, kb, KB, kB or Kb parses to that number times 1000 |
| SizePolicy.ParseMega | Models/File.php:243-244 | every rendered number followed by m, M, mb, MB, mB or Mb parses to that number times 1000000 |
| SizePolicy.PlainNumberStringIsUnparseable | Models/File.php:240-246 | a plain digit string, with no unit, gives no value |
| SizePolicy.ParseTwoMega | Models/File.php:243-244 | "2M" is 2000000 bytes |
| SizePolicy.ParseFiveHundredKilo | Models/File.php:240-241 | "500K" is 500000 bytes |
| SizePolicy.ParseGigaIsUnparseable | Models/File.php:240-246 | "2G" gives no value |
| SizePolicy.ResolveMax | Models/File.php:125-127 | an unset limit is replaced by the runtime default; any other limit is kept |
| SizePolicy.ResolveMaxIsCached | Models/File.php:125-127 | resolving twice gives the first resolution, whatever the later default |
| SizePolicy.SizeAdmits | Models/File.php:219-223 | against a byte count, true exactly when size <= limit; a limit of the wrong type raises; a string limit with no value admits exactly size 0, as PHP's comparison with null does |
| SizePolicy.SizeBoundary | Models/File.php:219 | a size equal to the limit passes; one byte more fails |
| Strings.Lower | Models/File.php:204 | same length; every character is lower-cased ASCII |
| Strings.LowerHasNoUpper | Models/File.php:204 | a lower-cased string has no upper-case letter |
| Strings.Sanitize | Models/File.php:164-165 | same length; safe characters are kept, every other character becomes `_`; the result has safe characters only |
| Strings.SanitizeIdempotent | Models/File.php:164-165 | sanitising twice is sanitising once |
| Strings.BaseName | Models/File.php:164-165 | the result is the suffix right after the last `/`, and has no `/`; a name with no `/` is its own base name |
| Strings.ExtensionOf | Models/File.php:193-194 | the result is the suffix right after the last `.`, and has no `.`; a name without `.` has the empty extension |
| Strings.ExtensionOfBaseNameIsPlain | Models/File.php:193-194 | the extension of a base name has neither `/` nor `.` |
| Strings.Falsy | Models/File.php:147-154 | PHP's `empty` and `!` on a string hold for at most one character, and for a single character exactly when it is `0` |
| Strings.DecimalString | Models/File.php:165 | the rendering of `time()` is a non-empty string of digits with no leading zero (read back by `Strings.DecimalRoundTrip`) |
| Strings.LeadingDigits | Models/File.php:241 | the longest all-digit prefix |
| Strings.LeadingNumber | Models/File.php:241-244 | the `(int)` cast: 0 for a string that does not start with a digit, and the decimal value of a string made only of digits |
| Strings.DecimalRoundTrip | Models/File.php:241 | reading back a rendered number gives the number |
| Strings.LeadingNumberOfRendered | Models/File.php:241 | a rendered number followed by anything that does not start with a digit reads back as that number |
| Validator.ExtensionVerdict | Models/File.php:203-211 | the lower-cased extension exactly when the allow-list is absent or contains it and the deny-list is absent or lacks it; otherwise none |
| Validator.DenyWinsOverAllow | Models/File.php:205-208 | an extension on both lists is rejected |
| Validator.VerdictIgnoresCase | Models/File.php:204 | extensions that lower-case alike get the same verdict |
| Validator.EmptyAllowListRejectsAll | Models/File.php:205-206 | an allow-list that was set to empty rejects every extension |
| Validator.UpperCaseEntryNeverAdmits | Models/File.php:203-205 | list entries are not lower-cased, so an entry with an upper-case letter never matches and adding it to an existing allow-list changes no verdict |
| Validator.AddedExtensionIsAdmitted | Models/File.php:203-211 | after a lower-case extension is added and is not denied, an upload with that extension in any case passes |
| Validator.CheckFile | Models/File.php:186-195 | a transport error rejects and changes nothing; otherwise the limit is resolved and cached; an oversize file is rejected with `mime` untouched; a limit of the wrong type raises with `mime` untouched; a fitting file sets `mime` to the declared type and gets the extension verdict of its base name |
| Validator.MimeRecordedBeforeExtensionCheck | Models/File.php:190-194 | `mime` is recorded even when the extension is then refused |
| Validator.SizeAtLimitReachesExtensionCheck | Models/File.php:190-194 | a file exactly as large as an integer limit proceeds to the extension check |
| Placement.StampedName | Models/File.php:165 | the timestamp name is the rendered clock, then `_`, then the sanitised base name of the upload (stated by its length, its prefix and its suffix); it has safe characters only and no `/`; its leading digits read back as the clock value; it ends with the sanitised original name when that has no directory part |
| Placement.AltName | Models/File.php:164 | the alternate name is the sanitised base name of the property's value, then "." and the extension; a value without `/` is sanitised whole; the stem has safe characters only |
| Placement.GeneratedName | Models/File.php:164-166 | a name built either way has no `/` when the extension has none |
| Placement.PropertyValue | Models/File.php:164 | reading a declared property gives its value; an undeclared one reads as null, whose string form is empty |
| Placement.UndeclaredAltNameIsBareExtension | Models/File.php:164 | an alternate-name property that is not declared names the upload `.` followed by the extension |
| Placement.AltNameIgnoresUploadAndClock | Models/File.php:164 | with an alternate-name property, the name depends on neither the uploaded name nor the clock |
| Placement.TimestampNamesDiffer | Models/File.php:165 | without one, uploads made in different seconds get different names |
| Placement.StampedNameOfPlainName | Models/File.php:165 | without an alternate-name property, a name with no `/` is stored as the timestamp, `_`, and the sanitised name |
| Placement.SanitizeSpaceAndBang | Models/File.php:164-165 | "my file!.pdf" sanitises to "my_file_.pdf", so it is stored as `<time>_my_file_.pdf` |
| Placement.Move | Models/File.php:168 | the destination exists afterwards, the source is gone, no file is created but the destination, and nothing else changes |
| Placement.UnlinkValue | Models/File.php:253-259 | only a string naming an existing file is deleted, and only when the deletion succeeds; anything else reports true and leaves the disk alone |
| Placement.TargetDir | Models/File.php:157 | the directory `<data root><bucket>/<extension>` |
| Placement.PlaceAsWritten | Models/File.php:168-170 | the commit as written: the new file survives exactly when the old value is not its own path or the unlink fails; the temporary file is gone; a different old file is removed exactly when the unlink succeeds; no file is created but the destination; nothing else changes |
| Placement.ReuploadToSamePathLosesFile | Models/File.php:168-170 | as written, when the old value equals the new path, the file just moved is deleted |
| Placement.ReuploadExample | Models/File.php:164-170 | a concrete re-upload under the same alternate name leaves the disk without the stored file |
| Placement.Place | Models/File.php:168-170 | corrected commit: the destination exists; the temporary file is gone; a different superseded file is removed when unlink succeeds; a superseded file whose unlink fails stays; no file is created but the destination; no other file and no directory changes |
| Placement.Settle | Models/File.php:168-170 | the commit under a policy: the as-written one, or the corrected one, and the two agree whenever the old value is not the new path; under either, no directory changes, the new file survives unless, as written, the old value was its path and the unlink succeeded, the temporary file is gone, a different old file is removed exactly when the unlink succeeds, no file is created but the destination, and no other file changes |
| Commit.Accepted | Models/File.php:153-155 | the validator's verdict lets the upload through exactly when it is an extension that `!` does not treat as false: two or more characters, or one character other than `0` |
| Commit.Skipped | Models/File.php:147-151 | an entry is passed over when its name is empty in PHP's sense ("" or "0") or its key is not a declared property |
| Commit.Destination | Models/File.php:157-166 | every destination is a file directly inside `<data root><bucket>/<extension>` |
| Commit.JoinIsStoredUnder | Models/File.php:166 | a name without `/` joined onto a directory lies directly inside it |
| Commit.StepEntry | Models/File.php:146-174 | a skipped entry changes nothing; a validator exception propagates; a rejection or an empty extension returns exactly false; an accepted entry proceeds exactly as `Commit.Store` states. No halt assigns a property or touches a file. A step goes on only for a skipped or accepted entry, and then it stores the destination in the property and sets `mime` to the declared type |
| Commit.Store | Models/File.php:156-174 | a missing directory that cannot be made raises the permission error naming the data root; a failed move returns exactly false after the directory was made; otherwise the step goes on, committing under the policy. A halt keeps every file. A continue: stores the destination in the property; makes the directory; removes the temporary file; keeps the new file unless, as written, the old value was that path and the unlink succeeded; removes a different old file exactly when the unlink succeeds; creates no file but the destination; leaves every other file alone |
| Commit.Upload | Models/File.php:146-177 | the set of declared properties is preserved; what else the call does is stated by the lemmas below |
| Commit.UploadSingle | Models/File.php:146-177 | a one-entry batch returns true exactly when its step goes on, and the step's outcome otherwise |
| Commit.UploadConcat | Models/File.php:146-177 | a batch run in two pieces goes on to the second piece only if the first returned true |
| Commit.AllSkippedIsNoOp | Models/File.php:147-151 | a batch of skipped entries returns true and changes nothing |
| Commit.UntouchedPropertyKeepsValue | Models/File.php:168-173 | a property that no non-empty entry names keeps its value |
| Commit.SuccessStoresEveryEntry | Models/File.php:146-177 | when the call returns true, every non-skipped entry's property holds a path directly inside the directory for that upload's extension |
| Commit.FailureKeepsEarlierCommits | Models/File.php:153-173 | when an entry stops a call after a successful prefix, the call reports that entry's outcome, and the properties and files the prefix left are kept |
| Commit.TransportErrorRejects | Models/File.php:187-188 | an entry with a transport error makes the call return false with nothing changed |
| Commit.NameWithoutDotRejects | Models/File.php:153-155 | an upload whose name has no `.` is rejected once it passes the size check |
| Commit.ReuploadStepOntoOwnPath | Models/File.php:164-170 | a re-upload onto the path the property holds goes on and keeps that path, and the file stays only under the corrected commit |
| Commit.ReuploadOntoOwnPath | Models/File.php:164-177 | such a re-upload returns true and the property names the path, but as written the file is gone; the corrected commit keeps it |

## Left out

- The filesystem calls `is_dir`, `mkdir`, `move_uploaded_file`, `is_file` and `unlink` are not modelled directly. They work on the abstract `Disk`, and whether each succeeds is a per-entry input. `mkdir` does not create parent directories in the model; only the target directory is added.
- `ini_get('upload_max_filesize')`, `time()`, the `DATA` constant and `\Util::_toCamel($this->getTableName())` are given as inputs (`Config`, `Env`).
- The conversion of an `\Object` argument by `toArray(true)` is not modelled. The input is either a batch of `(property, descriptor)` pairs or a value that raises.
- `in_array` is modelled with strict string equality. PHP's loose comparison, where for example `"1e1"` equals `"10"`, is not modelled.
- Strings.LeadingNumber: the `(int)` cast is read as leading ASCII digits only. Leading whitespace, a sign, exponent notation (from PHP 7.1 on, `(int) "1e3K"` is 1000, so `parseSize` gives 1000000 where the model gives 1000), and integer overflow past PHP's int range are not modelled.
- Strings.BaseName: this is the text after the last `/`. PHP's removal of trailing slashes and its locale handling are not modelled.
- Strings.Sanitize: this works per character. The byte-wise behaviour of `preg_replace` on multibyte UTF-8 characters is not modelled.
- Integers are unbounded, so PHP's overflow of `(int) $size * 1000000` into a float is not modelled.
- The entity's own bookkeeping fields (`extensions`, `badExtensions`, `maxSize`, `altNameProperty`, `mime`) cannot be declared properties in the model: the constructor requires the declared set to exclude them (`FileModel.OwnFields`), and the class invariant keeps it so. `property_exists` reports them in the code, so there the rule setters (`AddExtension`, `SetExtensions`, `AddBadExtension`, `SetBadExtensions`) accept these names, and `uploadFiles` and `unlink` would treat them as file properties; an upload keyed `mime`, which would overwrite the `mime` field with the stored path, is out of the model's reach.
- Concurrency and the ORM base classes (`Model`, the annotations) are not modelled. `src/Models/SuperModel.php` is not part of this model.
- The return value of `unlink` inside `uploadFiles` is ignored, as in the code. A failed unlink leaves the old file in place.

## Findings

| source | as written | input that shows it | evidently intended | confidence | as-written member | corrected member |
|---|---|---|---|---|---|---|
| Models/File.php:168-170 | after a successful move, `unlink($ppt)` deletes the file the property names, even when that is the path just written | an alternate-name property whose value has not changed, and a second upload of `report.pdf` into `/data/Doc/pdf/report.pdf`: the move replaces the file, then the unlink deletes it, while the property still names it | the superseded file is deleted only when it is a different file from the new one | high (not executed) | Placement.PlaceAsWritten, Placement.ReuploadToSamePathLosesFile, Placement.ReuploadExample, Commit.ReuploadOntoOwnPath | Placement.Place, Placement.Settle |

`FileModel.File.UploadFiles` models the code as written. `Commit.Upload` under the `Corrected` policy, which commits through `Placement.Place`, is the intended behaviour. `Commit.ReuploadOntoOwnPath` states both outcomes for the same input.
