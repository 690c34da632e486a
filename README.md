# CSTBox DataWareHouse export: a verified Dafny model

This project models the reliable export pipeline of the CSTBox DataWareHouse extension (`ext-dwh`):

- **Pending remote-jobs queue** (`pending_jobs_queue.dfy`, module `PendingJobs`). The `PendingJobsQueue` class holds the ids of uploads the server is still processing. The list is kept in a text file, one id per line, and `append`, `remove` and `clear` rewrite that file. The model proves that a save followed by a load gives back the same list. It also proves that `remove` drops exactly one occurrence of the id, and that it raises `ValueError` when the id is missing.
- **Codec** (`codec.dfy`, module `Codec`). `Crypter` XORs the text with a repeated key and hex-encodes the result; `Noop` returns the text unchanged. Encoding followed by decoding gives the text back. A text that `decode` returns has the key as its second field.
- **Export filters** (`filters.dfy`, module `Filters`).
  - `EventsExportFilter` writes one series file per kWh variable: a header, then one tab-separated line per point.
  - `VariableDefsExportFilter` turns the device configuration into variable-definition rows. It rejects any variable name declared twice.
- **Export processes** (`process.dfy`, module `Process`).
  - The events process drains the backlog. The job of the day is added before it runs, and only failed jobs stay. It returns one status code for the whole run.
  - The configuration process uploads the definitions file, retrying up to `max_try` times. As written, the file is rewound only once, so a retry uploads an empty file; the corrected loop is modelled beside it.
  - The events job packs the series files into an archive, uploads it, and queues the remote job id.
  - `ProcessConfiguration` types and checks the configuration options.
- **Status watcher** (`monitor.dfy`, module `Monitor`), modelling `dwh-monitord`. Once per `period`, it reloads the queue and asks for the status of each id. Jobs that have ended (code 0) or failed (negative code) are removed. The model proves what the queue file holds after a poll, and the times at which polls happen.
- **Support modules.** `Wrappers` holds `Option`, `Result`, `Outcome` and the Python exception kinds. `Text` holds the string operations used (`split`, `join`, `strip`, `int`, `str`, `replace`). `Storage` holds the `FileStore` class that stands for the file system.

Things outside the program become parameters:
- The clock becomes tick times and formatted time stamps.
- The random pad becomes a byte sequence.
- HTTP replies become reply values or reply functions indexed by request.
- A backlog job run becomes a `runJob` function.
- Dictionary iteration orders become sequences.

Files live in `FileStore.files`, and zip archives in `FileStore.archives` as lists of (member name, content) pairs.

Three behaviours of the code worth knowing:
- `PendingJobsQueue.remove` raises `ValueError` for an absent id. It is not idempotent.
- The configuration process returns `ERR_EXPORT` (101) when every upload attempt failed. It never returns `ERR_UPLOAD`.
- The events job's `send_data` makes a single POST. Retries of a whole job belong to the generic `EventsExportJob.run`, which is not part of this model.

## Model

| member | source | states |
|---|---|---|
| PendingJobs.LoadSaveRoundTrip | lib/python/pycstbox/dwh/pending_jobs_queue.py:30-41 | Loading what `save` wrote gives the same list back, provided no id contains a newline or edge whitespace and the last id is not empty |
| PendingJobs.TrailingEmptyIdIsLost | lib/python/pycstbox/dwh/pending_jobs_queue.py:30-41 | The boundary of the round trip: a trailing empty id is not read back |
| PendingJobs.IntIdsRoundTrip | lib/python/pycstbox/dwh/pending_jobs_queue.py:43-49 | A queue of `str(n)` ids for integers `n` always reloads exactly |
| PendingJobs.RemoveFirstAt | lib/python/pycstbox/dwh/pending_jobs_queue.py:51-59 | `list.remove` removes the first occurrence of the id and keeps the rest in order |
| PendingJobs.RemoveFirstSpec | lib/python/pycstbox/dwh/pending_jobs_queue.py:51-59 | Removing a present id shortens the list by one and takes exactly one copy out of its multiset |
| PendingJobs.RemoveOnlyCopy | lib/python/pycstbox/dwh/pending_jobs_queue.py:51-59 | Removing an id that occurs once leaves no copy of it |
| PendingJobs.PendingJobsQueue.constructor | lib/python/pycstbox/dwh/pending_jobs_queue.py:14-28 | An existing file is loaded and left as it is; a missing one is created holding the empty list |
| PendingJobs.PendingJobsQueue.Load | lib/python/pycstbox/dwh/pending_jobs_queue.py:30-35 | The list becomes the stripped lines of the file |
| PendingJobs.PendingJobsQueue.Save | lib/python/pycstbox/dwh/pending_jobs_queue.py:37-41 | The file becomes the ids joined by newlines; no other file changes |
| PendingJobs.PendingJobsQueue.Append | lib/python/pycstbox/dwh/pending_jobs_queue.py:43-49 | `str(job_id)` is added at the end, even when already present, and the file is rewritten |
| PendingJobs.PendingJobsQueue.Remove | lib/python/pycstbox/dwh/pending_jobs_queue.py:51-59 | A present id loses its first occurrence and the file is rewritten; an absent one raises `ValueError` and nothing changes |
| PendingJobs.PendingJobsQueue.Clear | lib/python/pycstbox/dwh/pending_jobs_queue.py:61-65 | The list and the file become empty |
| PendingJobs.PendingJobsQueue.IsEmpty | lib/python/pycstbox/dwh/pending_jobs_queue.py:67-68 | True exactly when the length is 0; while the file holds a reloadable list, exactly when the file reloads to no id |
| PendingJobs.PendingJobsQueue.Items | lib/python/pycstbox/dwh/pending_jobs_queue.py:70-71 | While the file holds a reloadable list, the items are what a fresh load of the file gives |
| PendingJobs.PendingJobsQueue.Contains | lib/python/pycstbox/dwh/pending_jobs_queue.py:73-74 | True exactly when `str(job_id)` is among the items; while the file holds a reloadable list, exactly when the file reloads to a list holding it |
| PendingJobs.PendingJobsQueue.Len | lib/python/pycstbox/dwh/pending_jobs_queue.py:76-77 | The number of items; while the file holds a reloadable list, the number of ids it reloads to |
| PendingJobs.Open | lib/python/pycstbox/dwh/pending_jobs_queue.py:14-28 | An empty path raises `ValueError` with no file touched; any other path gives a queue over that file |
| Codec.UnhexlifyHexlify | lib/python/pycstbox/dwh/lib.py:36-39 | `unhexlify` inverts `hexlify` |
| Codec.ExpandKeyAgree | lib/python/pycstbox/dwh/lib.py:29 | Key expansions of any two lengths agree wherever both are defined, so decoding can use a key of the cipher's own length |
| Codec.XorTwice | lib/python/pycstbox/dwh/lib.py:34-42 | XOR with the expanded key, then with the key expanded to the data's length, restores the data |
| Codec.SplitNulSpec | lib/python/pycstbox/dwh/lib.py:43-48 | `split('\0', 2)` returns at most three parts, which rejoin to the text; only the last part may contain NUL, and only when there are three parts |
| Codec.SplitCompound | lib/python/pycstbox/dwh/lib.py:25 | The compound `s + '\0' + key + '\0' + pad` splits back into `s`, the key and the pad |
| Codec.CipherRoundTrip | lib/python/pycstbox/dwh/lib.py:22-49 | Decoding the cipher of a NUL-free text under a NUL-free key gives the text back, for any pad that fits the block |
| Codec.EncodeDecodeRoundTrip | lib/python/pycstbox/dwh/lib.py:18-60 | For `Crypter` with a non-empty key and for `Noop`, `decode(encode(s)) == s` |
| Codec.DecodedFields | lib/python/pycstbox/dwh/lib.py:38-49 | Whatever the input, a text `decode` returns has no NUL and was the first field of a NUL-separated triple whose second field is the key |
| Codec.PaddedLengthAsWritten | lib/python/pycstbox/dwh/lib.py:27-32 | As written, the cipher is one byte short of the 16-byte boundary whenever the compound does not already fill whole blocks |
| Codec.EmptyTextCipherIsShort | lib/python/pycstbox/dwh/lib.py:22-36 | Concrete case: the empty text under key `a` encodes to 30 hex digits, not a multiple of 32 |
| Codec.FullCipherLength | lib/python/pycstbox/dwh/lib.py:27-36 | With the corrected pad, the cipher has exactly twice the target length, a multiple of 32 hex digits |
| Codec.FullBlocksLengthAndRoundTrip | lib/python/pycstbox/dwh/lib.py:22-36 | The corrected encoder fills whole 16-byte blocks and still decodes to the original text |
| Filters.MaybeBoolean | lib/python/pycstbox/dwh/filters.py:518-530 | The result is the value itself, `1` or `0` |
| Filters.MaybeBooleanOfBool | lib/python/pycstbox/dwh/filters.py:518-530 | `str(True)` and `str(False)` map to `1` and `0` |
| Filters.MaybeBooleanIdempotent | lib/python/pycstbox/dwh/filters.py:518-530 | Applying `maybe_boolean` twice gives the same result as applying it once |
| Filters.VartypeToValuetype | lib/python/pycstbox/dwh/filters.py:485-498 | Exactly the logical variable types get `L`; every other type gets `N` |
| Filters.NewEventsExportFilter | lib/python/pycstbox/dwh/filters.py:112-125 | An empty or missing site code raises `ValueError`; otherwise the fields are kept |
| Filters.SeriesFilename | lib/python/pycstbox/dwh/filters.py:207-218 | The file name is the variable name, a dot, the stamp and `.csv`: it starts with the name and ends with `.csv` |
| Filters.SeriesFilenameInjective | lib/python/pycstbox/dwh/filters.py:207-218 | For one export time, distinct series names give distinct file names |
| Filters.OutPathInjective | lib/python/pycstbox/dwh/filters.py:169-172 | For relative names, distinct series get distinct output paths |
| Filters.SeriesHeaderLines | lib/python/pycstbox/dwh/filters.py:190-205 | The header holds the five tagged fields, each on its own line, followed by an empty line |
| Filters.SeriesHeader | lib/python/pycstbox/dwh/filters.py:190-205 | The header starts with the format version line and ends with a blank line |
| Filters.ExportedRaisesIff | lib/python/pycstbox/dwh/filters.py:154-186 | The loop raises `KeyError` exactly when some event lacks its unit, or is a kWh event lacking its value |
| Filters.ExportedCount | lib/python/pycstbox/dwh/filters.py:154-161 | The returned count is the number of kWh events |
| Filters.SeriesNamesSpec | lib/python/pycstbox/dwh/filters.py:162-176 | The series met are distinct, and are exactly the series of the kWh events |
| Filters.ExportedSeries | lib/python/pycstbox/dwh/filters.py:162-176 | One file per series, created at its first event and listed in `created_files` in that order |
| Filters.ExportedKeepsOtherFiles | lib/python/pycstbox/dwh/filters.py:154-186 | Files other than the created ones keep their content, and no other file appears |
| Filters.ExportedContent | lib/python/pycstbox/dwh/filters.py:154-205 | Each series file holds its header followed by the points of its series, in event order |
| Filters.ExportEvents | lib/python/pycstbox/dwh/filters.py:127-188 | An empty directory raises `ValueError` with nothing written; otherwise the files, count and created paths are those the event loop defines, or the loop's `KeyError` |
| Filters.ExportEvent | lib/python/pycstbox/dwh/filters.py:155-182 | One event takes the loop exactly one step: skipped, or counted, with its series file opened when needed and the point appended |
| Filters.NewVariableDefsExportFilter | lib/python/pycstbox/dwh/filters.py:317-327 | An empty or missing site code raises `ValueError`; otherwise the fields are kept |
| Filters.DefinitionRowFields | lib/python/pycstbox/dwh/filters.py:368-380 | A definition row splits on tabs back into the nine fields of the definition |
| Filters.AsStrings | lib/python/pycstbox/dwh/filters.py:511-516 | Nine strings, the first four fields as they are; joined by tabs they are the row written for the definition |
| Filters.ConfigurationHeaderColumns | lib/python/pycstbox/dwh/filters.py:359-366 | The sixth header line is the attribute names, separated by tabs |
| Filters.AddOutputsSpec | lib/python/pycstbox/dwh/filters.py:449-469 | On success, an enabled named output adds one definition, and its name is appended to the known names in output order |
| Filters.AddDeviceSpec | lib/python/pycstbox/dwh/filters.py:438-481 | On success, a device adds the definitions of its outputs, or of its single variable; a disabled device adds nothing |
| Filters.DefinitionsSpec | lib/python/pycstbox/dwh/filters.py:384-483 | On success, there is one well-formed definition per declared variable, in declaration order, with distinct names |
| Filters.DuplicateRejected | lib/python/pycstbox/dwh/filters.py:452-475 | A variable name declared twice makes the export fail |
| Filters.DefinitionsSucceedIff | lib/python/pycstbox/dwh/filters.py:384-483 | The definitions are built exactly when the names are distinct and every enabled device finds its metadata and variable types |
| Filters.DefinitionsErrStays | lib/python/pycstbox/dwh/filters.py:384-483 | The first error ends the loop: later devices do not change the outcome |
| Filters.AddOutputVariables | lib/python/pycstbox/dwh/filters.py:449-469 | The loop over a device's outputs computes the same result as the output-step specification |
| Filters.MakeVariableDefinitions | lib/python/pycstbox/dwh/filters.py:384-483 | The device loop, using the `devmetas` cache, returns the definitions the specification defines, or its error |
| Filters.ExportDevicesConfiguration | lib/python/pycstbox/dwh/filters.py:329-382 | The six header lines, then one row per definition in order; a definitions error is propagated |
| Filters.ExportedRowsDescribeVariables | lib/python/pycstbox/dwh/filters.py:404-432 | Row `i` carries the `i`-th declared name twice, its type, the matching value type, its units and four empty bounds |
| Text.SplitJoin | lib/python/pycstbox/dwh/filters.py:379 | Joining fields free of the separator, then splitting, gives the fields back |
| Text.StripNewline | lib/python/pycstbox/dwh/pending_jobs_queue.py:33-35 | Stripping a line read with its newline gives back the id that was written |
| Text.ParseIntToString | lib/python/pycstbox/dwh/process.py:433-444 | `int(str(n)) == n` for every integer |
| Text.ParseIntSpaceAfterSign | lib/python/pycstbox/dwh/process.py:433-444 | As Python 2's `int` does, white space may follow the sign: `int("- 5")` is -5 |
| Text.ReplaceRoundTrip | lib/python/pycstbox/dwh/process.py:505-531 | For text without `$`, mapping `%s` to `$$` and back restores the text |
| Process.CheckedPositive | lib/python/pycstbox/dwh/process.py:433-444 | Succeeds exactly on strings that parse to an integer greater than 0, returning it; otherwise `ValueError` |
| Process.CheckedPositiveOfString | lib/python/pycstbox/dwh/process.py:433-444 | `checked_positive(str(n))` is `n` when `n > 0`, and `ValueError` otherwise |
| Process.Flag | lib/python/pycstbox/dwh/process.py:447-450 | A true flag is text that `int` reads as 1, but not every such text is a true flag: `01` is false |
| Process.Convert | lib/python/pycstbox/dwh/process.py:505-517 | An option fails, with the key named in the error, exactly when its handler is `checked_positive` and the check fails; other options are `$$`-to-`%s` text |
| Process.ConvertAllOk | lib/python/pycstbox/dwh/process.py:504-519 | When every option converts, each converted value is set as an attribute and no other attribute changes |
| Process.ConvertAllFails | lib/python/pycstbox/dwh/process.py:504-519 | A failing read reports, as `ConfigParser.Error`, a `checked_positive` option whose value is not a positive integer |
| Process.Completed | lib/python/pycstbox/dwh/process.py:496-502 | After loading, every default key is present, and no key other than a default, loaded or earlier one |
| Process.ReadFillsDefaults | lib/python/pycstbox/dwh/process.py:496-519 | After a successful read, every default key is an attribute; a key not in the file carries its converted default |
| Process.DebugFlagLostAsWritten | lib/python/pycstbox/dwh/process.py:521-531 | As written, a flag is saved as `True` or `False`, and either reads back as false, while `1` reads as true |
| Process.SetOption | lib/python/pycstbox/dwh/process.py:521-531 | The text handed to `set` is refused with `TypeError` exactly for a non-string password, otherwise with `ValueError` only; an accepted text passes `set`'s `%` check |
| Process.WrittenOption | lib/python/pycstbox/dwh/process.py:521-531 | As written (`str` of the attribute): a non-string password raises `TypeError`, a text with a lone `%` raises `ValueError`, and a stored text passes `set`'s `%` check |
| Process.WrittenOptionCorrected | lib/python/pycstbox/dwh/process.py:521-531 | The corrected write, flags as `1` or `0`, fails in the same cases as the write as written |
| Process.LonePercentRefused | lib/python/pycstbox/dwh/process.py:521-531 | A contact of `50%` cannot be written: `set` raises `ValueError` |
| Process.ReadValuesWritable | lib/python/pycstbox/dwh/process.py:505-531 | Every value `read` produces from text without `$` or `%` can be written back by the corrected write, and by the write as written exactly unless it is a true `debug` flag |
| Process.WriteReadRoundTrip | lib/python/pycstbox/dwh/process.py:505-531 | As written, writing and re-reading an option gives its value back for every writable value (a `debug` flag only when false) |
| Process.WriteReadRoundTripCorrected | lib/python/pycstbox/dwh/process.py:505-531 | The corrected write round-trips every flag as well |
| Process.WriteValue | lib/python/pycstbox/dwh/process.py:521-529 | Writing an option fails exactly when its attribute is missing or `set` refuses its text |
| Process.WriteAllReadBack | lib/python/pycstbox/dwh/process.py:521-531 | As written, a write of writable attributes succeeds, and every written option reads back as its attribute |
| Process.WriteAllKeeps | lib/python/pycstbox/dwh/process.py:521-531 | Options not written keep their text |
| Process.ProcessConfiguration.constructor | lib/python/pycstbox/dwh/process.py:484-490 | The section holds the defaults; `login` and `password` are `None` |
| Process.ProcessConfiguration.Read | lib/python/pycstbox/dwh/process.py:496-519 | The section is completed with defaults, then the options are converted in order, stopping at the first error |
| Process.ProcessConfiguration.Complete | lib/python/pycstbox/dwh/process.py:498-502 | The loaded options, then the defaults of the missing keys |
| Process.ProcessConfiguration.ConvertOptions | lib/python/pycstbox/dwh/process.py:504-519 | The conversion loop gives the attributes and outcome of the conversion specification |
| Process.ProcessConfiguration.Write | lib/python/pycstbox/dwh/process.py:521-531 | Each option gets `str` of its attribute as written, stopping at the first error `set` or `getattr` raises |
| Process.ProcessConfiguration.AsDict | lib/python/pycstbox/dwh/process.py:533-540 | Exactly the default keys, each mapped to its attribute, with the password masked on request; a missing attribute raises `AttributeError` |
| Process.ExtractDate | lib/python/pycstbox/dwh/process.py:251-254 | The extraction day is today minus the offset's absolute value, never in the future; `OverflowError` exactly when that goes beyond `timedelta`'s 999,999,999 days or before the first day of year 1 |
| Process.DrainedSpec | lib/python/pycstbox/dwh/process.py:260-274 | A job stays in the backlog, and is recorded with its code, exactly when its run returns non-zero; jobs not run stay |
| Process.StatusSpec | lib/python/pycstbox/dwh/process.py:276-289 | Status 0 exactly when nothing failed; with one failure, that job's code; with two or more, `ERR_MULTIPLE` |
| Process.EventsExportProcess.constructor | lib/python/pycstbox/dwh/process.py:189-191 | No failed jobs |
| Process.EventsExportProcess.Run | lib/python/pycstbox/dwh/process.py:193-289 | A bad offset raises `ValueError`, and an offset outside the date range raises `OverflowError`, with nothing changed. Otherwise the job of the day is added to the backlog, every job runs, and the backlog, failed jobs and status are those of the drain |
| Process.EventsExportProcess.FailedJobs | lib/python/pycstbox/dwh/process.py:291-293 | The failed jobs all carry non-zero codes, and the run's status is 0 exactly when there are none |
| Process.RunOutcome | lib/python/pycstbox/dwh/process.py:255-289 | After a run, the backlog holds exactly the failed jobs, the day's job included when it failed; status 0 exactly when the backlog is empty |
| Process.ErrorMessage | lib/python/pycstbox/dwh/process.py:306-322 | Only the three declared codes have a message; any other raises `KeyError` |
| Process.AttemptsSpec | lib/python/pycstbox/dwh/process.py:391-422 | At most `max_try` POSTs, none after the first success; the run succeeds exactly when some attempt within `max_try` succeeds |
| Process.RetryUploadsEmptyAsWritten | lib/python/pycstbox/dwh/process.py:379-402 | As written, the second POST reads an empty file, because the first POST read it to its end |
| Process.ReadsFromRetriesEmpty | lib/python/pycstbox/dwh/process.py:379-402 | As written, whatever the number of attempts, the first POST uploads the file and every later one an empty file |
| Process.ConfigurationRun | lib/python/pycstbox/dwh/process.py:327-430 | An export error gives `ERR_EXPORT` with no upload. Otherwise the first attempt uploads the header and one row per definition and every retry uploads what is left of the file after it, nothing; `ERR_NONE` exactly when an attempt succeeds, with one sleep between consecutive attempts |
| Process.UploadAsWritten | lib/python/pycstbox/dwh/process.py:379-422 | The retry loop as written: the uploads are what the POSTs read from a file rewound once, the loop stops at the first success, and sleeps once between consecutive attempts |
| Process.Upload | lib/python/pycstbox/dwh/process.py:391-422 | The corrected retry loop, which the configuration run does not use, sends the whole file at each attempt and stops at the first success |
| Process.WriteLines | lib/python/pycstbox/dwh/process.py:381-383 | The file text is every line followed by the line end |
| Process.Basename | lib/python/pycstbox/dwh/process.py:110 | The base name is a slash-free suffix of the path |
| Process.ArchiveNameInjective | lib/python/pycstbox/dwh/process.py:105-107 | For stamps of one length, distinct stamps give distinct archive names |
| Process.WithoutSpec | lib/python/pycstbox/dwh/process.py:113-115 | After the clean-up, exactly the unlisted files remain, with their contents |
| Process.EventsExportJob.constructor | lib/python/pycstbox/dwh/process.py:70-73 | No archive yet |
| Process.EventsExportJob.ExportEvents | lib/python/pycstbox/dwh/process.py:75-94 | No site code raises `ValueError`; no events gives count 0 and no archive. Otherwise the series files are exported, packed into the new archive and deleted, and the count is returned |
| Process.EventsExportJob.CreateArchive | lib/python/pycstbox/dwh/process.py:96-117 | The archive named after the site and stamp packs each series file under its base name, and the series files are removed |
| Process.EventsExportJob.Pack | lib/python/pycstbox/dwh/process.py:108-110 | The members are the series files, in order, under their base names |
| Process.EventsExportJob.RemoveFiles | lib/python/pycstbox/dwh/process.py:113-115 | Exactly the listed files are removed |
| Process.EventsExportJob.SendData | lib/python/pycstbox/dwh/process.py:119-161 | No archive: nothing happens. A failed POST raises `ExportError`; a reply without `jobID` or `message` raises `KeyError` with the queue untouched. Success appends the job id to the pending-jobs file |
| Process.EventsExportJob.Cleanup | lib/python/pycstbox/dwh/process.py:163-173 | The archive is forgotten, and deleted unless in debug mode |
| Monitor.CodeMessage | bin/dwh-monitord.py:91-94 | The reply's `status`, or `unknown code` |
| Monitor.Answered | bin/dwh-monitord.py:71-101 | The poll handles every position before the first reply without `code`, and stops there |
| Monitor.HandledMultiset | bin/dwh-monitord.py:71-98 | Midway through a poll, the queue holds the kept ids plus the ids not yet handled, as a multiset |
| Monitor.PollLeavesKept | bin/dwh-monitord.py:71-98 | After a whole poll, the queue holds exactly the ids whose jobs are still pending, as a multiset, and no more than it held |
| Monitor.PollKeepsOrder | bin/dwh-monitord.py:71-98 | For a snapshot without duplicate ids, the queue after a poll is exactly the kept ids, in snapshot order |
| Monitor.KeptSpec | bin/dwh-monitord.py:83-101 | A position's id is kept exactly when its reply was not ok or its code is positive |
| Monitor.Poll | bin/dwh-monitord.py:69-103 | A poll raises `KeyError` exactly when a reply lacks `code`. The failures logged and the queue file are those of the handled positions |
| Monitor.HandleReply | bin/dwh-monitord.py:75-101 | One status request takes the queue, the file and the failure log exactly one step |
| Monitor.PollTimesSpaced | bin/dwh-monitord.py:65-103 | Polls are at least `period` apart, the first one `period` after time 0, and all happen at ticks |
| Monitor.PollTimesSnoc | bin/dwh-monitord.py:68-103 | A new tick triggers a poll exactly when a period has elapsed since the last poll |
| Monitor.PollTimesEveryTick | bin/dwh-monitord.py:56-68 | A period that is not positive polls at every tick, as long as the clock does not go back |
| Monitor.ZeroPeriodAcceptedAsWritten | bin/dwh-monitord.py:43-44 | As written, the period `"0"` read from the configuration passes the constructor's test, and `run` turns it into 0 |
| Monitor.CheckedPeriod | bin/dwh-monitord.py:43-58 | The corrected check accepts exactly the values `run` turns into a positive period |
| Monitor.NewWorker | bin/dwh-monitord.py:42-54 | As written: a missing period raises `AttributeError`; `ValueError` exactly when Python 2 orders the value at or below 0, so every string passes; otherwise a worker holding the value, not terminated |
| Monitor.NewCheckedWorker | bin/dwh-monitord.py:42-58 | The corrected constructor: a worker is built exactly when `run` will turn the value into a positive period |
| Monitor.Worker.constructor | bin/dwh-monitord.py:46-54 | Past the test, the worker keeps the configured period value and starts not terminated |
| Monitor.Worker.Terminate | bin/dwh-monitord.py:113-114 | Sets the flag |
| Monitor.Worker.Run | bin/dwh-monitord.py:56-111 | A period value that `int` rejects raises before any tick. Otherwise polls happen at exactly the times scheduled with `int` of the value. A stop request ends the loop at the end of its tick; a poll's `KeyError` ends it at once |
| Monitor.Worker.PollIfDue | bin/dwh-monitord.py:68-103 | Polls exactly when a period has elapsed since the last check; only a poll can fail, with `KeyError` |

## Left out

- HTTP and JSON become reply values. A reply is `ok` or not, plus the JSON fields the code reads (`jobID`, `message`, `code`, `status`). Malformed JSON, URL formatting with `%` and authentication are not modelled.
- Process.ConfigurationRun: a successful reply is taken to carry `message`. Without it, `resp_data['message']` raises `KeyError` out of `run`, which the model does not represent.
- The clock and `strftime` become parameters: tick times, day numbers and formatted stamps. In `export_events`, one `now` stands for the `utcnow()` read by each series header.
- The random pad of `Crypter.encode` becomes a parameter, constrained to the non-zero bytes `random.randint(1, 255)` yields.
- Text is ASCII, so UTF-8 encoding is the identity. Python's `bytearray` of non-ASCII text is not modelled.
- The zip format becomes a list of (member name, content) pairs. Compression is not modelled.
- The backlog (`pycstbox.export.Backlog`) becomes a map from job id to parameters, iterated in a given order. The generic `EventsExportJob.run` becomes the `runJob` function, and `make_jobid` becomes a parameter. Their code is not part of this model.
- The event DAO becomes the sequence of events of the day. The device metadata catalogue becomes a map from device type to metadata.
- The `ConfigParser` file format is not modelled. `read` receives the options the parser loaded; `write` produces the option texts. `set`'s type and `%` checks are modelled.
- Process.Convert: the `%` interpolation `items` applies on read (`%%` to `%`, `%(name)s` lookups, a lone `%` raising an interpolation error) is not modelled. The raw text is taken as read, which agrees with the parser on text without `%`.
- Process.ReadValuesWritable: stated for text without `%`, the text on which the model's read agrees with the parser's.
- `export_events` only checks for an empty `to_dir`. Its existence, directory and permission checks depend on the file system and are not modelled.
- Logging, `time.sleep` and the debug log level are not modelled. `UploadAsWritten` and `Upload` count their sleeps.
- The `__main__` blocks are not modelled. The watcher's one calls `process_cfg.load`, which `ProcessConfiguration` does not define.
- Cross-process concurrency is not modelled. The export process and the watcher share the queue file with no locking.
- Signals become the `stopAt` per-tick stop requests. `run` is modelled over a finite sequence of ticks.
- Monitor.Worker.Run: states the poll schedule and how the loop ends, but not the queue file after several polls. `Monitor.Poll` states the file for each single poll.
- Monitor.PollLeavesKept: states the queue after a poll as a multiset only. The order of the remaining ids is stated by `PollKeepsOrder`, for snapshots without duplicate ids; with duplicates, it is not stated.
- PendingJobs.LoadSaveRoundTrip: holds only for ids without newlines or edge whitespace whose last id is not empty. `TrailingEmptyIdIsLost` shows what happens otherwise.

## Findings

| source | as written | input that shows it | evidently intended | confidence | as-written member | corrected member |
|---|---|---|---|---|---|---|
| lib/python/pycstbox/dwh/lib.py:31-32 | The pad is drawn from `xrange(1, lg - len(s))`, which yields one byte fewer than needed to reach the 16-byte target length `lg` | `Crypter("a").encode("")`: the compound has 3 bytes, `lg` is 16, and the cipher has 30 hex digits instead of 32 | Pad to exactly `lg` bytes (`xrange(lg - len(s))`), so the cipher covers whole blocks | not executed | Codec.PaddedLengthAsWritten, Codec.EmptyTextCipherIsShort | Codec.FullBlocksLengthAndRoundTrip |
| lib/python/pycstbox/dwh/process.py:528 | `write` saves every non-password attribute as `str(value)`, so a `debug` flag read as true is written as `True` | Read `debug = 1`, write, read again: `flag("True")` is false | Write the flag back as `1` or `0`, so a written configuration reads back the same | not executed | Process.DebugFlagLostAsWritten | Process.WriteReadRoundTripCorrected |
| lib/python/pycstbox/dwh/process.py:379-402 | The temporary file is rewound once, before the retry loop, and each POST reads it from where the previous one stopped | A first POST that fails: the second POST sends an empty `metadata` file | Rewind the file before each attempt, so every retry sends the whole definitions file | not executed | Process.UploadAsWritten, Process.ReadsFromRetriesEmpty | Process.Upload |
| bin/dwh-monitord.py:43-44 | The constructor tests `cfg.status_monitoring_period <= 0`, but a value read from the configuration file is a string. In Python 2 a string is never below an integer, so the test never fires | `status_monitoring_period = 0` in the configuration: the worker is built, and `run` polls at every tick | Reject any period that `run`'s `int(...)` does not turn into a positive number | not executed | Monitor.NewWorker, Monitor.ZeroPeriodAcceptedAsWritten, Monitor.PollTimesEveryTick | Monitor.NewCheckedWorker |
