# Jotti uploader: a verified model of its decision and state logic

The uploader takes file paths from the command line. For each path it calls stat and
skips directories and files over 250 MiB. It then computes the file's SHA-1 checksum
and asks the scanning service's search endpoint whether a result already exists for
that checksum. When the service reports "not found", the file is uploaded as a
multipart form. The upload body is wrapped in a reader that draws a 20-cell progress
bar. After each successful upload the program pauses one second. A rate-limit page
from the service ends the whole run with exit status 2.

This project models the three parts of `jotti.go` that make decisions or keep state.
The network, the file system and the clock become inputs.

- `text.dfy`, module `Text`: substring search with the meaning of Go's
  `strings.Contains`. The function is proved equal to "occurs at some position".
- `search.dfy`, module `Search`: `checkJottiSearch`. A pure classifier maps the search
  endpoint's answer (no response, or a status and a body that may fail to read) to
  `LookupFailed`, `RateLimited`, `NotFound(url)` or `Found(url)`. The URL is the
  template with the checksum substituted.
- `progress.dfy`, module `Progress`: `progressReader` as a class. Its fields are the
  wrapped source, `total`, the cumulative `read` counter, `lastTick` and the frames
  drawn so far. The wrapped source is the list of answers it will give (a byte count
  and an error value each). The current time is a parameter of `Read`. `Render` and
  `RenderDone` fill a 20-cell array in a loop and are proved against the function
  `Bar`.
- `uploader.dfy`, modules `Uploader` and `UploaderProperties`: the per-file loop of
  `main`. Each argument is a record holding what the outside world answers for it:
  the stat result, the bytes the checksum reads (or none when opening or reading fails),
  the search reply and the upload reply. The checksum is a function parameter standing
  for SHA-1 plus hex encoding. `Run` returns the trace of steps (`Skipped`, `Hashed`,
  `LookedUp`, `Uploaded`, `Slept`, `Halt`, each tagged with the argument's position)
  and the exit status. It is proved equal to the functions `RunTrace` and `ExitStatus`.
  The lemmas in `UploaderProperties` state what may happen to a file and in which order.

The model follows the code in two places where a reader might expect otherwise:

- The one-second pause happens only after a successful upload (jotti.go:278-282). It
  does not happen after every file.
- Only directories are skipped at the stat step (jotti.go:242). Other non-regular files
  go on to hashing.

## Model

| member | source | states |
|---|---|---|
| Text.Contains | jotti.go:196-203 | the substring test is true exactly when the marker occurs at some position of the body; the empty marker is found everywhere |
| Search.SearchUrl | jotti.go:181 | the search URL is the template prefix followed by exactly the checksum |
| Search.SearchUrlInjective | jotti.go:181 | different checksums give different search URLs |
| Search.Classify | jotti.go:180-210 | a verdict is reached only on status 200 with a readable body, and every other case is an error with found = false and an empty URL; rate-limited exactly when the body holds "Too many requests"; not-found and found both carry the search URL for the checksum |
| Search.NonOkStatusIgnoresBody | jotti.go:189-209 | any status other than 200 gives the error for that status, whatever the body is, with found = false and an empty URL |
| Search.RateLimitTakesPrecedence | jotti.go:196-200 | a 200 page holding "Too many requests" anywhere is rate-limited, even if it also holds "Hash not found" |
| Search.NotFoundMarkerMeansNotFound | jotti.go:203-204 | a 200 page holding "Hash not found" and no rate-limit marker gives not-found with the search URL and found = false |
| Search.NoMarkerMeansFound | jotti.go:206 | a 200 page holding neither marker gives found with the search URL and found = true |
| Search.VerdictByMarkers | jotti.go:194-206 | on a readable 200 page the three verdicts are decided by the two markers alone, with the rate-limit marker taking precedence |
| Progress.FilledFullIffComplete | jotti.go:107-111 | the bar is full exactly when the bytes read reach the total |
| Progress.FilledIsPercentOverFive | jotti.go:107-108 | while no more than the total has been read, the fill count is the percentage divided by five and rounded down |
| Progress.FilledMonotone | jotti.go:107-111 | reading more bytes never lowers the fill count |
| Progress.BarAt | jotti.go:112-119 | cell i of the bar is '=' exactly when i is below the fill count, else a blank |
| Progress.BarCounts | jotti.go:112-119 | the bar holds exactly the fill count of '=' cells and the rest blanks, 20 cells in all |
| Progress.ProgressReader.constructor | jotti.go:154-157 | the reader starts with nothing read, the zero time as last tick and nothing drawn, over a source that delivers exactly total bytes |
| Progress.ProgressReader.Read | jotti.go:89-104 | returns the source's byte count and error unchanged; read grows by exactly that count and never passes total, reaching it once the source is exhausted; a bar is drawn and lastTick set to now only when bytes arrived and 150 ms have passed or the last byte arrived; the full "sent" bar is drawn on every end-of-file |
| Progress.ProgressReader.Render | jotti.go:106-121 | the array filled cell by cell is the bar for the current fill count and holds that many '=' cells |
| Progress.ProgressReader.RenderDone | jotti.go:123-129 | the array filled cell by cell is the bar with all 20 cells '=' |
| Uploader.UploadResult | jotti.go:172-176 | an upload succeeds exactly on status 200; success reports the search URL of the checksum |
| Uploader.ProcessFile | jotti.go:236-282 | one pass of the loop body, with each `continue` an early return, yields exactly the specified steps for the file and reports whether the run ends |
| Uploader.Run | jotti.go:226-283 | the loop yields exactly the specified trace; the exit status is 1 without arguments, 2 when some file is rate-limited, 0 otherwise |
| UploaderProperties.FileEventsShape | jotti.go:235-283 | a file's steps are non-empty, all tagged with its position and well ordered, and hold a halt exactly when the file is rate-limited |
| UploaderProperties.UploadedSteps | jotti.go:271-282 | the steps of a file that passes the checks, is hashed and is reported not-found are the checksum, the lookup, the upload, and then a pause exactly when the upload succeeded |
| UploaderProperties.NotFoundIsUploaded | jotti.go:266-282 | a reached file that passes the checks and is reported not-found is uploaded in the run, and the run pauses after it exactly when the upload succeeded |
| UploaderProperties.RunTraceWellOrdered | jotti.go:252-282 | in the whole run an upload comes right after the file's checksum and its not-found lookup; a pause comes right after a successful upload and always follows one; a halt is the last step |
| UploaderProperties.EventOrigin | jotti.go:235-283 | every step in the run belongs to an argument that was reached and is one of that argument's steps |
| UploaderProperties.ReachedFileLogged | jotti.go:235-283 | every step of an argument that no earlier rate limit cut off appears in the run |
| UploaderProperties.IneligibleOnlySkipped | jotti.go:237-249 | a path whose stat fails, a directory or a file over 250 MiB appears only as skipped: never hashed, looked up or uploaded |
| UploaderProperties.CeilingIsInclusive | jotti.go:246-257 | a readable file of exactly 250 MiB that is reached is hashed |
| UploaderProperties.FoundIsNotUploaded | jotti.go:266-269 | a file the service already has is never uploaded and, when reached, is reported with its search URL |
| UploaderProperties.NothingAfterHalt | jotti.go:196-200 | once a file is rate-limited no later argument has any step |
| UploaderProperties.HaltFrom | jotti.go:196-200 | a halt appears in the run exactly when some argument is rate-limited |
| UploaderProperties.ExitStatusMatchesTrace | jotti.go:196-200 | with arguments, the exit status is 2 exactly when the trace holds a halt, and 0 otherwise |

## Left out

- SHA-1 hashing and hex encoding (jotti.go:64-78) are library code. The checksum is a function parameter applied to the file's bytes, so equal bytes give equal checksums. Collision resistance is not modelled.
- HTTP requests, the 30-second client timeout and multipart encoding (jotti.go:131-177, jotti.go:183-187) are network and library calls. The model keeps the search reply (none, or a status and a possibly unreadable body) and the upload reply (none, or a status) as inputs.
- The progress reader is not connected to the upload in `Run`. The HTTP transport decides how the body is read, so the upload's outcome is an input there.
- Flag parsing, help, version and credit text (jotti.go:48-62, jotti.go:212-224, jotti.go:230-232) are command-line plumbing. Every argument is taken to be a file path. Only the missing-argument exit (status 1) is kept.
- `log`/`fmt` output text and stderr ordering are left out. The trace records which line kind is produced, and the frames record the bars.
- Progress.FilledIsPercentOverFive: the source computes the percentage and the fill count in floating point. The model uses the integer `read * 20 / total` capped at 20, and it needs `total > 0` (a multipart body is never empty). The `%6.2f` percentage text is not modelled; a frame carries the byte count instead.
- Progress.ProgressReader.Read: time is an integer number of nanoseconds passed in by the caller. Go's zero `lastTick` is modelled as "no tick yet", which always allows a draw. The 64-bit counter is unbounded here; a body is at most a little over 250 MiB, so it cannot overflow.
- The process exit on rate limiting (jotti.go:199) is modelled as a `Halt` step that ends `Run` with status 2. Nothing is unwound.
- The one-second sleep (jotti.go:282) is a `Slept` step in the trace. No clock advances.
