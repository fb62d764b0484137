# Memory upload, user linking and token checks: a Dafny model

This project models four parts of the Go backend of a personal memory
store:

- **FileParserService** (`file_parser.dfy`, with `go_strings.dfy` and
  `heading_scan.dfy`). It validates an uploaded file's name and size, then
  splits the text into memory sections:
  - Only `.txt` and `.md` names are accepted, with the case of the
    extension ignored, and only up to 5 MiB.
  - A `.txt` file is one trimmed section headed by the file name.
  - A `.md` file is cut at its `#` and `##` heading lines. Every section is
    trimmed, and empty sections are dropped.
  - The error codes are `too_large`, `invalid_type` and `empty_file`.

  The heading regex `(?m)^(#{1,2})\s+(.+)$` is written out as a
  leftmost-first scanner. It keeps two behaviours of Go's RE2 engine:
  - `\s` also matches a line break. A bare `#` line followed by a text line
    is therefore a heading whose text is the second line.
  - `$` matches only before `\n`. In a file with CRLF line endings the
    `\r` stays at the end of the heading text.
- **The upload handler** (`memories.dfy`). UploadMemoryFile runs its
  guards in this order: a file must be present, it must pass validation,
  it must be read, and it must parse. Only then is a job created, with one
  item per section. processUploadJob then works through the job:
  - It sets the job to `processing`.
  - It creates one memory per section, in order, and appends each created
    memory to the job.
  - It skips a section whose creation fails, and ignores a failed append.
  - It ends with the job `completed`.
- **UserRepository** (`users.dfy`). The `users` table is a class whose
  rows are a sequence in insertion order. A query that selects one row
  returns the first matching row. An UPDATE changes every row with the
  given id. Modelled operations:
  - Create.
  - The three lookups.
  - Update.
  - CreateOrUpdateFromSupabase: update the user linked to the supabase id,
    else link the user with the same e-mail, else insert.
- **SupabaseAuthService** (`supabase_auth.dfy`):
  - The guard order of VerifyToken: secret, then parse, then expiry, then
    algorithm dispatch.
  - SyncUserFromToken, which maps a token's subject to a user, linking or
    creating one when needed.
  - `min`.

Some inputs are parameters, because their producers are outside the model:
- uuid generation and the clock.
- The results of the memory and job services.
- Reading the uploaded file.
- JWT parsing, signature checking and Supabase's user endpoint.

## Model

| member | source | states |
|---|---|---|
| GoStrings.TrimSpace | backend/internal/services/file_parser_service.go:95 | strings.TrimSpace: the result is empty exactly when the input is all white space; otherwise it begins and ends with a non-space character |
| GoStrings.TrimSpaceCutsOnlySpace | backend/internal/services/file_parser_service.go:95 | strings.TrimSpace returns a slice s[lo..hi] of its input: everything cut before lo and after hi is white space, and the slice, when not empty, begins and ends with a non-space character |
| GoStrings.TrimSpaceIdempotent | backend/internal/services/file_parser_service.go:161 | trimming an already trimmed section changes nothing |
| GoStrings.ToLower | backend/internal/services/file_parser_service.go:49 | strings.ToLower, character by character: the length is unchanged and each character is lowered by ToLowerChar (an ASCII capital becomes its small letter) |
| GoStrings.ToLowerLeavesNoCapital | backend/internal/services/file_parser_service.go:49 | after lowering no ASCII capital is left, and every character that is not an ASCII capital is kept |
| GoStrings.Ext | backend/internal/services/file_parser_service.go:50 | filepath.Ext: a suffix of the name that is empty or starts with '.' and contains no other '.' or '/'; empty only when every '.' is followed by a later '/' |
| GoStrings.ExtIsSuffix | backend/internal/services/file_parser_service.go:50-51 | the extension equals a given `.xyz` exactly when the name ends with it |
| FileParser.LowerExtIs | backend/internal/services/file_parser_service.go:50-51 | the lower-cased extension is `.txt` (or `.md`) exactly when the name ends with it, ignoring ASCII case |
| FileParser.ValidateFile | backend/internal/services/file_parser_service.go:40-59 | a size above 5·1024·1024 is `too_large` whatever the name; a size up to and including the limit passes exactly when the name ends in `.txt`/`.md`, and fails otherwise with `invalid_type` |
| FileParser.GetFileType | backend/internal/services/file_parser_service.go:62-71 | succeeds exactly for `.txt`/`.md` names (any case), returning the lower-cased extension; fails otherwise with `invalid_type` |
| FileParser.ValidateAgreesWithFileType | backend/internal/services/file_parser_service.go:40-71 | validation passes exactly when the size fits and GetFileType succeeds |
| FileParser.ParseTxtFile | backend/internal/services/file_parser_service.go:94-110 | `empty_file` "File is empty" exactly when the text is all white space; otherwise exactly one section: the trimmed text, headed by the file name, order 0 |
| HeadingScan.MatchAt | backend/internal/services/file_parser_service.go:117 | a match found at p starts at p, at a line start, on a '#', its heading text starts at least two characters later and ends at a '\n' or the end of the text; the heading text has no line break |
| HeadingScan.MatchAtShape | backend/internal/services/file_parser_service.go:117 | what a match has before its heading text is `#{1,2}\s+`: the greedy one or two '#' (two whenever a second '#' follows), then one or more `\s` |
| HeadingScan.MatchAtExactly | backend/internal/services/file_parser_service.go:117 | MatchAt finds a match at p exactly when p is a line start on '#', the greedy hashes are followed by a `\s`, and some character other than '\n' follows that `\s`; when a non-`\s` character ends the white-space run, the heading text starts there and runs to the end of its line |
| HeadingScan.FindAllFrom | backend/internal/services/file_parser_service.go:119 | the successive leftmost matches from a position: all valid, in order and not overlapping |
| HeadingScan.Headings | backend/internal/services/file_parser_service.go:119 | FindAllStringSubmatchIndex over the whole text: valid, ordered, non-overlapping matches |
| HeadingScan.FindAllFromAreMatches | backend/internal/services/file_parser_service.go:117-119 | every reported match is exactly the match that begins at its start |
| HeadingScan.FindAllFromComplete | backend/internal/services/file_parser_service.go:117-119 | the scan misses nothing: every position where a match could begin is covered by a reported match |
| HeadingScan.NoMatchAtTripleHash | backend/internal/services/file_parser_service.go:116-117 | a `###` line never starts a match |
| HeadingScan.PlainHeadingMatches | backend/internal/services/file_parser_service.go:116-117 | a `# T` or `## T` line matches with heading text T up to the end of the line |
| HeadingScan.BareHashTakesNextLine | backend/internal/services/file_parser_service.go:117 | because `\s` matches '\n', `"#\nfoo\nbar"` has one match whose heading text is `foo` |
| FileParser.CarriageReturnBranchUnused | backend/internal/services/file_parser_service.go:146-152 | after a heading match the next character is '\n' or nothing, so the `\r\n` branch never applies and the content starts just after the line break |
| FileParser.SectionContent | backend/internal/services/file_parser_service.go:161 | a section's content, when not empty, has no white space at either end |
| FileParser.ContentInRange | backend/internal/services/file_parser_service.go:144-158 | the content of heading i starts after the end of its match and ends no later than the next heading's start or the end of the text, so the slice is always well formed |
| FileParser.KeptAreSections | backend/internal/services/file_parser_service.go:163-172 | at most one kept section per heading; each kept section carries the content and heading text of its heading, with order = that heading's index, and non-empty content |
| FileParser.KeptIncreasing | backend/internal/services/file_parser_service.go:163-172 | the orders of the kept sections strictly increase |
| FileParser.KeptComplete | backend/internal/services/file_parser_service.go:163-172 | every heading with non-empty content has its section among the kept ones |
| FileParser.KeptEmptyIff | backend/internal/services/file_parser_service.go:163-166 | nothing is kept exactly when every heading's content is empty |
| FileParser.MarkdownSectionsNonEmpty | backend/internal/services/file_parser_service.go:113-184 | a successful markdown parse has at least one section, each with non-empty trimmed content; every failure is `empty_file` |
| FileParser.MarkdownWithoutHeadingsIsText | backend/internal/services/file_parser_service.go:121-137 | with no `#`/`##` heading, a markdown file parses exactly as a text file |
| FileParser.AllEmptyHeadingsRejected | backend/internal/services/file_parser_service.go:176-181 | with at least one heading, the result is `empty_file` "File contains no content" exactly when every heading's content is empty |
| FileParser.ParseMarkdownFile | backend/internal/services/file_parser_service.go:113-184 | the loop over the heading matches returns the specified sections: one per heading with non-empty content, in order, or the `empty_file` errors |
| FileParser.SectionAt | backend/internal/services/file_parser_service.go:142-161 | one turn of the loop: the heading text (capture group 2) and the trimmed content slice of heading i are that heading's entries in the specification |
| FileParser.CollectSections | backend/internal/services/file_parser_service.go:140-173 | the loop over the matches collects exactly the kept sections: one per heading with non-empty content, in order, with its index |
| FileParser.ParseFile | backend/internal/services/file_parser_service.go:74-91 | dispatches on GetFileType: a type error is returned, `.txt` is parsed as text and `.md` as markdown |
| FileParser.ParsedFileOutcome | backend/internal/services/file_parser_service.go:74-184 | success gives at least one non-empty, trimmed section; failure is `invalid_type` exactly when the name is not `.txt`/`.md`, and otherwise `empty_file` |
| Memories.UploadJob.constructor | backend/internal/handlers/memories.go:326 | a created job has the given id, owner, file name, type and item count, status `pending` and no memories |
| Memories.UploadJob.UpdateStatus | backend/internal/handlers/memories.go:345 | sets the status, leaves the memories alone and records the change |
| Memories.UploadJob.AddMemory | backend/internal/handlers/memories.go:362-364 | appends the memory exactly when the job service accepts it; a refusal changes nothing |
| Memories.SuccessfulIndicesExact | backend/internal/handlers/memories.go:349-367 | the indices of the sections that end up in the job are exactly those whose creation and append succeeded, listed in increasing order, at most one per section |
| Memories.StoredFollowsSections | backend/internal/handlers/memories.go:349-367 | the job's k-th new memory is the memory created for the k-th successful section (whose content is that section's content, by the assumption about Create under Left out) |
| Memories.StoredBounded | backend/internal/handlers/memories.go:349-370 | no more memories are appended than there are sections, and all belong to the uploading user (by the assumption about Create under Left out) |
| Memories.AllSucceedStoresAll | backend/internal/handlers/memories.go:349-367 | when every section succeeds the job gets one memory per section, in section order |
| Memories.ProcessUploadJob | backend/internal/handlers/memories.go:343-372 | the job goes to `processing` before any section, gets the memories of the successful sections appended in section order, and ends `completed` whatever failed |
| Memories.ProcessSection | backend/internal/handlers/memories.go:349-366 | one turn of the loop: a created memory the job accepts is appended with its event; a failed creation or a refused append leaves memories and events as they were; the status is kept |
| Memories.StoredStep | backend/internal/handlers/memories.go:349-366 | handling section i appends its memory, and its event, exactly when creation and the append both succeed |
| Memories.AdmitOutcome | backend/internal/handlers/memories.go:290-322 | an upload is admitted exactly when a file is present, passes validation, is read and parses; admitted uploads have at least one section; an oversized file is refused with "File exceeds 5MB limit" before it is read, and a wrongly named one with "Only .txt and .md files allowed" |
| Memories.AdmittedParseFailsOnlyEmpty | backend/internal/handlers/memories.go:298-322 | once validation has passed, the only way parsing can fail is `empty_file` |
| Memories.UploadMemoryFile | backend/internal/handlers/memories.go:287-340 | a refused upload creates no job; otherwise a job with total items equal to the section count and the raw extension as its type is created, reported as `pending`, and then processed to `completed` with the memories of the successful sections |
| Users.FirstMatch | backend/internal/repository/user_repository.go:36-39 | QueryRow's row: the first row matching the WHERE clause; None exactly when no row matches |
| Users.FirstMatchAt | backend/internal/repository/user_repository.go:36-39 | a matching row with no matching row before it is the row QueryRow returns |
| Users.LookupFinds | backend/internal/repository/user_repository.go:41-48 | a lookup is absent exactly when no row matches; a found user is a matching row of the table |
| Users.LookupByIdUnique | backend/internal/repository/user_repository.go:34-48 | with distinct ids, looking up a row's id returns that row |
| Users.InsertedEffect | backend/internal/repository/user_repository.go:20-31 | an insert succeeds exactly when the id is new, and then appends the caller's record with the new id and theme "light"; the primary key is kept |
| Users.UpdatedRowsEffect | backend/internal/repository/user_repository.go:132-152 | Update sets `updated_at` and exactly the listed columns of the rows with that id; every other row and column, each id, theme and creation time stays; ids stay distinct |
| Users.UpdateIdempotent | backend/internal/repository/user_repository.go:132-152 | repeating an update with the same changes equals doing it once at the later time |
| Users.UpsertedCases | backend/internal/repository/user_repository.go:85-130 | missing supabase id: error and no write; found by supabase id: e-mail and full name overwritten, password hash only if given; else found by e-mail: supabase id set, full name only if given; only when both lookups fail is a row added; the primary key is kept |
| Users.UpsertTwiceAddsAtMostOne | backend/internal/repository/user_repository.go:85-130 | after a successful call the supabase id is in the table, so a second call with the same user adds no row: two calls add at most one |
| Users.UserRepository.constructor | backend/internal/repository/user_repository.go:16-18 | a new repository has an empty table |
| Users.UserRepository.Create | backend/internal/repository/user_repository.go:20-32 | fills in the new id, theme "light" and both timestamps whatever the caller supplied; inserts the row unless the id is taken; keeps ids distinct |
| Users.UserRepository.GetByID | backend/internal/repository/user_repository.go:34-49 | absent exactly when no row has the id; otherwise the only row with it; only reads the table |
| Users.UserRepository.GetByEmail | backend/internal/repository/user_repository.go:51-66 | absent exactly when no row has the e-mail; otherwise a row with it; only reads the table |
| Users.UserRepository.GetBySupabaseID | backend/internal/repository/user_repository.go:68-83 | absent exactly when no row has the supabase id; otherwise a row with it; only reads the table |
| Users.UserRepository.Update | backend/internal/repository/user_repository.go:132-153 | the table becomes the updated rows and ids stay distinct |
| Users.UserRepository.CreateOrUpdateFromSupabase | backend/internal/repository/user_repository.go:85-130 | the table and error are those of the upsert specification, whose cases are stated by Users.UpsertedCases |
| SupabaseAuth.VerifyToken | backend/internal/services/supabase_auth_service.go:254-313 | an empty secret fails first; then a failed parse is an invalid token; then the token is expired exactly when exp > 0 and now > exp; then a non-string alg is invalid, ES256 yields the token's claims when Supabase accepts it and an invalid token otherwise, HS256 yields the signature check's claims when it succeeds and an invalid token otherwise, and any other alg is unsupported |
| SupabaseAuth.GuardsPrecedeVerification | backend/internal/services/supabase_auth_service.go:255-276 | when the secret, parse or expiry check fails, the outcome does not depend on the signature check or on Supabase |
| SupabaseAuth.Min | backend/internal/services/supabase_auth_service.go:315-320 | the result is one of the arguments and no larger than either |
| SupabaseAuth.SyncedUserHasSubject | backend/internal/services/supabase_auth_service.go:323-375 | an empty subject fails with no write; on success a user is returned and its supabase id is the subject |
| SupabaseAuth.SyncedExistingNoWrite | backend/internal/services/supabase_auth_service.go:332-340 | a user already linked to the subject is returned unchanged and the table is not written |
| SupabaseAuth.SyncedLinksByEmail | backend/internal/services/supabase_auth_service.go:344-366 | a user found by e-mail gets only the supabase id and update time changed, no row is added, and that same user is returned with its e-mail and theme kept |
| SupabaseAuth.LinkedFoundBySubject | backend/internal/services/supabase_auth_service.go:355-366 | after the e-mail's user is linked, the user is found by id, and looking the subject up finds that same row |
| SupabaseAuth.SyncedCreates | backend/internal/services/supabase_auth_service.go:349-374 | with no user for the subject or the e-mail, a user with the subject, the token's e-mail and theme "light" is created and returned; it fails only when the id is taken |
| SupabaseAuth.SyncedTwice | backend/internal/services/supabase_auth_service.go:323-375 | a second sync of the same claims after a successful one returns the same user and writes nothing |
| SupabaseAuth.SyncUserFromToken | backend/internal/services/supabase_auth_service.go:323-375 | the result and the new table are those of the sync specification, and ids stay distinct |

## Left out

- Memories.StoredBounded: memoryService.Create (backend/internal/handlers/memories.go:354) is not part of this model. Its outcome is a parameter giving only the new memory's id, and Memories.MemoryFor builds the stored memory from that id, the uploader's user id and the section's content. That every stored memory belongs to the uploader is therefore an assumption about Create, not something proved.
- Memories.StoredFollowsSections: for the same reason, that each stored memory carries its section's content is an assumption about Create. What is proved is which memories are stored and in what order.
- The goroutine that runs processUploadJob (backend/internal/handlers/memories.go:331) is a sequential call made after the reply is built. The race between the reply and the job's first status change is not modelled.
- The memory service, the job service's storage and their logging are left out. Memory creation and AddMemoryToJob are per-section outcomes given as parameters. The job's progress counter lives in the job service and is not modelled; the job holds only its memories.
- The multipart form, opening and reading the file, and the JSON bodies are left out. The file header and the read outcome are inputs, and the reply is the HTTP status with its `error` text or the 202 body.
- The file's bytes are decoded as a sequence of code points. The UTF-8 decoding of `string(content)` and the byte offsets of Go's regexp are not modelled.
- GoStrings.ToLower lowers ASCII letters only. Go's full Unicode case mapping is not modelled. The `.txt`/`.md` comparison is unaffected. The only non-ASCII letters Go lowers to ASCII are U+212A (Kelvin sign, to `k`) and U+0130 (to `i`), and neither `.txt` nor `.md` contains `k` or `i`.
- GoStrings.Ext treats '/' as the only path separator, as filepath.Ext does on Unix.
- Only one database failure is modelled: an INSERT whose id is already taken. Connection and query errors, and any failure of the lookups and updates, are not. Neither are UNIQUE constraints on `email` or `supabase_id`, because the table's schema is not part of this model.
- The users table is a sequence in insertion order, not a map keyed by id. A query selecting one row is then deterministic: it returns the first match. SQL leaves that order unspecified.
- Users.UserRepository.Update: the update map is limited to the columns its callers write: `supabase_id`, `email`, `password_hash` and `full_name` (backend/internal/repository/user_repository.go:98-106 and 118-124, backend/internal/services/supabase_auth_service.go:357-361), with `updated_at` always set. Update itself writes any column its map names. That the id, theme and creation time stay, and that ids stay distinct, is therefore a property of those callers, not of Update.
- Update's SQL text is left out; only its effect on the rows is modelled. The text is built by iterating over a Go map, so its column order is nondeterministic.
- Users.UserRepository.Create: the two `time.Now()` readings are one clock value `now`, and uuid.New is a `newId` parameter.
- VerifyToken's token parsing, HMAC and ECDSA checks, key extraction, the call to Supabase's user endpoint and the debug output are left out. Their results are parameters: the unverified parse, a flag for Supabase's answer, and the claims of a valid HS256 check. The error messages are error variants, not formatted strings.
- The rest of supabase_auth_service.go, backend/internal/handlers/auth.go and the scripts under backend/scripts are not part of this model. They are the service constructor, key handling and the remote call; the route binding; and one-off migration and check programs.
- The `parse_error` code is declared but never produced, so no operation returns it.
