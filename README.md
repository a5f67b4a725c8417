# webserv in Dafny

This project models the core of "webserv", a C++98 HTTP/1.1 server, together with the CGI scripts it serves.

The server side covers:

- the string helpers (`StringUtils`), path sanitising (`FileHandler`) and the extension table (`MimeTypes`);
- the two request readers (`Request::parse` and `RequestParser`) and the response writer (`Response`, `ResponseGenerator`);
- the two configuration readers (`ConfigParser`, `ServerConfig::loadConfig`) and the records they fill (`ServerConfig`, `LocationConfig`);
- the CGI glue (`CGIExecutor`): script path, meta-variables, argument vector, exit checks and output header repair;
- the stateful pieces: the `FileOperation` state machine and `FileHandler`'s operation queues, a connection's buffers (`Client`), and the server's poll list and static-file reply (`Server`).

The scripts are `test.cpp`, `test.ts`, `info.ts`, `info.php` and `info.py`. Their escapers, query-string parsers, request-fact defaults, environment filters and listings, labels and palettes are modelled, each with its own rule.

Code that changes state step by step is modelled in the same way: a class with the source's fields, methods with `modifies` frames, and loops with invariants. Each such method is proved against a specification function. Code that only computes a value is modelled as functions, and lemmas relate them.

- `std::map` is an association list kept in ascending key order.
- A process environment is an ordered name/value table.
- `std::istringstream` extraction follows libstdc++'s C++11 rules.
- Sockets, processes and the file system are not modelled: what those calls return comes in as parameters.

Where the two information pages filter the environment differently, each keeps its own rule and its own insertion order. Where a header and its implementation file disagree, the implementation file is followed.

## Model

| member | source | states |
|---|---|---|
| Text.NatToString | srcs/Core/srcs/Client.cpp:188-189 | the decimal text of a size is a non-empty run of digits |
| Text.IntToString | srcs/CGI/srcs/CGIExecutor.cpp:15-20 | the decimal text of an integer is non-empty and starts with `-` exactly when the integer is negative |
| Text.NatToStringValue | srcs/Core/srcs/Client.cpp:188-189 | the digits written for a size read back as that size |
| InputStream.IndexOf | srcs/Utils/srcs/StringUtils.cpp:44 | the first position of the delimiter, with no earlier occurrence, and none exactly when the delimiter does not occur |
| InputStream.GetLine | srcs/Utils/srcs/StringUtils.cpp:44 | `getline` returns the text before the first delimiter and leaves what follows it; without a delimiter it returns everything and leaves nothing |
| InputStream.GetLineSplit | srcs/Config/srcs/ConfigParser.cpp:55 | a line without the delimiter, followed by the delimiter, is read back whole and the rest is left |
| InputStream.Lines | srcs/Config/srcs/ConfigParser.cpp:55 | a `getline` loop sees no line exactly when the input is empty |
| InputStream.LinesCons | srcs/Config/srcs/ConfigParser.cpp:55 | a line and its delimiter in front of more input add that line in front of the lines of the rest |
| InputStream.SkipSpace | srcs/Config/srcs/ConfigParser.cpp:175 | the sentry skips exactly the leading whitespace |
| InputStream.WordPrefix | srcs/Config/srcs/ConfigParser.cpp:175 | a word is the longest whitespace-free prefix |
| InputStream.DigitPrefix | srcs/Config/srcs/ConfigParser.cpp:182 | numeric extraction takes the longest run of decimal digits |
| InputStream.ReadWord | srcs/Config/srcs/ConfigParser.cpp:175 | `>>` into a string yields a non-empty whitespace-free word exactly when the stream stays good, and nothing once it has failed |
| InputStream.KeyOf | srcs/Config/srcs/ConfigParser.cpp:169-175 | the key of a directive line is non-empty exactly when extraction left the stream good |
| InputStream.ReadWordStep | srcs/Config/srcs/ConfigParser.cpp:250 | each extraction in a `while (iss >> w)` loop yields the next word and leaves the others |
| InputStream.SignedDigits | srcs/Config/srcs/ConfigParser.cpp:182 | the run numeric extraction accumulates is all digits |
| InputStream.ReadInt | srcs/Config/srcs/ConfigParser.cpp:182 | `>>` into an `int` stores a value within the 32-bit range; a failure stores nothing, 0 or the nearest limit |
| InputStream.ReadIntRun | srcs/Config/srcs/ConfigParser.cpp:182 | a digit run within range is stored and the stream stays good |
| InputStream.IntToStringReadBack | srcs/Config/srcs/ConfigParser.cpp:182 | the decimal text of any 32-bit `int` is read back as that value with the stream good and empty |
| InputStream.ReadIntSpaced | srcs/Config/srcs/ConfigParser.cpp:182 | the same after a space |
| InputStream.ReadIntThenWord | srcs/Config/srcs/ConfigParser.cpp:207 | `iss >> code >> path`: the number is read back and the text after it is left |
| InputStream.ReadSize | srcs/Config/srcs/ConfigParser.cpp:198 | `>>` into a `size_t` stores a value at most 2^64 - 1 |
| InputStream.StoreSize | srcs/Config/srcs/ConfigParser.cpp:198 | the stored `size_t` is at most 2^64 - 1 |
| InputStream.ReadSizeThenText | srcs/Config/srcs/ConfigParser.cpp:198 | the decimal text of any `size_t` is read back as that value |
| InputStream.ReadLastWord | srcs/Config/srcs/ConfigParser.cpp:190 | the last word of a line, after a space, is read whole |
| InputStream.ReadWordSpaced | srcs/Config/srcs/ConfigParser.cpp:175 | a word followed by a space is read whole and the space is left |
| IntMap.Keys | srcs/Utils/srcs/FileHandler.cpp:232-233 | the keys of a map are exactly the keys of its entries |
| IntMap.Get | srcs/Utils/srcs/FileHandler.cpp:246 | `find` yields nothing exactly when the key is absent, and otherwise the value of an entry under that key |
| IntMap.GetSorted | srcs/Utils/srcs/FileHandler.cpp:246 | in a map in key order, each entry is the one `find` yields for its key |
| IntMap.Put | srcs/Config/srcs/ServerConfig.cpp:121 | `m[k] = v` keeps the map in key order, makes `k` yield `v` and leaves every other key as it was |
| SortedMap.LessIrreflexive | srcs/HTTP/srcs/Request.cpp:106 | no string orders before itself |
| SortedMap.LessTransitive | srcs/HTTP/srcs/Request.cpp:106 | the string order of `std::map` keys is transitive |
| SortedMap.LessTotal | srcs/HTTP/srcs/Request.cpp:106 | any two distinct strings are ordered one way or the other |
| SortedMap.Keys | srcs/HTTP/srcs/Request.cpp:106 | the keys of a map are exactly the keys of its entries |
| SortedMap.Get | srcs/HTTP/srcs/Request.cpp:106 | `find` yields nothing exactly when the key is absent, and otherwise the value of an entry under that key |
| SortedMap.GetSorted | srcs/HTTP/srcs/Request.cpp:106 | in a map in key order, each entry is the one `find` yields for its key |
| SortedMap.Put | srcs/HTTP/srcs/Request.cpp:106 | `m[k] = v` keeps the map in key order, adds `k` to the keys, and grows the map by one exactly when `k` was new |
| SortedMap.PutGet | srcs/HTTP/srcs/Request.cpp:106 | after `m[k] = v`, `k` yields `v` and every other key yields what it did before |
| SortedMap.Insert | www/cgi-bin/test.cpp:137 | `insert` keeps the map in key order and never overwrites: an existing key keeps its value, a new key yields the inserted value, other keys are unchanged |
| SortedMap.PutAll | srcs/CGI/srcs/CGIExecutor.cpp:49-61 | a run of assignments keeps the map in key order |
| SortedMap.PutAllUnassigned | srcs/HTTP/srcs/Request.cpp:106 | a key the run never assigns keeps its earlier value |
| SortedMap.PutAllLastWins | srcs/HTTP/srcs/Request.cpp:106 | after a run of assignments, the name of the last assignment yields that assignment's value |
| SortedMap.PutAllFresh | srcs/CGI/srcs/CGIExecutor.cpp:49-61 | assignments to distinct new names add one entry each, and the keys are the old keys plus those names |
| SortedMap.LastValue | srcs/HTTP/srcs/Request.cpp:106 | the last value assigned to a key in a run, none exactly when the run never names it |
| SortedMap.PutAllGet | srcs/HTTP/srcs/Request.cpp:106 | after a run of assignments a key yields its last assigned value, or its earlier value when the run never assigns it |
| Assoc.Lookup | www/cgi-bin/info.ts:53-54 | looking up a name yields nothing exactly when no entry has that name, and otherwise the value of an entry with that name |
| Assoc.LookupUnique | www/cgi-bin/info.ts:53-54 | in a table without repeated names, each entry is the one a lookup finds |
| Assoc.Assign | www/cgi-bin/info.ts:55 | assigning a new name appends it at the end; assigning an existing name keeps the table's size |
| Assoc.AssignLookup | www/cgi-bin/info.ts:55 | after an assignment the name holds the new value and every other name keeps its old one |
| Assoc.AssignAllGet | www/cgi-bin/test.ts:49 | after a run of assignments a name holds its last assigned value, or its earlier value when the run never assigns it |
| MimeTypes.MimeTypes.constructor | srcs/Utils/srcs/MimeTypes.cpp:3-4 | the map starts empty and not initialised |
| MimeTypes.Lookup | srcs/Utils/srcs/MimeTypes.cpp:26-30 | an extension gives one of the table's types exactly when it is in the table, and `text/plain` otherwise |
| MimeTypes.TypeOf | srcs/Utils/srcs/MimeTypes.cpp:16-31 | the answer is `text/plain` or one of the table's types, and `text/plain` for a name without a dot |
| MimeTypes.MimeTypes.InitTypes | srcs/Utils/srcs/MimeTypes.cpp:6-14 | the map gains exactly the seven table entries; the initialised flag is not touched |
| MimeTypes.MimeTypes.GetType | srcs/Utils/srcs/MimeTypes.cpp:16-31 | the first call fills the table and sets the flag; every call answers the type registered for the text from the last dot, or `text/plain` |
| MimeTypes.LookupTable | srcs/Utils/srcs/MimeTypes.cpp:6-14 | each of the seven extensions gives its listed type (`.jpg` and `.jpeg` both `image/jpeg`); every other extension gives `text/plain` |
| MimeTypes.TypeOfLastDot | srcs/Utils/srcs/MimeTypes.cpp:23-28 | a name is typed by the dot-free suffix after its last dot, whatever comes before |
| MimeTypes.TypeOfNoDot | srcs/Utils/srcs/MimeTypes.cpp:23-30 | a name without a dot is `text/plain` |
| MimeTypes.TypeOfUpperCase | srcs/Utils/srcs/MimeTypes.cpp:26-30 | extension matching is case-sensitive: `INDEX.HTML` is `text/plain` |
| MimeTypes.TypeOfTwoDots | srcs/Utils/srcs/MimeTypes.cpp:23-27 | only the last dot counts: `a.html.png` is `image/png` |
| MimeTypes.TypeOfDottedDirectory | srcs/Utils/srcs/MimeTypes.cpp:23-30 | a dot in a directory name is taken as the extension, so `dir.html/file` is `text/plain` |
| StringUtils.Trim | srcs/Utils/srcs/StringUtils.cpp:21-33 | the result is empty exactly when the string is all `" \t\r\n"`; otherwise it starts and ends with a non-whitespace character and sits inside the string with only whitespace around it |
| StringUtils.TrimUnique | srcs/Utils/srcs/StringUtils.cpp:24-31 | any such core of the string is the trimmed text: trimming is determined by its description |
| StringUtils.TrimIdempotent | srcs/Utils/srcs/StringUtils.cpp:21-33 | trimming twice is trimming once |
| StringUtils.Split | srcs/Utils/srcs/StringUtils.cpp:37-49 | the `getline` loop collects exactly the tokens of the reference split |
| StringUtils.LinesHaveNoDelimiter | srcs/Utils/srcs/StringUtils.cpp:44-45 | no token contains the delimiter |
| StringUtils.JoinLines | srcs/Utils/srcs/StringUtils.cpp:37-49 | joining the tokens with the delimiter gives back the string, except a final delimiter, which `getline` drops |
| StringUtils.SplitJoin | srcs/Utils/srcs/StringUtils.cpp:37-49 | a non-empty string not ending in the delimiter is exactly the join of its tokens |
| StringUtils.ToLower | srcs/Utils/srcs/StringUtils.cpp:53-60 | same length; no capital remains; each character is kept or is a capital moved down by 32 |
| StringUtils.ToUpper | srcs/Utils/srcs/StringUtils.cpp:64-73 | same length; no small letter remains; each character is kept or is a small letter moved up by 32 |
| StringUtils.CaseConversions | srcs/Utils/srcs/StringUtils.cpp:53-73 | each conversion is idempotent, and converting after the other conversion is the same as converting directly |
| StringUtils.ExtractBoundary | srcs/Utils/srcs/StringUtils.cpp:77-83 | empty when `boundary=` does not occur; otherwise everything after its first occurrence |
| StringUtils.ExtractBoundaryAfter | srcs/Utils/srcs/StringUtils.cpp:77-83 | with no `b` before the key, the boundary is exactly the text after `boundary=` |
| Text.FindFrom | srcs/Utils/srcs/StringUtils.cpp:78 | `find` from a position: the first occurrence at or after it, or none at all |
| Text.Find | srcs/Utils/srcs/StringUtils.cpp:78 | `find`: an occurrence with none before it, and None exactly when the pattern never occurs |
| Text.FindIs | srcs/Utils/srcs/StringUtils.cpp:78 | an occurrence with none before it is the one `find` returns |
| Text.FindInPrefix | srcs/Utils/srcs/StringUtils.cpp:78 | text appended after a first occurrence does not move it |
| Text.FindLastOf | srcs/Utils/srcs/MimeTypes.cpp:23 | `find_last_of`: an index holding a character of the set with none after it, or none in the string |
| Text.FindFirstNotOf | srcs/Utils/srcs/StringUtils.cpp:24 | `find_first_not_of`: the first index outside the set, or none |
| Text.FindLastNotOf | srcs/Utils/srcs/StringUtils.cpp:29 | `find_last_not_of`: the last index outside the set, or none |
| FileHandler.Sanitized | srcs/Utils/srcs/FileHandler.cpp:135-157 | the sanitised path is never longer than the input and is clean: no character of signed value at most 32, no `;`, pipe, `&` or backslash, and no two consecutive `/` |
| FileHandler.SanitizedStep | srcs/Utils/srcs/FileHandler.cpp:140-154 | one more input character is skipped when dropped or when it is a `/` after a `/`, and otherwise appended, a backslash as `/` |
| FileHandler.SanitizePath | srcs/Utils/srcs/FileHandler.cpp:135-157 | the loop with its `last_was_slash` flag builds exactly the sanitised path |
| FileHandler.CleanFixpoint | srcs/Utils/srcs/FileHandler.cpp:140-156 | a clean path is left unchanged |
| FileHandler.SanitizeIdempotent | srcs/Utils/srcs/FileHandler.cpp:140-156 | sanitising twice gives the same path as sanitising once |
| FileHandler.SanitizedExtends | srcs/Utils/srcs/FileHandler.cpp:140-154 | the sanitised form of a prefix is a prefix of the sanitised form of the whole path |
| FileHandler.SanitizedKeepsFinalSlash | srcs/Utils/srcs/FileHandler.cpp:147-153 | a path ending in `/` still ends in `/` once sanitised |
| FileHandler.SanitizeKeepsDotSegments | srcs/Utils/srcs/FileHandler.cpp:183-184 | `.` and `..` segments are kept, so sanitising does not normalise the path |
| FileHandler.AbsolutePathOfAbsolute | srcs/Utils/srcs/FileHandler.cpp:184-189 | a path whose sanitised form starts with `/` is returned as sanitised, whatever the working directory and the file system, and so is clean |
| FileHandler.AbsolutePath | srcs/Utils/srcs/FileHandler.cpp:180-207 | when `getcwd` fails the sanitised path is returned as it is |
| FileHandler.PathWithinRoot | srcs/Utils/srcs/FileHandler.cpp:210-215 | a path is within the root exactly when the root's absolute path is a prefix of the path's absolute path |
| FileHandler.SiblingCountsAsWithin | srcs/Utils/srcs/FileHandler.cpp:214 | the test is on characters: `/rootX` counts as within `/root` |
| FileHandler.WriteFileText | srcs/Utils/srcs/FileHandler.cpp:65-69 | the stored text is what follows the first `textcontent=`, so the content is what precedes it, the marker and the text; without the marker it is the whole content |
| FileHandler.PassEntry | srcs/Utils/srcs/FileHandler.cpp:245-251 | one polled entry is kept, under its own descriptor, at most once |
| FileHandler.PollPass | srcs/Utils/srcs/FileHandler.cpp:242-254 | the active table after the poll pass is no larger, holds only descriptors that were active, and stays in descriptor order |
| FileHandler.PollPassInv | srcs/Utils/srcs/FileHandler.cpp:242-254 | after the poll pass every remaining operation is in progress, well formed and filed under its own descriptor |
| FileHandler.PollPassAt | srcs/Utils/srcs/FileHandler.cpp:245-252 | the pass handles the entry at position `i`, then the entries after it |
| FileHandler.RunPollPass | srcs/Utils/srcs/FileHandler.cpp:242-254 | the loop over the poll array computes the poll pass |
| FileHandler.Drain | srcs/Utils/srcs/FileHandler.cpp:257-266 | draining the pending queue keeps the active table in descriptor order |
| FileHandler.DrainDiscardsFailed | srcs/Utils/srcs/FileHandler.cpp:257-266 | queued operations have failed to start, so draining them starts none and leaves the active table as it was |
| FileHandler.RunDrain | srcs/Utils/srcs/FileHandler.cpp:257-266 | the FIFO loop over the pending queue computes the drain |
| FileHandler.PutActiveEntry | srcs/Utils/srcs/FileHandler.cpp:217-219 | filing an operation in progress under its descriptor keeps every entry of the table an active entry |
| FileHandler.HandledInv | srcs/Utils/srcs/FileHandler.cpp:225-267 | after `handleFileOperations` the pending queue is empty, the queue invariant holds, and the active table is the poll pass result (or unchanged when poll reported nothing) |
| FileHandler.Handled | srcs/Utils/srcs/FileHandler.cpp:225-267 | the active table stays in ascending descriptor order, and is unchanged when nothing is pending and `poll` reported nothing |
| FileHandler.FileHandler.constructor | srcs/Utils/srcs/FileHandler.cpp:10-12 | the queues start empty and satisfy the queue invariant |
| FileHandler.FileHandler.AddFileOperation | srcs/Utils/srcs/FileHandler.cpp:217-223 | a started operation is filed under its descriptor and the queue is unchanged; one that fails to start is appended to the queue and the table is unchanged; the invariant is kept |
| FileHandler.FileHandler.HandleFileOperations | srcs/Utils/srcs/FileHandler.cpp:225-267 | the pending queue is left empty, the invariant is kept, and the active table is the handled table |
| FileHandler.DeleteNeverPolled | srcs/Utils/srcs/FileHandler.cpp:102-111 | as written, a DELETE filed under descriptor -1 as the only active operation is never stepped, so every call leaves it in progress |
| FileHandler.PollPassFixed | srcs/Utils/srcs/FileHandler.cpp:242-254 | the corrected pass, stepping operations filed under a negative descriptor whatever poll reports, is no larger than the table |
| FileHandler.FixedPassEndsDelete | srcs/Utils/srcs/FileHandler.cpp:102-111 | with the correction, one pass ends a lone DELETE, by its unlink outcome |
| FileOperation.New | srcs/Utils/srcs/FileOperation.cpp:8-9 | a new operation is PENDING, owns no descriptor, has written nothing and read nothing, and is well formed |
| FileOperation.OpenFile | srcs/Utils/srcs/FileOperation.cpp:34-71 | succeeds exactly for a DELETE or when both `open` and `fcntl` succeed; on failure no descriptor is held, on success the opened one is; state, counter and result are untouched |
| FileOperation.ReadStep | srcs/Utils/srcs/FileOperation.cpp:96-119 | the result only grows and the descriptor and counter stay; a step that keeps the operation leaves its state, one that ends it completes or fails it, and it completes exactly on an empty read after POLLIN |
| FileOperation.WriteStep | srcs/Utils/srcs/FileOperation.cpp:121-149 | the written counter never decreases nor passes the total, which stays; the result and descriptor stay; a step that ends the operation completes or fails it |
| FileOperation.PollStep | srcs/Utils/srcs/FileOperation.cpp:73-94 | an operation stays active only when it was and still is in progress; its kind, path and descriptor never change |
| FileOperation.StartStep | srcs/Utils/srcs/FileOperation.cpp:20-71 | start succeeds exactly when the operation was PENDING and becomes IN_PROGRESS; a second start changes nothing; a failed open or fcntl leaves it FAILED without a descriptor; a DELETE opens nothing; well-formedness is kept |
| FileOperation.StartWriteTotal | srcs/Utils/srcs/FileOperation.cpp:65-66 | a started write's total is the size of its content |
| FileOperation.DeleteStep | srcs/Utils/srcs/FileOperation.cpp:151-158 | a DELETE ends on its first event: COMPLETED exactly when unlink succeeded, FAILED otherwise, nothing else changed |
| FileOperation.CleanupStep | srcs/Utils/srcs/FileOperation.cpp:160-165 | cleanup leaves no descriptor and changes nothing else |
| FileOperation.CleanupOnce | srcs/Utils/srcs/FileOperation.cpp:160-165 | a second cleanup changes nothing, so the descriptor is closed at most once |
| FileOperation.PollTerminal | srcs/Utils/srcs/FileOperation.cpp:75-76 | a poll event leaves an operation that is not IN_PROGRESS unchanged and reports it inactive |
| FileOperation.PollStaysActive | srcs/Utils/srcs/FileOperation.cpp:73-158 | for an operation in progress, the step reports it still active exactly when it remains IN_PROGRESS, and otherwise it has become COMPLETED or FAILED |
| FileOperation.ReadStepEnds | srcs/Utils/srcs/FileOperation.cpp:96-119 | the read handler keeps the operation active exactly while it stays IN_PROGRESS and ends it only by completing or failing it |
| FileOperation.WriteStepEnds | srcs/Utils/srcs/FileOperation.cpp:121-149 | the write handler keeps the operation active exactly while it stays IN_PROGRESS and ends it only by completing or failing it |
| FileOperation.PollErrorFails | srcs/Utils/srcs/FileOperation.cpp:78-81 | POLLERR, POLLHUP or POLLNVAL fails an operation in progress and ends it, whatever else is set |
| FileOperation.ReadAppends | srcs/Utils/srcs/FileOperation.cpp:112-118 | a read of zero bytes completes the operation; a read of some bytes appends exactly those bytes and keeps it active |
| FileOperation.PollStepInv | srcs/Utils/srcs/FileOperation.cpp:73-149 | every poll step keeps the operation well formed; a write's counter only moves forward, by at most 4096 bytes, never past the total, and a completed write has written the whole content |
| FileOperation.WriteStepInv | srcs/Utils/srcs/FileOperation.cpp:121-149 | the write handler keeps the operation well formed, advances by at most 4096 bytes and completes only with everything written |
| FileOperation.FileOperation.constructor | srcs/Utils/srcs/FileOperation.cpp:8-9 | the object's state is the new operation for its kind, path and content |
| FileOperation.FileOperation.Start | srcs/Utils/srcs/FileOperation.cpp:20-71 | updating the fields in place gives the state and the result of the start step |
| FileOperation.FileOperation.HandlePollEvent | srcs/Utils/srcs/FileOperation.cpp:73-94 | updating the fields in place gives the state and the active flag of the poll step |
| FileOperation.FileOperation.HandleRead | srcs/Utils/srcs/FileOperation.cpp:96-119 | the read handler's in-place update is the read step |
| FileOperation.FileOperation.HandleWrite | srcs/Utils/srcs/FileOperation.cpp:121-149 | the write handler's in-place update is the write step |
| FileOperation.FileOperation.HandleDelete | srcs/Utils/srcs/FileOperation.cpp:151-158 | the delete handler's in-place update is the delete step |
| FileOperation.FileOperation.Cleanup | srcs/Utils/srcs/FileOperation.cpp:160-165 | the descriptor handed to close is the one held, and the new state is the cleanup step |
| HttpRequest.RequestLineWords | srcs/HTTP/srcs/Request.cpp:69-78 | the method, target and version are the first three whitespace-separated words of the request line; a field without a word keeps its earlier value |
| HttpRequest.FirstLine | srcs/HTTP/srcs/Request.cpp:47 | the request line holds no newline, and the request is that line, a newline and the rest, or the line alone when there is no newline |
| HttpRequest.RequestLineFields | srcs/HTTP/srcs/Request.cpp:69-78 | each field is either its earlier value or a non-empty word without white space |
| HttpRequest.EndsHeaders | srcs/HTTP/srcs/RequestParser.cpp:38 | an empty line always ends the header section; the only other line that can is a lone CR, and only for the reader that recognises CRLF framing (`RequestParser`) |
| HttpRequest.HeaderOf | srcs/HTTP/srcs/Request.cpp:82-109 | a header line defines a field exactly when it holds a colon |
| HttpRequest.HeaderOfSplit | srcs/HTTP/srcs/Request.cpp:86-103 | only the first colon separates: the name is the trimmed text before it and the value the trimmed text after it, colons included |
| HttpRequest.EraseTrimIsTrim | srcs/HTTP/srcs/Request.cpp:100-103 | erasing the leading and then the trailing `" \t\r\n"` in place gives the trimmed string |
| HttpRequest.HeaderBlock | srcs/HTTP/srcs/Request.cpp:54-57 | the header loop consumes input and leaves no more than it was given |
| HttpRequest.HeaderBlockLine | srcs/HTTP/srcs/Request.cpp:54-57 | a non-empty line without a newline, followed by a newline, is read as one header line |
| HttpRequest.HeaderBlockEnd | srcs/HTTP/srcs/Request.cpp:54-63 | the empty line ends the header section and everything after it is the body |
| HttpRequest.HeaderBlockFramed | srcs/HTTP/srcs/Request.cpp:54-63 | header lines, each followed by a newline, then the ending line, are read back as exactly those lines, and the bytes after the ending line are the body, byte for byte |
| HttpRequest.CarriageReturnLine | srcs/HTTP/srcs/RequestParser.cpp:38 | a lone `"\r"` line is a header line for `Request::parse` but ends the header section of `RequestParser::parse` |
| HttpRequest.Fields | srcs/HTTP/srcs/Request.cpp:54-57 | no more fields than header lines |
| HttpRequest.FieldsOfLines | srcs/HTTP/srcs/Request.cpp:86-106 | a field is defined exactly when some header line holding a colon gives it; lines without a colon are ignored |
| HttpRequest.FieldsSound | srcs/HTTP/srcs/Request.cpp:86-106 | every field comes from a header line holding a colon |
| HttpRequest.FieldsComplete | srcs/HTTP/srcs/Request.cpp:86-106 | every header line holding a colon gives its field |
| HttpRequest.AddHeaders | srcs/HTTP/srcs/Request.cpp:106 | the headers stay in name order after the header lines are added |
| HttpRequest.LastHeaderWins | srcs/HTTP/srcs/Request.cpp:106 | a repeated header name ends with the value of the last line defining it |
| HttpRequest.UndefinedHeaderKept | srcs/HTTP/srcs/Request.cpp:106 | a name no header line defines keeps its earlier value |
| HttpRequest.AddHeadersStep | srcs/HTTP/srcs/Request.cpp:54-57 | one header line more is one map assignment more, or none for a line without a colon |
| HttpRequest.Parsed | srcs/HTTP/srcs/Request.cpp:33-65 | the parsed request keeps its headers in name order |
| HttpRequest.ParsedFramed | srcs/HTTP/srcs/Request.cpp:33-65 | a request line, header lines each ended by a newline, an empty line and a body are read back into the line's words, those header fields and exactly that body |
| HttpRequest.Request.constructor | srcs/HTTP/srcs/Request.cpp:19-22 | a new request has every field empty |
| HttpRequest.Request.ParseRequestLine | srcs/HTTP/srcs/Request.cpp:69-78 | the three request-line fields are updated as the extraction chain reads them |
| HttpRequest.Request.ParseHeaderLine | srcs/HTTP/srcs/Request.cpp:82-109 | a line with a colon assigns its trimmed field, a line without one changes nothing, and the headers stay in name order |
| HttpRequest.Request.ReadHeaders | srcs/HTTP/srcs/Request.cpp:54-57 | the loop adds the fields of the header section to the headers and returns the bytes after the ending line |
| HttpRequest.Request.Parse | srcs/HTTP/srcs/Request.cpp:33-65 | the fields after `parse` are the parsed request of the old fields and the data |
| HttpRequest.Request.SetMethod | srcs/HTTP/srcs/Request.cpp:115-117 | the method becomes the given one |
| HttpRequest.Request.SetUri | srcs/HTTP/srcs/Request.cpp:119-121 | the target becomes the given one |
| HttpRequest.Request.SetVersion | srcs/HTTP/srcs/Request.cpp:123-125 | the version becomes the given one |
| HttpRequest.Request.SetHeader | srcs/HTTP/srcs/Request.cpp:127-129 | the name yields the new value, every other name is unchanged, and the headers stay in name order |
| HttpRequest.Request.SetBody | srcs/HTTP/srcs/Request.cpp:131-133 | the body becomes the given one |
| HttpRequestParser.ParsedBy | srcs/HTTP/srcs/RequestParser.cpp:20-48 | the request `RequestParser::parse` leaves keeps its headers in name order |
| HttpRequestParser.ParseRequestLine | srcs/HTTP/srcs/RequestParser.cpp:51-69 | the three fields are the extraction chain's words, starting from empty strings |
| HttpRequestParser.ParseHeaderLine | srcs/HTTP/srcs/RequestParser.cpp:72-93 | a line with a colon sets its trimmed field through `setHeader`, a line without one changes nothing |
| HttpRequestParser.ReadHeaders | srcs/HTTP/srcs/RequestParser.cpp:37-42 | the loop, which also stops at a `"\r"` line, adds the fields of the header section and returns the bytes after the ending line |
| HttpRequestParser.Parse | srcs/HTTP/srcs/RequestParser.cpp:20-48 | the request after `parse` is the parsed request of the old one and the data |
| HttpRequestParser.MissingWordsEmpty | srcs/HTTP/srcs/RequestParser.cpp:56-68 | each request-line field is the word at its position, or empty when the line has fewer words |
| HttpRequestParser.ParsedByFramed | srcs/HTTP/srcs/RequestParser.cpp:20-48 | a CRLF-framed request is read back into its request-line words, its header fields and exactly its body |
| HttpResponse.Response.constructor | srcs/HTTP/srcs/Response.cpp:18-21 | a new response has status 200, no header and an empty body |
| HttpResponse.Response.SetStatus | srcs/HTTP/srcs/Response.cpp:37-42 | the status becomes the given one |
| HttpResponse.Response.SetHeader | srcs/HTTP/srcs/Response.cpp:46-51 | the name yields the new value, every other name is unchanged, and the headers stay in name order |
| HttpResponse.Response.SetBody | srcs/HTTP/srcs/Response.cpp:55-60 | the body becomes the given one |
| HttpResponse.Response.Generate | srcs/HTTP/srcs/Response.cpp:64-93 | the loop over the header map writes the serialised response |
| HttpResponse.HeaderSectionSplit | srcs/HTTP/srcs/Response.cpp:77-84 | the header section holds the header lines and nothing else |
| HttpResponse.GeneratedLayout | srcs/HTTP/srcs/Response.cpp:64-93 | the serialised response is the status line, the header lines, one empty line and the body verbatim; no header field is added |
| HttpResponse.HeaderSectionAt | srcs/HTTP/srcs/Response.cpp:77-84 | each header field is written at its place in name order, between the lines of the fields before it and after it |
| HttpResponse.StatusLine | srcs/HTTP/srcs/Response.cpp:71-74 | the status line starts with `HTTP/1.1 ` and ends with ` OK` and CRLF |
| HttpResponse.HeaderLine | srcs/HTTP/srcs/Response.cpp:79-83 | a header line starts with the name and ends with CRLF, four characters longer than name and value |
| HttpResponse.HeaderSection | srcs/HTTP/srcs/Response.cpp:77-84 | each header adds at least four characters before what follows, and with no header only what follows is written |
| HttpResponse.HeaderSectionAppend | srcs/HTTP/srcs/Response.cpp:77-84 | the lines of two runs of headers follow each other |
| HttpResponse.Generated | srcs/HTTP/srcs/Response.cpp:64-93 | the response starts with its status line and is long enough for the header lines, the empty line and the body |
| ResponseGenerator.GenerateResponse | srcs/HTTP/srcs/ResponseGenerator.cpp:23-34 | the request is ignored and the response is status 200 with the one field `Content-Type: text/html` and the hello page |
| ResponseGenerator.GenerateErrorResponse | srcs/HTTP/srcs/ResponseGenerator.cpp:36-47 | the error response has the given status, the one Content-Type field and the page `<h1>Error <status>: <message></h1>`, unescaped |
| ResponseGenerator.HtmlResponseText | srcs/HTTP/srcs/ResponseGenerator.cpp:36-47 | the text of a response with the one Content-Type field |
| ResponseGenerator.NotFoundText | srcs/HTTP/srcs/Response.cpp:71-74 | a 404 response still carries the reason phrase `OK` |
| ResponseGenerator.HelloResponseText | srcs/HTTP/srcs/ResponseGenerator.cpp:23-34 | the whole text of the default response |
| Framing.SplitAtBlank | srcs/CGI/srcs/CGIExecutor.cpp:277 | a text splits at its first CRLF CRLF: the header section before it holds no earlier one, and no split exactly when the text holds none |
| Framing.SplitAt | srcs/CGI/srcs/CGIExecutor.cpp:277 | a header section with no blank line inside, a blank line and a body split back into that section and that body |
| Framing.NoBlankInLine | srcs/Core/srcs/Client.cpp:106 | no blank line starts inside a line without CR or at its CRLF, unless another CRLF follows |
| Framing.NoBlankShifted | srcs/Core/srcs/Client.cpp:106 | a blank line that does not start in a text does not start at the matching place behind a prefix |
| Framing.JoinCrlf | srcs/CGI/srcs/CGIExecutor.cpp:295 | header lines joined by CRLF begin with the first line |
| Framing.LineThenSplit | srcs/CGI/srcs/CGIExecutor.cpp:277 | a line without CR in front of a header section leaves the first blank line where it was |
| Framing.PlainThenSplit | srcs/CGI/srcs/CGIExecutor.cpp:277 | text without CR in front of any text that has a blank line joins its header section and leaves the body as it was |
| Framing.JoinCrlfSplits | srcs/CGI/srcs/CGIExecutor.cpp:277-295 | non-empty header lines without CR, joined by CRLF, then a blank line and any body split back into the joined lines and that body |
| Framing.NatTextPlain | srcs/Core/srcs/Client.cpp:188-191 | decimal text holds no CR |
| HttpRoundTrip.EntryLines | srcs/HTTP/srcs/Response.cpp:77-84 | each header field is seen by a line reader as `name: value` followed by the CR of its CRLF |
| HttpRoundTrip.IntTextHasNoNewline | srcs/HTTP/srcs/Response.cpp:71-74 | the status code's decimal text holds no newline |
| HttpRoundTrip.HeaderSectionFramed | srcs/HTTP/srcs/Response.cpp:77-84 | the header section is the entry lines, each ended by a newline |
| HttpRoundTrip.GeneratedReadBack | srcs/HTTP/srcs/RequestParser.cpp:20-48 | reading a generated response with `RequestParser::parse` gives its status-line words, its header lines and exactly its body |
| HttpRoundTrip.TrimPadded | srcs/HTTP/srcs/RequestParser.cpp:85-88 | a value without surrounding whitespace survives the reader's trimming of the space after the colon and the final CR |
| HttpRoundTrip.EntryLineField | srcs/HTTP/srcs/RequestParser.cpp:72-93 | the reader gives back the field of each entry line whose name holds no colon and whose name and value carry no surrounding whitespace |
| HttpRoundTrip.FieldsOfEntries | srcs/HTTP/srcs/RequestParser.cpp:37-42 | the fields read from the entry lines are the header map itself |
| HttpRoundTrip.HeadersReadBack | srcs/HTTP/srcs/RequestParser.cpp:37-42 | every such header field written by `generate` is read back with its value |
| ConfigParsing.BeforeHash | srcs/Config/srcs/ConfigParser.cpp:58 | the kept text is a prefix of the line and holds no `#` |
| ConfigParsing.Clean | srcs/Config/srcs/ConfigParser.cpp:58-62 | a cleaned line holds no `#` and has no surrounding whitespace left to trim |
| ConfigParsing.CleanDropsComment | srcs/Config/srcs/ConfigParser.cpp:58-62 | a comment after a line's text does not change what the reader sees: the cleaned line is the trimmed text |
| ConfigParsing.Cleaned | srcs/Config/srcs/ConfigParser.cpp:55-62 | one cleaned line per line of the file, each the cleaning of the line at the same index |
| ConfigParsing.ServerDirective | srcs/Config/srcs/ConfigParser.cpp:165-212 | a server directive keeps the error-page table sorted by code |
| ConfigParsing.BareDirectiveUndefined | srcs/Config/srcs/ConfigParser.cpp:178-210 | a bare `listen`, `client_max_body_size` or `error_page` line has no value to read |
| ConfigParsing.LocationDirective | srcs/Config/srcs/ConfigParser.cpp:216-273 | a location directive keeps the location's path and only adds allowed methods |
| ConfigParsing.LocationLine | srcs/Config/srcs/ConfigParser.cpp:137-155 | an empty line changes nothing, and no line changes the path or removes an allowed method |
| ConfigParsing.LocationBlock | srcs/Config/srcs/ConfigParser.cpp:126-161 | the location block consumes lines from `i` on and stops within the file |
| ConfigParsing.ServerLine | srcs/Config/srcs/ConfigParser.cpp:99-116 | a line other than `}` consumes at least itself and keeps the error-page table sorted |
| ConfigParsing.ServerBlock | srcs/Config/srcs/ConfigParser.cpp:80-122 | the server block consumes lines from `i` on, stays within the file and keeps the error-page table sorted |
| ConfigParsing.ParseLinesServer | srcs/Config/srcs/ConfigParser.cpp:71-72 | a top-level line mentioning `server` appends the block read after it and resumes where that block stopped |
| ConfigParsing.ParseLines | srcs/Config/srcs/ConfigParser.cpp:55-74 | reading only appends servers |
| ConfigParsing.TopLevelDirectivesUnread | srcs/Config/srcs/ConfigParser.cpp:66-72 | without a `server` line nothing reaches the server directive reader, so no line needs values |
| ConfigParsing.BareListenInLocation | srcs/Config/srcs/ConfigParser.cpp:137-155 | a bare `listen` inside a location block goes to the location reader and needs no value |
| ConfigParsing.ListenDirective | srcs/Config/srcs/ConfigParser.cpp:178-185 | `listen <port>` sets the port to the number written and changes nothing else |
| ConfigParsing.ServerNameDirective | srcs/Config/srcs/ConfigParser.cpp:186-193 | `server_name <name>` sets the name and changes nothing else |
| ConfigParsing.ErrorPageDirective | srcs/Config/srcs/ConfigParser.cpp:202-210 | `error_page <code> <path>` maps that code to that path; other codes keep their pages |
| ConfigParsing.ErrorPageFields | srcs/Config/srcs/ConfigParser.cpp:205-207 | the key, then the code, then the path are read in turn from an `error_page` line |
| ConfigParsing.AllowMethodsDirective | srcs/Config/srcs/ConfigParser.cpp:246-255 | `allow_methods` appends every following word, in order, to the methods already allowed |
| ConfigParsing.LocationWordInPath | srcs/Config/srcs/ConfigParser.cpp:105-108 | the `location` test is a substring test: `error_page 404 /location.html` opens a location block instead of setting a page |
| ConfigParsing.LocationBlockKeepsPath | srcs/Config/srcs/ConfigParser.cpp:126-161 | reading a location block never sets its path |
| ConfigParsing.DirectiveKeepsLocations | srcs/Config/srcs/ConfigParser.cpp:165-212 | a server directive never touches the locations |
| ConfigParsing.ServerLineLocations | srcs/Config/srcs/ConfigParser.cpp:104-116 | a server line leaves the locations alone or appends exactly the location block it opens |
| ConfigParsing.ServerBlockLocations | srcs/Config/srcs/ConfigParser.cpp:80-122 | a server block keeps the locations it started with, in order, and adds only locations without a path |
| ConfigParsing.ParseLinesKeeps | srcs/Config/srcs/ConfigParser.cpp:55-74 | the servers already read stay first, in order, and every server read afterwards has only locations without a path |
| ConfigParsing.TopLevelIgnored | srcs/Config/srcs/ConfigParser.cpp:66-72 | top-level lines that do not mention `server` add no server |
| ConfigParsing.UnclosedServerKept | srcs/Config/srcs/ConfigParser.cpp:89-120 | a server block still open at the end of the file is kept |
| ConfigParsing.ConfigParser.constructor | srcs/Config/srcs/ConfigParser.cpp:26-29 | a new parser holds no servers |
| ConfigParsing.ConfigParser.GetServers | srcs/Config/srcs/ConfigParser.cpp:277-280 | returns the servers read so far |
| ConfigParsing.ConfigParser.Parse | srcs/Config/srcs/ConfigParser.cpp:40-76 | a file that cannot be opened fails and adds nothing; otherwise the servers become the old ones followed by what the reference reader finds in the cleaned lines. Only the lines that reach the server directive reader must carry their values (`ParseDefined`) |
| ConfigParsing.ConfigParser.ParseLine | srcs/Config/srcs/ConfigParser.cpp:55-73 | one pass of the loop consumes at least one line and leaves what remains to be appended unchanged |
| ConfigParsing.ConfigParser.ParseServerBlock | srcs/Config/srcs/ConfigParser.cpp:80-122 | appends exactly the server the reference block reader builds, and returns where that reader stops |
| ConfigParsing.ConfigParser.ReadServerBlock | srcs/Config/srcs/ConfigParser.cpp:83-118 | the loop builds the reference server and stops where the reference reader stops |
| ConfigParsing.ConfigParser.ReadServerLine | srcs/Config/srcs/ConfigParser.cpp:92-116 | one pass closes the block exactly on `}`; otherwise it applies the line so that the reference reader's result is unchanged |
| ConfigParsing.ConfigParser.ParseLocationBlock | srcs/Config/srcs/ConfigParser.cpp:126-161 | appends exactly the location the reference block reader builds and changes nothing else of the server |
| ConfigParsing.ConfigParser.ReadLocationBlock | srcs/Config/srcs/ConfigParser.cpp:129-157 | the loop builds the reference location and stops where the reference reader stops |
| ConfigParsing.ConfigParser.ReadLocationLine | srcs/Config/srcs/ConfigParser.cpp:137-155 | one pass closes the block exactly on `}`; otherwise it applies the line so that the reference reader's result is unchanged |
| ConfigParsing.ConfigParser.ParseServerDirective | srcs/Config/srcs/ConfigParser.cpp:165-212 | the server becomes what the reference directive function gives |
| ConfigParsing.ConfigParser.ParseLocationDirective | srcs/Config/srcs/ConfigParser.cpp:216-273 | the location becomes what the reference directive function gives |
| ServerSettings.LocationLines | srcs/Config/srcs/ServerConfig.cpp:65-98 | the location block consumes lines from `i` on and stops within the file |
| ServerSettings.LocationStep | srcs/Config/srcs/ServerConfig.cpp:70-91 | a location line keeps the path and index and only adds allowed methods |
| ServerSettings.LoadStep | srcs/Config/srcs/ServerConfig.cpp:44-54 | a line other than `location` leaves the server name, body limit, error pages and locations alone |
| ServerSettings.LoadLines | srcs/Config/srcs/ServerConfig.cpp:44-60 | `loadConfig` never changes the server name, body limit or error pages, and only appends locations |
| ServerSettings.LocationLinesOther | srcs/Config/srcs/ServerConfig.cpp:70-94 | a line whose first word is not `}` applies its setting and reading goes on with the next line |
| ServerSettings.LoadLinesLocation | srcs/Config/srcs/ServerConfig.cpp:55-58 | a `location <path>` line appends the block read after it, with that path, and reading resumes where the block stopped |
| ServerSettings.LoadLinesOther | srcs/Config/srcs/ServerConfig.cpp:44-54 | any other line applies its setting and reading goes on with the next line |
| ServerSettings.ServerConfig.constructor | srcs/Config/srcs/ServerConfig.cpp:19-23 | port 8080, body limit 1 MiB (1048576), empty root, index `index.html`, no name, pages or locations |
| ServerSettings.ServerConfig.FromFile | srcs/Config/srcs/ServerConfig.cpp:25-27 | starts from port 8080 with empty root and index, then holds what `loadConfig` reads from the file |
| ServerSettings.ServerConfig.SetPort | srcs/Config/srcs/ServerConfig.cpp:108-110 | sets the port and changes nothing else |
| ServerSettings.ServerConfig.SetServerName | srcs/Config/srcs/ServerConfig.cpp:112-114 | sets the name and changes nothing else |
| ServerSettings.ServerConfig.SetClientMaxBodySize | srcs/Config/srcs/ServerConfig.cpp:116-118 | sets the body limit and changes nothing else |
| ServerSettings.ServerConfig.AddErrorPage | srcs/Config/srcs/ServerConfig.cpp:120-122 | the code now maps to the path, replacing an earlier one; every other code keeps its page |
| ServerSettings.ServerConfig.AddLocation | srcs/Config/srcs/ServerConfig.cpp:124-126 | appends the location after the earlier ones and changes nothing else |
| ServerSettings.ServerConfig.SetRoot | srcs/Config/srcs/ServerConfig.cpp:128-130 | sets the root and changes nothing else |
| ServerSettings.ServerConfig.SetIndex | srcs/Config/srcs/ServerConfig.cpp:132-134 | sets the index and changes nothing else |
| ServerSettings.ServerConfig.GetPort | srcs/Config/srcs/ServerConfig.cpp:101-103 | returns the current port |
| ServerSettings.ServerConfig.GetServerName | srcs/Config/srcs/ServerConfig.cpp:137-139 | returns the current server name |
| ServerSettings.ServerConfig.GetClientMaxBodySize | srcs/Config/srcs/ServerConfig.cpp:141-143 | returns the current body limit |
| ServerSettings.ServerConfig.GetErrorPages | srcs/Config/srcs/ServerConfig.cpp:145-147 | returns the current error pages |
| ServerSettings.ServerConfig.GetLocations | srcs/Config/incs/ServerConfig.hpp:51 | returns the current locations |
| ServerSettings.ServerConfig.GetRoot | srcs/Core/srcs/Server.cpp:240-242 | returns the current root |
| ServerSettings.ServerConfig.GetIndex | srcs/Core/srcs/Server.cpp:244-246 | returns the current index |
| ServerSettings.ServerConfig.LoadConfig | srcs/Config/srcs/ServerConfig.cpp:29-63 | a file that cannot be opened fails and changes nothing; otherwise the settings become what the reference reader makes of the lines |
| ServerSettings.ServerConfig.ReadSetting | srcs/Config/srcs/ServerConfig.cpp:45-54 | one line of `loadConfig` that is not a `location` line has exactly the reference effect |
| ServerSettings.ServerConfig.ParseLocationBlock | srcs/Config/srcs/ServerConfig.cpp:65-98 | appends exactly the location the reference block reader builds and returns where it stops |
| ServerSettings.ReadLocationBlock | srcs/Config/srcs/ServerConfig.cpp:66-95 | the loop builds the reference location and stops where the reference reader stops |
| ServerSettings.ReadLocationSetting | srcs/Config/srcs/ServerConfig.cpp:71-91 | one line of a location block has exactly the reference effect |
| ServerSettings.LocationLinesKeep | srcs/Config/srcs/ServerConfig.cpp:65-98 | a location block keeps its path and its index, and keeps its earlier methods in front of those it adds |
| ServerSettings.BlockEnd | srcs/Config/srcs/ServerConfig.cpp:92-93 | the index just after the first line from `i` on whose first word is `}`, or the end of the file |
| ServerSettings.LocationLinesEnd | srcs/Config/srcs/ServerConfig.cpp:70-95 | a location block ends just after the first line whose first word is `}`, or at the end of the file |
| ServerSettings.LoadLinesKeep | srcs/Config/srcs/ServerConfig.cpp:44-60 | `loadConfig` never changes the name, the body limit or the error pages, and only appends locations |
| ServerSettings.LoadLinesIgnores | srcs/Config/srcs/ServerConfig.cpp:49-59 | lines whose first word is none of `listen`, `root`, `index` and `location` change nothing |
| ServerSettings.LoadRoot | srcs/Config/srcs/ServerConfig.cpp:51-52 | `root <word>` sets the root to that word |
| ServerSettings.LoadRootKeepsComment | srcs/Config/srcs/ServerConfig.cpp:44-52 | this reader strips no comment: `root /www#old` sets the root to `/www#old` |
| ServerSettings.LoadListen | srcs/Config/srcs/ServerConfig.cpp:49-50 | `listen <port>` sets the port to the number written |
| ServerSettings.LoadListenTwice | srcs/Config/srcs/ServerConfig.cpp:49-50 | a later `listen` overwrites the port an earlier one set |
| ServerSettings.LoadLocationAtEnd | srcs/Config/srcs/ServerConfig.cpp:55-58 | a `location <path>` line at the end of the file appends a location with that path and nothing else |
| ServerSettings.LocationAllowMethods | srcs/Config/srcs/ServerConfig.cpp:87-91 | `allow_methods` appends every following word, in order |
| LocationSettings.LocationConfig.constructor | srcs/Config/srcs/LocationConfig.cpp:16 | a new location has every field empty |
| LocationSettings.LocationConfig.SetPath | srcs/Config/srcs/LocationConfig.cpp:20-22 | sets the path and changes nothing else |
| LocationSettings.LocationConfig.SetRoot | srcs/Config/srcs/LocationConfig.cpp:24-26 | sets the root and changes nothing else |
| LocationSettings.LocationConfig.SetCgiExtension | srcs/Config/srcs/LocationConfig.cpp:28-30 | sets the CGI extension and changes nothing else |
| LocationSettings.LocationConfig.SetCgiPath | srcs/Config/srcs/LocationConfig.cpp:32-34 | sets the CGI path and changes nothing else |
| LocationSettings.LocationConfig.AddAllowedMethod | srcs/Config/srcs/LocationConfig.cpp:36-38 | appends the method at the end of the allowed methods and changes nothing else |
| LocationSettings.LocationConfig.SetIndex | srcs/Config/srcs/LocationConfig.cpp:40-42 | sets the index and changes nothing else |
| LocationSettings.LocationConfig.GetPath | srcs/Config/srcs/LocationConfig.cpp:45-47 | returns the current path |
| LocationSettings.LocationConfig.GetRoot | srcs/Config/srcs/LocationConfig.cpp:49-51 | returns the current root |
| LocationSettings.LocationConfig.GetCgiExtension | srcs/Config/srcs/LocationConfig.cpp:53-55 | returns the current CGI extension |
| LocationSettings.LocationConfig.GetCgiPath | srcs/Config/srcs/LocationConfig.cpp:57-59 | returns the current CGI interpreter path |
| LocationSettings.LocationConfig.GetAllowedMethods | srcs/Config/srcs/LocationConfig.cpp:61-63 | returns the current allowed methods |
| LocationSettings.LocationConfig.GetIndex | srcs/Config/srcs/LocationConfig.cpp:65-67 | returns the current index |
| LocationSettings.ReadAllowedMethods | srcs/Config/srcs/ConfigParser.cpp:249-253 | the `while (iss >> method)` loop appends every remaining word, in order, and changes nothing else |
| CgiExecution.ExtractDirectory | srcs/CGI/srcs/CGIExecutor.cpp:23-26 | the result is a prefix of the path: empty when the path holds no `/` or backslash, and otherwise everything before the last of them |
| CgiExecution.DirectoryOfJoined | srcs/CGI/srcs/CGIExecutor.cpp:23-26 | the directory of `dir/name` is `dir` when `name` holds no separator |
| CgiExecution.BasePath | srcs/CGI/srcs/CGIExecutor.cpp:90-93 | the root completed with a final `/`, or kept when it has one |
| CgiExecution.RelativePath | srcs/CGI/srcs/CGIExecutor.cpp:96-99 | the request path without one leading `/` |
| CgiExecution.ScriptUnderRoot | srcs/CGI/srcs/CGIExecutor.cpp:88-101 | the script path is clean and starts with the sanitised root directory, which ends in `/` |
| CgiExecution.ScriptFile | srcs/CGI/srcs/CGIExecutor.cpp:88-101 | the script path is clean and no longer than root and request path with one separator |
| CgiExecution.EnvAssignments | srcs/CGI/srcs/CGIExecutor.cpp:45-61 | the thirteen assignments in the source's order; `EnvNamesFresh` states that no name is assigned twice |
| CgiExecution.EnvNamesFresh | srcs/CGI/srcs/CGIExecutor.cpp:45-61 | no meta-variable name is assigned twice |
| CgiExecution.EnvMap | srcs/CGI/srcs/CGIExecutor.cpp:45-61 | the environment is a map in ascending name order |
| CgiExecution.EnvValue | srcs/CGI/srcs/CGIExecutor.cpp:49-61 | every one of the thirteen assignments is the value the map holds for its name |
| CgiExecution.EnvMapSize | srcs/CGI/srcs/CGIExecutor.cpp:45-64 | the map, and so the array before its NULL, has thirteen entries |
| CgiExecution.EnvFixedValues | srcs/CGI/srcs/CGIExecutor.cpp:51-57 | `SERVER_PROTOCOL` is `HTTP/1.1`, `PATH_INFO` is empty, and `SCRIPT_FILENAME` and `PATH_TRANSLATED` are the script path |
| CgiExecution.EnvRequestValues | srcs/CGI/srcs/CGIExecutor.cpp:49-61 | method, script name, query string, content type and length come from the request and `DOCUMENT_ROOT` from the location |
| CgiExecution.EnvArray | srcs/CGI/srcs/CGIExecutor.cpp:64-72 | one `NAME=value` string per entry in map order, then NULL |
| CgiExecution.StatusError | srcs/CGI/srcs/CGIExecutor.cpp:264-274 | no error exactly when the script exited with status 0 |
| CgiExecution.FixOutput | srcs/CGI/srcs/CGIExecutor.cpp:277-297 | the output is kept, or preceded by the type line and one or two CRLFs |
| CgiExecution.FixOutputCorrected | srcs/CGI/srcs/CGIExecutor.cpp:277-297 | the output is kept, or preceded by the type line alone or with one or two CRLFs |
| CgiExecution.CorrectionOnlyForLeadingEmptyLine | srcs/CGI/srcs/CGIExecutor.cpp:284-297 | the corrected repair differs from the source's exactly when the header section lacks `Content-Type:` and is empty or opens with an empty line |
| CgiExecution.TypedOutput | srcs/CGI/srcs/CGIExecutor.cpp:288-295 | without `Content-Type:` in the header section, the source puts the type line and a CRLF in front of the whole output |
| CgiExecution.OpensWithLineEndOutput | srcs/CGI/srcs/CGIExecutor.cpp:277-285 | a header section that is empty or opens with an empty line means the output starts with CRLF, with more after it than the body |
| CgiExecution.FixOutputWithoutHeaders | srcs/CGI/srcs/CGIExecutor.cpp:277-281 | output without a blank line becomes the body, behind a header section holding only `Content-Type: text/html` |
| CgiExecution.FixOutputTyped | srcs/CGI/srcs/CGIExecutor.cpp:284-297 | output whose header section holds `Content-Type:` is passed on unchanged |
| CgiExecution.FixOutputKeepsBody | srcs/CGI/srcs/CGIExecutor.cpp:284-297 | a non-empty header section without `Content-Type:` that does not open with an empty line gets the type line in front, and the body is kept byte for byte; the other sections are `LeadingEmptyLineShiftsBody` |
| CgiExecution.EmptyHeadersShiftBody | srcs/CGI/srcs/CGIExecutor.cpp:277-297 | as written, output that starts with a blank line gets an extra CRLF at the start of its body |
| CgiExecution.LeadingEmptyLineShiftsBody | srcs/CGI/srcs/CGIExecutor.cpp:284-297 | as written, output whose header section lacks `Content-Type:` and is empty or opens with an empty line gets the type line alone as its header section, and the body read back is the output without its first CRLF, never the script's body |
| CgiExecution.FixOutputCorrectedKeepsBody | srcs/CGI/srcs/CGIExecutor.cpp:277-297 | with the correction, every output with a blank line keeps its body byte for byte; the header section holds `Content-Type:` and is the script's own section, alone or behind the type line |
| CgiExecution.CgiExecutor.constructor | srcs/CGI/srcs/CGIExecutor.cpp:35-38 | a new executor keeps the request and location and has no environment array |
| CgiExecution.CgiExecutor.GetScriptPath | srcs/CGI/srcs/CGIExecutor.cpp:88-111 | succeeds exactly when the sanitised script path exists, and then returns it |
| CgiExecution.CgiExecutor.SetupEnvironment | srcs/CGI/srcs/CGIExecutor.cpp:44-73 | fails exactly when the script is missing; otherwise the environment is a new array equal to `EnvArray` of the map |
| CgiExecution.CgiExecutor.CreateExecArgs | srcs/CGI/srcs/CGIExecutor.cpp:76-85 | a new array of the interpreter, the script path and NULL, or none when the script is missing |
| CgiExecution.CgiExecutor.Execute | srcs/CGI/srcs/CGIExecutor.cpp:113-297 | succeeds exactly when the script exists, is or can be made executable, and exited with status 0; the result is then the repaired output, equal to the source's own repair unless the output has a leading empty line; when the script exists, `env` is a fresh array equal to `EnvArray` of the environment map, and otherwise `env` is left as it was |
| ClientConnection.SizeT | srcs/Core/srcs/Client.cpp:118 | a sum taken as a `size_t` is reduced below 2^64, and a sum already below 2^64 is kept |
| ClientConnection.DeclaredLength | srcs/Core/srcs/Client.cpp:111-116 | the declared length fits a `size_t`, and is 0 when the header section has no case-sensitive `Content-Length:` |
| ClientConnection.ReceivedAll | srcs/Core/srcs/Client.cpp:106-121 | the stop test of `readData`, defined as the source writes it; its properties are stated by `ReceivedAllMonotone` and `ReceivedAllIsComplete` |
| ClientConnection.RequestComplete | srcs/Core/srcs/Client.cpp:134-165 | no request is complete before its blank line, and with a blank line and a declared length of 0 it is |
| ClientConnection.MethodLine | srcs/Core/srcs/Client.cpp:143 | the method line is a prefix of the data |
| ClientConnection.IncompleteWithoutBlank | srcs/Core/srcs/Client.cpp:137-140 | without a CRLF CRLF the request is incomplete, whatever length is declared |
| ClientConnection.OneLineHead | srcs/Core/srcs/Client.cpp:137-143 | after a first line without CR and the blank line, the header section ends right after that line and the method is read from it |
| ClientConnection.BodilessMethodComplete | srcs/Core/srcs/Client.cpp:143-146 | a request whose first line starts with `GET` or `HEAD` is complete as soon as its header section ends, whatever length it declares |
| ClientConnection.DeclaredBodyDecides | srcs/Core/srcs/Client.cpp:149-164 | any other request declaring a length is complete exactly when the bytes after the blank line number at least that length |
| ClientConnection.AppendKeepsHead | srcs/Core/srcs/Client.cpp:137-143 | bytes appended after a complete header section change neither where it ends nor the first line |
| ClientConnection.RequestCompleteMonotone | srcs/Core/srcs/Client.cpp:134-165 | more bytes never make a complete request incomplete |
| ClientConnection.ReceivedAllMonotone | srcs/Core/srcs/Client.cpp:106-121 | more bytes never undo `readData`'s stop test |
| ClientConnection.ReceivedAllIsComplete | srcs/Core/srcs/Client.cpp:106-164 | when both read the same length and the sum does not wrap, data on which `readData` stops is a complete request |
| ClientConnection.DeclaredAfterFirstLine | srcs/Core/srcs/Client.cpp:112-115 | after a first line without `C`, the declared length is what `>>` into a `size_t` reads after the field name |
| ClientConnection.ReadMinusOne | srcs/Core/srcs/Client.cpp:115 | `-1` is read into a `size_t` as 2^64 - 1 |
| ClientConnection.NegativeLengthStopsAtHeaders | srcs/Core/srcs/Client.cpp:111-121 | with `Content-Length: -1` the declared length is 2^64 - 1, the sum wraps, and `readData` stops as soon as the header section is in, whatever follows |
| ClientConnection.Concat | srcs/Core/srcs/Client.cpp:102-103 | no chunks give no bytes |
| ClientConnection.Consumed | srcs/Core/srcs/Client.cpp:102-121 | `readData` appends at least one chunk when there is one, and never more than there are |
| ClientConnection.ConsumedIsFirst | srcs/Core/srcs/Client.cpp:102-121 | `readData` stops at the first prefix of the chunks after which its test holds: no shorter prefix passes it |
| ClientConnection.ConsumedStops | srcs/Core/srcs/Client.cpp:102-123 | the loop ends through its test exactly when the chunks it read pass it, and reads every chunk otherwise |
| ClientConnection.ReadStep | srcs/Core/srcs/Client.cpp:102-121 | one turn of the loop appends the next chunk and either stops or goes on with the rest |
| ClientConnection.PreparedSplits | srcs/Core/srcs/Client.cpp:184-196 | a prepared response is its three header lines, a blank line and the content |
| ClientConnection.PreparedReadBack | srcs/Core/srcs/Client.cpp:184-196 | read by `readData`'s own rule, a prepared response declares the content's length and is complete once all of it has arrived |
| ClientConnection.Client.constructor | srcs/Core/srcs/Client.cpp:33-38 | a new client has empty request and pending buffers, `keep_alive` false and the given descriptor |
| ClientConnection.Client.AppendRequestData | srcs/Core/srcs/Client.cpp:42-44 | exactly the given bytes are appended to the request buffer |
| ClientConnection.Client.SetKeepAlive | srcs/Core/srcs/Client.cpp:47-53 | `shouldKeepAlive` returns the value set |
| ClientConnection.Client.ShouldKeepAlive | srcs/Core/srcs/Client.cpp:47-49 | returns the keep-alive flag |
| ClientConnection.Client.IsRequestComplete | srcs/Core/srcs/Client.cpp:134-165 | a buffer is complete only once its header section is over |
| ClientConnection.Client.ReadData | srcs/Core/srcs/Client.cpp:98-130 | the request buffer gains exactly the chunks up to the first that passes the stop test; the call fails exactly when the loop ran out of chunks and `recv` failed, and otherwise returns the whole buffer |
| ClientConnection.Client.SendPendingData | srcs/Core/srcs/Client.cpp:167-182 | an empty buffer returns true without writing; a failed write returns false and keeps the buffer; a write of n bytes drops exactly the first n and returns true exactly when nothing is left; written plus pending is always the whole queued response |
| ClientConnection.Client.PrepareResponse | srcs/Core/srcs/Client.cpp:184-197 | the pending buffer becomes the status line, `Content-Length` with the content's length, `Content-Type: text/plain`, a blank line and the content |
| WebServer.FirstIndex | srcs/Core/srcs/Server.cpp:214-219 | the index the erase loop stops at: the first entry for the descriptor, or none exactly when no entry has it |
| WebServer.RemoveFirst | srcs/Core/srcs/Server.cpp:214-219 | erasing removes one entry exactly when the descriptor is listed, and adds none |
| WebServer.RemoveFirstFound | srcs/Core/srcs/Server.cpp:214-219 | erasing takes out exactly the first entry for the descriptor, keeping the others in order, one entry fewer |
| WebServer.RemoveFirstOthers | srcs/Core/srcs/Server.cpp:214-219 | entries for other descriptors are neither lost nor duplicated |
| WebServer.BaseDir | srcs/Core/srcs/Server.cpp:142-145 | the root completed with a final `/` ends in `/` and starts with the configured root |
| WebServer.ResolvePath | srcs/Core/srcs/Server.cpp:136-151 | the served file path starts with the root directory completed with `/` |
| WebServer.LeadingSlashIgnored | srcs/Core/srcs/Server.cpp:136-139 | `/p` and `p` name the same file |
| WebServer.RootSlashIgnored | srcs/Core/srcs/Server.cpp:142-145 | a root written with or without its final `/` names the same files |
| WebServer.DirectoryServesIndex | srcs/Core/srcs/Server.cpp:148-151 | a path ending in `/` serves the same file as that path followed by the index name |
| WebServer.RequestPath | srcs/Core/srcs/Server.cpp:130-133 | the path read is a word without white space, or empty |
| WebServer.ReadFile | srcs/Core/srcs/Server.cpp:155-159 | a file that cannot be opened reads as empty |
| WebServer.ErrorPagePath | srcs/Core/srcs/Server.cpp:169-175 | the 404 page is looked up under the root directory completed with `/` |
| WebServer.ReplySplits | srcs/Core/srcs/Server.cpp:162-165 | a reply is its four header lines, a blank line and exactly the body |
| WebServer.ReplyJoined | srcs/Core/srcs/Server.cpp:162-165 | the header section is the status line, `Content-Length:` with the decimal length, then the type and connection lines |
| WebServer.ReplyDeclaresLength | srcs/Core/srcs/Server.cpp:162-165 | read back with the client's own `Content-Length` rule, a reply declares its body's length |
| WebServer.ReplyReceivedAll | srcs/Core/srcs/Server.cpp:162-165 | a client reading a reply by the `readData` rule takes in the whole body |
| WebServer.StatusLinesPlain | srcs/Core/srcs/Server.cpp:162-183 | the 200 and 404 status lines hold no CR and no `C` |
| WebServer.Reply | srcs/Core/srcs/Server.cpp:123-127 | there is no reply exactly when `recv` gave no bytes |
| WebServer.ReplyBody | srcs/Core/srcs/Server.cpp:155-185 | a file that exists is sent whole after a 200 header section declaring its length; otherwise the body is the 404 page under the root (the configured one or `404.html`, empty when it is missing) after a 404 status line |
| WebServer.Server.constructor | srcs/Core/srcs/Server.cpp:40-42 | a new server keeps its configuration and listening descriptor and has no poll entries and no clients |
| WebServer.Server.Start | srcs/Core/srcs/Server.cpp:86-90 | one entry polling the listening descriptor for input is appended |
| WebServer.Server.AcceptNewConnection | srcs/Core/srcs/Server.cpp:95-112 | a failed `accept` changes nothing; otherwise one entry polling the new descriptor for input is appended and a fresh empty client is stored under it, every other client kept |
| WebServer.Server.RemoveClient | srcs/Core/srcs/Server.cpp:212-222 | the first poll entry for the descriptor is erased (see RemoveFirstFound) and its client record goes |
| WebServer.Server.SetPollEvents | srcs/Core/srcs/Server.cpp:228-232 | only an index inside the list changes, and only its events |
| WebServer.Server.GetPollFds | srcs/Core/srcs/Server.cpp:224-226 | returns the poll list |
| WebServer.Server.BuildReply | srcs/Core/srcs/Server.cpp:121-185 | the reply built step by step equals `Reply`, whose properties are ReplyBody and ReplyReceivedAll |
| WebServer.Server.HandleClient | srcs/Core/srcs/Server.cpp:121-188 | the reply is `Reply` of what `recv` returned, and the client is removed whether or not bytes came |
| CppTestScript.EntityOf | www/cgi-bin/test.cpp:21-28 | a character other than the five special ones is copied as itself |
| CppTestScript.HtmlSpecialChars | www/cgi-bin/test.cpp:17-31 | the loop's buffer is the escaped text: each character replaced by its entity |
| CppTestScript.EscapedAppend | www/cgi-bin/test.cpp:20-29 | escaping works character by character: escaping a concatenation concatenates the escapes |
| CppTestScript.Escaped | www/cgi-bin/test.cpp:16-30 | escaping never shortens the text |
| CppTestScript.EscapedSafe | www/cgi-bin/test.cpp:17-31 | the escaped text holds no `<`, `>` or quote, and every `&` in it starts one of the five references |
| CppTestScript.EscapedPlain | www/cgi-bin/test.cpp:27 | text without any of the five characters comes back unchanged |
| CppTestScript.EscapedLength | www/cgi-bin/test.cpp:22-27 | each `&` grows by 4 characters, each quote by 5 and each angle bracket by 3 |
| CppTestScript.EscapedRoundTrip | www/cgi-bin/test.cpp:17-31 | reading the references back gives the original text: escaping loses nothing |
| CppTestScript.HexDigitValue | www/cgi-bin/test.cpp:64-65 | a hex digit's value is below 16 |
| CppTestScript.HexRead | www/cgi-bin/test.cpp:62-65 | `std::hex` extraction of two characters reads two hex digits as their byte value; every value the extraction stores lies between -15 and 255 |
| CppTestScript.ByteChar | www/cgi-bin/test.cpp:66 | the cast keeps the low byte |
| CppTestScript.Decoded | www/cgi-bin/test.cpp:59-73 | decoding never lengthens a value |
| CppTestScript.DecodedAt | www/cgi-bin/test.cpp:60-72 | one step of the loop at position i: a `%` with two characters after it becomes one byte and skips them, `+` becomes a space, anything else is kept |
| CppTestScript.DecodeValue | www/cgi-bin/test.cpp:59-73 | the loop, with its `i += 2` skip, computes the decoded value |
| CppTestScript.DecodedPlain | www/cgi-bin/test.cpp:68-72 | a value with neither `%` nor `+` is kept as it is |
| CppTestScript.DecodedEncoded | www/cgi-bin/test.cpp:61-67 | decoding undoes percent-encoding of every byte |
| CppTestScript.Segment | www/cgi-bin/test.cpp:54-57 | a segment without `=` adds nothing; otherwise the key is the text before its first `=`, kept raw, and the value the decoded rest |
| CppTestScript.Params | www/cgi-bin/test.cpp:48-78 | the parameters form a map in ascending key order |
| CppTestScript.Entries | www/cgi-bin/test.cpp:53-74 | at most one assignment per segment |
| CppTestScript.ParseQueryString | www/cgi-bin/test.cpp:48-78 | the `getline` loop computes `Params` of the query |
| CppTestScript.ParamsLastWins | www/cgi-bin/test.cpp:53-74 | a key's value is the one its last segment gives, and a key no segment names is absent |
| CppTestScript.SegmentWithoutEquals | www/cgi-bin/test.cpp:54-55 | a leading segment without `=` changes nothing |
| CppTestScript.SegmentOf | www/cgi-bin/test.cpp:54-57 | `k=v` with no `=` in k splits into k and the decoded v |
| CppTestScript.SingleSegment | www/cgi-bin/test.cpp:48-78 | a single `k=v` segment gives exactly that parameter, its value decoded |
| CppTestScript.Merge | www/cgi-bin/test.cpp:137 | `insert` of a range keeps the map in key order |
| CppTestScript.MergeQueryWins | www/cgi-bin/test.cpp:137 | a key already present keeps its value; the body only adds keys the query string lacks |
| CppTestScript.Getenv | www/cgi-bin/test.cpp:122 | an unset variable reads as the empty string |
| CppTestScript.RequestParams | www/cgi-bin/test.cpp:126-139 | the listed parameters form a map in ascending key order |
| CppTestScript.RequestParamsSources | www/cgi-bin/test.cpp:126-139 | only a POST whose content type contains `application/x-www-form-urlencoded` takes parameters from the body, and there the query string's value of a key wins |
| CppTestScript.ParamCells | www/cgi-bin/test.cpp:337-342 | one row per parameter, in map order, key and value both escaped |
| CppTestScript.ParamCellsSafe | www/cgi-bin/test.cpp:337-342 | every cell of the parameter table is safe to write into the page |
| TsTestScript.ReplaceAll | www/cgi-bin/test.ts:36-40 | a global replacement of a character the text does not hold changes nothing |
| TsTestScript.ReplaceAllAppend | www/cgi-bin/test.ts:36-40 | a global replacement works character by character: it distributes over concatenation |
| TsTestScript.ChainAppend | www/cgi-bin/test.ts:34-41 | the five-replacement chain distributes over concatenation |
| TsTestScript.ChainChar | www/cgi-bin/test.ts:34-41 | on one character the chain writes that character's entity: later replacements find nothing to replace in earlier entities |
| TsTestScript.AgreesWithCpp | www/cgi-bin/test.ts:34-41 | the replace chain and the C++ script's one-pass escaper agree on every string |
| TsTestScript.HtmlSpecialCharsSafe | www/cgi-bin/test.ts:34-41 | the chain's output holds no `<`, `>` or quote, and every `&` in it starts a reference |
| TsTestScript.HtmlSpecialChars | www/cgi-bin/test.ts:34-41 | text without any of the five characters comes back unchanged |
| TsTestScript.Split | www/cgi-bin/test.ts:47-48 | `split` always gives at least one piece, and the whole text when the separator is absent |
| TsTestScript.SplitCons | www/cgi-bin/test.ts:47-48 | the first piece is the text before the first separator, and the rest is split the same way |
| TsTestScript.Octet | www/cgi-bin/test.ts:49 | an escape `%XY` gives one octet, below 256, and lies inside the text |
| TsTestScript.Octets | www/cgi-bin/test.ts:49 | n well-formed escapes give n octets and use 3n characters |
| TsTestScript.UriDecodePlain | www/cgi-bin/test.ts:49 | text without `%` decodes to itself |
| TsTestScript.UriDecode | www/cgi-bin/test.ts:49 | decoding never lengthens the text |
| TsTestScript.UriDecodeMalformed | www/cgi-bin/test.ts:49 | a `%` without two hex digits after it makes `decodeURIComponent` throw |
| TsTestScript.UriDecodeAsciiOctet | www/cgi-bin/test.ts:49 | an escaped ASCII octet decodes to its character |
| TsTestScript.UriDecodeEncodedAscii | www/cgi-bin/test.ts:49 | percent-encoded ASCII text decodes back to itself |
| TsTestScript.ParseQueryString | www/cgi-bin/test.ts:43-53 | the `forEach` computes `Params`: an empty query string gives no parameters, a pair that throws ends the parse, and a `__proto__` key is never stored |
| TsTestScript.FoldLastWins | www/cgi-bin/test.ts:47-50 | when no pair throws, a key holds the value of its last pair |
| TsTestScript.ParamsLastWins | www/cgi-bin/test.ts:43-53 | the parsed value of a key is the one its last pair assigns, and a key no pair assigns is absent |
| TsTestScript.PairOf | www/cgi-bin/test.ts:48-49 | a pair whose first two pieces decode to themselves assigns the second to the first, unless the key is `__proto__`, which is skipped |
| TsTestScript.SplitTwice | www/cgi-bin/test.ts:48 | the first two pieces of `k=v=w` are k and v |
| TsTestScript.PairStopsAtSecondEquals | www/cgi-bin/test.ts:48-49 | `k=v=w` assigns only v to k (nothing for `__proto__`): the value stops at the second `=` |
| TsTestScript.PairWithoutValue | www/cgi-bin/test.ts:49 | a pair without `=` assigns the empty string, except to `__proto__` |
| TsTestScript.PairEmptyKey | www/cgi-bin/test.ts:49 | a pair with an empty key is skipped |
| TsTestScript.Pair | www/cgi-bin/test.ts:48-49 | no assignment is made to `__proto__`, and a pair with an empty key is skipped |
| TsTestScript.Params | www/cgi-bin/test.ts:43-53 | an empty query string gives no parameters |
| TsTestScript.AssignmentsAvoidProto | www/cgi-bin/test.ts:44-49 | no assignment of a run of pairs has the key `__proto__` |
| TsTestScript.ProtoPairSkipped | www/cgi-bin/test.ts:44-49 | `__proto__=v` is skipped for a plain value `v` |
| TsTestScript.ParamsWithoutProto | www/cgi-bin/test.ts:44-53 | a parsed query never holds a `__proto__` parameter |
| TsTestScript.OrElse | www/cgi-bin/test.ts:27-30 | the variable's value when it is set and non-empty, the fallback otherwise |
| TsTestScript.GetRequestInfo | www/cgi-bin/test.ts:25-32 | no request fact is ever empty |
| TsTestScript.EmptyMeansDefault | www/cgi-bin/test.ts:27 | an empty `REQUEST_METHOD` shows as `GET` |
| TsTestScript.GetSystemInfo | www/cgi-bin/test.ts:16-23 | the time is the given clock text, the platform is `Web`, and the user agent is never empty |
| TsTestScript.UserAgentShown | www/cgi-bin/test.ts:20 | the user agent is `HTTP_USER_AGENT` when set and non-empty, else `Unknown` |
| TsTestScript.ParamCells | www/cgi-bin/test.ts:286-299 | no table exactly when there are no parameters; otherwise one row per parameter |
| TsTestScript.ParamCellsSafe | www/cgi-bin/test.ts:292-296 | every cell of the parameter table is safe to write into the page and reads back as the parameter's name or value |
| TsTestScript.EnvListing | www/cgi-bin/test.ts:306-309 | one line per variable in name order, each its escaped name, `: ` and its escaped value |
| TsTestScript.EnvListingComplete | www/cgi-bin/test.ts:306-309 | for an environment without repeated names the listing has a line for every variable, sorted by name, each with the variable's own value |
| TsTestScript.EnvLineEscaped | www/cgi-bin/test.ts:308 | a listing line is the escaped `name: value`, safe to place in the page and read back as name and value |
| TsTestScript.SeparatorPlain | www/cgi-bin/test.ts:308 | the `: ` separator has nothing to escape |
| InfoTsScript.GetRequestInfo | www/cgi-bin/info.ts:39-48 | no request fact but the query string is ever empty |
| InfoTsScript.AllDefaults | www/cgi-bin/info.ts:39-48 | with every variable absent or empty, every fact is its default (`GET`, `HTTP/1.1`, `localhost`, `8080`, `127.0.0.1`, empty) |
| InfoTsScript.SetValuesShown | www/cgi-bin/info.ts:39-48 | every variable that is set and non-empty is shown as it is |
| InfoTsScript.QueryCellShown | www/cgi-bin/info.ts:441 | an absent or empty query string is shown as `(vuota)`, a present one as it is |
| InfoTsScript.QueryCell | www/cgi-bin/info.ts:441 | the cell is never empty, and a present query string is shown as it is |
| InfoTsScript.Filter | www/cgi-bin/info.ts:50-60 | the filter never adds entries |
| InfoTsScript.FilterSound | www/cgi-bin/info.ts:52-56 | everything kept is an environment entry whose name starts with `HTTP_` or is one of the three request variables, with a non-empty value |
| InfoTsScript.FilterComplete | www/cgi-bin/info.ts:52-56 | every such entry is kept |
| InfoTsScript.FilterSubMap | www/cgi-bin/info.ts:50-60 | in an environment without repeated names, a kept name has its environment value, and a name left out either does not qualify or is empty |
| InfoTsScript.GetEnvironmentVariables | www/cgi-bin/info.ts:50-60 | the loop computes the filter, in environment order |
| InfoTsScript.Uptime | www/cgi-bin/info.ts:25-27 | minutes and seconds are below 60, and hours, minutes and seconds add back up to the uptime |
| InfoTsScript.UptimeUnique | www/cgi-bin/info.ts:25-27 | that split is the only one with minutes and seconds below 60 |
| InfoTsScript.ThemeColor | www/cgi-bin/info.ts:63-64 | the theme colour is one of the palette's five |
| InfoPhpScript.OrDefault | www/cgi-bin/info.php:19-24 | `??`: the variable's value whenever it is set, even to the empty string, and the fallback only when it is absent |
| InfoPhpScript.GetRequestInfo | www/cgi-bin/info.php:17-26 | six entries, labelled in the source's order, each its variable or its default |
| InfoPhpScript.RequestFact | www/cgi-bin/info.php:19-24 | each request fact is its variable when set, even to the empty string, and its default only when absent |
| InfoPhpScript.EmptyMethodKept | www/cgi-bin/info.php:19 | an empty `REQUEST_METHOD` stays empty here where the TypeScript page shows `GET` |
| InfoPhpScript.GetSystemInfo | www/cgi-bin/info.php:6-15 | six entries, the third being `Server` |
| InfoPhpScript.ServerFact | www/cgi-bin/info.php:10 | the `Server` fact is `SERVER_SOFTWARE`, or `Webserv` when that is absent |
| InfoPhpScript.Selected | www/cgi-bin/info.php:28-37 | the selection never adds entries |
| InfoPhpScript.SelectedSound | www/cgi-bin/info.php:30-34 | everything kept is a `$_SERVER` entry whose name starts with `HTTP_` or is one of the three request variables |
| InfoPhpScript.SelectedComplete | www/cgi-bin/info.php:30-34 | every entry with such a name is kept, empty values included |
| InfoPhpScript.NonEmptyAppend | www/cgi-bin/info.php:30-34 | dropping empty values distributes over concatenation |
| InfoPhpScript.TsDropsEmptyValues | www/cgi-bin/info.php:28-37 | the TypeScript page's filter keeps exactly the entries kept here whose values are non-empty |
| InfoPhpScript.GetServerVariables | www/cgi-bin/info.php:28-37 | the `foreach` computes the selection, in `$_SERVER` order |
| InfoPhpScript.EntityOf | www/cgi-bin/info.php:302-303 | every character but the single quote is escaped as in the C++ script, and the single quote becomes `&#039;` |
| InfoPhpScript.AgreesWithCpp | www/cgi-bin/info.php:302-303 | without single quotes, PHP's escaper and the C++ script's agree |
| InfoPhpScript.Escaped | www/cgi-bin/info.php:302-303 | escaping never shortens the text |
| InfoPhpScript.EscapedSafe | www/cgi-bin/info.php:302-329 | PHP's escaper output holds no `<`, `>` or quote, and every `&` in it starts one of its references |
| InfoPhpScript.Rows | www/cgi-bin/info.php:301-330 | one row per fact, label and value escaped, a badge exactly on the `Metodo` row |
| InfoPhpScript.RowsSafe | www/cgi-bin/info.php:301-330 | every label and value written into a card is safe to place in the page |
| InfoPhpScript.OnlyFirstLabelIsMetodo | www/cgi-bin/info.php:18-24 | only the first request label is `Metodo` |
| InfoPhpScript.RequestBadge | www/cgi-bin/info.php:311-320 | in the request card only the method row has a badge |
| InfoPhpScript.ThemeColor | www/cgi-bin/info.php:40-41 | the theme colour is one of the palette's five |
| InfoPyScript.GetRequestInfo | www/cgi-bin/info.py:34-47 | ten facts, keyed in the source's order |
| InfoPyScript.RequestFact | www/cgi-bin/info.py:37-46 | each fact is its variable when set, even to the empty string, and its default only when absent |
| InfoPyScript.EmptyEnvironment | www/cgi-bin/info.py:37-40 | with nothing set, the method is `Unknown`, the query string empty and the content length `0` |
| InfoPyScript.GetSystemInfo | www/cgi-bin/info.py:16-32 | a raised call gives the single `error` entry holding its message; otherwise ten facts, none keyed `error`, the last being `uptime` `N/A` |
| InfoPyScript.Upper | www/cgi-bin/info.py:284 | upper-casing keeps letters letters and other characters non-letters |
| InfoPyScript.Lower | www/cgi-bin/info.py:284 | lower-casing keeps letters letters and other characters non-letters |
| InfoPyScript.TitleFrom | www/cgi-bin/info.py:284 | `title` keeps the length |
| InfoPyScript.Title | www/cgi-bin/info.py:284 | title-casing keeps the length |
| InfoPyScript.TitleFromAt | www/cgi-bin/info.py:284 | a letter is upper-cased when it starts a run of letters and lower-cased otherwise; every other character is kept |
| InfoPyScript.SpacedLength | www/cgi-bin/info.py:284 | replacing `_` by a space keeps the length |
| InfoPyScript.Label | www/cgi-bin/info.py:284 | a label is as long as its key |
| InfoPyScript.ReplaceUnderscoreAt | www/cgi-bin/info.py:284 | the replacement turns exactly the underscores into spaces |
| InfoPyScript.LabelAt | www/cgi-bin/info.py:284 | where the key has `_` the label has a space, a letter starting a word is upper-cased and every other letter lower-cased |
| InfoPyScript.LabelOfTwoWords | www/cgi-bin/info.py:284 | `first_second` becomes `First Second` |
| InfoPyScript.FactItems | www/cgi-bin/info.py:281-299 | one item per fact |
| InfoPyScript.RenderFacts | www/cgi-bin/info.py:281-299 | the loop appends exactly one item per fact, in order |
| InfoPyScript.FactItemsFaithful | www/cgi-bin/info.py:281-299 | each item shows the fact's own value, raw, under a label as long as its key |
| InfoPyScript.FormCard | www/cgi-bin/info.py:304-315 | the form card appears exactly when the form has a field, and lists the fields raw |
| InfoPyScript.EnvCardComplete | www/cgi-bin/info.py:317-327 | for an environment without repeated names, the heading counts the entries and the card lists every variable once, sorted by name, with its value |
| InfoPyScript.GetEnvCard | www/cgi-bin/info.py:317-327 | the heading counts the environment's entries and the card is sorted by name |
| InfoPyScript.ThemeColor | www/cgi-bin/info.py:57-60 | the theme colour is one of the palette's eight |

## Left out

- Sockets and the event loop (`Server::setupSocket`, `Server::run`, `EventLoop.cpp` and the `main` programs) are network I/O and scheduling. `poll_fds` is a list of descriptor/event pairs, and what `accept`, `recv` and `send` return are parameters.
- The `recv` buffer sizes (1024 bytes in `handleClient` and `readData`) are not modelled: a received chunk may have any length.
- `FileOperation.ReadStep` takes a chunk of any length: the 4096-byte buffer `handleRead` passes to `read` is not modelled.
- Process plumbing in `CGIExecutor::execute` (pipes, `fork`, `dup2`, `chdir`, `execve`, the POST write loop, `select` with its 30-second timeout, and `waitpid`) is left out. How the script ended and what it wrote are parameters, as are `isExecutable` and `chmod`.
- `CGIHandler.cpp` is not part of this model.
- File system calls are parameters: the files that exist (a set), file contents (a map), `open`/`read`/`write`/`unlink` outcomes, `getcwd` and `realpath`.
- `FileHandler`'s `listDirectory`, `createDirectory`, `deleteDirectory`, `readFile`, `writeBinaryFile` and `cleanup` are left out, as are the busy-wait loops of `readFile`/`writeFile`. So is the ownership and deletion of `FileOperation` pointers (an operation that fails to start is both queued and deleted by its caller).
- `StringUtils::urlDecode` and `Client::getContentLength` are called but not defined in the source. Both are parameters: the decoder of the `writeFile` model, and the declared length given to `isRequestComplete`.
- `Client.hpp` also carries an inline `isRequestComplete` that conflicts with the one in `Client.cpp`. The model follows `Client.cpp`.
- `ErrorHandler.cpp` only writes to stderr and throws, and is not part of this model. `readPostData` in `test.cpp` reads standard input; its result is a parameter.
- Host introspection in the scripts is left out (in `test.ts`, the clock text `toLocaleTimeString` gives is a parameter of `TsTestScript.GetSystemInfo`): `uname`, `sysinfo`, memory figures, clocks and locale time formatting, `platform.*`, `get_current_user`, `getcwd` and `phpversion`. The values come in as opaque strings, and the random choices are given as an index or a number in [0, 1).
- The HTML and CSS literals of every script are left out. Of the parts that carry request data, the request and system facts, the parameter tables and the environment listings are modelled, together with the escaping each script applies to them.
- `TsTestScript.ParamCells` and `InfoTsScript.GetEnvironmentVariables` list entries in the order their names were first added. `Object.entries` lists integer-like names (`"1"`, `"42"`) first, in ascending numeric order, and that reordering is not modelled.
- `CgiExecution.FixOutputKeepsBody` keeps its precondition that the header section does not open with an empty line: for such sections the source's repair does not keep the body, which `LeadingEmptyLineShiftsBody` states (see Findings).
- `cgi.FieldStorage` is a parameter of the Python page's form card.
- The scripts `test.php`, `test.py`, `timeout_test.py`, `info.c` and the developer tool `analyze_functions.py` are not part of this model.
- `TsTestScript.EnvListing`: the listing is sorted by code point, not by `localeCompare`, whose order depends on the locale. `InfoPyScript.EnvCardComplete` relies on Python's `sorted`, which does compare code points.
- `InfoPhpScript.EntityOf`: PHP's `htmlspecialchars` is modelled with its PHP 8.1 default flags (`ENT_QUOTES | ENT_SUBSTITUTE | ENT_HTML401`, so `'` becomes `&#039;`). Invalid UTF-8 substitution is not modelled.
- `TsTestScript.UriDecode` follows section 2.1 of RFC 3986, with octets read as UTF-8 by section 3 of RFC 3629. It is specified only by its own definition and the lemmas listed above.
- `InfoPyScript.TitleFrom`: `str.title` is modelled on ASCII letters only. Other characters count as uncased.
- `InfoTsScript.Uptime` takes whole seconds. `process.uptime()` is fractional, but every part it feeds is floored, so the parts equal those of its whole seconds.
- `CppTestScript.HexRead` follows the C++11 extraction rules that the script's own `auto` and range-`for` require: an extraction that fails on a character stores 0. When both characters after a `%` are white space (the body `a=%  x`), the extraction stops before reading a number and stores nothing. The source then converts an uninitialised `hex_val`, and the model gives 0 there. The -15..255 bound covers every other input. No hex-digit precondition is imposed.
- `CgiExecution.CgiExecutor.GetScriptPath`, `SetupEnvironment`, `CreateExecArgs` and `Execute` require a non-empty location root and request path. The source indexes the last character of the root and the first of the path without checking, and that is undefined for an empty string.
- `ConfigParsing.ConfigParser.Parse` requires values only on the `listen`, `client_max_body_size` and `error_page` lines that reach `parseDirective(line, server)` (`ParseDefined`, `ServerBlockDefined`, `DirectiveDefined`). On those lines the source would read an uninitialised local. Such lines outside a server block, or inside a location block, need nothing (`TopLevelDirectivesUnread`, `BareListenInLocation`).
- `CgiExecution.CgiExecutor.Execute` returns the corrected repair `FixOutputCorrected`, not the source's `FixOutput`. The two differ only when the header section lacks `Content-Type:` and is empty or opens with an empty line (`CorrectionOnlyForLeadingEmptyLine`); see Findings.
- `TsTestScript.ParseQueryString`, `Pair` and `Params` store every key but `__proto__`. On the object literal `params`, an assignment to `__proto__` goes to the inherited setter, which ignores a string, so no own property is made. Other inherited names are assigned as own properties, as the model does.
- `InfoTsScript.GetEnvironmentVariables`, `InfoPhpScript.GetServerVariables`, `TsTestScript.EnvListingComplete`, `InfoPyScript.EnvCardComplete` and `InfoTsScript.FilterSubMap` require the environment to have no repeated names, as a process environment does not.
- `ClientConnection.ReceivedAllIsComplete` requires the length sum not to wrap around `size_t`. `NegativeLengthStopsAtHeaders` shows what happens when it does.
- `WebServer.ReplyReceivedAll` requires the body to fit a `size_t`.
- `FileHandler.HandleFileOperations` keeps the as-written poll pass, so that the queue lemmas describe the code as it runs. The corrected pass is stated beside it (see Findings).

## Findings

| source | as written | input that shows it | evidently intended | confidence | as-written member | corrected member |
|---|---|---|---|---|---|---|
| srcs/Utils/srcs/FileHandler.cpp:102-111 | a DELETE operation is filed under descriptor -1; `poll` ignores negative descriptors, and the poll step runs only when `poll` reports a ready descriptor | `deleteFile` on an existing file while no other operation is active: `poll` reports 0, the operation is never stepped, and the wait loop never ends | an operation with no descriptor takes its step on every pass | not executed | FileHandler.DeleteNeverPolled | FileHandler.FixedPassEndsDelete |
| srcs/CGI/srcs/CGIExecutor.cpp:284-297 | the type line and the script's header section are joined with a CRLF even when that header section is empty or opens with an empty line, so the blank line then ends right behind the type line | script output that starts with CRLF CRLF followed by body text: the body read back begins with an extra CRLF; output `"\r\nX: y\r\n\r\nbody"`: the body read back is `"X: y\r\n\r\nbody"` | the type line goes straight in front of such a header section, and the body is kept byte for byte | not executed | CgiExecution.LeadingEmptyLineShiftsBody | CgiExecution.FixOutputCorrectedKeepsBody |
