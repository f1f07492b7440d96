# Verified model of the sample client library

A Dafny model of the four parts of the repository that compute something: the constant-time
primitives, the atomic reference count, the rotating logger, and the text handling of the HTTP
client. `dafny verify dfyconfig.toml` checks everything.

| file | models |
|---|---|
| `Words.dfy` | unsigned words of any width: bits, values modulo 2^w, conversions |
| `ConstantTime.dfy` | comparison masks, selection, conditional swap |
| `Lookup.dfy` | the oblivious table lookup over one flat memory with a recorded access log |
| `RefCount.dfy` | `CRYPTO_UP_REF` / `CRYPTO_DOWN_REF` as a step system with happens-before |
| `CLib.dfy` | the C library calls used below: `snprintf`, `atoi`, `strchr`, `strstr` |
| `SLog.dfy` | `log_init`, `log_debug`, `log_checksize` over an abstract file system |
| `Url.dfy` | `http_parse_url` |
| `Message.dfy` | `http_post_head_create`, `http_parse_result` |
| `Client.dfy` | `http_tcpclient_send`, and `http_post` up to the wait for the answer |

**Words.** A word is its sequence of bits and its width is a parameter, so one function stands for
the `unsigned int`, `size_t`, 32-bit and 64-bit variants, which differ only in operand width.
Bitwise operators act on bits; subtraction, shifting and conversion act on values, as C defines
them for unsigned types. Widths are taken as at least 8 where a byte is cut out.

**Lookup.** Output and table are addresses in one memory, so they may overlap. The header's promise
then fails for exactly one kind of call: the output overlaps the chosen row. Overlapping any other
row does no harm. The access log is kept by the memory's own `Read` and `Write`.

**Reference count.** A run lists atomic actions of any number of threads in the modification order
of the counter. Live references are tokens with a holder. Happens-before is not built into the
machine; it is defined on runs from program order, hand-overs of references and the fence rule
(sections 5.1.2.4 and 7.17.4 of ISO/IEC 9899:2011), with the three memory orders as parameters. The
source's choice (relaxed, release, acquire) is safe, and the demand is exact: a decrement that does
not release, a fence that does not acquire, or an increment that is not one read-modify-write each
give a racing run, while the increment may be relaxed. The counter is a 32-bit `int` that wraps. It
equals the number of references exactly while that number fits in `int`, which is also when the
`+ 1` on the fetched value is defined; the wrapping counter stays safe exactly up to 2^32 references.

**Logger.** With `num == 0` the starting contents followed by all lines equals what rotations
discarded, then `.bak`, then `.new`. Two of the intended properties are false of the code at the
edges, and are stated with their exact conditions: for a path of 126 characters or more the two
names are truncated to the same string and a rotation deletes the log (`RotationKeepsLogIff`); for
an empty path `log_checksize` returns early and the file is never bounded (`StaysSmallIff`).

**HTTP.** URL splitting and printing are inverse. A POST request is split back into its content
exactly when neither path nor host carries a blank line of its own, and exactly when it fits the
buffer; path, host and length are read back as well exactly when neither carries a line end. A
socket answers writes from an endless stream; the send loop need not end, so `Send` and
`PostRequest` report what happened after any given number of writes, `None` meaning that the call
is still sending.

## Model

| member | source | states |
|---|---|---|
| `ConstantTime.Msb` | include/internal/constant_time_locl.h:103-122 | the result is all ones exactly when the value is in the upper half of the range, else zero |
| `ConstantTime.LtTopBit` | include/internal/constant_time_locl.h:124-144 | the comparison formula has its top bit set exactly when a < b, for every width |
| `ConstantTime.Lt` | include/internal/constant_time_locl.h:124-144 | all ones when a < b as unsigned numbers, otherwise zero |
| `ConstantTime.Lt8` | include/internal/constant_time_locl.h:135-139 | the narrowed mask is the exact 8-bit mask of a < b |
| `ConstantTime.Ge` | include/internal/constant_time_locl.h:146-155 | all ones when a >= b, otherwise zero |
| `ConstantTime.Ge8` | include/internal/constant_time_locl.h:157-166 | the narrowed mask is the exact 8-bit mask of a >= b |
| `ConstantTime.IsZeroTopBit` | include/internal/constant_time_locl.h:168-176 | the wrap of a - 1 sets the tested bit at zero and nowhere else |
| `ConstantTime.IsZero` | include/internal/constant_time_locl.h:168-186 | all ones exactly at zero |
| `ConstantTime.IsZero8` | include/internal/constant_time_locl.h:178-181 | the 8-bit mask is full exactly at zero |
| `ConstantTime.Eq` | include/internal/constant_time_locl.h:188-197 | all ones exactly for equal operands |
| `ConstantTime.Eq8` | include/internal/constant_time_locl.h:199-208 | the 8-bit mask is full exactly for equal operands |
| `ConstantTime.EqInt` | include/internal/constant_time_locl.h:210-213 | the mask is exact on two's-complement signed operands |
| `ConstantTime.EqInt8` | include/internal/constant_time_locl.h:215-218 | the same for the 8-bit mask |
| `ConstantTime.Select` | include/internal/constant_time_locl.h:220-232 | a per-bit multiplexer for every mask; a full or empty mask returns exactly a or b |
| `ConstantTime.Select8` | include/internal/constant_time_locl.h:234-239 | the same through widening of all operands to `unsigned int` and narrowing back |
| `ConstantTime.SelectInt` | include/internal/constant_time_locl.h:241-245 | the same through two's-complement conversions |
| `ConstantTime.SelectIntS` | include/internal/constant_time_locl.h:247-251 | multiplexes the signed operands by the converted mask |
| `ConstantTime.SelectIntSWorksIff` | include/internal/constant_time_locl.h:247-251 | a `size_t` mask selects correctly exactly when `size_t` is at least as wide as `unsigned int` |
| `ConstantTime.MinBySelect` | include/internal/constant_time_locl.h:21-33 | selecting by `lt` computes the minimum |
| `ConstantTime.CondSwap` | include/internal/constant_time_locl.h:265-303 | distinct cells exchange exactly the bits the mask selects; a full mask swaps, an empty one does not; one cell passed twice is unchanged |
| `ConstantTime.CondSwapTwice` | include/internal/constant_time_locl.h:275-303 | swapping twice under one mask restores both cells, aliased or not |
| `ConstantTime.MuxKeepsXor` | include/internal/constant_time_locl.h:275-303 | the exchange keeps the exclusive or and, at each position, the pair of bits |
| `Lookup.ConstantTimeLookup` | include/internal/constant_time_locl.h:310-329 | final memory is: output cleared, then row idx copied if it exists; the access log depends on the addresses and sizes only |
| `Lookup.LookupRow` | include/internal/constant_time_locl.h:326-327 | the inner loop copies the row under a full mask and changes nothing under an empty one |
| `Lookup.RowMask` | include/internal/constant_time_locl.h:324-325 | the index, counted down modulo 2^w, is zero in iteration idx and in no other |
| `Lookup.LookupCorrect` | include/internal/constant_time_locl.h:305-329 | nothing outside the output changes; the output is row idx, or zeros past the table, unless it overlaps that row |
| `Lookup.LookupWorksIff` | include/internal/constant_time_locl.h:305-329 | the promise holds for all contents exactly when idx is past the table or the output is disjoint from row idx |
| `Lookup.LookupOverlapping` | include/internal/constant_time_locl.h:320-328 | what an overlapping output receives, byte by byte: row bytes within it read as zero or, when the output comes after the row, as what was just written |
| `Lookup.LookupOblivious` | include/internal/constant_time_locl.h:305-329 | two runs with any indices and contents make the identical sequence of accesses |
| `Lookup.ScansWholeTable` | include/internal/constant_time_locl.h:324-328 | every byte of every row is loaded, and an output byte read and written, in table order, at a position fixed by the coordinates |
| `Lookup.ClearsThenScans` | include/internal/constant_time_locl.h:320-328 | before the scan the output bytes are stored to in order, and nothing else is accessed |
| `RefCount.Counter.UpRef` | include/internal/refcount.h:32-36 | adds one increment to the run and returns the new number of references |
| `RefCount.Counter.DownRef` | include/internal/refcount.h:38-44 | adds one decrement, and the fence exactly on zero; returns the number of references left |
| `RefCount.CounterCountsIff` | include/internal/refcount.h:32-64 | the counter equals the outstanding references at every point of a run exactly when they never exceed INT_MAX |
| `RefCount.LastReference` | include/internal/refcount.h:38-44 | up to 2^32 references a decrement returns zero exactly on the last one; no counter operation follows, and no other decrement returns zero |
| `RefCount.NoDoubleFree` | include/internal/refcount.h:38-44 | up to 2^32 references the object is freed at most once |
| `RefCount.AllDroppedReachesZero` | include/internal/refcount.h:38-44 | in any run that drops every reference some decrement returns zero |
| `RefCount.NoFreeWhileHeld` | include/internal/refcount.h:38-44 | up to 2^32 references, while one is live no thread may free or owes the fence |
| `RefCount.FenceCollects` | include/internal/refcount.h:32-44 | the final fence synchronizes with every earlier decrement, across relaxed increments, which as read-modify-writes continue the release sequence |
| `RefCount.WorkBeforeDownRefIsCollected` | include/internal/refcount.h:38-44 | up to 2^32 references, all a thread did before its own decrement happens before the fence of the one that returns zero |
| `RefCount.KnownOrPublished` | include/internal/refcount.h:32-44 | invariant: an access is known to the holder of some live reference or precedes a decrement |
| `RefCount.AccessBeforeFree` | include/internal/refcount.h:32-64 | with up to 2^32 references, every access by any thread happens before, and precedes, every free |
| `RefCount.SafeIff` | include/internal/refcount.h:32-64 | for all strengths and every bound b: safety (freed at most once, and after every access in happens-before) of all runs with at most b references holds exactly when b <= 1, or b <= 2^32 and the increment is a read-modify-write, the decrement releases and the fence acquires |
| `RefCount.FloodIsUnsafe` | include/internal/refcount.h:32-64 | with more than 2^32 references no strength helps: a run frees the object and then accesses it |
| `RefCount.SourceOrdersAreSafe` | include/internal/refcount.h:32-44 | the strengths in the source are safe exactly up to 2^32 references |
| `SLog.Line` | src/slog.c:69-82 | a written line is never empty and has at most BUF_SIZE bytes |
| `SLog.LineIs` | src/slog.c:69-81 | a written line is the text and a newline, or the first 1023 bytes and a newline |
| `SLog.LoggedIs` | src/slog.c:58-82 | a nonempty text is appended to the current file at every level but 0 and 3, and nothing else changes; otherwise nothing does |
| `SLog.SmallLogIsKept` | src/slog.c:91-94 | a log within its size, at level 3, or with an empty path is left alone |
| `SLog.LargeLogIsRotated` | src/slog.c:94-107 | above the size, with num = 0, the log becomes `.bak` and `.new` is empty; no other file changes; without reopening there is no `.new` |
| `SLog.LargeLogIsLeft` | src/slog.c:94-107 | above the size, with num != 0, writing goes on in the file named by path and clock; all files keep their contents |
| `SLog.Logger.Init` | src/slog.c:10-40 | error cases and their message, which file is opened, and the settings stored, for a path of any length |
| `SLog.Logger.Debug` | src/slog.c:44-83 | the file grows by the text, cut to 1023 bytes, and a newline, or not at all; the console shows it at levels 2 and 3 |
| `SLog.Logger.CheckSize` | src/slog.c:86-109 | performs the rotation specified by `Checked`; a log within its size is left alone; if the file cannot be reopened the stream is lost and the files are as `Closed` says |
| `SLog.FailedReopenKeepsLog` | src/slog.c:96-107 | a rotation that cannot reopen keeps the full log as `.bak` exactly under the same condition |
| `SLog.Session` | src/slog.c:10-109 | an initialization with any path and settings, followed by any calls, is a run from a state with the given path (cut to 128 bytes), size and level that meets the theorems' premises |
| `SLog.StepKeeps` | src/slog.c:94-108 | one call conserves old backup and log, discarding exactly the old backup at a rotation |
| `SLog.NothingElseIsLost` | src/slog.c:10-109 | over every run whose names differ (path of at most 125 characters): start and history equal discarded backups, then `.bak`, then `.new`; other files keep their contents |
| `SLog.RetainedIsSuffix` | src/slog.c:10-109 | `.bak` followed by `.new` is, in such a run, a suffix of everything ever held |
| `SLog.RotationKeepsLogIff` | src/slog.c:101-104 | a rotation keeps the log as backup exactly when the path has at most 125 characters |
| `SLog.FilesStaySmall` | src/slog.c:69-108 | with at most k writes between checks both files stay within size + k*BUF_SIZE, and `.new` within size after a check |
| `SLog.StaysSmallIff` | src/slog.c:91-108 | the bound on both files holds over all such runs exactly when k is 0, the path is not empty, or nothing is logged |
| `SLog.DatedFilesOnlyGrow` | src/slog.c:80-107 | with num != 0 and any clock, each file keeps its contents and gains exactly the lines written while it was current |
| `SLog.DatedTotal` | src/slog.c:80-107 | with num != 0 the bytes in all files grow by exactly the bytes logged |
| `Url.PrintOfSplit` | src/http_api.c:101-131 | splitting loses nothing: the parts print back to the URL |
| `Url.SplitOfPrint` | src/http_api.c:101-131 | a URL printed from parts is split into those parts |
| `Url.SplitOfText` | src/http_api.c:101-131 | a URL spelled out from "http://" or "https://", host, optional port and optional path has those parts; without a port it is 80 |
| `Url.NumericPort` | src/http_api.c:127-128 | a decimal port is read back as its number |
| `CLib.AtoiReads` | src/http_api.c:128 | `atoi`, used for port and status: white space and leading zeros do not matter, a sign does, and reading stops at the first other character |
| `CLib.AtoiOfNothing` | src/http_api.c:128 | where no digit stands the number is zero |
| `Url.CutPort` | src/http_api.c:125-131 | host becomes the text before the first colon, in place; port is what follows, or 80 |
| `Url.ParseUrl` | src/http_api.c:93-134 | succeeds exactly on non-null arguments and a URL that starts with "http://" or "https://"; buffers and port hold the parts; an empty path leaves file untouched, a failure leaves everything |
| `Message.PostHeadCreate` | src/http_api.c:45-60 | the buffer holds the request cut to fit, then zeros; a size of zero writes nothing |
| `Message.PostBodyIff` | src/http_api.c:45-60 | an uncut request splits into its content exactly when URL and host inject no blank line |
| `Message.PostFitsIff` | src/http_api.c:45-60 | without injection, the buffer splits into the content exactly when the request fits |
| `Message.PostReadsBackIff` | src/http_api.c:49-56 | a reader recovers request line, host, content, a Content-length equal to its length and the four fixed fields (section 3 of RFC 7230) exactly when neither URL nor host holds a CRLF |
| `Message.ParseResult` | src/http_api.c:136-163 | returns a fresh copy of the text after the first blank line exactly when version, status 200 and blank line are found |
| `Message.ResultIs` | src/http_api.c:141-161 | for any buffer: nothing without "HTTP/1.1" or a blank line; otherwise the text after the first blank line exactly when the status after the first "HTTP/1.1" is 200 |
| `Message.SecondParseRefuses` | src/http_api.c:195-271 | a text once split off is refused when it is split again, unless it names the version itself |
| `Message.ResponseRoundTrip` | src/http_api.c:136-163 | a well-formed response yields its body exactly when the status is 200 |
| `Client.Send` | src/http_api.c:210-225 | after any number of writes: whether the call has returned and what, that exactly a prefix of the buffer was delivered, in order, and that no write followed the one that ended the loop |
| `Client.LoopIs` | src/http_api.c:213-224 | the call runs until the sums taken reach the size or a write fails; it returns the size, or -1 after exactly the sum up to the first failure |
| `Client.NothingToSend` | src/http_api.c:213-224 | a size that is not positive returns 0 without a write |
| `Client.EndsIff` | src/http_api.c:213-223 | the loop ends exactly when some write fails or some first writes take the whole buffer |
| `Client.ProgressSuffices` | src/http_api.c:213-224 | size writes that each make progress end the call successfully |
| `Client.ZeroWritesNeverEnd` | src/http_api.c:213-223 | writes that take nothing keep the call in its loop forever |
| `Client.PostRequest` | src/http_api.c:228-261 | after any number of writes: the outcome, and exactly how much of the request was delivered; nothing for arguments that do not parse |
| `Client.OutgoingOfText` | src/http_api.c:228-259 | for a URL spelled out from scheme, host, port and path, the text sent is the literal request with that path, host and content, cut to 16383 bytes |
| `Client.FitsBuffersIff` | src/http_api.c:231-234 | the buffers hold host with port, and path, of up to 4095 bytes each |
| `Client.ServerReadsBackIff` | src/http_api.c:228-261 | for any URL whose request fits, the server reads the URL's path and host, content and length back exactly when path and host hold no CRLF |
| `Client.ServerReceivesIff` | src/http_api.c:228-261 | for any URL whose request fits, the content arrives exactly when path and host inject no blank line |

## Left out

- `http_get` and its request builder (src/http_api.c:24-43, 274-320): the same machinery with other constant headers.
- Name lookup, connecting, closing and receiving (src/http_api.c:62-91, 167-208): system calls and timing.
- `include/openssl/*`, the rest of `include/internal/*`, `include/cJSON.h`, `src/ssl-*.c`, `main/main.c`: declarations, or straight-line calls into code that is not part of this model.
- The lock-based fallback of the reference count, whose `CRYPTO_atomic_add` is not part of this model, and the debugging macros beside it.
- RefCount: handing a reference to another thread is assumed to synchronize, as any sound use must; the counter is initialized to 1 before it is shared.
- RefCount.Counter.DownRef: runs the decrement and the fence without interruption; other interleavings are covered by the step system, where only actions that touch neither object nor counter can come in between.
- RefCount.Counter.UpRef: required to stay within INT_MAX references, past which the `+ 1` on the fetched value overflows, undefined in C; the step system goes on and wraps.
- Constant-time claims concern the sequence of memory accesses in the source; caches, timing and compiler effects are not modelled.
- SLog.Logger.Init: failure of malloc is excluded; bytes behind an unterminated stored path never show, as every name made from it is cut first.
- SLog.Logger.CheckSize: assumes that no other process touches the files; after a failed reopening the source's next call uses a null stream, which has no defined outcome.
- SLog.Logger.Debug: takes the formatted text as given, `None` standing for a formatting error.
- CLib.Atoi: numbers beyond the range of `int`, undefined in C, are read as they stand.
- Message.ParseResult: when the text ends with "HTTP/1.1" the source reads past its terminator; the model reads whatever the buffer holds there, and nothing past its end.
- Message.PostHeadCreate: `printf` output is not modelled, here or elsewhere in the HTTP client.
- Client.Send: a write is assumed to take no more than it was given.
- Client.PostRequest: starts from a connected socket; host or path of 4096 bytes or more, which would overrun the source's buffers, are excluded.
