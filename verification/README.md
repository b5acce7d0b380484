# realIP in Dafny

realIP is a command-line tool. It reads one domain (`-u`) or a list file of domains (`-l`) and resolves each domain. With `-cname` it drops domains whose name has a CNAME alias. It accepts a domain only when it resolves to exactly one address, and prints the results as a text table, as CSV or as JSON.

This project models the tool's logic as pure Dafny functions and proves properties of them:

- **`Lines`** (`lines.dfy`) covers the list-file text helpers. Splitting on `'\n'` drops a final empty piece. Cleaning deletes every `'\r'`, `'\t'` and `' '`, interior ones included.
- **`Resolver`** (`resolver.dfy`) covers the per-domain resolution policy and the batch step.
  - The host's CNAME and address lookups and the completion time are inputs, as an `Observation`.
  - The batch runs on concurrent workers, and results come back in the order the workers finish. That order is an input too: any permutation `arrival` of the domain indices. The batch output is proved equal, as a multiset, to the sequential reference for every such order.
- **`Output`** (`output.dfy`) covers the text table's cells, padding, header and separator, and the CSV records before quoting.
  - The table's domain column is as wide as the longest domain in UTF-8 bytes, as Go's `len` counts it.
  - Padding counts characters, as Go's `%-*s` counts runes.
  - fmt refuses a `*` width above one million. It then writes `%!(BADWIDTH)` and the domain unpadded, and the model does the same.
- **`Cli`** (`cli.dfy`) covers the options and the JSON-over-CSV rule, loading domains from list-file content, and the entry point's decisions. Whether the output file could be created and the list file read are inputs.
- **`Answers`** (`answers.dfy`) holds `Answer<T>` (a value or the host's error text) and `Option<T>`.

Where a reader might expect something else, the model follows the code:

- **CNAME test.** A domain has an alias when the lookup succeeds and the canonical name is not exactly the domain followed by `"."`. The comparison is exact and is not dot-insensitive. So a domain written with a trailing root dot counts as aliased whenever its lookup succeeds (`HasCNAMEIsExact`).
- **List entries are not trimmed.** Blanks are deleted everywhere: `"a b"` becomes `"ab"`.
- **`-u` with `-cname`.** A single target that the filter rejects is not dropped. Its record is written as a failure that carries the filter's message (`FilteredTargetIsShown`). Only the list path drops filtered records.
- **Output file before list file.** The output file is created before the list file is read. A failed creation exits with status 1 even when the list file is unreadable.

## Model

| member | source | states |
|---|---|---|
| Lines.SplitLinesNoNewline | main.go:162-177 | no piece returned by the line splitter contains '\n' |
| Lines.SplitLinesJoin | main.go:162-177 | joining the pieces with '\n', plus a final '\n' when the input ends in one, rebuilds the input exactly |
| Lines.SplitLinesCount | main.go:165-175 | the number of pieces is the number of '\n' plus one when text follows the last '\n'; empty input gives no pieces |
| Lines.SplitTerminated | main.go:162-177 | splitting text made of newline-terminated lines gives back exactly those lines (the splitter inverts line-by-line writing) |
| Lines.CleanLine | main.go:180-188 | the cleaned line contains no '\r', '\t' or ' ' and is no longer than the input |
| Lines.CleanLineAppend | main.go:180-188 | cleaning a concatenation is the concatenation of the cleanings, so kept characters stay in input order |
| Lines.CleanLineKeepsClean | main.go:180-188 | a line without blanks is returned unchanged |
| Lines.CleanLineIdempotent | main.go:180-188 | cleaning twice is cleaning once |
| Lines.CleanLineCounts | main.go:180-188 | every blank occurs zero times in the result; every other character occurs as often as in the input (interior blanks removed too) |
| Cli.KeepDomains | main.go:150-156 | the kept entries are non-empty, blank-free, and no more numerous than the lines |
| Cli.KeepDomainsAppend | main.go:150-156 | the filtering loop works piecewise: entries keep line order and duplicates |
| Cli.KeepDomainsMembers | main.go:150-156 | a string is kept iff it is non-empty and is the cleaning of some line |
| Cli.LoadDomainsEntries | main.go:144-158 | every loaded domain is non-empty, blank-free and newline-free; there are at most as many as split pieces; exactly the non-empty cleaned lines are loaded |
| Cli.NormalizeFormats | main.go:43-47 | JSON and CSV are never both selected afterwards; the JSON flag is kept; CSV survives only without JSON; no other option changes |
| Cli.WriterFor | main.go:53-60 | the writer is JSON iff JSON is asked for, CSV iff CSV without JSON, text otherwise |
| Cli.NormalizeKeepsWriter | main.go:43-60 | dropping CSV when JSON is also set does not change the chosen writer; normalising is idempotent |
| Cli.Plan | main.go:36-106 | of the exits decided before any output is written, exit status 1 exactly on: no target and no list, output file not created, or (without target) list unreadable; a target is resolved alone; otherwise the list's loaded domains are resolved; the writer and the resolver settings come from the normalised options |
| Cli.TargetIgnoresList | main.go:76-87 | with a non-empty target the list file name and its read outcome do not affect what happens |
| Cli.TargetResults | main.go:77-80 | the single-target path writes exactly one record, for the target, carrying the lookup's timestamp and the CNAME flag; a filtered target is kept as a failure with the filter message and empty IP; otherwise the record shows the lookup's own error, the ambiguity error for zero or several addresses, or the single address's text |
| Cli.TargetAgreesWithBatch | main.go:77-80 | unless the filter rejects it, a target gives exactly the record a one-domain list gives |
| Cli.FilteredTargetIsShown | main.go:77-80 | a filtered target appears as a failed table row with "-" and CNAME "是", while the same domain in a list batch is dropped |
| Resolver.HasCNAMEIsExact | internal/resolver/resolver.go:106-107 | the alias test is an exact comparison with domain + ".": a name without the dot is an alias, a failed lookup is not |
| Resolver.Resolve | internal/resolver/resolver.go:104-130 | success iff the filter gate is open and the address lookup returned exactly one address, whose IPv4 text (else native text) is returned; otherwise the gate's error, the lookup's own error, or the ambiguity error; the CNAME flag is always reported |
| Resolver.FilterSkipsAddressLookup | internal/resolver/resolver.go:109-112 | with the filter on and an alias, the record has empty IP and the filter error, and is the same whatever the address lookup returned |
| Resolver.ResolveSingle | internal/resolver/resolver.go:38-58 | the record carries the input domain, the timestamp and the CNAME flag even on error; on error IP is empty and Error is the error text; on success Error is empty and IP is the resolved text |
| Resolver.ResolveSingleSettled | internal/resolver/resolver.go:43-55 | exactly one of IP and Error is non-empty in every record |
| Resolver.SucceedsIffSingleAddress | internal/resolver/resolver.go:115-129 | a record has no error iff the gate is open and the lookup gave exactly one address; zero or several addresses fail |
| Resolver.Collect | internal/resolver/resolver.go:89-97 | the collector keeps only delivered records, never one with the filter on and an alias, and keeps all of them when the filter is off |
| Resolver.ResolveMultiple | internal/resolver/resolver.go:61-101 | with the filter off there is one record per domain; with it on no record has an alias; every record's domain is an input domain |
| Resolver.ResolveMultipleIsPermutation | internal/resolver/resolver.go:64-97 | for every completion order, the batch equals as a multiset the records of the domains resolved in input order, minus the filtered ones |
| Resolver.ResolveMultipleCount | internal/resolver/resolver.go:64-97 | the batch has as many records as domains minus those the filter drops |
| Resolver.ResolveMultipleMembers | internal/resolver/resolver.go:70-97 | a record is in the batch iff it is some domain's own single resolution and is not dropped: domains are resolved independently |
| Output.ByteLength | internal/output/output.go:79-80 | a string's UTF-8 byte length lies between its character count and four times it |
| Output.ByteLengthAppend | internal/output/output.go:79-80 | the byte length of a concatenation is the sum of the parts' byte lengths |
| Output.ByteLengthAscii | internal/output/output.go:79-80 | the byte length equals the character count exactly when every character is ASCII |
| Output.HeadingByteLength | internal/output/output.go:85 | the two-character domain heading "域名" is six bytes long |
| Output.MaxDomainLen | internal/output/output.go:77-82 | the width is at least every domain's byte length and is 0 or attained by some domain; 0 for no results |
| Output.MaxDomainLength | internal/output/output.go:77-82 | the running-maximum loop computes that width |
| Output.RepeatChar | internal/output/output.go:110-116 | the string has the requested length and every character is the given one |
| Output.Pad | internal/output/output.go:85 | left-justified padding: the text, then spaces up to the width, never truncated |
| Output.DomainCellShape | internal/output/output.go:85 | the domain cell is the domain padded to the width when the width is at most one million; above that it is "%!(BADWIDTH)" followed by the domain, unpadded |
| Output.WideTableUnpadded | internal/output/output.go:103 | when the widest domain exceeds fmt's width limit, every row starts with "%!(BADWIDTH)", its own domain and then directly the two-space gap |
| Output.RowOf | internal/output/output.go:89-101 | status is "失败" iff Error is non-empty, else "成功"; IP cell is "-" on error, else the record's IP; CNAME cell is "是" iff the flag is set, else "否" |
| Output.TextLines | internal/output/output.go:84-104 | the table has exactly one header, one separator of width + 39 dashes, and one line per record in record order; header and rows render their domain cell under fmt's width limit |
| Output.TextOutputLines | internal/output/output.go:84-104 | the written text splits back into exactly those lines, results + 2 of them, when no domain or IP contains a newline |
| Output.RowShowsResolution | internal/output/output.go:89-101 | for a resolver record, the row shows success exactly when an address was accepted, then shows that non-empty address, else "-" |
| Output.CsvRecords | internal/output/output.go:45-61 | the records are the fixed header, then one 5-field record per result, in order |
| Output.CsvRecordRoundTrip | internal/output/output.go:52-58 | a record's fields (domain, IP, "true"/"false", timestamp, error) determine the result exactly |
| Output.CsvRoundTrip | internal/output/output.go:45-61 | reading the CSV records back gives all the results, in order |

## Left out

- DNS lookups (`net.LookupCNAME`, `net.LookupIP`) and the clock (`time.Now().Format(time.RFC3339)`) are host calls. Their outcomes are inputs (`Observation`).
- Address rendering (`net.IP.To4`, `String`) is library code. Each address carries its native text and, when it has a 4-byte form, that form's text.
- Concurrency: the goroutines, the wait group, the semaphore of size `threads` and the results channel. The cap on workers in flight is not modelled. Completion order is an input. `threads <= 0` is unguarded in the code: zero deadlocks once there is a domain, and a negative count makes channel creation panic. Neither is modelled.
- The JSON writer. Its encoding is the standard library's `encoding/json`.
- CSV quoting and escaping, done by `encoding/csv`. The model stops at each record's fields.
- Cli.Plan: does not cover I/O errors from the CSV and JSON writers, nor the exit with status 1 that follows them (main.go:81-84, 101-104).
- `fmt`'s handling of write errors in the text writer, which the code ignores.
- Flag parsing, `-silent`, and the logger (`internal/logger/logger.go`): side effects only. The banner (`pkg/banner/banner.go`) only prints constants.
- Reading bytes as runes: invalid UTF-8 would become U+FFFD. Strings are sequences of Unicode characters here.
- Resolver.ResolveSingleSettled: proved only when the host's failure messages and address texts are non-empty (`HostTextsNonEmpty`). The Go library always provides such texts, but the model takes this as a hypothesis.
- Resolver.SucceedsIffSingleAddress: proved under the same `HostTextsNonEmpty` hypothesis.
- Output.RowShowsResolution: proved under the same `HostTextsNonEmpty` hypothesis.
- Output.TextOutputLines: the line count holds only when no domain or IP contains a newline. A list-file domain cannot contain one; a `-u` target in principle could.
