# gom3u playlist parser — a Dafny model

This project models the core of `gom3u`, a Go package that reads an M3U/M3U8 IPTV
playlist and sends one envelop per playlist entry on a channel. The model covers:

- `Parser.Parse`, the line loop in `m3u.go`;
- the fixed `#EXTINF` regular expression and the copy of its named groups into the
  envelop;
- the `Envelop`/`EnvelopType` records;
- the `NewParser` resource-kind dispatch;
- the HTTP status check of the URL loader.

Modules:

- `Wrappers` (`wrappers.dfy`): the `Option` type.
- `Extinf` (`extinf.dfy`): the directive pattern
  `#EXTINF:-1 tvg-id="(.*?)" tvg-name="(.*?)" tvg-logo="(.*?)" group-title="(.*?)",(.*)`.
  It is written as an explicit matcher with Go's regexp semantics:
  - the search is unanchored, and the leftmost match start wins;
  - at that start, each lazy `.*?` field is as short as the rest of the pattern
    allows, taken in order from `id` to `group`;
  - the trailing greedy `.*` runs to the next newline or the end of the line;
  - `.` matches every character except a newline.

  `MatchDirective` is proved both sound (what it returns is a match) and complete.
  Completeness: if any match exists, it returns one that starts no later and, from
  the same start, is preferred. Both round trips are proved: printing the captured
  fields gives back the matched text on every line that matches, and parsing a built
  directive line gives back its fields when they hold no double quote.
- `M3u` (`m3u.dfy`): the envelop data, `NewParser`, `LoadURL` and the `Parse` method.
  - `Parse` keeps the source's state: the `lines` counter and one reused `envelop`
    record, reset on a directive line and updated field by field.
  - It appends to an output sequence that stands for the channel.
  - It is proved equal to the reference function `Parsed`.
- `M3uProperties` (`m3u_properties.dfy`): what a run sends, proved about `Parsed` and
  its parts:
  - one envelop per resource line, in input order;
  - stale metadata carried over to later resource lines;
  - resource lines before any directive;
  - comment lines;
  - a directive line followed by a resource line.

## Where the code departs from a natural reading of the format

The model follows the code (`m3u.go`) in each case:

- **Empty input.** The loop never runs, so no header error is sent: the only envelop
  is EOF (`m3u.go:80`, `m3u.go:125-127`).
- **Bad header.** The loop `break`s after the error envelop and the EOF envelop is
  still sent, so the output is `[error envelop, EOF]` (`m3u.go:87`, `m3u.go:125-127`).
- **Which line is checked.** The header check applies to the very first line, even an
  empty one; leading blank lines are not skipped (`m3u.go:82`).

## Model

| member | source | states |
|---|---|---|
| Extinf.LineEndFrom | m3u.go:49 | the trailing greedy `.*` from a position stops at the first newline at or after it, or at the end of the line |
| Extinf.Field | m3u.go:49 | a lazy field the scan closes ends no earlier than where the scan started, and every later field is closed too |
| Extinf.FieldSound | m3u.go:49 | what the lazy scan of a field returns is a match of the rest of the pattern (separators in place, no newline in any field, the rest of the line to its end) |
| Extinf.CloseSound | m3u.go:49 | closing a field at a position gives a match of the separator and the later fields there |
| Extinf.Close | m3u.go:49 | closing a lazy field needs its separator at that position; after `group-title` it gives the end of the greedy rest of the line, otherwise one cut per later field (what the close means is stated by `CloseSound`, `CloseComplete` and `CloseQuoteFree`) |
| Extinf.MatchAt | m3u.go:49 | the pattern anchored at a position gives one cut per lazy field then the line end; `MatchAtComplete` states that it finds every anchored occurrence, preferred |
| Extinf.FindFrom | m3u.go:90 | the unanchored search from a position reports a start at or after it, within the line, with one cut per field; `FindFromSound` and `FindFromComplete` state that it is the leftmost occurrence |
| Extinf.FindDirective | m3u.go:90 | the search of `FindStringSubmatch` on one line reports a start within the line and one cut per field; `DirectiveSound` and `DirectiveComplete` state that it is the leftmost occurrence with the preferred field ends |
| Extinf.Groups | m3u.go:103-120 | the five captured groups and the four separators between them have the length of the matched text from the first field to the end of the line's rest, and on a match, joined in pattern order, they are exactly that text |
| Extinf.MatchDirective | m3u.go:90 | the captured fields exist exactly when the pattern occurs in the line; what they are is stated by `DirectiveSound` (a real occurrence), `DirectiveComplete` (leftmost start, preferred field ends) `DirectiveRoundTrip` (the values a directive line was built from) and `DirectivePrintBack` (the captured values rebuild the matched text) |
| Extinf.FindFromSound | m3u.go:90 | a match the unanchored search finds starts with `#EXTINF:-1 tvg-id="` and fits the whole pattern |
| Extinf.DirectiveSound | m3u.go:90 | what `MatchDirective` reports for a line is a real occurrence of the pattern in it |
| Extinf.FitsBounded | m3u.go:49 | the group ends of a match are in order within the line, each leaving room for its separator |
| Extinf.LineEndUnique | m3u.go:49 | the end of the greedy `.*` is unique |
| Extinf.FieldComplete | m3u.go:49 | if the rest of the pattern matches with some field ends, the lazy scan finds a match whose field ends are preferred: each lazy field as short as the later ones allow, compared in pattern order |
| Extinf.CloseComplete | m3u.go:49 | if the later fields match after a separator, closing the field there succeeds with a preferred match; after `group-title` the rest of the line is exactly the match's |
| Extinf.MatchAtComplete | m3u.go:49 | a match anchored at a position is found there, and the one found is preferred |
| Extinf.FindFromComplete | m3u.go:90 | if the pattern occurs at a position, the search finds a match starting no later, preferred when it starts there |
| Extinf.DirectiveComplete | m3u.go:90 | any occurrence of the pattern in a line makes `MatchDirective` succeed, with the leftmost start, and from the same start the preferred field ends |
| Extinf.FieldQuoteFree | m3u.go:49 | when the lazy fields of a match hold no double quote, the scan returns exactly that match |
| Extinf.CloseQuoteFree | m3u.go:49 | the same, from the separator that closes a field |
| Extinf.QuoteBlocksSeparator | m3u.go:49 | a separator, which opens with `"`, cannot occur where the line has another character |
| Extinf.LineMatch | m3u.go:49 | on a line laid out as opening text, then each value followed by its separator, with single-line values, the pattern matches after the opening text; its groups are the values, and its lazy fields are quote-free when the values are |
| Extinf.DirectiveRoundTrip | m3u.go:100-120 | on the directive line built from fields with no double quote in the four quoted values and no newline, the pattern matches at the start of the line and the captured id, name, logo, group and trailing name are exactly those fields |
| Extinf.DirectivePrintBack | m3u.go:90 | on every line where the pattern matches, with no restriction on the values, the directive line built from the captured fields is exactly the text matched, from the match start to the end of the line's rest |
| Extinf.MatchStartsOpening | m3u.go:49 | a match starts at a `#` that opens `#EXTINF:-1 tvg-id="` |
| Extinf.NoDirectiveWithoutOpening | m3u.go:90 | a line with no `#` after its first character, and not starting with the opening text, never matches |
| M3u.NewParser | m3u.go:55-69 | a parser exists exactly for the file and URL kinds, with that resource, kind and its loader's content, and the error is the loader's error, so a failing loader still gives a parser; any other kind gives no parser and an unsupported-kind error |
| M3u.LoadURL | m3u.go:135-146 | content is given exactly when the request succeeds with a status below 400, and then it is the body; a status of 400 or more gives an error with the URL and the status; a failed request passes its error on |
| M3u.HeaderError | m3u.go:83-86 | the bad-header envelop carries the offending line as raw value and an error, with kind `Unknown` |
| M3u.MetadataEnvelop | m3u.go:100-120 | after a directive line the pending record has kind `Metadata`, that line as raw value, the five captured fields, an empty URL and no error |
| M3u.IsResourceLine | m3u.go:91-92 | a line that sends the pending metadata is neither the header nor a line starting with the directive opening text; `ResourceLinesInOrder`, `HeaderSendsNothing` and `CommentLineIsResource` state which lines send |
| M3u.LastDirective | m3u.go:100-120 | the pending metadata never has a URL, an error or kind EOF, and kind `Unknown` only as the empty record before any directive |
| M3u.Emitted | m3u.go:90-97 | at most one envelop per line, none of kind EOF, none with an error, each with a non-empty URL |
| M3u.Parsed | m3u.go:80-127 | every run ends with exactly one EOF envelop, as the last element |
| M3u.Parse | m3u.go:72-129 | the loop sends exactly `Parsed(content)`: only EOF for no input, `[header error, EOF]` when the first line is not `#EXTM3U`, and nothing after the header error |
| M3uProperties.ResourceLinesInOrder | m3u.go:90-97 | after a valid header one envelop is sent per resource line, in input order, with that line as URL; empty, directive and other `#EXT` lines send nothing |
| M3uProperties.LatestUnchanged | m3u.go:91-97 | lines on which the pattern does not match leave the pending metadata unchanged |
| M3uProperties.CarryOver | m3u.go:93-94 | lines without a directive send the metadata pending before them, once per resource line |
| M3uProperties.StaleCarryOver | m3u.go:93-94 | after a directive line, every resource line up to the next directive carries that directive's metadata, whatever came before it |
| M3uProperties.OrphanResources | m3u.go:78 | resource lines before any directive are sent with kind `Unknown` and every metadata field empty |
| M3uProperties.EmittedGrows | m3u.go:80-123 | what is sent for a prefix of the input is a prefix of what is sent for the whole |
| M3uProperties.CommentLineIsResource | m3u.go:92-94 | a line starting with `#` but not `#EXT`, with no other `#`, is a resource line |
| M3uProperties.HeaderSendsNothing | m3u.go:90-97 | the header line neither matches the pattern nor is a resource line |
| M3uProperties.DirectiveThenResource | m3u.go:100-120 | a directive line built from quote-free fields discards earlier pending metadata; the next resource line is sent with exactly those fields, the directive line as raw value, kind `Metadata` and its own URL |
| M3uProperties.OneEntryPlaylist | m3u.go:72-129 | header, directive line, resource line gives exactly `[that entry, EOF]` |
| M3uProperties.UnsupportedKindIgnoresLoaders | m3u.go:60-61 | any other resource kind gives no parser and the same error whatever the loaders would do, so neither loader is consulted |

## Left out

- The goroutine, the channel hand-off, `defer close(ch)` and `p.content.Close()` are
  concurrency and resource release. The channel is the output sequence of `Parse`.
- `bufio.Scanner` is library behaviour, so the input is taken as a sequence of lines
  that is already split. Not modelled:
  - splitting on `\n` and stripping one trailing `\r`;
  - the 64 KiB line limit;
  - the unchecked `scanner.Err()`, which makes a read failure look like the end of input.
- `regexp.Compile` failing is not modelled: the pattern is a constant that compiles.
- The general regexp engine and the `SubexpNames` loop are not modelled. `Parse`
  assigns the five named groups one after another. The `prefix` group and the
  unnamed groups are never copied in the source either.
- `loadFile` (`os.Open`) and the `http.Get` request are I/O. The loaders are
  parameters of `NewParser`, and the request's outcome is a parameter of `LoadURL`.
  `Parser.Parse` reads the content as lines rather than through the `Parser` record.
- `Parse` on a parser whose loader failed is not modelled: `NewParser` still returns a
  parser then (`m3u.go:64-69`), and the model's parser holds no content. The two loaders
  differ there: a failed `os.Open` leaves a nil `*os.File`, whose `Read` and `Close`
  return errors, so the scanner stops and the run sends only EOF; a failed `loadURL`
  leaves a nil reader interface, and the call through it in `scanner.Scan`
  (`m3u.go:80`) or the deferred `Close` (`m3u.go:74`) panics.
- The generic helpers of the round-trip proof (`Concat*`, `Offset*`, `Placed*`, `Parts*`,
  `Layout*`, `StepMatch`, `LastMatch`, `Span*`, `Regroup*`, `FitsSeparators`,
  `OccurrenceText`, `DirectiveLineText`) model nothing in the source and have no row in
  the table above.
- `fmt.Errorf` message texts: an error is a tag and the offending value.
- `lines` is a Go `int`. The model's counter is unbounded. Only `lines == 0` is
  ever observed, so wrap-around, which would need 2^63 lines, is not modelled.
- Strings are sequences of characters. Go's UTF-8 decoding of the line, including
  how the regexp reads invalid bytes, is not modelled.
- Extinf.DirectiveRoundTrip: proved only for values without a double quote, because a
  quote followed by the next separator's text can end a lazy field early. It is also
  proved only for values without a newline, which the line splitting removes anyway.
  The other direction, `Extinf.DirectivePrintBack`, holds without these limits.
  Outside these cases the captured values are still described exactly by
  `MatchDirective`'s soundness and completeness lemmas.
