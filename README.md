# Port-registry reducer of `tcp-port.py`

`tcp-port.py` turns the IANA service-name and port-number registry into a
table of `[port, service, description]` rows. Its one piece of real logic is
the reducer, and this project models it in Dafny:

- **The per-port fold, `scrape_port`.** It keeps the first line of the
  description. It drops a row whose line is the placeholder "unassigned"
  (in any case). Otherwise it reports a "Description mismatch" when the new
  line differs from the one already stored at that port, and then
  overwrites the entry, so the last write wins.
- **The row loop of `scrape_all`.** A port spec `<min>-<max>` is folded for
  every port from min to max in ascending order. An empty spec is skipped.
  Any other spec goes through `int()`, and when `int()` raises the run stops.
- **The final sort.** `sorted(ports.items())` lists the map in ascending
  port order.

Layout:

- `results.dfy`: `Option` and `Result`.
- `port_text.dfy`: the text handling. This covers the first line
  (`str.splitlines()[0]`), the placeholder test, decimal digit strings, and
  the range pattern `^(\d+)-(\d+)$`. The pattern includes Python's `$`
  matching before one final newline.
- `port_int.dfy`: Python's `int()` on a string. It strips the whitespace
  `int()` skips at both ends. That is the ASCII characters ` \t\n\v\f\r`
  and the non-ASCII characters `str.isspace` accepts, but not the ASCII
  separators U+001C..U+001F. It then takes one optional sign and reads
  digit groups that single underscores may separate; anything else is
  `None`.
- `port_registry.dfy`: the per-port fold `FoldPort` on values, and the class
  `Registry`. The class holds the `ports` dictionary and the diagnostic log,
  and its `ScrapePort` method updates them in place.
- `port_scrape.dfy`: the spec dispatch `ParsePortSpec` and the range fold
  `FoldSpan`. It also has the row loop `FoldRows`, which stops at a failing
  row (`Halt`), the final listing `Finalise`, and the whole reduction
  `Reduce`. The imperative `ScrapeAll` with its inner `ScrapeSpan` loop is
  proved equal to `Reduce`.
- `port_scenarios.dfy`: a worked feed, plus concrete port specs.

Two consequences of the code are worth stating:

- **An "unassigned" row does not remove an earlier entry.**
  `scrape_port` returns at line 30, before it touches the map. So in the
  feed `80`, `1812-1813`, then `1813` with "Unassigned", port 1813 keeps
  the range's row and nothing is logged (`PortScenarios.OverlapScenario`).
- **Port numbers are Python integers, read by `int()`.** A spec such as
  `-5` or ` 80 ` is read as a single port (`PortScenarios.NegativeSpec`,
  `PortInt.ParseIntPadded`). A spec that `int()` rejects, such as
  `1812 - 1813` or a file separator U+001C followed by `80`
  (`PortScenarios.SeparatorSpec`), stops the run with an exception rather
  than being skipped. The model returns it as `Err(Halt(row, spec))`,
  together with the diagnostics printed before it.

The diagnostics are modelled as a log of `Mismatch(port, prior, incoming)`
triples instead of printed text. The map is an explicitly created
`Registry` (or the `State` value), never the mutable default argument. The
reduction is a function of the feed, so running it twice over the same feed
gives the same result.

## Model

| member | source | states |
|---|---|---|
| PortText.FirstLine | tcp-port.py:28 | `description.splitlines()[0] if description else ""`; its contract is stated by `FirstLineShape` and `FirstLineUnique` |
| PortText.FirstLineShape | tcp-port.py:28 | the stored line is a prefix of the description that holds no line break and stops at a break or at the end (empty for an empty description) |
| PortText.FirstLineUnique | tcp-port.py:28 | any break-free prefix that ends at a break or at the end is the first line: those properties determine it |
| PortText.FirstLineOfLine | tcp-port.py:28 | a description without a line break is stored unchanged |
| PortText.Lower | tcp-port.py:29 | `str.lower` restricted to ASCII letters; what the comparison needs of it is stated by `UnassignedSpelling` |
| PortText.IsUnassigned | tcp-port.py:29 | the test `description.lower() == "unassigned"`; its meaning is stated by `UnassignedSpelling` |
| PortText.UnassignedSpelling | tcp-port.py:29 | `description.lower() == "unassigned"` holds exactly for the ten-letter words spelling "unassigned" with each letter in either case |
| PortText.StripFinalNewline | tcp-port.py:14 | what `$` lets the range pattern see: the spec itself, or the spec minus one final newline |
| PortText.MatchRange | tcp-port.py:51-54 | `PORT_RANGE.match(port_spec)` with `int()` of both groups; its meaning is stated by `MatchRangeMeaning` and `ParseRange` |
| PortText.MatchRangeMeaning | tcp-port.py:14 | the range pattern matches exactly when the spec, less one final newline, is digits, a dash and digits; the match yields the values of those two digit strings |
| PortInt.ParseInt | tcp-port.py:58 | `int(port_spec)`, `None` where it raises; its contract is stated by `ParseIntDigits`, `ParseIntRender`, `ParseIntPadded` and `ParseIntRejects` |
| PortInt.Strip | tcp-port.py:58 | the whitespace `int()` skips at both ends; stated by `TrimStartShape`, `TrimEndShape`, `TrimStartPadded` and `TrimEndPadded` |
| PortInt.ReadSigned | tcp-port.py:58 | what `int()` reads once stripped: a sign and digit groups; stated by `ReadNegative`, `ReadSignedRejects` and `ParseIntDigits` |
| PortInt.TrimStartShape | tcp-port.py:58 | `int()` discards only leading whitespace, and what remains does not start with whitespace |
| PortInt.TrimEndShape | tcp-port.py:58 | `int()` discards only trailing whitespace, and what remains does not end with whitespace |
| PortInt.TrimStartPadded | tcp-port.py:58 | extra leading whitespace does not change what is left after stripping |
| PortInt.TrimEndPadded | tcp-port.py:58 | extra trailing whitespace does not change what is left after stripping the end |
| PortInt.ParseIntDigits | tcp-port.py:58 | `int()` of a plain digit string is its decimal value |
| PortInt.ReadNegative | tcp-port.py:58 | a minus sign and digits are read as the negated value |
| PortInt.ParseIntRender | tcp-port.py:58 | `int(str(n)) == n` for every integer `n`, negative ones included |
| PortInt.ParseIntPadded | tcp-port.py:58 | whitespace around a spec does not change what `int()` returns |
| PortInt.ParseIntRejects | tcp-port.py:58 | `int()` raises on any spec holding a character that is not whitespace, a digit, an underscore or a sign |
| PortInt.ReadSignedRejects | tcp-port.py:58 | after stripping, a non-digit other than an underscore or a leading sign makes `int()` raise |
| PortRegistry.FoldPort | tcp-port.py:27-38 | one `scrape_port` call on the state; its contract is stated by `FoldPortUnassigned`, `FoldPortWrites`, `FoldPortDiagnostic` and `FoldPortKeepsInvariant` |
| PortRegistry.FoldPortUnassigned | tcp-port.py:28-30 | a placeholder first line leaves the map and the log exactly as they were, including an earlier entry at that port |
| PortRegistry.FoldPortWrites | tcp-port.py:38 | any other line is stored at the port as `[port, service, first line]`; every other port keeps its entry, and the keys grow by exactly that port |
| PortRegistry.FoldPortDiagnostic | tcp-port.py:31-37 | a mismatch `(port, stored, new)` is logged exactly when the line is not the placeholder, the port has an entry and that entry's description differs; otherwise the log is unchanged |
| PortRegistry.FoldPortKeepsInvariant | tcp-port.py:27-38 | every row stays stored under its own port, every description stays a single line, and no port or diagnostic is lost |
| PortRegistry.Registry.constructor | tcp-port.py:42 | a new registry has an empty map and an empty log |
| PortRegistry.Registry.ScrapePort | tcp-port.py:27-38 | the in-place update leaves the map and log that `FoldPort` specifies, never loses a key, and keeps rows under their own ports |
| PortScrape.ParsePortSpec | tcp-port.py:51-58 | a spec is a range exactly when the pattern matches, blank exactly when empty, a single port `int(spec)` exactly when it is neither and `int()` accepts it, and malformed otherwise |
| PortScrape.ParseSingle | tcp-port.py:57-58 | a digit string is read as that single port |
| PortScrape.ParseSingleNewline | tcp-port.py:57-58 | digits followed by one newline are still that single port, because `int()` strips the newline |
| PortScrape.ParseDecimal | tcp-port.py:57-58 | the decimal rendering of a port is read back as that port |
| PortScrape.ParseRange | tcp-port.py:51-54 | `<a>-<b>`, with or without one final newline, is read as the range from the value of `a` to the value of `b` |
| PortScrape.SpanLength | tcp-port.py:55 | `range(lo, hi + 1)` ends at `hi + 1`, and is empty when `lo > hi` |
| PortScrape.FoldSpan | tcp-port.py:55-56 | the inner loop over `range(minport, maxport + 1)`; its contract is stated by `SpanUnassigned`, `SpanCoverage`, `SpanDiagnostics` and `SpanKeepsInvariant`, and `ScrapeSpan` performs it in place |
| PortScrape.SpanUnassigned | tcp-port.py:55-56 | a range with the placeholder description changes nothing |
| PortScrape.SpanCoverage | tcp-port.py:55-56 | any other range stores the row at every port from `lo` to `hi`, adds no other key and leaves every port outside the range as it was |
| PortScrape.SpanAt | tcp-port.py:55-56 | the same, at one port `p`: whether `p` is a key afterwards, and the row it then holds |
| PortScrape.SpanDiagnostics | tcp-port.py:55-56 | a range logs, in ascending port order, one mismatch per port of the range whose entry before the row has a different description |
| PortScrape.SpanKeepsInvariant | tcp-port.py:55-56 | a range keeps rows under their own ports and descriptions on one line, and loses no port or diagnostic |
| PortScrape.FoldRow | tcp-port.py:51-59 | one row fails exactly when its spec is malformed; an empty spec leaves the state unchanged |
| PortScrape.EmptyRange | tcp-port.py:55 | a range whose minimum exceeds its maximum touches no port and logs nothing |
| PortScrape.FoldRowWrites | tcp-port.py:51-59 | a row that is not the placeholder stores its service and first line at every port its spec names |
| PortScrape.FoldRowFrame | tcp-port.py:51-59 | a row that does not fail and whose description is the placeholder, or whose spec does not name `p`, leaves port `p` present exactly when it was, with the same entry |
| PortScrape.FoldRowKeepsInvariant | tcp-port.py:51-59 | a row that does not fail keeps the map invariant and loses no port or diagnostic |
| PortScrape.FoldRows | tcp-port.py:47-59 | the row loop over the rows after the header, stopping where `int()` raises; its contract is stated by `FoldRowsSnoc`, `CompletesIffWellFormed`, `HaltAtFirstMalformed`, `RowsKeepInvariant`, `RowsGrow` and `LastWriteWins`, and `ScrapeAll` performs it in place |
| PortScrape.Continue | tcp-port.py:47-59 | one more iteration of that loop; stated by `FoldRowsStep`, `FoldRowsHalted`, `FoldRowsLast` and `HaltSticks` |
| PortScrape.FoldRowsSnoc | tcp-port.py:47-59 | the loop over a feed with one more row is the loop so far followed by that row |
| PortScrape.FoldRowsStep | tcp-port.py:47-59 | a row that does not fail, after rows that did not, continues the run with its state |
| PortScrape.FoldRowsHalted | tcp-port.py:47-59 | a run has stopped after its last row exactly when it had stopped before that row or that row fails |
| PortScrape.FoldRowsLast | tcp-port.py:47-59 | a run that stopped either had already stopped, or stopped at its last row with the state from before that row |
| PortScrape.HaltSticks | tcp-port.py:58 | once `int()` has raised, later rows change nothing |
| PortScrape.CompletesIffWellFormed | tcp-port.py:47-59 | the loop completes exactly when no row's spec is malformed |
| PortScrape.WellFormedFront | tcp-port.py:47-59 | no row of a feed fails exactly when no row before the last fails and the last does not |
| PortScrape.HaltPosition | tcp-port.py:47-59 | a run stops at a failing row, which the rows before it reach without stopping |
| PortScrape.HaltAtFirstMalformed | tcp-port.py:47-59 | a run that stops, stops at the first malformed row, reports its index and spec, and keeps the state the earlier rows built |
| PortScrape.RowsKeepInvariant | tcp-port.py:47-59 | after any number of rows every entry sits under its own port and every description is a single line |
| PortScrape.RowsGrow | tcp-port.py:47-59 | later rows never take away a port or a diagnostic; in particular an "unassigned" row never removes an earlier entry |
| PortScrape.LastRowWins | tcp-port.py:47-59 | when the final row names a port (alone or within its range) and is not the placeholder, that port ends with the final row's service and first line |
| PortScrape.LastRowKeeps | tcp-port.py:47-59 | a last row that leaves `p`, in a completed run, keeps the entry the earlier rows left at `p` |
| PortScrape.LastWriteWins | tcp-port.py:47-59 | last write wins in feed order: when row `i` names `p` without the placeholder and every later row carries the placeholder or does not name `p`, a completed run ends with row `i`'s service and first line at `p` |
| PortScrape.Finalise | tcp-port.py:60 | `[row for _, row in sorted(ports.items())]`; its contract is stated by `FinaliseTable` and `FinaliseUnique` |
| PortScrape.SortedPorts | tcp-port.py:60 | the listed keys are as many as the map's keys, all of them keys, and include every key |
| PortScrape.SortedPortsAscending | tcp-port.py:60 | the listed keys are strictly ascending, so none appears twice |
| PortScrape.SortedPortsUnique | tcp-port.py:60 | any strictly ascending listing of exactly the keys is that listing |
| PortScrape.FinaliseTable | tcp-port.py:60 | the final list has one row per key, each the row stored at its port, in strictly ascending port order |
| PortScrape.FinaliseUnique | tcp-port.py:60 | any list with those properties is the final list, so the map determines the output |
| PortScrape.Reduce | tcp-port.py:41-60 | the whole reduction: the diagnostics and either the table or the row where `int()` raised; its contract is stated by `ReduceTable`, and `ScrapeAll` computes it |
| PortScrape.ReduceTable | tcp-port.py:41-60 | the result is a table exactly when no row fails, and then it lists every port of the final map once, ascending, with single-line descriptions; the diagnostics are those of the fold |
| PortScrape.ScrapeSpan | tcp-port.py:55-56 | the inner loop calls `ScrapePort` for `lo, lo + 1, ..., hi` and leaves the state `FoldSpan` specifies |
| PortScrape.ScrapeRow | tcp-port.py:48-59 | one iteration succeeds exactly when `FoldRow` does, and leaves its state; a failing row changes nothing |
| PortScrape.ScrapeAll | tcp-port.py:41-60 | the imperative loop over a fresh registry returns exactly `Reduce(feed)` |
| PortScenarios.OverlapScenario | tcp-port.py:41-60 | rows `80`, `1812-1813` and then `1813` "unassigned" give rows 80, 1812 and 1813 in that order, with 1813 kept from the range, and no diagnostic |
| PortScenarios.RunOfScenario | tcp-port.py:47-59 | the loop over that feed completes with ports 80, 1812 and 1813 filled and an empty log |
| PortScenarios.PlaceholderRow | tcp-port.py:29-30 | the placeholder row at 1813 leaves the state unchanged |
| PortScenarios.RadiusRow | tcp-port.py:55-56 | the range `1812-1813` fills 1812 and then 1813 and logs nothing when both were empty |
| PortScenarios.TableOfScenario | tcp-port.py:60 | rows at 80, 1812 and 1813 are listed in that order |
| PortScenarios.SpecOfRadius | tcp-port.py:51-54 | `1812-1813` is read as the range from 1812 to 1813 |
| PortScenarios.SpecWithNewline | tcp-port.py:57-58 | `80` followed by a newline names port 80 |
| PortScenarios.NegativeSpec | tcp-port.py:57-58 | `-5` is accepted by `int()` and names port -5 |
| PortScenarios.SeparatorSpec | tcp-port.py:57-58 | a file separator U+001C before `80` is not whitespace to `int()`, so that spec is malformed |
| PortScenarios.SpacedRangeSpec | tcp-port.py:51-58 | `1812 - 1813` matches neither the pattern nor `int()`, so the run stops there |

## Left out

- `get_cache_file` (fetching the feed with `requests`, the cache directory and file) is I/O and a foreign library. The feed is a parameter of `Reduce` and `ScrapeAll`.
- `csv.reader` parsing and the header skip are library I/O. A feed row arrives as the three fields `row[0]`, `row[1]` and `row[3]` taken after the header. The `IndexError` a short CSV row would raise is not modelled.
- `write_csv` and the `__main__` wiring are output I/O. The module constants other than the range pattern are not used.
- The text `print` writes for a mismatch (the message, `repr` of both descriptions, the blank line) is not modelled. Each diagnostic is a `Mismatch(port, prior, incoming)` log entry, in the order printed.
- The mutable default argument `ports={}` is replaced by an explicitly created `Registry`. Nothing ever shares it between calls.
- PortText.MatchRange: `\d` in a `str` pattern also matches non-ASCII decimal digits (and `int()` reads them); the model accepts ASCII digits `0`-`9` only, so such a spec is read as malformed.
- PortInt.ParseInt: non-ASCII decimal digits are likewise rejected. The model also leaves out the limit on the number of digits that recent CPython versions place on `int()` of a string (4300 by default, a `ValueError` beyond it).
- PortText.Lower: lower-cases ASCII letters only. For the comparison with "unassigned" this does not matter, because no other character lower-cases to just one of its letters.
- The exception `int()` raises is not propagated. The row loop returns `Err(Halt(row, spec))` instead, with the diagnostics already emitted; `ScrapeAll` stops at that row as the source does.
