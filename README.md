# Load-balancer log analyzer, modelled in Dafny

The program scans a directory of load-balancer access logs and counts, per
client IPv4 address, the lines on which that address appears. It keeps the
addresses seen more than 100 times and sorts them by count, highest first.
It then splits off the first 100 of them. Each of those is looked up in an
IP-information service, and the answer becomes an enriched CSV row. The
remaining frequent addresses become placeholder rows. Finally it prints how
many files, lines and frequent addresses it saw.

This project models that pipeline without its I/O:

- the directory listing is a `seq<DirEntry>`;
- each file is `OpenError` or the sequence of its line reads;
- each line read is `LineError` or the text of the line;
- the lookup service is a `map` from address to the details it returns, where an absent key is a failed lookup.

Within the modelled part, the program panics in three places. Each panic is a value, `Outcome.Aborted(reason)`, and not a precondition:

- an address token that does not parse as IPv4 (`expect` in `from_line`);
- a directory path that is not valid Unicode (`to_str().unwrap()`);
- fewer than 100 frequent addresses (`split_at(100)`).

Modules, in dependency order:

- `Outcomes`: `Option`, the `Panic` reasons, and `Outcome` (finished or aborted).
- `Text`: the string operations the program relies on:
  - `split_whitespace` as `Tokens`, where whitespace is the Unicode White_Space property;
  - `split` on one character as `Split`, with its inverse `Join`;
  - decimal numerals, as `u32`'s `Display` writes them (`FormatNat`).
- `Ipv4`: the dotted-quad text form of an address (`Display`) and its parser (`FromStr`). The parser requires exactly four octets of one to three ASCII digits, no leading zero, and a value below 256.
- `LineParser`: `from_line`.
- `Seqs`: `FlatMap` over sequences, and how it behaves under append and permutation.
- `Counter`: the nested counting loops of `main`.
  - `CountAddresses` and `CountFile` are the imperative loops.
  - `CountLine`, `CountLines`, `CountEntry` and `CountEntries` specify them as a left fold.
  - `Addresses`, `ReadLines` and `Histogram` describe the result independently of the fold.
- `Ranker`: filter, sort and split.
  - `CollectFrequent` collects from the map in an order the model leaves unspecified, because HashMap iteration order is unspecified.
  - `SortByCountDesc` sorts an array in place, by insertion.
  - `SplitAt` models `split_at`.
- `Report`: the row formats and the two loops that fill `out_lines_csv`.
- `Pipeline`: all of `main` after configuration, composed from the above.

Some behaviours of the source are easy to misread. The model keeps each one as written:

- A malformed address token aborts the whole run (src/main.rs:28); the line is not skipped.
- `split_at(100)` panics on fewer than 100 frequent addresses (src/main.rs:90); the split point is not clamped.
- A failed lookup produces no row at all (src/main.rs:119); no placeholder row is written for it.
- Absent optional fields are left out of an enriched row (src/main.rs:104-116); no `-` is written in their place.
- A line that fails to decode is not counted in `total_lines` (src/main.rs:67, 75); only lines read successfully are counted.

An enriched row also writes the hostname with no separator after it, so it runs into the organisation. `Report.EnrichedFieldCount` states the resulting number of comma-separated pieces.

## Model

| member | source | states |
|---|---|---|
| Text.Tokens | src/main.rs:23 | every token is a non-empty run of non-whitespace characters |
| Text.TokensCoverText | src/main.rs:23 | concatenating the tokens gives the text with all whitespace removed, so no character is lost or invented |
| Text.TokensOfSpaced | src/main.rs:23 | words joined with single spaces tokenize back to exactly those words |
| Text.TokensOfSpacedWord | src/main.rs:23 | a word followed by a space is the first token, and the tokens of the rest follow it |
| Text.Split | src/main.rs:26 | there is always at least one piece, and no piece contains the separator |
| Text.JoinSplit | src/main.rs:26 | joining the pieces with the separator gives the original string back |
| Text.SplitJoin | src/main.rs:26 | splitting pieces that are joined by a separator they do not contain gives those pieces back |
| Text.SplitCount | src/main.rs:26 | there is exactly one more piece than there are separators |
| Text.FirstPiece | src/main.rs:27 | the first piece (`nth(0)`) is the whole string or the prefix before the first separator |
| Text.FormatNat | src/main.rs:102 | a number is written as a canonical decimal numeral that starts with '0' only for zero |
| Text.ValueOfFormat | src/main.rs:102 | the written numeral reads back as the number |
| Text.FormatOfValue | src/main.rs:28 | every canonical numeral is the written form of its value, so leading zeros are never produced |
| Ipv4.Format | src/main.rs:96 | an address is written using only digits and dots |
| Ipv4.ParseIff | src/main.rs:28 | `parse` yields an address exactly when the text is that address's dotted-quad form |
| Ipv4.FormatIsWord | src/main.rs:96 | the written form of an address contains no whitespace and no ':' |
| LineParser.HostPart | src/main.rs:26-27 | the text before the first ':' has no ':' and is the whole field or a prefix of it followed by ':' |
| LineParser.FromLine | src/main.rs:22-36 | no address iff the line has fewer than four tokens; aborts, with the invalid-IP reason, iff the fourth token's host part does not parse |
| LineParser.FromLineFinds | src/main.rs:22-36 | `from_line` finds `ip` exactly when the line has four tokens and the fourth token's host part is `ip`'s dotted-quad form |
| LineParser.FromLineOfAccessLog | src/main.rs:22-36 | a log line whose fourth field is `ip:port` yields `ip`, whatever follows |
| Counter.Bump | src/main.rs:69-73 | the counted address gains one (starting at 1 if new), and every other count is unchanged |
| Counter.CountFile | src/main.rs:66-77 | the loop over a file's lines computes the line fold, and aborts at the first line whose address does not parse |
| Counter.CountAddresses | src/main.rs:53-81 | the nested loops compute the fold over all entries, and abort as soon as a panic occurs |
| Counter.Histogram | src/main.rs:68-74 | an address has a count exactly when it occurs in the list |
| Counter.SumBump | src/main.rs:69-73 | each counted address adds exactly one to the sum of all counts |
| Counter.SumHistogram | src/main.rs:68-74 | the counts add up to the number of addresses found |
| Counter.CountEntriesMeaning | src/main.rs:55-81 | a finished run has counts equal to the histogram of the addresses found, a line total equal to the lines read, and a file total equal to the directory entries |
| Counter.CountLinesMeaning | src/main.rs:66-77 | one file adds its addresses to the counts and its read lines to the line total, and leaves the file total unchanged |
| Counter.CountTotals | src/main.rs:68-75 | the counts add up to the number of lines that yielded an address, which is at most the line total |
| Counter.CountsGrow | src/main.rs:60-81 | as the run goes on, no address disappears and no count or total goes down |
| Counter.LinesAbortIff | src/main.rs:66-77 | a file aborts the run iff one of its lines read has an unparseable address, and the reason is then the invalid IP |
| Counter.AbortIff | src/main.rs:60-81 | the run aborts iff some entry has a non-Unicode path or a line with an unparseable address |
| Counter.CountEntriesCommute | src/main.rs:60 | the order of the directory listing does not change whether the run finishes, nor its result when it does |
| Counter.LinesAbortPersists | src/main.rs:66-77 | once a file's lines have aborted the run, later lines do not change the outcome |
| Counter.EntriesAbortPersists | src/main.rs:60-81 | once the run has aborted, later entries do not change the outcome |
| Ranker.CollectFrequent | src/main.rs:85 | the collected vector holds each map entry whose count exceeds 100 exactly once, in any order |
| Ranker.RankedExactly | src/main.rs:85 | such a vector holds exactly the entries with counts over 100, with their map counts, and no address twice |
| Ranker.SwapAdjacent | src/main.rs:87 | two neighbours are exchanged and nothing else changes |
| Ranker.InsertBack | src/main.rs:87 | the element after a sorted prefix is moved into it: the longer prefix ends sorted by count descending and holds the same entries as before, and everything after it stays in place |
| Ranker.PrefixOfPermutation | src/main.rs:87 | two permutations of each other that agree from a position on are permutations of each other before it |
| Ranker.SortByCountDesc | src/main.rs:87 | the array ends sorted by count, highest first, and is a permutation of the original |
| Ranker.SplitAt | src/main.rs:90 | panics iff there are fewer elements than the split point; otherwise the first part has exactly that many and the two parts concatenate to the input |
| Ranker.RankingOrder | src/main.rs:87-90 | both parts of a sorted split are sorted, and every top count is at least every rest count |
| Ranker.Rank | src/main.rs:85-90 | aborts iff fewer than 100 addresses are frequent; otherwise the top 100 and the rest together are a permutation of the frequent entries, sorted descending |
| Ranker.FrequentSize | src/main.rs:132 | the reported "unique addresses" is the number of frequent addresses, which is at most the number of distinct addresses |
| Report.LookedUp | src/main.rs:93-121 | the top entries that get an enriched row are never more than the top entries |
| Report.LookedUpExactly | src/main.rs:93-121 | an entry gets an enriched row iff it is in the top part and its lookup succeeds |
| Report.LookedUpAll | src/main.rs:93-121 | when every lookup succeeds, every top entry gets a row, in order |
| Report.LookedUpNone | src/main.rs:119 | when every lookup fails, no enriched row is written |
| Report.EnrichTop | src/main.rs:93-121 | the first loop writes one enriched row, built from its details, per top entry with a successful lookup, in order |
| Report.PassThroughRest | src/main.rs:123-125 | the second loop writes one placeholder row per remaining entry, in order |
| Report.AssembleRows | src/main.rs:91-125 | the output is the enriched rows of the successfully looked-up top entries, then the placeholder rows of the rest |
| Report.ParseRowHead | src/main.rs:102 | the "address, count, " prefix reads back as the entry it was written from |
| Report.PassThroughHead | src/main.rs:124 | a placeholder row starts with its address and count |
| Report.EnrichedHead | src/main.rs:100-117 | an enriched row starts with its address and count, whatever the lookup returned |
| Report.PassThroughFields | src/main.rs:124 | a placeholder row splits on ',' into the address, the count, four '-' placeholders and the line break |
| Report.EnrichedFieldCount | src/main.rs:100-117 | with comma-free fields, an enriched row has 4 pieces, plus one for a country and one for an org, always fewer than a placeholder row |
| Report.EnrichedRowCommas | src/main.rs:100-117 | an enriched row has 3 commas, plus one for a country and one for an org |
| Report.OptionalFieldCommas | src/main.rs:104-106 | a present optional field adds one comma, and an absent one adds none |
| Pipeline.Analyze | src/main.rs:53-132 | a counting panic or a short split aborts the run with its reason; otherwise the totals equal the entries, the lines read and the frequent addresses, and the rows are the output of a sorted top-100 ranking |

## Left out

- Configuration is not modelled: `color_eyre::install`, `IPINFO_TOKEN`, `LOGDIR` and `IpInfo::new`, with their panics.
- The directory read (`fs::read_dir(...).unwrap()`) is not modelled. Its listing is the `entries` parameter, and a failure to read the directory itself is not modelled.
- File reading (`read_lines`) is not modelled; its results are data in `DirEntry`.
- Writing `out.csv` is not modelled: `File::create(...).unwrap()` and the writes whose errors are ignored. The model stops at the list of rows.
- The network lookup and the async runtime are replaced by the `lookups` map. A key that is absent is a lookup that returned an error. A lookup is assumed to give the same answer for the same address.
- The text printed to the console is not modelled: the error message for a failed lookup and the summary line. The summary line's three numbers are `Pipeline.Summary`.
- Panic messages are reduced to the `Panic` reasons.
- Counter.CountAddresses: `total_files` and `total_lines` (src/main.rs:55-56) have no annotation, so Rust infers `i32` for them. The model keeps both totals as unbounded naturals and does not model the overflow after 2^31 - 1 files or lines, which panics in a debug build and wraps in a release build. The same holds for `Tally.totalFiles` and `Tally.totalLines` everywhere.
- Counter.CountFile: every file is assumed to give finitely many line reads, so every modelled run finishes or aborts. In the source, `lines()` on an entry that opens but cannot be read, such as a directory on Linux, yields `Err` forever. Those errors are dropped (src/main.rs:66-67), so the program then loops forever; the model does not capture that case.
- Counter.Bump: counts are unbounded naturals. The `u32` overflow of `previous_count + 1` after 2^32 - 1 occurrences (src/main.rs:70) is not modelled; it panics in a debug build and wraps in a release build.
- Ranker.SortByCountDesc: stability of `sort_by` is not stated. Entries with equal counts may come out in any order.
- Ranker.CollectFrequent: the HashMap's iteration order is left unspecified (chosen nondeterministically). The model therefore states only the multiset of the collected vector.
- Ipv4.Parse: only the dotted-quad grammar of `Ipv4Addr`'s parser is modelled. Rust's exact error values are not.
