# v2ray-scanner: the extraction, probe-filter and ranking pipeline

The scanner downloads public lists of proxy descriptor lines (`vmess://…`, `vless://…`,
`trojan://…`). It removes duplicate lines and pulls an IPv4 address and port out of each of
the first 1500 lines with one regular expression. It then probes every candidate with a
bounded TCP connect and keeps the 40 fastest, ordered by connect latency. This project
models the pure part of that pipeline in `main.py`, with the network treated as an oracle:

- `Matcher` (`matcher.dfy`) is `parse_config`. It is a hand-written scanner for the pattern
  `[:/@]([0-9]{1,3}\.[0-9]{1,3}\.[0-9]{1,3}\.[0-9]{1,3})[:](\d+)`, searched leftmost-first,
  plus a declarative description of what `re.search` returns: `MatchSpan`, `MatchesAt`,
  `Leftmost`, `Preferred` and `SearchSpec`. The backtracking of the regex reduces to two
  facts. First, an octet group followed by a non-digit delimiter is exactly the maximal
  digit run in front of that delimiter (`OctetIsDigitRun`). Second, the greedy `\d+` takes
  the maximal digit run after the colon.
- `Servers` (`servers.dfy`) covers `list(set(all_lines))`, stated as "some duplicate-free
  listing of the same lines" (`IsDedupOf`), and the extraction loop of `main` over the
  first `ScanLimit` = 1500 lines.
- `Probing` (`probing.dfy`) covers `check_speed` mapped over the candidates in order. The
  connect attempt is a parameter `probe: Server -> Option<nat>`; `Some(latency)` stands for
  `connect_ex` returning 0 after `latency` whole milliseconds.
- `Ranking` (`ranking.dfy`) covers the stable `list.sort` by latency followed by `[:TOP_N]`
  with `TopN` = 40. The sort is an insertion sort that is proved sorted, a permutation,
  stable, and equal to every other stable sort by latency.
- `Pipeline` (`pipeline.dfy`) covers steps 1 to 3 of `main`, from the deduplicated raw
  lines to the ranked selection. `Run` is that pipeline with `ParseConfig` as the parser.
- `Common` (`common.dfy`) holds `Option`, `Min`, Python's prefix slice `Take`, and the
  "no duplicates" predicate.

The extraction and the pipeline take the line parser as a parameter (`Parser`). Their
properties hold for every parser whose records keep the line they came from as `config`
(`KeepsLine`), and `ParseConfig` is such a parser (`ParseConfigKeepsLine`).

The raw-line list that `get_servers` returns is a parameter of the pipeline. Its order is
whatever Python's set iteration gives, so properties that depend on the fetched lines
quantify over every `rawLines` with `IsDedupOf(rawLines, fetched)`.

Two consequences of how `main.py` is written are worth stating:

- `parse_config` does no range check on the octets or the port, so `999` octets, port
  `65536` and port `0` are all accepted (`ExampleNoRangeCheck`, `ExamplePortZero`).
- `executor.map` yields results in candidate order and `list.sort` is stable, so among
  hits of equal latency the scan order decides which are kept (`TiesFollowScanOrder`).
  The ranking depends only on the multiset of results when no two results share a
  latency (`SelectOrderIndependent`).

## Model

| member | source | states |
|---|---|---|
| Common.Take | main.py:117 | Python's prefix slice `xs[:n]`: min(n, length) elements, and they are the first ones of `xs` |
| Matcher.DecimalValue | main.py:96 | `int(...)` of the port digits: a string of `n` digits has a value below 10^n |
| Matcher.DecimalValueOfText | main.py:96 | `int` reads every number back from its decimal text |
| Matcher.DecimalValueLeadingZero | main.py:96 | a leading zero does not change the value, as `int("08443") == 8443` |
| Matcher.ServerOf | main.py:96 | the record built from a match: an `ip` text of 7 to 15 characters, a port below 10 to the power of the port group's length, and the line as `config` |
| Matcher.DigitRun | main.py:94 | the length of the maximal run of ASCII digits from a position: all digits, and followed by the end of the line or a non-digit |
| Matcher.OctetIsDigitRun | main.py:94 | a `[0-9]{1,3}` group closed by a non-digit delimiter ends exactly where the maximal digit run ends, so the regex has no choice there |
| Matcher.OctetEnd | main.py:94 | where an octet group closed by a given delimiter ends; when one exists it is the only possible end, and when none is returned no end is possible |
| Matcher.QuadFrom | main.py:94 | the delimiter positions of the dotted quad followed by `:` at a position; if it exists it is unique, and None means no such quad exists |
| Matcher.MatchAt | main.py:94 | at one index: a span that matches the whole pattern and has the longest port run among all matches there (what greedy `\d+` picks), or None exactly when no match starts there |
| Matcher.DigitRunExact | main.py:94 | a digit run closed by the end of the line or a non-digit is exactly the maximal digit run from its start |
| Matcher.FindFrom | main.py:94 | the first index at or after `i` where a match starts, with the match `re.search` prefers there; no match starts in between, and None means no match starts anywhere from `i` on |
| Matcher.ParseConfigMeetsSpec | main.py:92-97 | `parse_config` returns the groups of the preferred match at the leftmost matching index (`ip` = the quad text, `port` = decimal value of the port digits, `config` = the line), or None when no index matches |
| Matcher.ParseConfig | main.py:96 | a returned record keeps the input line unchanged as its `config` |
| Matcher.SearchSpecUnique | main.py:94-97 | the declarative description of `re.search` plus record building admits only one answer, so the scanner's answer is the answer |
| Matcher.LeftmostUnique | main.py:94 | at most one index is the leftmost match |
| Matcher.PreferredUnique | main.py:94 | at one index the delimiter positions are forced and the longest port wins, so the preferred match is unique |
| Matcher.ParseConfigSomeIff | main.py:94-97 | a record is returned if and only if some index of the line starts a match of the pattern |
| Matcher.NoMatchAt | main.py:94 | no match starts at an index that is not `:`, `/` or `@`, or that is not followed by a digit |
| Matcher.ParseConfigBySpec | main.py:92-97 | any answer that meets the declarative description is the one `parse_config` returns |
| Matcher.ParseConfigOfMatch | main.py:94-96 | a match whose port run cannot be extended, with no match at an earlier index, yields exactly its groups |
| Matcher.ExampleVmess | main.py:94-96 | `vmess://abc@203.0.113.5:8443?x=1` gives ip `203.0.113.5`, port 8443 and the whole line |
| Matcher.ExampleNoRangeCheck | main.py:94-96 | `@999.1.1.1:65536` is accepted as ip `999.1.1.1` and port 65536: no octet or port range check |
| Matcher.ExamplePortZero | main.py:94-96 | `/10.0.0.1:0` is accepted with port 0 |
| Servers.Dedup | main.py:90 | one removal of duplicates: no element twice, the same elements as the input, never longer |
| Servers.DistinctDedupIsPermutation | main.py:90 | when the fetched lines hold no duplicates, any listing `list(set(...))` may return is a reordering of them, each line once |
| Servers.DedupOfDedup | main.py:90 | a duplicate-free listing of a duplicate-free listing of the lines is itself a duplicate-free listing of the lines, so removing duplicates again changes nothing but the order |
| Servers.DedupLengthUnique | main.py:90 | every duplicate-free listing of the same lines has the same length, whatever order the set gives |
| Servers.ParseConfigKeepsLine | main.py:96 | every record `parse_config` returns carries its input line as `config` |
| Servers.ParseAll | main.py:117-119 | the parsed records of the lines: never more than the lines, each record is what the parser returns for one of the lines, and every line that parses contributes its record |
| Servers.ParseAllAppend | main.py:117-119 | extraction of concatenated lines is the concatenation of the extractions, so the records keep line order |
| Servers.ParseAllDistinct | main.py:117-119 | distinct lines give distinct records |
| Servers.Extract | main.py:117-119 | the extraction loop over `raw_lines[:1500]`: at most min(1500, lines) records, each from one of those lines, and every parsing line among them contributes |
| Servers.ExtractIgnoresTail | main.py:117 | lines past the 1500th never affect the candidates |
| Probing.ProbeAll | main.py:124-128 | the survivors: each one's candidate is in the list and the oracle reported its latency, every candidate the oracle reaches survives, and there are never more survivors than candidates |
| Probing.ProbeAllAppend | main.py:126-128 | probing concatenated candidate lists concatenates the survivors, so `executor.map` order is kept |
| Probing.ProbeAllDistinct | main.py:126-128 | distinct candidates give distinct survivors |
| Ranking.Insert | main.py:131 | inserting into a sorted list keeps it sorted and adds exactly one copy of the new hit |
| Ranking.StableSort | main.py:131 | the sort result is sorted by latency and a permutation of its input |
| Ranking.InsertStable | main.py:131 | an inserted hit goes before every hit of equal latency already present |
| Ranking.StableSortIsStable | main.py:131 | the sort keeps the hits of each latency in their input order |
| Ranking.SortedStableEqual | main.py:131 | two sorted lists with the same hits in each latency class, in the same order, are equal |
| Ranking.StableSortUnique | main.py:131 | every stable sort by latency of a list is equal to `StableSort` of it |
| Ranking.Select | main.py:131-132 | the selection has length min(n, survivors), is sorted by latency, and takes each survivor at most as often as it occurs |
| Ranking.SelectIsBest | main.py:131-132 | no survivor left out of the selection is faster than a selected one |
| Ranking.SelectKeepsTieOrder | main.py:131-132 | the selected hits of each latency are the first ones of that latency in scan order |
| Ranking.TiesFollowScanOrder | main.py:126-132 | two different hits of equal latency select differently depending on their scan order |
| Ranking.SelectOrderIndependent | main.py:131-132 | when all latencies differ, the selection depends only on which hits there are, not on their order |
| Pipeline.SurvivorCount | main.py:117-128 | the number of survivors is the number of parsing lines whose candidate the oracle reaches |
| Pipeline.ScanAndRank | main.py:113-132 | steps 1–3 of `main`: min(40, reachable parsing lines among the first 1500) hits, sorted by latency, each reached by the oracle with that latency and parsed from one of those lines |
| Pipeline.Run | main.py:113-132 | with `parse_config` as the parser: min(40, reachable parsing lines among the first 1500) hits, sorted by latency, each reached by the oracle with that latency and parsed by `parse_config` from one of the first 1500 lines |
| Pipeline.ScanAndRankIsSortThenSlice | main.py:131-132 | the result is the first 40 entries of any stable sort of the survivors by latency |
| Pipeline.ScanAndRankDistinct | main.py:90-132 | whatever order the set gave, no hit is selected twice and every selected descriptor is one of the fetched lines |
| Pipeline.SingleLiveServer | main.py:117-132 | if exactly one extracted candidate is reachable, the selection is exactly its hit |
| Pipeline.SingleLiveLine | main.py:117-132 | the same, stated for the one scanned line whose parsed candidate answers |

## Left out

- HTTP fetching of the source lists and its swallowed exceptions (main.py:77-89): network I/O. The fetched lines are a parameter.
- The base64 check and decode of a fetched payload (main.py:82-86): it only gates a library call.
- The socket connect, its timeout and the wall-clock latency with `int(... * 1000)` truncation (main.py:99-111): OS I/O and floating point. It is the `probe` oracle with whole-millisecond latencies. The exception path of `check_speed` is one more way for the oracle to answer None.
- The `ThreadPoolExecutor` worker pool (main.py:125): only its order-preserving `map` result is modelled, not the concurrency.
- The newline join, base64 encoding of the subscription and the file writes (main.py:136-140): serialization and I/O.
- HTML template rendering and timestamps (main.py:20-72, main.py:142-167): presentation and clock reads.
- The `print` progress messages (main.py:76, main.py:121, main.py:134): console output.
- Matcher.IsDigit: Python's `\d` in `(\d+)` also accepts non-ASCII decimal digits. The model accepts ASCII `0`–`9` only. A line whose port run continues with such a digit gets a longer port in Python. A port run that starts with one (`@1.2.3.4:٣`) is a match in Python but not in the model, so the matching index, the returned record, and whether any record is returned at all can differ.
- Matcher.DecimalValue: Python 3.11 and later (and the 3.10.7, 3.9.14 and 3.8.14 security releases) refuse `int(...)` of a string longer than 4300 digits with `ValueError`. Nothing in the extraction loop (main.py:118) catches it, so such a line aborts `main`. The model has no such limit and returns the full value.
- Servers.Dedup: keeps first occurrences. Python's set order is unspecified, so every pipeline property is stated over any `IsDedupOf` listing, not over `Dedup`'s particular order.
