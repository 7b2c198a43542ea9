/**
 The pure pipeline of `main`: parse the first 1500 raw lines, probe every candidate,
 sort the survivors by latency and keep the best `TopN`. The raw lines are what
 `get_servers` returned, a duplicate-free listing of the fetched lines in an order
 Python does not specify; the prober is an oracle. The steps are stated for any
 parser that keeps its line, and `Run` plugs in `ParseConfig`.
 */
module Pipeline {
  import opened Common
  import opened Matcher
  import opened Servers
  import opened Probing
  import opened Ranking

  /** How many of `lines` parse to a candidate that the prober reaches. */
  function ReachableCount(lines: seq<string>, parse: Parser, probe: Prober): nat
  {
    if |lines| == 0 then 0
    else
      var rest := ReachableCount(lines[1..], parse, probe);
      match parse(lines[0])
      case Some(s) => if probe(s).Some? then 1 + rest else rest
      case None => rest
  }

  /** Every reachable candidate survives probing exactly once per line it came from. */
  lemma {:induction false} SurvivorCount(lines: seq<string>, parse: Parser, probe: Prober)
    requires KeepsLine(parse)
    ensures |ProbeAll(ParseAll(lines, parse), probe)| == ReachableCount(lines, parse, probe)
  {
    if |lines| > 0 {
      SurvivorCount(lines[1..], parse, probe);
      var rest := ParseAll(lines[1..], parse);
      match parse(lines[0])
      case None =>
      case Some(s) =>
        assert ([s] + rest)[1..] == rest;
    }
  }

  /** Steps 1 to 3 of `main`: extract, scan, sort and select. */
  function ScanAndRank(rawLines: seq<string>, parse: Parser, probe: Prober): (top: seq<Hit>)
    requires KeepsLine(parse)
    ensures |top| == Min(TopN, ReachableCount(Take(rawLines, ScanLimit), parse, probe))
    ensures SortedByLatency(top)
    ensures forall h :: h in top ==>
              && probe(h.server) == Some(h.latency)
              && h.server.config in Take(rawLines, ScanLimit)
              && parse(h.server.config) == Some(h.server)
  {
    SurvivorCount(Take(rawLines, ScanLimit), parse, probe);
    Select(ProbeAll(Extract(rawLines, parse), probe), TopN)
  }

  /** Steps 1 to 3 of `main` with `parse_config` as the parser. */
  function Run(rawLines: seq<string>, probe: Prober): (top: seq<Hit>)
    ensures |top| == Min(TopN, ReachableCount(Take(rawLines, ScanLimit), ParseConfig, probe))
    ensures SortedByLatency(top)
    ensures forall h :: h in top ==>
              && probe(h.server) == Some(h.latency)
              && h.server.config in Take(rawLines, ScanLimit)
              && ParseConfig(h.server.config) == Some(h.server)
  {
    ParseConfigKeepsLine();
    ScanAndRank(rawLines, ParseConfig, probe)
  }

  /** The result is what Python computes: any stable sort of the survivors by latency,
      cut to its first `TopN` entries. */
  lemma ScanAndRankIsSortThenSlice(rawLines: seq<string>, parse: Parser, probe: Prober, sorted: seq<Hit>)
    requires KeepsLine(parse)
    requires IsStableSortOf(sorted, ProbeAll(Extract(rawLines, parse), probe))
    ensures ScanAndRank(rawLines, parse, probe) == Take(sorted, TopN)
  {
    StableSortUnique(sorted, ProbeAll(Extract(rawLines, parse), probe));
  }

  /** Whatever order the duplicate removal produced, no hit appears twice and every
      selected descriptor is one of the fetched lines. */
  lemma ScanAndRankDistinct(fetched: seq<string>, rawLines: seq<string>, parse: Parser, probe: Prober)
    requires KeepsLine(parse)
    requires IsDedupOf(rawLines, fetched)
    ensures NoDup(ScanAndRank(rawLines, parse, probe))
    ensures forall h :: h in ScanAndRank(rawLines, parse, probe) ==> h.server.config in fetched
  {
    var scanned := Take(rawLines, ScanLimit);
    assert NoDup(scanned);
    ParseAllDistinct(scanned, parse);
    var valid := ProbeAll(Extract(rawLines, parse), probe);
    ProbeAllDistinct(Extract(rawLines, parse), probe);
    NoDupSubMultiset(ScanAndRank(rawLines, parse, probe), valid);
  }

  /** One reachable candidate among the extracted ones gives a ranking holding exactly its hit. */
  lemma SingleLiveServer(fetched: seq<string>, rawLines: seq<string>, parse: Parser, probe: Prober, s: Server, latency: nat)
    requires KeepsLine(parse)
    requires IsDedupOf(rawLines, fetched)
    requires s in Extract(rawLines, parse) && probe(s) == Some(latency)
    requires forall c :: c in Extract(rawLines, parse) && c != s ==> probe(c).None?
    ensures ScanAndRank(rawLines, parse, probe) == [Hit(latency, s)]
  {
    var top := ScanAndRank(rawLines, parse, probe);
    var valid := ProbeAll(Extract(rawLines, parse), probe);
    assert top == Select(valid, TopN);
    assert Hit(latency, s) in valid;
    forall h | h in top ensures h == Hit(latency, s) {
      assert h in valid;
    }
    ScanAndRankDistinct(fetched, rawLines, parse, probe);
    NoDupSingleValue(top, Hit(latency, s));
  }

  /** The same, stated for the one scanned line whose parsed candidate answers. */
  lemma SingleLiveLine(fetched: seq<string>, rawLines: seq<string>, parse: Parser, probe: Prober, live: string, s: Server, latency: nat)
    requires KeepsLine(parse)
    requires IsDedupOf(rawLines, fetched)
    requires live in Take(rawLines, ScanLimit)
    requires parse(live) == Some(s) && probe(s) == Some(latency)
    requires forall c :: c in Extract(rawLines, parse) && c != s ==> probe(c).None?
    ensures ScanAndRank(rawLines, parse, probe) == [Hit(latency, s)]
  {
    assert s in Extract(rawLines, parse);
    SingleLiveServer(fetched, rawLines, parse, probe, s, latency);
  }
}
