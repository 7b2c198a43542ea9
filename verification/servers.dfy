/**
 From fetched lines to candidates: the duplicate removal at the end of
 `get_servers` (`list(set(all_lines))`) and the extraction loop of `main`, which
 scans the first 1500 lines and keeps, in order, the record of every line that
 `parse_config` accepts.
 */
module Servers {
  import opened Common
  import opened Matcher

  /** How many raw lines `main` hands to `parse_config`. */
  const ScanLimit: nat := 1500

  /** `r` is a duplicate-free listing of exactly the elements of `xs`, in some order:
      everything `list(set(xs))` promises. */
  predicate IsDedupOf<T(==)>(r: seq<T>, xs: seq<T>)
  {
    && NoDup(r)
    && (forall i :: 0 <= i < |r| ==> r[i] in xs)
    && (forall i :: 0 <= i < |xs| ==> xs[i] in r)
  }

  /** One duplicate removal: keeps the first occurrence of each line. Python's set
      iteration order is unspecified, so only `IsDedupOf` is promised about it. */
  function Dedup<T(==)>(xs: seq<T>): (r: seq<T>)
    ensures IsDedupOf(r, xs)
    ensures |r| <= |xs|
  {
    if |xs| == 0 then []
    else
      var r := Dedup(xs[..|xs| - 1]);
      var x := xs[|xs| - 1];
      assert xs == xs[..|xs| - 1] + [x];
      if x in r then r else r + [x]
  }

  /** A list that already has no duplicates comes back as a reordering of itself:
      the same elements, each once. */
  lemma DistinctDedupIsPermutation<T>(r: seq<T>, xs: seq<T>)
    requires NoDup(xs) && IsDedupOf(r, xs)
    ensures multiset(r) == multiset(xs)
  {
    NoDupCounts(r);
    NoDupCounts(xs);
    forall x ensures multiset(r)[x] == multiset(xs)[x] {
      if x in xs {
        var k :| 0 <= k < |xs| && xs[k] == x;
        assert x in r;
      }
      if x in r {
        var k :| 0 <= k < |r| && r[k] == x;
        assert x in xs;
      }
    }
  }

  /** Removing duplicates from a listing without duplicates again still lists the
      original lines once each. */
  lemma DedupOfDedup<T>(r1: seq<T>, r2: seq<T>, xs: seq<T>)
    requires IsDedupOf(r1, xs) && IsDedupOf(r2, r1)
    ensures IsDedupOf(r2, xs)
  {
  }

  /** Any two duplicate-free listings of the same elements have the same length,
      so the number of distinct lines does not depend on the set's order. */
  lemma {:induction false} DedupLengthUnique<T>(a: seq<T>, b: seq<T>, xs: seq<T>)
    requires IsDedupOf(a, xs) && IsDedupOf(b, xs)
    ensures |a| == |b|
  {
    DistinctCard(a);
    DistinctCard(b);
    assert (set x | x in a) == (set x | x in b);
  }

  /** A line parser of the shape of `parse_config`. The extraction and the rest of the
      pipeline are stated for any parser that keeps its line; `ParseConfig` is one. */
  type Parser = string -> Option<Server>

  /** The record a parser returns carries the line it came from as `config`. */
  ghost predicate KeepsLine(parse: Parser)
  {
    forall l :: parse(l).Some? ==> parse(l).value.config == l
  }

  /** `parse_config` keeps its line. */
  lemma ParseConfigKeepsLine()
    ensures KeepsLine(ParseConfig)
  {
  }

  /** The records of the lines that the parser accepts, in line order. */
  function ParseAll(lines: seq<string>, parse: Parser): (r: seq<Server>)
    requires KeepsLine(parse)
    ensures |r| <= |lines|
    ensures forall s :: s in r ==> s.config in lines && parse(s.config) == Some(s)
    ensures forall l :: l in lines && parse(l).Some? ==> parse(l).value in r
  {
    if |lines| == 0 then []
    else
      var rest := ParseAll(lines[1..], parse);
      assert forall l :: l in lines ==> l == lines[0] || l in lines[1..];
      match parse(lines[0])
      case None => rest
      case Some(s) => [s] + rest
  }

  /** Extraction distributes over concatenation: relative order of lines is kept. */
  lemma {:induction false} ParseAllAppend(a: seq<string>, b: seq<string>, parse: Parser)
    requires KeepsLine(parse)
    ensures ParseAll(a + b, parse) == ParseAll(a, parse) + ParseAll(b, parse)
  {
    if |a| > 0 {
      assert (a + b)[1..] == a[1..] + b;
      ParseAllAppend(a[1..], b, parse);
    } else {
      assert a + b == b;
    }
  }

  /** Distinct lines give distinct records, since a record keeps its line. */
  lemma {:induction false} ParseAllDistinct(lines: seq<string>, parse: Parser)
    requires KeepsLine(parse)
    requires NoDup(lines)
    ensures NoDup(ParseAll(lines, parse))
  {
    if |lines| > 0 {
      assert NoDup(lines[1..]);
      ParseAllDistinct(lines[1..], parse);
      if parse(lines[0]).Some? {
        assert lines[0] !in lines[1..];
      }
    }
  }

  /** The extraction loop of `main`: parse the first `ScanLimit` lines, keep the hits. */
  function Extract(lines: seq<string>, parse: Parser): (r: seq<Server>)
    requires KeepsLine(parse)
    ensures |r| <= Min(ScanLimit, |lines|)
    ensures forall s :: s in r ==> s.config in lines[..Min(ScanLimit, |lines|)] && parse(s.config) == Some(s)
    ensures forall l :: l in lines[..Min(ScanLimit, |lines|)] && parse(l).Some? ==> parse(l).value in r
  {
    ParseAll(Take(lines, ScanLimit), parse)
  }

  /** Lines past the scan limit are never looked at. */
  lemma ExtractIgnoresTail(lines: seq<string>, extra: seq<string>, parse: Parser)
    requires KeepsLine(parse)
    requires |lines| >= ScanLimit
    ensures Extract(lines + extra, parse) == Extract(lines, parse)
  {
    assert Take(lines + extra, ScanLimit) == Take(lines, ScanLimit);
  }
}
