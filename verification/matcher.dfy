/**
 The descriptor-line matcher `parse_config`: a hand-written scanner for the pattern

     [:/@]([0-9]{1,3}\.[0-9]{1,3}\.[0-9]{1,3}\.[0-9]{1,3})[:](\d+)

 searched anywhere in a line (leftmost match wins). The declarative side describes a
 match by the positions of its delimiters (a `Span`); the executable side computes
 those positions from maximal digit runs, which is what the regex's backtracking
 reduces to: a `{1,3}` group followed by a non-digit delimiter must consume exactly
 the digit run in front of it, and the greedy `\d+` takes the whole run after `:`.
 Digits are ASCII `0`..`9` only.
 */
module Matcher {
  import opened Common

  /** One extracted candidate: the dotted-quad text, the port and the untouched line. */
  datatype Server = Server(ip: string, port: nat, config: string)

  /** Positions of the delimiters of a dotted quad: its three dots and the colon after it. */
  datatype Quad = Quad(dot1: nat, dot2: nat, dot3: nat, colon: nat)

  /** Positions of one regex match: its dotted quad and the end of the port digits. */
  datatype Span = Span(quad: Quad, portEnd: nat)

  predicate IsDigit(c: char)
  {
    '0' <= c <= '9'
  }

  /** The character class `[:/@]`. */
  predicate IsSep(c: char)
  {
    c == ':' || c == '/' || c == '@'
  }

  /** Every character of `line[s..e]` is a digit. */
  predicate AllDigits(line: string, s: int, e: int)
    decreases e - s
  {
    0 <= s <= e <= |line| && (s == e || (IsDigit(line[s]) && AllDigits(line, s + 1, e)))
  }

  /** Each character inside a run of digits is a digit. */
  lemma {:induction false} AllDigitsAt(line: string, s: int, e: int, k: int)
    requires AllDigits(line, s, e) && s <= k < e
    ensures IsDigit(line[k])
    decreases e - s
  {
    if k > s {
      AllDigitsAt(line, s + 1, e, k);
    }
  }

  /** `[0-9]{1,3}` consumes `line[s..e]` and the literal `delim` follows at `e`. */
  predicate Octet(line: string, s: int, e: int, delim: char)
  {
    AllDigits(line, s, e) && s < e <= s + 3 && e < |line| && line[e] == delim
  }

  /** `[0-9]{1,3}\.[0-9]{1,3}\.[0-9]{1,3}\.[0-9]{1,3}[:]` matches from `s` with delimiters at `q`. */
  predicate IsQuad(line: string, s: int, q: Quad)
  {
    && Octet(line, s, q.dot1, '.')
    && Octet(line, q.dot1 + 1, q.dot2, '.')
    && Octet(line, q.dot2 + 1, q.dot3, '.')
    && Octet(line, q.dot3 + 1, q.colon, ':')
  }

  /** The whole pattern matches starting at index `i` with delimiters placed as in `sp`. */
  predicate MatchSpan(line: string, i: int, sp: Span)
  {
    && 0 <= i < |line|
    && IsSep(line[i])
    && IsQuad(line, i + 1, sp.quad)
    && sp.quad.colon + 1 < sp.portEnd
    && AllDigits(line, sp.quad.colon + 1, sp.portEnd)
  }

  /** Some match of the pattern starts at `i`. */
  ghost predicate MatchesAt(line: string, i: int)
  {
    exists sp :: MatchSpan(line, i, sp)
  }

  /** No match starts before `i`, and one starts at `i`: where `re.search` stops. */
  ghost predicate Leftmost(line: string, i: int)
  {
    MatchesAt(line, i) && forall j :: 0 <= j < i ==> !MatchesAt(line, j)
  }

  /** Among the matches at `i`, `sp` is the one the greedy `\d+` prefers: the longest port. */
  ghost predicate Preferred(line: string, i: int, sp: Span)
  {
    MatchSpan(line, i, sp) && forall sp' :: MatchSpan(line, i, sp') ==> sp'.portEnd <= sp.portEnd
  }

  function DigitValue(c: char): nat
    requires IsDigit(c)
  {
    c as int - '0' as int
  }

  function Pow10(n: nat): (p: nat)
    ensures p >= 1
  {
    if n == 0 then 1 else 10 * Pow10(n - 1)
  }

  /** Python's `int(...)` of a string of decimal digits: `n` digits give a value below 10^n. */
  function DecimalValue(ds: string): (v: nat)
    requires forall k :: 0 <= k < |ds| ==> IsDigit(ds[k])
    ensures v < Pow10(|ds|)
  {
    if |ds| == 0 then 0 else 10 * DecimalValue(ds[..|ds| - 1]) + DigitValue(ds[|ds| - 1])
  }

  /** The digit character of a value below 10. */
  function DigitChar(d: nat): (c: char)
    requires d < 10
    ensures IsDigit(c) && DigitValue(c) == d
  {
    ('0' as int + d) as char
  }

  /** The decimal text of `n` without leading zeros, as Python's `str(n)` writes it. */
  function DecimalText(n: nat): (ds: string)
    ensures 0 < |ds| && forall k :: 0 <= k < |ds| ==> IsDigit(ds[k])
    ensures |ds| > 1 ==> ds[0] != '0'
  {
    if n < 10 then [DigitChar(n)] else DecimalText(n / 10) + [DigitChar(n % 10)]
  }

  /** `int` reads back every value from its decimal text. */
  lemma {:induction false} DecimalValueOfText(n: nat)
    ensures DecimalValue(DecimalText(n)) == n
  {
    if n >= 10 {
      var ds := DecimalText(n);
      assert ds[..|ds| - 1] == DecimalText(n / 10);
      DecimalValueOfText(n / 10);
    }
  }

  /** A leading zero does not change the value: `int("08443") == 8443`. */
  lemma {:induction false} DecimalValueLeadingZero(ds: string)
    requires forall k :: 0 <= k < |ds| ==> IsDigit(ds[k])
    ensures DecimalValue(['0'] + ds) == DecimalValue(ds)
  {
    var zs := ['0'] + ds;
    if |ds| > 0 {
      assert zs[..|zs| - 1] == ['0'] + ds[..|ds| - 1];
      DecimalValueLeadingZero(ds[..|ds| - 1]);
    } else {
      assert zs[..0] == [];
    }
  }

  /** The record `parse_config` builds from the groups of a match: the `ip` group is a
      dotted quad of 7 to 15 characters, the port has at most as many decimal digits as
      the port group, and the line is kept. */
  function ServerOf(line: string, i: int, sp: Span): (r: Server)
    requires MatchSpan(line, i, sp)
    ensures 7 <= |r.ip| <= 15
    ensures r.port < Pow10(sp.portEnd - sp.quad.colon - 1)
    ensures r.config == line
  {
    DigitsOfSlice(line, sp.quad.colon + 1, sp.portEnd);
    Server(line[i + 1..sp.quad.colon], DecimalValue(line[sp.quad.colon + 1..sp.portEnd]), line)
  }

  /** The text of a digit run is a string of digits. */
  lemma DigitsOfSlice(line: string, s: int, e: int)
    requires AllDigits(line, s, e)
    ensures forall k :: 0 <= k < e - s ==> IsDigit(line[s..e][k])
  {
    forall k | 0 <= k < e - s ensures IsDigit(line[s..e][k]) {
      AllDigitsAt(line, s, e, s + k);
    }
  }

  /** What `re.search` followed by `parse_config`'s record construction returns:
      nothing when no index matches, otherwise the groups of the preferred match at the
      leftmost matching index, with the line kept as it is. */
  ghost predicate SearchSpec(line: string, r: Option<Server>)
  {
    match r
    case None => forall i :: 0 <= i < |line| ==> !MatchesAt(line, i)
    case Some(s) => exists i, sp :: Leftmost(line, i) && Preferred(line, i, sp) && s == ServerOf(line, i, sp)
  }

  /** Length of the maximal run of digits starting at `s`. */
  function DigitRun(line: string, s: nat): (n: nat)
    requires s <= |line|
    ensures s + n <= |line|
    ensures AllDigits(line, s, s + n)
    ensures s + n == |line| || !IsDigit(line[s + n])
    decreases |line| - s
  {
    if s < |line| && IsDigit(line[s]) then 1 + DigitRun(line, s + 1) else 0
  }

  /** A run of digits starting at `s` never reaches past the maximal one. */
  lemma {:induction false} DigitsWithinRun(line: string, s: nat, e: int)
    requires s <= |line|
    requires AllDigits(line, s, e)
    ensures e <= s + DigitRun(line, s)
    decreases e - s
  {
    if s < e {
      DigitsWithinRun(line, s + 1, e);
    }
  }

  /** A digit run followed by the end of the line or by a non-digit is the maximal run. */
  lemma DigitRunExact(line: string, s: nat, e: int)
    requires s <= |line|
    requires AllDigits(line, s, e)
    requires e == |line| || !IsDigit(line[e])
    ensures e == s + DigitRun(line, s)
  {
    DigitsWithinRun(line, s, e);
    if e < s + DigitRun(line, s) {
      AllDigitsAt(line, s, s + DigitRun(line, s), e);
    }
  }

  /** An octet group that ends at a non-digit delimiter is exactly the digit run
      in front of that delimiter: the regex has no choice in where the group ends. */
  lemma OctetIsDigitRun(line: string, s: nat, e: int, delim: char)
    requires s <= |line|
    requires !IsDigit(delim)
    requires Octet(line, s, e, delim)
    ensures e == s + DigitRun(line, s)
  {
    DigitRunExact(line, s, e);
  }

  /** Where the octet group starting at `s` and closed by `delim` ends, if it exists. */
  function OctetEnd(line: string, s: nat, delim: char): (r: Option<nat>)
    requires !IsDigit(delim)
    ensures r.Some? ==> Octet(line, s, r.value, delim)
    ensures forall e :: Octet(line, s, e, delim) ==> r == Some(e)
  {
    if s > |line| then None
    else
      var n := DigitRun(line, s);
      if 1 <= n <= 3 && s + n < |line| && line[s + n] == delim then
        (forall e | Octet(line, s, e, delim) ensures e == s + n {
           OctetIsDigitRun(line, s, e, delim);
         }
         Some(s + n))
      else
        (forall e | Octet(line, s, e, delim) ensures false {
           OctetIsDigitRun(line, s, e, delim);
         }
         None)
  }

  /** The dotted quad starting at `s`, if there is one; where it exists it is unique. */
  function QuadFrom(line: string, s: nat): (q: Option<Quad>)
    ensures q.Some? ==> IsQuad(line, s, q.value)
    ensures forall q' :: IsQuad(line, s, q') ==> q == Some(q')
  {
    var g1 := OctetEnd(line, s, '.');
    if g1.None? then None
    else
      var g2 := OctetEnd(line, g1.value + 1, '.');
      if g2.None? then None
      else
        var g3 := OctetEnd(line, g2.value + 1, '.');
        if g3.None? then None
        else
          var g4 := OctetEnd(line, g3.value + 1, ':');
          if g4.None? then None
          else Some(Quad(g1.value, g2.value, g3.value, g4.value))
  }

  /** Match the pattern at index `i` exactly (no scanning): the span of the preferred
      match when one exists, nothing when none starts here. */
  function MatchAt(line: string, i: nat): (m: Option<Span>)
    ensures m.Some? ==> Preferred(line, i, m.value)
    ensures m.None? ==> !MatchesAt(line, i)
  {
    if i >= |line| || !IsSep(line[i]) then None
    else
      var q := QuadFrom(line, i + 1);
      if q.None? then None
      else
        var c := q.value.colon;
        var n := DigitRun(line, c + 1);
        if n == 0 then
          (forall sp | MatchSpan(line, i, sp) ensures false {
             DigitsWithinRun(line, c + 1, sp.portEnd);
           }
           None)
        else
          var sp := Span(q.value, c + 1 + n);
          (forall sp' | MatchSpan(line, i, sp') ensures sp'.portEnd <= sp.portEnd {
             DigitsWithinRun(line, c + 1, sp'.portEnd);
           }
           Some(sp))
  }

  /** Scan indices `i`, `i+1`, ... for the first one where a match starts, and the
      preferred match there. */
  function FindFrom(line: string, i: nat): (r: Option<(nat, Span)>)
    requires i <= |line|
    ensures r.Some? ==> i <= r.value.0 < |line| && Preferred(line, r.value.0, r.value.1)
    ensures r.Some? ==> forall j :: i <= j < r.value.0 ==> !MatchesAt(line, j)
    ensures r.None? ==> forall j :: i <= j < |line| ==> !MatchesAt(line, j)
    decreases |line| - i
  {
    if i == |line| then None
    else
      match MatchAt(line, i)
      case Some(sp) => Some((i, sp))
      case None => FindFrom(line, i + 1)
  }

  /** `parse_config`: the first match in the line, as a record, or nothing. */
  function ParseConfig(line: string): (r: Option<Server>)
    ensures r.Some? ==> r.value.config == line
  {
    match FindFrom(line, 0)
    case None => None
    case Some((i, sp)) => Some(ServerOf(line, i, sp))
  }

  /** `ParseConfig` returns what `re.search` and the record construction describe. */
  lemma ParseConfigMeetsSpec(line: string)
    ensures SearchSpec(line, ParseConfig(line))
  {
  }

  /** At most one index is the leftmost match. */
  lemma LeftmostUnique(line: string, i: int, j: int)
    requires Leftmost(line, i) && Leftmost(line, j)
    ensures i == j
  {
  }

  /** The delimiters of a match are forced and the greedy port is the longest, so the
      preferred match at an index is unique. */
  lemma PreferredUnique(line: string, i: int, a: Span, b: Span)
    requires Preferred(line, i, a) && Preferred(line, i, b)
    ensures a == b
  {
    var _ := QuadFrom(line, i + 1);
  }

  /** The declarative description of the search result admits exactly one answer,
      so `ParseConfig` is not just one answer but the answer. */
  lemma SearchSpecUnique(line: string, r1: Option<Server>, r2: Option<Server>)
    requires SearchSpec(line, r1) && SearchSpec(line, r2)
    ensures r1 == r2
  {
    if r1.Some? && r2.Some? {
      var i1, sp1 :| Leftmost(line, i1) && Preferred(line, i1, sp1) && r1.value == ServerOf(line, i1, sp1);
      var i2, sp2 :| Leftmost(line, i2) && Preferred(line, i2, sp2) && r2.value == ServerOf(line, i2, sp2);
      LeftmostUnique(line, i1, i2);
      PreferredUnique(line, i1, sp1, sp2);
    }
  }

  /** `parse_config` returns a record exactly when some index of the line starts a match. */
  lemma ParseConfigSomeIff(line: string)
    ensures ParseConfig(line).Some? <==> exists i :: 0 <= i < |line| && MatchesAt(line, i)
  {
    if ParseConfig(line).Some? {
      var (i, sp) := FindFrom(line, 0).value;
      assert 0 <= i < |line| && MatchesAt(line, i);
    }
  }

  /** A match needs a separator at `j` and a digit right after it. */
  lemma NoMatchAt(line: string, j: int)
    requires 0 <= j < |line|
    requires !IsSep(line[j]) || j + 1 == |line| || !IsDigit(line[j + 1])
    ensures !MatchesAt(line, j)
  {
  }

  /** Any answer meeting the declarative description is what `ParseConfig` returns. */
  lemma ParseConfigBySpec(line: string, r: Option<Server>)
    requires SearchSpec(line, r)
    ensures ParseConfig(line) == r
  {
    ParseConfigMeetsSpec(line);
    SearchSpecUnique(line, ParseConfig(line), r);
  }

  /** A match whose port run cannot be extended, at an index before which nothing
      matches, is what `parse_config` returns. */
  lemma ParseConfigOfMatch(line: string, i: int, sp: Span)
    requires MatchSpan(line, i, sp)
    requires sp.portEnd == |line| || !IsDigit(line[sp.portEnd])
    requires forall j :: 0 <= j < i ==> !MatchesAt(line, j)
    ensures ParseConfig(line) == Some(ServerOf(line, i, sp))
  {
    var c := sp.quad.colon;
    DigitRunExact(line, c + 1, sp.portEnd);
    forall sp' | MatchSpan(line, i, sp') ensures sp'.portEnd <= sp.portEnd {
      var _ := QuadFrom(line, i + 1);
      DigitsWithinRun(line, c + 1, sp'.portEnd);
    }
    assert Preferred(line, i, sp);
    assert SearchSpec(line, Some(ServerOf(line, i, sp)));
    ParseConfigBySpec(line, Some(ServerOf(line, i, sp)));
  }

  lemma VmessMatch(line: string)
    requires line == "vmess://abc@203.0.113.5:8443?x=1"
    ensures MatchSpan(line, 11, Span(Quad(15, 17, 21, 23), 28))
  {
    assert Octet(line, 12, 15, '.');
    assert Octet(line, 16, 17, '.');
    assert Octet(line, 18, 21, '.');
    assert Octet(line, 22, 23, ':');
    assert AllDigits(line, 24, 28);
  }

  lemma NoRangeCheckMatch(line: string)
    requires line == "@999.1.1.1:65536"
    ensures MatchSpan(line, 0, Span(Quad(4, 6, 8, 10), 16))
  {
    assert Octet(line, 1, 4, '.');
    assert Octet(line, 5, 6, '.');
    assert Octet(line, 7, 8, '.');
    assert Octet(line, 9, 10, ':');
    assert AllDigits(line, 11, 16);
  }

  lemma PortZeroMatch(line: string)
    requires line == "/10.0.0.1:0"
    ensures MatchSpan(line, 0, Span(Quad(3, 5, 7, 9), 11))
  {
    assert Octet(line, 1, 3, '.');
    assert Octet(line, 4, 5, '.');
    assert Octet(line, 6, 7, '.');
    assert Octet(line, 8, 9, ':');
    assert AllDigits(line, 10, 11);
  }

  /** The worked example: the first separator that starts a match is the `@`. */
  lemma ExampleVmess(line: string)
    requires line == "vmess://abc@203.0.113.5:8443?x=1"
    ensures ParseConfig(line) == Some(Server("203.0.113.5", 8443, line))
  {
    var sp := Span(Quad(15, 17, 21, 23), 28);
    VmessMatch(line);
    VmessLeftmost(line);
    assert line[28] == '?';
    ParseConfigOfMatch(line, 11, sp);
    VmessGroups(line, sp);
  }

  lemma VmessLeftmost(line: string)
    requires line == "vmess://abc@203.0.113.5:8443?x=1"
    ensures forall j :: 0 <= j < 11 ==> !MatchesAt(line, j)
  {
    forall j | 0 <= j < 11 ensures !MatchesAt(line, j) {
      NoMatchAt(line, j);
    }
  }

  lemma VmessGroups(line: string, sp: Span)
    requires line == "vmess://abc@203.0.113.5:8443?x=1"
    requires sp == Span(Quad(15, 17, 21, 23), 28)
    requires MatchSpan(line, 11, sp)
    ensures ServerOf(line, 11, sp) == Server("203.0.113.5", 8443, line)
  {
    assert line[12..23] == "203.0.113.5";
    assert line[24..28] == "8443";
    assert "8443"[..3] == "844";
    assert "844"[..2] == "84";
    assert "84"[..1] == "8";
    assert DecimalValue("8443") == 8443;
  }

  /** No range check is made: an octet above 255 and a port above 65535 are accepted. */
  lemma ExampleNoRangeCheck(line: string)
    requires line == "@999.1.1.1:65536"
    ensures ParseConfig(line) == Some(Server("999.1.1.1", 65536, line))
  {
    var sp := Span(Quad(4, 6, 8, 10), 16);
    NoRangeCheckMatch(line);
    ParseConfigOfMatch(line, 0, sp);
    NoRangeCheckGroups(line, sp);
  }

  lemma NoRangeCheckGroups(line: string, sp: Span)
    requires line == "@999.1.1.1:65536"
    requires sp == Span(Quad(4, 6, 8, 10), 16)
    requires MatchSpan(line, 0, sp)
    ensures ServerOf(line, 0, sp) == Server("999.1.1.1", 65536, line)
  {
    assert line[1..10] == "999.1.1.1";
    assert line[11..16] == "65536";
    assert "65536"[..4] == "6553";
    assert "6553"[..3] == "655";
    assert "655"[..2] == "65";
    assert "65"[..1] == "6";
    assert DecimalValue("65536") == 65536;
  }

  /** Port zero is accepted as well. */
  lemma ExamplePortZero(line: string)
    requires line == "/10.0.0.1:0"
    ensures ParseConfig(line) == Some(Server("10.0.0.1", 0, line))
  {
    var sp := Span(Quad(3, 5, 7, 9), 11);
    PortZeroMatch(line);
    ParseConfigOfMatch(line, 0, sp);
    PortZeroGroups(line, sp);
  }

  lemma PortZeroGroups(line: string, sp: Span)
    requires line == "/10.0.0.1:0"
    requires sp == Span(Quad(3, 5, 7, 9), 11)
    requires MatchSpan(line, 0, sp)
    ensures ServerOf(line, 0, sp) == Server("10.0.0.1", 0, line)
  {
    assert line[1..9] == "10.0.0.1";
    assert line[10..11] == "0";
    assert DecimalValue("0") == 0;
  }
}
