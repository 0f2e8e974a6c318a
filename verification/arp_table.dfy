/**
 * The ARP-text entry parser: `re.findall` of
 *     (\d+\.\d+\.\d+\.\d+)\s+.*\s+([0-9a-fA-F:]{17})
 * over the whole output of `arp -n`, with each captured MAC lower-cased.
 *
 * A match is described by where its IP group starts and ends and by how many
 * characters the three middle pieces take: `a` for the first `\s+`, `b` for
 * `.*`, `c` for the second `\s+`. Python's engine backtracks, so among all the
 * ways the pattern fits at one start it reports the one its greedy quantifiers
 * try first; `findall` then resumes after the match. Both rules are stated
 * declaratively (`IsFirstMatch`, `IsFindAll`) and proved of the recogniser.
 */
module ArpTable {
  import opened Wrappers
  import opened Text
  import opened Fields
  import opened Addresses

  /** `{17}`: the exact length of the MAC group. */
  const MacLength: nat := 17

  /** One `(ip, mac)` pair as `scan_network` returns it. */
  datatype Entry = Entry(ip: string, mac: string)

  /** One way the pattern fits the text, located by its pieces. */
  datatype Match = Match(start: nat, ipEnd: nat, a: nat, b: nat, c: nat) {
    /** Where the MAC group starts. */
    function MacStart(): nat {
      ipEnd + a + b + c
    }
    /** Where the match ends and `findall` resumes. */
    function End(): nat {
      MacStart() + MacLength
    }
  }

  /** `[0-9a-fA-F:]{17}` fits at `k`. */
  predicate HexRunAt(s: string, k: nat) {
    k + MacLength <= |s| && AllIn(s, k, k + MacLength, IsHexOrColon)
  }

  /** `\s+.*\s+([0-9a-fA-F:]{17})` fits after the IP group with the piece lengths of `m`. */
  predicate TailFits(s: string, m: Match) {
    && m.End() <= |s|
    && m.a >= 1
    && m.c >= 1
    && AllIn(s, m.ipEnd, m.ipEnd + m.a, IsSpace)
    && AllIn(s, m.ipEnd + m.a, m.ipEnd + m.a + m.b, NotNewline)
    && AllIn(s, m.ipEnd + m.a + m.b, m.MacStart(), IsSpace)
    && HexRunAt(s, m.MacStart())
  }

  /** The whole pattern fits `s` as `m` describes. */
  predicate IsMatch(s: string, m: Match) {
    && m.start < m.ipEnd
    && TailFits(s, m)
    && IsIpv4Shaped(s[m.start..m.ipEnd])
  }

  /**
   * The backtracking engine tries `x` no later than `y`: every quantifier is
   * greedy, so longer pieces are tried first, the IP group's digits before
   * `a`, `a` before `b`, `b` before `c`.
   */
  predicate TriedNoLater(x: Match, y: Match) {
    || x.ipEnd > y.ipEnd
    || (x.ipEnd == y.ipEnd && x.a > y.a)
    || (x.ipEnd == y.ipEnd && x.a == y.a && x.b > y.b)
    || (x.ipEnd == y.ipEnd && x.a == y.a && x.b == y.b && x.c >= y.c)
  }

  /** `m` is the match Python reports for an attempt at `m.start`. */
  ghost predicate IsFirstMatch(s: string, m: Match) {
    && IsMatch(s, m)
    && forall m': Match :: m'.start == m.start && IsMatch(s, m') ==> TriedNoLater(m, m')
  }

  /** Some attempt at `p` succeeds. */
  ghost predicate HasMatchAt(s: string, p: int) {
    exists m: Match :: m.start == p && IsMatch(s, m)
  }

  /** Position `p` lies inside one of the reported matches. */
  ghost predicate Covers(ms: seq<Match>, p: int) {
    exists i :: 0 <= i < |ms| && ms[i].start <= p < ms[i].End()
  }

  /**
   * `ms` is what `findall` reports from position `from` on, for any notion
   * `first` of the match an attempt reports and `found` of the positions
   * where an attempt succeeds: non-empty first matches, in text order, not
   * overlapping, and no position where an attempt would succeed is left
   * outside them.
   */
  ghost predicate Reports(first: Match -> bool, found: int -> bool, from: nat, ms: seq<Match>) {
    && (forall i :: 0 <= i < |ms| ==> first(ms[i]) && from <= ms[i].start < ms[i].End())
    && (forall i, j :: 0 <= i < j < |ms| ==> ms[i].End() <= ms[j].start)
    && (forall p :: from <= p && found(p) ==> Covers(ms, p))
  }

  /** The first matches of the pattern in `s`. */
  ghost function FirstIn(s: string): Match -> bool {
    m => IsFirstMatch(s, m)
  }

  /** The positions of `s` where an attempt succeeds. */
  ghost function FoundIn(s: string): int -> bool {
    p => HasMatchAt(s, p)
  }

  /** `ms` is what `findall` reports over `s` from position `from` on. */
  ghost predicate IsFindAll(s: string, from: nat, ms: seq<Match>) {
    Reports(FirstIn(s), FoundIn(s), from, ms)
  }

  /** `\d+\.` at `i`: a maximal digit run followed by a dot; yields the position after the dot. */
  function DigitsThenDot(s: string, i: nat): (r: Option<nat>)
    requires i <= |s|
    ensures r.Some? ==> i + 1 < r.value <= |s| && s[r.value - 1] == '.'
    ensures r.Some? ==> AllIn(s, i, r.value - 1, IsDigit)
  {
    var n := Span(s, i, IsDigit);
    if n > 0 && i + n < |s| && s[i + n] == '.' then Some(i + n + 1) else None
  }

  /**
   * The IP group at `p`. Only maximal digit runs can be followed by the dots
   * and by the first `\s+`, so the group has at most one useful end.
   */
  function IpEnd(s: string, p: nat): (r: Option<nat>)
    requires p <= |s|
    ensures r.Some? ==> p < r.value <= |s| && AllIn(s, p, r.value, IsDigitOrDot)
    ensures r.Some? ==> r.value == |s| || !IsDigit(s[r.value])
  {
    match DigitsThenDot(s, p)
    case None => None
    case Some(i2) =>
      match DigitsThenDot(s, i2)
      case None => None
      case Some(i3) =>
        match DigitsThenDot(s, i3)
        case None => None
        case Some(i4) => LastRun(s, p, i2, i3, i4)
  }

  /** The last `\d+` of the IP group, after the third dot. */
  function LastRun(s: string, p: nat, i2: nat, i3: nat, i4: nat): (r: Option<nat>)
    requires p < i2 - 1 && i2 < i3 - 1 && i3 < i4 - 1 && i4 <= |s|
    requires s[i2 - 1] == '.' && s[i3 - 1] == '.' && s[i4 - 1] == '.'
    requires AllIn(s, p, i2 - 1, IsDigit) && AllIn(s, i2, i3 - 1, IsDigit) && AllIn(s, i3, i4 - 1, IsDigit)
    ensures r.Some? ==> i4 < r.value <= |s| && AllIn(s, p, r.value, IsDigitOrDot)
    ensures r.Some? ==> r.value == |s| || !IsDigit(s[r.value])
  {
    var n := Span(s, i4, IsDigit);
    if n == 0 then None
    else
      QuadChars(s, p, i2, i3, i4, i4 + n);
      Some(i4 + n)
  }

  /** What the IP group captures is a dotted quad. */
  lemma IpEndIsShaped(s: string, p: nat, q: nat)
    requires p <= |s| && IpEnd(s, p) == Some(q)
    ensures IsIpv4Shaped(s[p..q])
  {
    var i2 := DigitsThenDot(s, p).value;
    var i3 := DigitsThenDot(s, i2).value;
    var i4 := DigitsThenDot(s, i3).value;
    QuadIsShaped(s, p, i2, i3, i4, q);
  }

  /** The same runs and dots consist of digits and dots only. */
  lemma QuadChars(s: string, p: nat, i2: nat, i3: nat, i4: nat, q: nat)
    requires p < i2 - 1 && i2 < i3 - 1 && i3 < i4 - 1 && i4 < q <= |s|
    requires s[i2 - 1] == '.' && s[i3 - 1] == '.' && s[i4 - 1] == '.'
    requires AllIn(s, p, i2 - 1, IsDigit) && AllIn(s, i2, i3 - 1, IsDigit)
    requires AllIn(s, i3, i4 - 1, IsDigit) && AllIn(s, i4, q, IsDigit)
    ensures AllIn(s, p, q, IsDigitOrDot)
  {
    forall k | p <= k < q
      ensures IsDigitOrDot(s[k])
    {
      if k < i2 - 1 {
        assert IsDigit(s[k]);
      } else if k == i2 - 1 || k == i3 - 1 || k == i4 - 1 {
      } else if k < i3 - 1 {
        assert IsDigit(s[k]);
      } else if k < i4 - 1 {
        assert IsDigit(s[k]);
      } else {
        assert IsDigit(s[k]);
      }
    }
  }

  lemma DigitRunAt(s: string, i: nat, n: nat)
    requires 0 < n && i + n <= |s|
    requires AllIn(s, i, i + n, IsDigit)
    ensures IsDigitRun(s[i..i + n])
  {
  }

  /** Four digit runs separated by the dots at `i2 - 1`, `i3 - 1`, `i4 - 1` form a dotted quad. */
  lemma QuadIsShaped(s: string, p: nat, i2: nat, i3: nat, i4: nat, q: nat)
    requires p < i2 - 1 && i2 < i3 - 1 && i3 < i4 - 1 && i4 < q <= |s|
    requires s[i2 - 1] == '.' && s[i3 - 1] == '.' && s[i4 - 1] == '.'
    requires AllIn(s, p, i2 - 1, IsDigit) && AllIn(s, i2, i3 - 1, IsDigit)
    requires AllIn(s, i3, i4 - 1, IsDigit) && AllIn(s, i4, q, IsDigit)
    ensures IsIpv4Shaped(s[p..q])
  {
    DigitRunAt(s, p, i2 - 1 - p);
    DigitRunAt(s, i2, i3 - 1 - i2);
    DigitRunAt(s, i3, i4 - 1 - i3);
    DigitRunAt(s, i4, q - i4);
    var d1, d2, d3, d4 := s[p..i2 - 1], s[i2..i3 - 1], s[i3..i4 - 1], s[i4..q];
    assert s[i4 - 1..q] == "." + d4;
    assert s[i3 - 1..q] == "." + d3 + "." + d4;
    assert s[i2 - 1..q] == "." + d2 + "." + d3 + "." + d4;
    assert s[p..q] == d1 + "." + d2 + "." + d3 + "." + d4;
    DottedQuadIsShaped(s[p..i2 - 1], s[i2..i3 - 1], s[i3..i4 - 1], s[i4..q]);
  }

  /** `[0-9a-fA-F:]{17}` at `MacStart`, trying the second `\s+` from `c` characters down to one. */
  function SearchC(s: string, p: nat, q: nat, a: nat, b: nat, c: nat): (r: Option<Match>)
    requires q + a + b + c <= |s|
    requires a >= 1
    requires AllIn(s, q, q + a, IsSpace)
    requires AllIn(s, q + a, q + a + b, NotNewline)
    requires AllIn(s, q + a + b, q + a + b + c, IsSpace)
    ensures r.Some? ==> r.value.start == p && r.value.ipEnd == q && r.value.a == a && r.value.b == b
    ensures r.Some? ==> r.value.c <= c && TailFits(s, r.value)
    ensures forall c': nat :: c' <= c && TailFits(s, Match(p, q, a, b, c')) ==> r.Some? && c' <= r.value.c
    decreases c
  {
    if c == 0 then None
    else if HexRunAt(s, q + a + b + c) then Some(Match(p, q, a, b, c))
    else SearchC(s, p, q, a, b, c - 1)
  }

  /** `\s+([0-9a-fA-F:]{17})` after `.*`, trying `.*` from `b` characters down to none. */
  function SearchB(s: string, p: nat, q: nat, a: nat, b: nat): (r: Option<Match>)
    requires q + a + b <= |s|
    requires a >= 1
    requires AllIn(s, q, q + a, IsSpace)
    requires AllIn(s, q + a, q + a + b, NotNewline)
    ensures r.Some? ==> r.value.start == p && r.value.ipEnd == q && r.value.a == a
    ensures r.Some? ==> r.value.b <= b && TailFits(s, r.value)
    ensures forall m: Match :: m.start == p && m.ipEnd == q && m.a == a && m.b <= b && TailFits(s, m) ==>
      r.Some? && TriedNoLater(r.value, m)
    decreases b
  {
    var found := SearchC(s, p, q, a, b, Span(s, q + a + b, IsSpace));
    if found.Some? then found
    else if b == 0 then None
    else SearchB(s, p, q, a, b - 1)
  }

  /** `.*\s+([0-9a-fA-F:]{17})` after the first `\s+`, trying it from `a` characters down to one. */
  function SearchA(s: string, p: nat, q: nat, a: nat): (r: Option<Match>)
    requires q + a <= |s|
    requires AllIn(s, q, q + a, IsSpace)
    ensures r.Some? ==> r.value.start == p && r.value.ipEnd == q
    ensures r.Some? ==> r.value.a <= a && TailFits(s, r.value)
    ensures forall m: Match :: m.start == p && m.ipEnd == q && m.a <= a && TailFits(s, m) ==>
      r.Some? && TriedNoLater(r.value, m)
    decreases a
  {
    if a == 0 then None
    else
      DotStarWithinSpan(s, p, q, a);
      var found := SearchB(s, p, q, a, Span(s, q + a, NotNewline));
      if found.Some? then found else SearchA(s, p, q, a - 1)
  }

  /** Greedy `.*` first tries the longest run without a line break, so no fit uses a longer one. */
  lemma DotStarWithinSpan(s: string, p: nat, q: nat, a: nat)
    requires q + a <= |s|
    ensures forall m: Match :: m.start == p && m.ipEnd == q && m.a == a && TailFits(s, m) ==>
      m.b <= Span(s, q + a, NotNewline)
  {
    forall m: Match | m.start == p && m.ipEnd == q && m.a == a && TailFits(s, m)
      ensures m.b <= Span(s, q + a, NotNewline)
    {
      SpanIsLongest(s, q + a, m.b, NotNewline);
    }
  }

  /** One match attempt at `p`, as the backtracking engine makes it. */
  function MatchAt(s: string, p: nat): (r: Option<Match>)
    requires p <= |s|
    ensures r.Some? ==> r.value.start == p && IsMatch(s, r.value)
  {
    match IpEnd(s, p)
    case None => None
    case Some(q) =>
      IpEndIsShaped(s, p, q);
      SearchA(s, p, q, Span(s, q, IsSpace))
  }

  /** Where the fields and dots of a dotted quad sit inside the text. */
  lemma DottedQuadSlices(s: string, p: nat, q: nat, d1: string, d2: string, d3: string, d4: string)
    requires p <= q <= |s|
    requires s[p..q] == d1 + "." + d2 + "." + d3 + "." + d4
    ensures var i2 := p + |d1| + 1; var i3 := i2 + |d2| + 1; var i4 := i3 + |d3| + 1;
      && q == i4 + |d4|
      && s[p..i2 - 1] == d1 && s[i2 - 1] == '.'
      && s[i2..i3 - 1] == d2 && s[i3 - 1] == '.'
      && s[i3..i4 - 1] == d3 && s[i4 - 1] == '.'
      && s[i4..q] == d4
  {
    var i2 := p + |d1| + 1;
    FieldThenDot(s, p, q, d1, d2 + "." + d3 + "." + d4);
    assert s[i2..q] == d2 + "." + d3 + "." + d4 by {
      assert s[p..q] == d1 + "." + (d2 + "." + d3 + "." + d4);
    }
    var i3 := i2 + |d2| + 1;
    FieldThenDot(s, i2, q, d2, d3 + "." + d4);
    assert s[i3..q] == d3 + "." + d4 by {
      assert s[i2..q] == d2 + "." + (d3 + "." + d4);
    }
    FieldThenDot(s, i3, q, d3, d4);
  }

  /** A field, a dot and the rest, located in the text. */
  lemma FieldThenDot(s: string, p: nat, q: nat, d: string, rest: string)
    requires p <= q <= |s|
    requires s[p..q] == d + "." + rest
    ensures p + |d| + 1 + |rest| == q
    ensures s[p..p + |d|] == d && s[p + |d|] == '.' && s[p + |d| + 1..q] == rest
  {
    var t := s[p..q];
    assert t[..|d|] == d;
    assert t[|d|] == '.';
    assert t[|d| + 1..] == rest;
  }

  /** The engine's IP group over four digit runs ends where the quad ends. */
  lemma IpEndOfQuad(s: string, p: nat, q: nat, d1: string, d2: string, d3: string, d4: string)
    requires p <= q <= |s|
    requires s[p..q] == d1 + "." + d2 + "." + d3 + "." + d4
    requires IsDigitRun(d1) && IsDigitRun(d2) && IsDigitRun(d3) && IsDigitRun(d4)
    requires q == |s| || !IsDigit(s[q])
    ensures IpEnd(s, p) == Some(q)
  {
    DottedQuadSlices(s, p, q, d1, d2, d3, d4);
    var i2 := p + |d1| + 1;
    var i3 := i2 + |d2| + 1;
    var i4 := i3 + |d3| + 1;
    IpEndAt(s, p, i2, i3, i4, q);
  }

  /** The same, with the runs given by their positions. */
  lemma IpEndAt(s: string, p: nat, i2: nat, i3: nat, i4: nat, q: nat)
    requires p < i2 - 1 && i2 < i3 - 1 && i3 < i4 - 1 && i4 < q <= |s|
    requires AllIn(s, p, i2 - 1, IsDigit) && s[i2 - 1] == '.'
    requires AllIn(s, i2, i3 - 1, IsDigit) && s[i3 - 1] == '.'
    requires AllIn(s, i3, i4 - 1, IsDigit) && s[i4 - 1] == '.'
    requires AllIn(s, i4, q, IsDigit)
    requires q == |s| || !IsDigit(s[q])
    ensures IpEnd(s, p) == Some(q)
  {
    DigitsThenDotAt(s, p, i2);
    DigitsThenDotAt(s, i2, i3);
    DigitsThenDotAt(s, i3, i4);
    SpanIsLongest(s, i4, q - i4, IsDigit);
  }

  /** A digit run ending at a dot is exactly what `\d+\.` consumes. */
  lemma DigitsThenDotAt(s: string, i: nat, j: nat)
    requires i < j - 1 && j <= |s|
    requires AllIn(s, i, j - 1, IsDigit) && s[j - 1] == '.'
    ensures DigitsThenDot(s, i) == Some(j)
  {
    SpanIsLongest(s, i, j - 1 - i, IsDigit);
  }

  /** The IP group has only one end that the first `\s+` can follow. */
  lemma IpEndUnique(s: string, p: nat, q: nat)
    requires p < q <= |s|
    requires IsIpv4Shaped(s[p..q])
    requires q == |s| || !IsDigit(s[q])
    ensures IpEnd(s, p) == Some(q)
  {
    var f := Split(s[p..q], '.');
    JoinFour(f[0], f[1], f[2], f[3], '.');
    assert [f[0], f[1], f[2], f[3]] == f;
    IpEndOfQuad(s, p, q, f[0], f[1], f[2], f[3]);
  }

  /**
   * An attempt at `p` succeeds exactly when the pattern fits somewhere at
   * `p`, and then it reports the fit the engine tries first.
   */
  lemma MatchAtIsFirst(s: string, p: nat)
    requires p <= |s|
    ensures MatchAt(s, p).Some? <==> HasMatchAt(s, p)
    ensures MatchAt(s, p).Some? ==> IsFirstMatch(s, MatchAt(s, p).value)
  {
    forall m: Match | m.start == p && IsMatch(s, m)
      ensures MatchAt(s, p).Some? && TriedNoLater(MatchAt(s, p).value, m)
    {
      IpEndUnique(s, p, m.ipEnd);
      SpanIsLongest(s, m.ipEnd, m.a, IsSpace);
    }
  }

  /** The outcome of `r` for an attempt at `p`: a match exactly when one fits, and then the first. */
  ghost predicate IsAttempt(s: string, p: nat, r: Option<Match>) {
    && (r.Some? <==> HasMatchAt(s, p))
    && (r.Some? ==> r.value.start == p && IsFirstMatch(s, r.value))
  }

  /** The attempt at every position of the text, `0` to `|s|` inclusive. */
  function Attempts(s: string): (at: seq<Option<Match>>)
    ensures |at| == |s| + 1
    ensures forall p :: 0 <= p <= |s| && at[p].Some? ==> at[p].value.start == p && IsMatch(s, at[p].value)
  {
    seq(|s| + 1, p requires 0 <= p <= |s| => MatchAt(s, p))
  }

  /** Each precomputed attempt is what the engine reports at that position. */
  lemma AttemptsAreAttempts(s: string)
    ensures forall p :: 0 <= p <= |s| ==> IsAttempt(s, p, Attempts(s)[p])
  {
    forall p | 0 <= p <= |s|
      ensures IsAttempt(s, p, Attempts(s)[p])
    {
      MatchAtIsFirst(s, p);
    }
  }

  /** Attempt results that are sound matches at their own positions. */
  predicate SoundAttempts(s: string, at: seq<Option<Match>>) {
    && |at| == |s| + 1
    && forall p :: 0 <= p <= |s| && at[p].Some? ==> at[p].value.start == p && IsMatch(s, at[p].value)
  }

  /** `findall`: take the attempt at each position in turn, resuming after every match. */
  function FindAll(s: string, at: seq<Option<Match>>, from: nat): (ms: seq<Match>)
    requires SoundAttempts(s, at)
    requires from <= |s|
    ensures forall i :: 0 <= i < |ms| ==> IsMatch(s, ms[i]) && from <= ms[i].start
    ensures forall i, j :: 0 <= i < j < |ms| ==> ms[i].End() <= ms[j].start
    decreases |s| - from
  {
    if from == |s| then []
    else
      match at[from]
      case None => FindAll(s, at, from + 1)
      case Some(m) => [m] + FindAll(s, at, m.End())
  }

  /** Given the engine's attempts, `FindAll` reports exactly what `findall` is specified to report. */
  lemma {:induction false} FindAllIsFindAll(s: string, at: seq<Option<Match>>, from: nat)
    requires SoundAttempts(s, at)
    requires forall p :: 0 <= p <= |s| ==> IsAttempt(s, p, at[p])
    requires from <= |s|
    ensures IsFindAll(s, from, FindAll(s, at, from))
    decreases |s| - from
  {
    if from < |s| {
      assert IsAttempt(s, from, at[from]);
      match at[from]
      case None =>
        FindAllIsFindAll(s, at, from + 1);
        FindAllSkips(s, at, from);
      case Some(m) =>
        FindAllIsFindAll(s, at, m.End());
        FindAllTakes(s, at, from, m);
    }
  }

  /** A failed attempt at `from` adds nothing to what `findall` reports from `from + 1`. */
  lemma FindAllSkips(s: string, at: seq<Option<Match>>, from: nat)
    requires SoundAttempts(s, at) && from < |s| && at[from].None?
    requires IsAttempt(s, from, at[from])
    requires IsFindAll(s, from + 1, FindAll(s, at, from + 1))
    ensures IsFindAll(s, from, FindAll(s, at, from))
  {
    ReportsSkip(FirstIn(s), FoundIn(s), from, FindAll(s, at, from + 1));
  }

  /** A successful attempt at `from` comes first, followed by what `findall` reports from its end. */
  lemma FindAllTakes(s: string, at: seq<Option<Match>>, from: nat, m: Match)
    requires SoundAttempts(s, at) && from < |s| && at[from] == Some(m)
    requires IsAttempt(s, from, at[from])
    requires IsFindAll(s, m.End(), FindAll(s, at, m.End()))
    ensures IsFindAll(s, from, FindAll(s, at, from))
  {
    ReportsCons(FirstIn(s), FoundIn(s), from, m, FindAll(s, at, m.End()));
  }

  /** A position where no attempt succeeds can be left out of the scan. */
  lemma ReportsSkip(first: Match -> bool, found: int -> bool, from: nat, ms: seq<Match>)
    requires !found(from)
    requires Reports(first, found, from + 1, ms)
    ensures Reports(first, found, from, ms)
  {
    forall p | from <= p && found(p)
      ensures Covers(ms, p)
    {
      assert from + 1 <= p;
    }
  }

  /** A first match at `from` followed by what `findall` reports from its end is what it reports from `from`. */
  lemma ReportsCons(first: Match -> bool, found: int -> bool, from: nat, m: Match, rest: seq<Match>)
    requires first(m) && m.start == from && m.start < m.End()
    requires Reports(first, found, m.End(), rest)
    ensures Reports(first, found, from, [m] + rest)
  {
    var ms := [m] + rest;
    forall i | 0 <= i < |ms|
      ensures first(ms[i]) && from <= ms[i].start < ms[i].End()
    {
      if i > 0 {
        assert ms[i] == rest[i - 1];
      }
    }
    forall i, j | 0 <= i < j < |ms|
      ensures ms[i].End() <= ms[j].start
    {
      assert ms[j] == rest[j - 1];
      if i > 0 {
        assert ms[i] == rest[i - 1];
      }
    }
    forall p | from <= p && found(p)
      ensures Covers(ms, p)
    {
      if p < m.End() {
        assert ms[0].start <= p < ms[0].End();
      } else {
        var i :| 0 <= i < |rest| && rest[i].start <= p < rest[i].End();
        assert ms[i + 1] == rest[i];
      }
    }
  }

  /** After its first match, what `findall` reports is what it reports from that match's end. */
  lemma ReportsTail(first: Match -> bool, found: int -> bool, from: nat, ms: seq<Match>)
    requires Reports(first, found, from, ms) && |ms| > 0
    ensures Reports(first, found, ms[0].End(), ms[1..])
  {
    var rest := ms[1..];
    forall i | 0 <= i < |rest|
      ensures first(rest[i]) && ms[0].End() <= rest[i].start < rest[i].End()
    {
      assert rest[i] == ms[i + 1];
    }
    forall p | ms[0].End() <= p && found(p)
      ensures Covers(rest, p)
    {
      var i :| 0 <= i < |ms| && ms[i].start <= p < ms[i].End();
      assert i > 0;
      assert rest[i - 1] == ms[i];
    }
  }

  /** The first reported match starts at the leftmost position where an attempt succeeds. */
  lemma ReportsFirstIsLeftmost(first: Match -> bool, found: int -> bool, from: nat, ms: seq<Match>, p: nat)
    requires Reports(first, found, from, ms)
    requires from <= p && found(p)
    ensures |ms| > 0 && ms[0].start <= p
  {
    var j :| 0 <= j < |ms| && ms[j].start <= p < ms[j].End();
    if j > 0 {
      assert ms[0].End() <= ms[j].start;
    }
  }

  /** Two reports from one position begin alike: both are empty, or both begin with the same match. */
  lemma ReportsSameHead(first: Match -> bool, found: int -> bool, from: nat, ms1: seq<Match>, ms2: seq<Match>)
    requires forall m :: first(m) ==> found(m.start)
    requires forall m1, m2 :: first(m1) && first(m2) && m1.start == m2.start ==> m1 == m2
    requires Reports(first, found, from, ms1) && Reports(first, found, from, ms2)
    ensures |ms1| > 0 <==> |ms2| > 0
    ensures |ms1| > 0 ==> ms1[0] == ms2[0]
  {
    if |ms1| > 0 {
      ReportsFirstIsLeftmost(first, found, from, ms2, ms1[0].start);
    }
    if |ms2| > 0 {
      ReportsFirstIsLeftmost(first, found, from, ms1, ms2[0].start);
    }
  }

  /**
   * When every first match marks a successful attempt and one start has at
   * most one first match, the report is determined by the starting position.
   */
  lemma {:induction false} ReportsUnique(first: Match -> bool, found: int -> bool, from: nat, ms1: seq<Match>, ms2: seq<Match>)
    requires forall m :: first(m) ==> found(m.start)
    requires forall m1, m2 :: first(m1) && first(m2) && m1.start == m2.start ==> m1 == m2
    requires Reports(first, found, from, ms1) && Reports(first, found, from, ms2)
    ensures ms1 == ms2
    decreases |ms1|
  {
    ReportsSameHead(first, found, from, ms1, ms2);
    if |ms1| > 0 {
      ReportsTail(first, found, from, ms1);
      ReportsTail(first, found, from, ms2);
      ReportsUnique(first, found, ms1[0].End(), ms1[1..], ms2[1..]);
      HeadTailEqual(ms1, ms2);
    }
  }

  lemma HeadTailEqual<T>(xs: seq<T>, ys: seq<T>)
    requires |xs| > 0 && |ys| > 0 && xs[0] == ys[0] && xs[1..] == ys[1..]
    ensures xs == ys
  {
    assert xs == [xs[0]] + xs[1..];
    assert ys == [ys[0]] + ys[1..];
  }

  /** A match found at a position shows that an attempt there succeeds. */
  lemma MatchWitness(s: string, m: Match)
    requires IsMatch(s, m)
    ensures HasMatchAt(s, m.start)
  {
  }

  /** Two first matches at one start are the same match. */
  lemma FirstMatchUnique(s: string, m1: Match, m2: Match)
    requires IsFirstMatch(s, m1) && IsFirstMatch(s, m2) && m1.start == m2.start
    ensures m1 == m2
  {
    assert TriedNoLater(m1, m2) && TriedNoLater(m2, m1);
  }

  /** What `findall` reports is determined by the text and the starting position. */
  lemma FindAllUnique(s: string, from: nat, ms1: seq<Match>, ms2: seq<Match>)
    requires IsFindAll(s, from, ms1) && IsFindAll(s, from, ms2)
    ensures ms1 == ms2
  {
    forall m | FirstIn(s)(m)
      ensures FoundIn(s)(m.start)
    {
      MatchWitness(s, m);
    }
    forall m1, m2 | FirstIn(s)(m1) && FirstIn(s)(m2) && m1.start == m2.start
      ensures m1 == m2
    {
      FirstMatchUnique(s, m1, m2);
    }
    ReportsUnique(FirstIn(s), FoundIn(s), from, ms1, ms2);
  }

  /** Every match's IP group consists of digits and dots only. */
  lemma MatchIpChars(s: string, m: Match)
    requires IsMatch(s, m)
    ensures AllIn(s, m.start, m.ipEnd, IsDigitOrDot)
  {
    IpEndUnique(s, m.start, m.ipEnd);
  }

  /** A captured MAC after `.lower()`: 17 characters of `[0-9a-f:]`. */
  predicate IsMacText(mac: string) {
    |mac| == MacLength && AllIn(mac, 0, |mac|, IsLowerHexOrColon)
  }

  /** The `(ip, mac.lower())` pair a match contributes. */
  function EntryOf(s: string, m: Match): (e: Entry)
    requires m.start <= m.ipEnd && m.End() <= |s|
  {
    Entry(s[m.start..m.ipEnd], Lower(s[m.MacStart()..m.End()]))
  }

  /** Lower-casing a `[0-9a-fA-F:]` run yields a `[0-9a-f:]` run. */
  lemma LowerHexRun(x: string)
    requires AllIn(x, 0, |x|, IsHexOrColon)
    ensures AllIn(Lower(x), 0, |x|, IsLowerHexOrColon)
  {
    forall k | 0 <= k < |x|
      ensures IsLowerHexOrColon(Lower(x)[k])
    {
      LowerKeepsClasses(x[k]);
    }
  }

  /** All matches of the pattern in the text, in the order `findall` reports them. */
  function Matches(text: string): (ms: seq<Match>)
    ensures forall i :: 0 <= i < |ms| ==> IsMatch(text, ms[i])
    ensures forall i, j :: 0 <= i < j < |ms| ==> ms[i].End() <= ms[j].start
  {
    FindAll(text, Attempts(text), 0)
  }

  /** `Matches` is the `findall` result over the whole text. */
  lemma MatchesIsFindAll(text: string)
    ensures IsFindAll(text, 0, Matches(text))
  {
    AttemptsAreAttempts(text);
    FindAllIsFindAll(text, Attempts(text), 0);
  }

  /**
   * The entry parser of `scan_network`: the pairs `findall` captures over the
   * whole `arp -n` text, in text order, each MAC lower-cased.
   */
  function Parse(text: string): (entries: seq<Entry>)
    ensures |entries| == |Matches(text)|
    ensures forall i :: 0 <= i < |entries| ==> IsIpv4Shaped(entries[i].ip) && IsMacText(entries[i].mac)
  {
    var ms := Matches(text);
    seq(|ms|, i requires 0 <= i < |ms| =>
      LowerHexRun(text[ms[i].MacStart()..ms[i].End()]);
      EntryOf(text, ms[i]))
  }

  /** `scan_network` finds no entry exactly when the pattern fits at no position of the text. */
  lemma ParseEmptyIffNoMatch(text: string)
    ensures Parse(text) == [] <==> forall p: int :: !HasMatchAt(text, p)
  {
    var ms := Matches(text);
    MatchesIsFindAll(text);
    assert forall p: int :: FoundIn(text)(p) == HasMatchAt(text, p);
    if ms != [] {
      assert HasMatchAt(text, ms[0].start);
    }
  }

  /** The first reported match, if any, has a dotted quad as its IP group. */
  lemma FirstMatchHasQuad(text: string)
    ensures |Matches(text)| > 0 ==>
      var m := Matches(text)[0]; m.start < m.ipEnd <= |text| && IsIpv4Shaped(text[m.start..m.ipEnd])
  {
  }

  /** Text in which no stretch is a dotted quad yields no entry, whatever else it holds. */
  lemma ParseWithoutDottedQuad(text: string)
    requires forall i, j :: 0 <= i < j <= |text| ==> !IsIpv4Shaped(text[i..j])
    ensures Parse(text) == []
  {
    FirstMatchHasQuad(text);
  }

  /** Text without a digit, such as the header line of `arp -n`, yields no entry. */
  lemma ParseWithoutDigits(text: string)
    requires forall i :: 0 <= i < |text| ==> !IsDigit(text[i])
    ensures Parse(text) == []
  {
    forall i, j | 0 <= i < j <= |text|
      ensures !IsIpv4Shaped(text[i..j])
    {
      if IsIpv4Shaped(text[i..j]) {
        ShapedChars(text[i..j]);
        ShapedStartsWithDigit(text[i..j]);
      }
    }
    ParseWithoutDottedQuad(text);
  }

  /** A dotted quad begins with a digit. */
  lemma ShapedStartsWithDigit(t: string)
    requires IsIpv4Shaped(t)
    ensures |t| > 0 && IsDigit(t[0])
  {
    var f := Split(t, '.');
    JoinFour(f[0], f[1], f[2], f[3], '.');
    assert [f[0], f[1], f[2], f[3]] == f;
    assert t[0] == f[0][0];
  }

  /** Between the IP and the MAC a match holds two whitespace characters: one per `\s+`. */
  lemma MatchHasTwoSpaces(s: string, m: Match)
    requires IsMatch(s, m)
    ensures m.ipEnd < m.ipEnd + m.a + m.b < m.MacStart()
    ensures IsSpace(s[m.ipEnd]) && IsSpace(s[m.ipEnd + m.a + m.b])
  {
  }

  /** A match has a digit, then whitespace, then later another whitespace character right before its MAC. */
  lemma MatchSeparators(s: string, m: Match)
    requires IsMatch(s, m)
    ensures 0 < m.ipEnd && m.ipEnd + 1 < m.MacStart() <= |s|
    ensures IsDigit(s[m.ipEnd - 1]) && IsSpace(s[m.ipEnd]) && IsSpace(s[m.MacStart() - 1])
    ensures HexRunAt(s, m.MacStart())
  {
    MatchHasTwoSpaces(s, m);
    IpEndUnique(s, m.start, m.ipEnd);
  }

  /**
   * The two `\s+` need two distinct whitespace characters between a digit and
   * a MAC-shaped run: text in which no whitespace character directly before a
   * MAC-shaped run comes after an earlier whitespace character that directly
   * follows a digit yields no entry. So an `arp -n` line whose IP and MAC are one space apart yields
   * nothing unless later text, on that line or a later one, has whitespace
   * followed by a MAC-shaped run; then the match crosses over to that run.
   */
  lemma ParseNeedsTwoSeparators(text: string)
    requires forall i, k :: 0 < i && i + 1 < k <= |text| && IsDigit(text[i - 1]) && IsSpace(text[i]) && IsSpace(text[k - 1]) ==> !HexRunAt(text, k)
    ensures Parse(text) == []
  {
    var ms := Matches(text);
    if |ms| > 0 {
      MatchSeparators(text, ms[0]);
    }
  }

  /**
   * Greedy `.*`: a MAC-shaped run after the captured one, preceded by
   * whitespace, is only left behind when a line break lies before it.
   */
  lemma LaterCandidateIsPastNewline(s: string, m: Match, k: nat)
    requires IsFirstMatch(s, m)
    requires m.MacStart() < k && HexRunAt(s, k) && IsSpace(s[k - 1])
    ensures !AllIn(s, m.ipEnd + m.a, k - 1, NotNewline)
  {
    var later := Match(m.start, m.ipEnd, m.a, k - 1 - m.ipEnd - m.a, 1);
    if AllIn(s, m.ipEnd + m.a, k - 1, NotNewline) {
      assert later.MacStart() == k;
      assert IsMatch(s, later);
    }
  }

  /** A dotted quad consists of digits and dots only. */
  lemma ShapedChars(t: string)
    requires IsIpv4Shaped(t)
    ensures AllIn(t, 0, |t|, IsDigitOrDot)
  {
    var f := Split(t, '.');
    JoinFour(f[0], f[1], f[2], f[3], '.');
    assert [f[0], f[1], f[2], f[3]] == f;
    var dot := ".";
    AllInConcat(f[0], dot, IsDigitOrDot);
    AllInConcat(f[0] + dot, f[1], IsDigitOrDot);
    AllInConcat(f[0] + dot + f[1], dot, IsDigitOrDot);
    AllInConcat(f[0] + dot + f[1] + dot, f[2], IsDigitOrDot);
    AllInConcat(f[0] + dot + f[1] + dot + f[2], dot, IsDigitOrDot);
    AllInConcat(f[0] + dot + f[1] + dot + f[2] + dot, f[3], IsDigitOrDot);
  }

  /** Lower-casing changes nothing in a string of digits and dots. */
  lemma LowerKeepsDigitsAndDots(t: string)
    requires AllIn(t, 0, |t|, IsDigitOrDot)
    ensures Lower(t) == t
  {
  }

  /** Lower-casing does not make or unmake a dotted quad. */
  lemma ShapedUnderLower(t: string)
    ensures IsIpv4Shaped(Lower(t)) <==> IsIpv4Shaped(t)
  {
    if IsIpv4Shaped(t) {
      ShapedChars(t);
      LowerKeepsDigitsAndDots(t);
    }
    if IsIpv4Shaped(Lower(t)) {
      ShapedChars(Lower(t));
      forall k | 0 <= k < |t|
        ensures IsDigitOrDot(t[k])
      {
        LowerKeepsClasses(t[k]);
      }
      LowerKeepsDigitsAndDots(t);
    }
  }

  /** The tail of the pattern fits lower-cased text exactly where it fits the original. */
  lemma TailFitsUnderLower(s: string, m: Match)
    ensures TailFits(Lower(s), m) <==> TailFits(s, m)
  {
    forall c: char
      ensures IsSpace(LowerChar(c)) == IsSpace(c)
      ensures NotNewline(LowerChar(c)) == NotNewline(c)
      ensures IsHexOrColon(LowerChar(c)) == IsHexOrColon(c)
    {
      LowerKeepsClasses(c);
    }
    if m.End() <= |s| {
      AllInUnderLower(s, m.ipEnd, m.ipEnd + m.a, IsSpace);
      AllInUnderLower(s, m.ipEnd + m.a, m.ipEnd + m.a + m.b, NotNewline);
      AllInUnderLower(s, m.ipEnd + m.a + m.b, m.MacStart(), IsSpace);
      AllInUnderLower(s, m.MacStart(), m.End(), IsHexOrColon);
    }
  }

  /** The pattern fits lower-cased text exactly where it fits the original. */
  lemma IsMatchUnderLower(s: string, m: Match)
    ensures IsMatch(Lower(s), m) <==> IsMatch(s, m)
  {
    TailFitsUnderLower(s, m);
    if m.start < m.ipEnd <= |s| {
      assert Lower(s)[m.start..m.ipEnd] == Lower(s[m.start..m.ipEnd]);
      ShapedUnderLower(s[m.start..m.ipEnd]);
    }
  }

  /** Reports over equivalent notions of first match and successful attempt are the same reports. */
  lemma ReportsTransfer(first1: Match -> bool, found1: int -> bool, first2: Match -> bool, found2: int -> bool, from: nat, ms: seq<Match>)
    requires forall m :: first1(m) == first2(m)
    requires forall p :: found1(p) == found2(p)
    requires Reports(first1, found1, from, ms)
    ensures Reports(first2, found2, from, ms)
  {
  }

  /** A first match of lower-cased text is a first match of the original, and back. */
  lemma FirstMatchUnderLower(s: string, m: Match)
    ensures IsFirstMatch(Lower(s), m) <==> IsFirstMatch(s, m)
    ensures HasMatchAt(Lower(s), m.start) <==> HasMatchAt(s, m.start)
  {
    forall m': Match
      ensures IsMatch(Lower(s), m') <==> IsMatch(s, m')
    {
      IsMatchUnderLower(s, m');
    }
  }

  /** `findall` reports the same matches on lower-cased text. */
  lemma MatchesUnderLower(s: string)
    ensures Matches(Lower(s)) == Matches(s)
  {
    forall m: Match
      ensures FirstIn(Lower(s))(m) == FirstIn(s)(m)
    {
      FirstMatchUnderLower(s, m);
    }
    forall p: int
      ensures FoundIn(Lower(s))(p) == FoundIn(s)(p)
    {
      if p >= 0 {
        FirstMatchUnderLower(s, Match(p, 0, 0, 0, 0));
      } else {
        assert !HasMatchAt(s, p) && !HasMatchAt(Lower(s), p);
      }
    }
    MatchesIsFindAll(s);
    MatchesIsFindAll(Lower(s));
    ReportsTransfer(FirstIn(s), FoundIn(s), FirstIn(Lower(s)), FoundIn(Lower(s)), 0, Matches(s));
    FindAllUnique(Lower(s), 0, Matches(Lower(s)), Matches(s));
  }

  /** The entry a match contributes is the same on lower-cased text. */
  lemma EntryUnderLower(text: string, m: Match)
    requires IsMatch(text, m)
    ensures EntryOf(Lower(text), m) == EntryOf(text, m)
  {
    MatchIpChars(text, m);
    assert Lower(text)[m.start..m.ipEnd] == Lower(text[m.start..m.ipEnd]);
    LowerKeepsDigitsAndDots(text[m.start..m.ipEnd]);
    assert Lower(text)[m.MacStart()..m.End()] == Lower(text[m.MacStart()..m.End()]);
    LowerIsIdempotent(text[m.MacStart()..m.End()]);
  }

  /**
   * The parser ignores letter case: upper-case MACs in the table give the
   * same lower-case entries, and so the same hostnames downstream.
   */
  lemma ParseIgnoresCase(text: string)
    ensures Parse(Lower(text)) == Parse(text)
  {
    MatchesUnderLower(text);
    var ms := Matches(text);
    forall i | 0 <= i < |ms|
      ensures Parse(Lower(text))[i] == Parse(text)[i]
    {
      EntryUnderLower(text, ms[i]);
    }
  }
}
