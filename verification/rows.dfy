/**
 * The pure part of `OptoScanner.do_scan`: the vendor filter over parsed ARP
 * entries and the three table cells built for each entry it keeps.
 */
module Rows {
  import opened Wrappers
  import opened Text
  import opened Fields
  import opened Addresses
  import opened ArpTable
  import opened Hostnames

  /** `MAC_PREFIXES` as configured. */
  const RawPrefixes: seq<string> := ["00:a0:3d", "6c:bf:b5", "b8:27:eb"]

  /** `MAC_PREFIXES` after the module-level `[p.lower() for p in MAC_PREFIXES]`. */
  const MacPrefixes: seq<string> := LowerAll(RawPrefixes)

  /**
   * `[p.lower() for p in ps]`: each prefix lower-cased, in place. The results
   * are in lower-case normal form, the form in which `scan_network` delivers
   * every MAC.
   */
  function LowerAll(ps: seq<string>): (lowered: seq<string>)
    ensures |lowered| == |ps|
    ensures forall i :: 0 <= i < |ps| ==> lowered[i] == Lower(ps[i])
    ensures forall i :: 0 <= i < |ps| ==> Lower(lowered[i]) == lowered[i]
    ensures forall i, k :: 0 <= i < |ps| && 0 <= k < |lowered[i]| ==> !('A' <= lowered[i][k] <= 'Z')
  {
    var lowered := seq(|ps|, i requires 0 <= i < |ps| => Lower(ps[i]));
    forall i | 0 <= i < |ps|
      ensures Lower(lowered[i]) == lowered[i]
      ensures forall k :: 0 <= k < |lowered[i]| ==> !('A' <= lowered[i][k] <= 'Z')
    {
      LowerIsIdempotent(ps[i]);
    }
    lowered
  }

  /** A prefix of a string stays a prefix once both are lower-cased. */
  lemma PrefixUnderLower(p: string, s: string)
    requires p <= s
    ensures Lower(p) <= Lower(s)
  {
    assert Lower(p) == Lower(s)[..|p|];
  }

  /**
   * Lowering the prefixes makes the filter blind to letter case: a MAC
   * passes the lowered filter once lower-cased exactly when, with both
   * lower-cased, it starts with some configured prefix. So a prefix
   * configured as `B8:27:EB` matches the MAC `b8:27:eb:11:22:33` that
   * `scan_network` delivers.
   */
  lemma LoweredFilterIgnoresCase(mac: string, ps: seq<string>)
    ensures AnyPrefix(Lower(mac), LowerAll(ps)) <==> exists i :: 0 <= i < |ps| && Lower(ps[i]) <= Lower(mac)
    ensures (exists i :: 0 <= i < |ps| && ps[i] <= mac) ==> AnyPrefix(Lower(mac), LowerAll(ps))
  {
    if i :| 0 <= i < |ps| && ps[i] <= mac {
      PrefixUnderLower(ps[i], mac);
      assert LowerAll(ps)[i] <= Lower(mac);
    }
  }

  /** Text of the IP cell of a link-local address. */
  const LinkLocalText: string := "(link-local)"

  const UrlScheme: string := "https://"
  const UrlPath: string := "/commissioning/welcome.html"

  /** One table item: its text and the URL stored under `Qt.UserRole`, if any. */
  datatype Cell = Cell(text: string, url: Option<string>) {
    /** The source colours an item blue exactly when it stores a URL. */
    predicate IsLink() {
      url.Some?
    }
  }

  /** The three columns of one table row. */
  datatype Row = Row(host: Cell, mac: Cell, ip: Cell)

  /** `any(mac.startswith(p) for p in prefixes)`. */
  function AnyPrefix(mac: string, prefixes: seq<string>): (b: bool)
    ensures b <==> exists i :: 0 <= i < |prefixes| && prefixes[i] <= mac
    decreases |prefixes|
  {
    if prefixes == [] then false
    else if prefixes[0] <= mac then true
    else
      var b := AnyPrefix(mac, prefixes[1..]);
      assert forall i :: 1 <= i < |prefixes| ==> prefixes[i] == prefixes[1..][i - 1];
      b
  }

  /** `f"https://{host}/commissioning/welcome.html"`. */
  function WelcomeUrl(host: string): (url: string)
    ensures |url| == |UrlScheme| + |host| + |UrlPath|
  {
    UrlScheme + host + UrlPath
  }

  /** The host a welcome URL points at, or `None` for any other string. */
  function UrlHost(url: string): (host: Option<string>)
    ensures host.Some? ==> |host.value| == |url| - |UrlScheme| - |UrlPath|
  {
    if |UrlScheme| + |UrlPath| <= |url| && url[..|UrlScheme|] == UrlScheme && url[|url| - |UrlPath|..] == UrlPath
    then Some(url[|UrlScheme|..|url| - |UrlPath|])
    else None
  }

  /** A string is the welcome URL of `host` exactly when `UrlHost` reads `host` back out of it. */
  lemma WelcomeUrlInverse(url: string, host: string)
    ensures UrlHost(url) == Some(host) <==> url == WelcomeUrl(host)
  {
    if url == WelcomeUrl(host) {
      assert url[..|UrlScheme|] == UrlScheme;
      assert url[|url| - |UrlPath|..] == UrlPath;
      assert url[|UrlScheme|..|url| - |UrlPath|] == host;
    }
    if UrlHost(url) == Some(host) {
      assert url == url[..|UrlScheme|] + url[|UrlScheme|..|url| - |UrlPath|] + url[|url| - |UrlPath|..];
    }
  }

  /** The IP column: `(link-local)` without a URL, or the address linking to its own welcome page. */
  function IpCell(ip: string): (c: Cell)
    ensures c.IsLink() <==> !IsLinkLocal(ip)
  {
    if IsLinkLocal(ip) then Cell(LinkLocalText, None)
    else Cell(ip, Some(WelcomeUrl(ip)))
  }

  /** The row for one kept entry; the hostname and MAC cells both open the hostname's page. */
  function MakeRow(e: Entry): (r: Row)
    requires |Split(e.mac, ':')| >= 3
    ensures r.host.IsLink() && r.mac.IsLink() && r.mac.url == r.host.url
    ensures r.ip.IsLink() <==> !IsLinkLocal(e.ip)
  {
    var hostname := Hostname(e.mac);
    Row(Cell(hostname, Some(WelcomeUrl(hostname))), Cell(e.mac, Some(WelcomeUrl(hostname))), IpCell(e.ip))
  }

  /**
   * What each cell of a row shows and where it leads: the hostname and MAC
   * cells lead to the hostname's page, the IP cell to the address's own page
   * unless the address is link-local, in which case it shows `(link-local)`
   * and leads nowhere.
   */
  lemma RowCells(e: Entry)
    requires |Split(e.mac, ':')| >= 3
    ensures var r := MakeRow(e);
      && r.host.text == Hostname(e.mac)
      && r.mac.text == e.mac
      && r.host.url.Some? && UrlHost(r.host.url.value) == Some(Hostname(e.mac))
      && r.mac.url == r.host.url
      && (IsLinkLocal(e.ip) <==> r.ip.url.None?)
      && (IsLinkLocal(e.ip) ==> r.ip.text == LinkLocalText)
      && (!IsLinkLocal(e.ip) ==> r.ip.text == e.ip && r.ip.url.Some? && UrlHost(r.ip.url.value) == Some(e.ip))
  {
    var hostname := Hostname(e.mac);
    WelcomeUrlInverse(WelcomeUrl(hostname), hostname);
    WelcomeUrlInverse(WelcomeUrl(e.ip), e.ip);
  }

  /** Every entry the filter keeps has a MAC `generate_hostname` can split. */
  ghost predicate HostnamesDefined(entries: seq<Entry>, prefixes: seq<string>) {
    forall i :: 0 <= i < |entries| && AnyPrefix(entries[i].mac, prefixes) ==> |Split(entries[i].mac, ':')| >= 3
  }

  /** The loop of `do_scan`: skip entries whose MAC has no configured prefix, add a row for each other one. */
  function BuildRows(entries: seq<Entry>, prefixes: seq<string>): (rows: seq<Row>)
    requires HostnamesDefined(entries, prefixes)
    ensures |rows| <= |entries|
    ensures rows == [] <==> forall i :: 0 <= i < |entries| ==> !AnyPrefix(entries[i].mac, prefixes)
    decreases |entries|
  {
    if entries == [] then []
    else
      var rest := BuildRows(entries[1..], prefixes);
      assert forall i :: 1 <= i < |entries| ==> entries[1..][i - 1] == entries[i];
      if AnyPrefix(entries[0].mac, prefixes) then [MakeRow(entries[0])] + rest else rest
  }

  /** The configured prefixes are already lower-case, so lower-casing them changes nothing. */
  lemma MacPrefixesAreRaw()
    ensures MacPrefixes == RawPrefixes
  {
    assert Lower("00:a0:3d") == "00:a0:3d";
    assert Lower("6c:bf:b5") == "6c:bf:b5";
    assert Lower("b8:27:eb") == "b8:27:eb";
  }

  /** Each configured prefix is three two-digit octets joined by colons. */
  lemma MacPrefixesAreOctets()
    ensures forall i :: 0 <= i < |MacPrefixes| ==> |MacPrefixes[i]| == 8 && MacPrefixes[i][2] == ':' && MacPrefixes[i][5] == ':'
  {
    MacPrefixesAreRaw();
  }

  /** Any MAC that starts with a configured prefix has at least three fields, so `do_scan` never raises `IndexError`. */
  lemma ConfiguredHostnamesDefined(entries: seq<Entry>)
    ensures HostnamesDefined(entries, MacPrefixes)
  {
    MacPrefixesAreOctets();
    forall i | 0 <= i < |entries| && AnyPrefix(entries[i].mac, MacPrefixes)
      ensures |Split(entries[i].mac, ':')| >= 3
    {
      var j :| 0 <= j < |MacPrefixes| && MacPrefixes[j] <= entries[i].mac;
      CountAtLeastTwo(entries[i].mac, ':', 2, 5);
      SplitCount(entries[i].mac, ':');
    }
  }

  /** Building rows distributes over concatenation of the entry list: order is kept and nothing is merged. */
  lemma {:induction false} BuildRowsAppend(xs: seq<Entry>, ys: seq<Entry>, prefixes: seq<string>)
    requires HostnamesDefined(xs + ys, prefixes)
    ensures HostnamesDefined(xs, prefixes) && HostnamesDefined(ys, prefixes)
    ensures BuildRows(xs + ys, prefixes) == BuildRows(xs, prefixes) + BuildRows(ys, prefixes)
    decreases |xs|
  {
    HostnamesDefinedAppend(xs, ys, prefixes);
    if xs == [] {
      assert xs + ys == ys;
    } else {
      var zs := xs + ys;
      assert zs[0] == xs[0];
      assert zs[1..] == xs[1..] + ys;
      HostnamesDefinedAppend(xs[1..], ys, prefixes);
      BuildRowsAppend(xs[1..], ys, prefixes);
    }
  }

  /** The hostname condition on two entry lists in sequence holds for each of them. */
  lemma HostnamesDefinedAppend(xs: seq<Entry>, ys: seq<Entry>, prefixes: seq<string>)
    requires HostnamesDefined(xs + ys, prefixes)
    ensures HostnamesDefined(xs, prefixes) && HostnamesDefined(ys, prefixes)
  {
    assert forall i :: 0 <= i < |xs| ==> xs[i] == (xs + ys)[i];
    assert forall i :: 0 <= i < |ys| ==> ys[i] == (xs + ys)[|xs| + i];
  }

  /** One more entry either adds its row at the end or, when the filter skips it, changes nothing. */
  lemma BuildRowsStep(entries: seq<Entry>, i: nat, prefixes: seq<string>)
    requires i < |entries| && HostnamesDefined(entries, prefixes)
    ensures HostnamesDefined(entries[..i], prefixes) && HostnamesDefined(entries[..i + 1], prefixes)
    ensures AnyPrefix(entries[i].mac, prefixes) ==>
      BuildRows(entries[..i + 1], prefixes) == BuildRows(entries[..i], prefixes) + [MakeRow(entries[i])]
    ensures !AnyPrefix(entries[i].mac, prefixes) ==>
      BuildRows(entries[..i + 1], prefixes) == BuildRows(entries[..i], prefixes)
  {
    assert forall k :: 0 <= k < i + 1 ==> entries[..i + 1][k] == entries[k];
    assert entries[..i + 1] == entries[..i] + [entries[i]];
    BuildRowsAppend(entries[..i], [entries[i]], prefixes);
    assert [entries[i]][1..] == [];
  }

  /**
   * The rows are exactly the kept entries, in entry order: `idx` lists the
   * positions of the kept entries, strictly increasing, every kept position
   * among them, and row `k` is built from entry `idx[k]`. So no kept entry
   * is dropped, duplicated entries give duplicated rows, and no row comes
   * from an entry the filter skips.
   */
  lemma BuildRowsIndices(entries: seq<Entry>, prefixes: seq<string>) returns (idx: seq<nat>)
    requires HostnamesDefined(entries, prefixes)
    ensures |idx| == |BuildRows(entries, prefixes)|
    ensures forall k :: 0 <= k < |idx| ==> idx[k] < |entries| && AnyPrefix(entries[idx[k]].mac, prefixes)
    ensures forall k :: 0 <= k < |idx| ==> BuildRows(entries, prefixes)[k] == MakeRow(entries[idx[k]])
    ensures forall k, l :: 0 <= k < l < |idx| ==> idx[k] < idx[l]
    ensures forall i :: 0 <= i < |entries| && AnyPrefix(entries[i].mac, prefixes) ==> i in idx
  {
    var keep := KeepFlags(entries, prefixes);
    idx := PositionsBelow(keep, |entries|);
    assert entries[..|entries|] == entries;
    BuildRowsAtPositions(entries, prefixes, keep, |entries|);
    assert RowsAtPositions(entries, prefixes, keep, |entries|);
    PositionsSorted(keep, |entries|);
    forall i | 0 <= i < |entries| && AnyPrefix(entries[i].mac, prefixes)
      ensures i in idx
    {
      PositionsComplete(keep, |entries|, i);
    }
  }

  /** Which entries the vendor filter keeps. */
  function KeepFlags(entries: seq<Entry>, prefixes: seq<string>): (keep: seq<bool>)
    ensures |keep| == |entries|
    ensures forall i :: 0 <= i < |entries| ==> keep[i] == AnyPrefix(entries[i].mac, prefixes)
  {
    seq(|entries|, i requires 0 <= i < |entries| => AnyPrefix(entries[i].mac, prefixes))
  }

  /** The positions below `n` whose flag is set, in increasing order. */
  function PositionsBelow(keep: seq<bool>, n: nat): (idx: seq<nat>)
    requires n <= |keep|
    ensures forall k :: 0 <= k < |idx| ==> idx[k] < n && keep[idx[k]]
  {
    if n == 0 then []
    else if keep[n - 1] then PositionsBelow(keep, n - 1) + [n - 1]
    else PositionsBelow(keep, n - 1)
  }

  /** The positions come in strictly increasing order. */
  lemma {:induction false} PositionsSorted(keep: seq<bool>, n: nat)
    requires n <= |keep|
    ensures forall k, l :: 0 <= k < l < |PositionsBelow(keep, n)| ==> PositionsBelow(keep, n)[k] < PositionsBelow(keep, n)[l]
  {
    if n > 0 {
      PositionsSorted(keep, n - 1);
    }
  }

  /** Every set flag below `n` is listed. */
  lemma {:induction false} PositionsComplete(keep: seq<bool>, n: nat, i: nat)
    requires i < n <= |keep| && keep[i]
    ensures i in PositionsBelow(keep, n)
  {
    if i < n - 1 {
      PositionsComplete(keep, n - 1, i);
    }
  }

  /** Row `k` of the rows for `entries[..n]` is built from the entry at the `k`-th kept position below `n`. */
  ghost predicate RowsAtPositions(entries: seq<Entry>, prefixes: seq<string>, keep: seq<bool>, n: nat)
    requires n <= |entries| && n <= |keep|
  {
    var idx := PositionsBelow(keep, n);
    && HostnamesDefined(entries[..n], prefixes)
    && |BuildRows(entries[..n], prefixes)| == |idx|
    && (forall k :: 0 <= k < |idx| ==> idx[k] < |entries| && |Split(entries[idx[k]].mac, ':')| >= 3)
    && (forall k :: 0 <= k < |idx| ==> BuildRows(entries[..n], prefixes)[k] == MakeRow(entries[idx[k]]))
  }

  /** Every prefix of the entry list has its rows at the kept positions. */
  lemma {:induction false} BuildRowsAtPositions(entries: seq<Entry>, prefixes: seq<string>, keep: seq<bool>, n: nat)
    requires HostnamesDefined(entries, prefixes)
    requires keep == KeepFlags(entries, prefixes) && n <= |entries|
    ensures RowsAtPositions(entries, prefixes, keep, n)
  {
    if n == 0 {
      assert entries[..0] == [];
    } else {
      BuildRowsAtPositions(entries, prefixes, keep, n - 1);
      if keep[n - 1] {
        KeptStep(entries, prefixes, keep, n);
      } else {
        SkippedStep(entries, prefixes, keep, n);
      }
    }
  }

  /** A kept entry appends its row and its position. */
  lemma KeptStep(entries: seq<Entry>, prefixes: seq<string>, keep: seq<bool>, n: nat)
    requires HostnamesDefined(entries, prefixes)
    requires keep == KeepFlags(entries, prefixes) && 0 < n <= |entries| && keep[n - 1]
    requires RowsAtPositions(entries, prefixes, keep, n - 1)
    ensures RowsAtPositions(entries, prefixes, keep, n)
  {
    BuildRowsStep(entries, n - 1, prefixes);
    var before := BuildRows(entries[..n - 1], prefixes);
    var idx := PositionsBelow(keep, n - 1);
    assert AnyPrefix(entries[n - 1].mac, prefixes);
    assert BuildRows(entries[..n], prefixes) == before + [MakeRow(entries[n - 1])];
    assert PositionsBelow(keep, n) == idx + [n - 1];
  }

  /** A skipped entry changes neither the rows nor the positions. */
  lemma SkippedStep(entries: seq<Entry>, prefixes: seq<string>, keep: seq<bool>, n: nat)
    requires HostnamesDefined(entries, prefixes)
    requires keep == KeepFlags(entries, prefixes) && 0 < n <= |entries| && !keep[n - 1]
    requires RowsAtPositions(entries, prefixes, keep, n - 1)
    ensures RowsAtPositions(entries, prefixes, keep, n)
  {
    BuildRowsStep(entries, n - 1, prefixes);
    assert !AnyPrefix(entries[n - 1].mac, prefixes);
    assert BuildRows(entries[..n], prefixes) == BuildRows(entries[..n - 1], prefixes);
    assert PositionsBelow(keep, n) == PositionsBelow(keep, n - 1);
  }

  /** `xs` can be obtained from `ys` by deleting elements. */
  predicate IsSubsequence<T(==)>(xs: seq<T>, ys: seq<T>)
    decreases |ys|
  {
    xs == [] || (ys != [] && ((xs[0] == ys[0] && IsSubsequence(xs[1..], ys[1..])) || IsSubsequence(xs, ys[1..])))
  }

  /** A subsequence is never longer. */
  lemma {:induction false} SubsequenceIsShorter<T>(xs: seq<T>, ys: seq<T>)
    requires IsSubsequence(xs, ys)
    ensures |xs| <= |ys|
    decreases |ys|
  {
    if xs != [] {
      if xs[0] == ys[0] && IsSubsequence(xs[1..], ys[1..]) {
        SubsequenceIsShorter(xs[1..], ys[1..]);
      } else {
        SubsequenceIsShorter(xs, ys[1..]);
      }
    }
  }

  /**
   * Widening the prefix list never removes a row: every prefix of `small`
   * is in `large`, and the rows for `small` are the rows for `large` with
   * some deleted.
   */
  lemma {:induction false} BuildRowsMonotone(entries: seq<Entry>, small: seq<string>, large: seq<string>)
    requires forall i :: 0 <= i < |small| ==> small[i] in large
    requires HostnamesDefined(entries, large)
    ensures HostnamesDefined(entries, small)
    ensures IsSubsequence(BuildRows(entries, small), BuildRows(entries, large))
    ensures |BuildRows(entries, small)| <= |BuildRows(entries, large)|
    decreases |entries|
  {
    forall i | 0 <= i < |entries| && AnyPrefix(entries[i].mac, small)
      ensures AnyPrefix(entries[i].mac, large)
    {
      var j :| 0 <= j < |small| && small[j] <= entries[i].mac;
      var j' :| 0 <= j' < |large| && large[j'] == small[j];
    }
    if entries != [] {
      assert forall i :: 0 <= i < |entries[1..]| ==> entries[1..][i] == entries[i + 1];
      BuildRowsMonotone(entries[1..], small, large);
      var restSmall := BuildRows(entries[1..], small);
      var restLarge := BuildRows(entries[1..], large);
      if AnyPrefix(entries[0].mac, small) {
        assert ([MakeRow(entries[0])] + restSmall)[1..] == restSmall;
        assert ([MakeRow(entries[0])] + restLarge)[1..] == restLarge;
      } else if AnyPrefix(entries[0].mac, large) {
        assert ([MakeRow(entries[0])] + restLarge)[1..] == restLarge;
      }
    }
    SubsequenceIsShorter(BuildRows(entries, small), BuildRows(entries, large));
  }
}
