/**
 * IPv4 address text as the discovery code handles it: the dotted-quad shape
 * the ARP regex accepts, the link-local test, and the ping-sweep address list.
 */
module Addresses {
  import opened Text
  import opened Fields

  /** A non-empty run of ASCII digits: one `\d+`. */
  predicate IsDigitRun(x: string) {
    |x| >= 1 && AllIn(x, 0, |x|, IsDigit)
  }

  /** `\d+\.\d+\.\d+\.\d+` matched in full: four digit runs joined by three dots. */
  predicate IsIpv4Shaped(t: string) {
    var f := Split(t, '.');
    |f| == 4 && forall i :: 0 <= i < 4 ==> IsDigitRun(f[i])
  }

  /** A dotted quad built from four digit runs has exactly those runs as its fields. */
  lemma DottedQuadIsShaped(a: string, b: string, c: string, d: string)
    requires IsDigitRun(a) && IsDigitRun(b) && IsDigitRun(c) && IsDigitRun(d)
    ensures Split(a + "." + b + "." + c + "." + d, '.') == [a, b, c, d]
    ensures IsIpv4Shaped(a + "." + b + "." + c + "." + d)
  {
    JoinFour(a, b, c, d, '.');
    var parts := [a, b, c, d];
    forall i | 0 <= i < 4
      ensures '.' !in parts[i]
    {
      DigitRunHasNoDot(parts[i]);
    }
    SplitJoin(parts, '.');
  }

  lemma DigitRunHasNoDot(x: string)
    requires IsDigitRun(x)
    ensures '.' !in x
  {
  }

  /** The text `is_link_local` looks for at the start of an address. */
  const LinkLocalPrefix: string := "169.254."

  /** `is_link_local`: `str.startswith` on the text `169.254.`, which is an eight-character head. */
  predicate IsLinkLocal(ip: string): (b: bool)
    ensures b <==> 8 <= |ip| && ip[..8] == LinkLocalPrefix
  {
    LinkLocalPrefix <= ip
  }

  /** On a dotted quad the prefix test is exactly "first field 169 and second field 254". */
  lemma LinkLocalByFields(ip: string)
    requires IsIpv4Shaped(ip)
    ensures IsLinkLocal(ip) <==> (Split(ip, '.')[0] == "169" && Split(ip, '.')[1] == "254")
  {
    if IsLinkLocal(ip) {
      LinkLocalHasFields(ip);
    }
    if Split(ip, '.')[0] == "169" && Split(ip, '.')[1] == "254" {
      FieldsMakeLinkLocal(ip);
    }
  }

  /** A link-local address text has `169` and `254` as its first two fields. */
  lemma LinkLocalHasFields(ip: string)
    requires IsLinkLocal(ip)
    ensures Split(ip, '.')[0] == "169" && Split(ip, '.')[1] == "254"
  {
    LinkLocalFields(ip[8..]);
    assert ip == "169.254." + ip[8..];
  }

  /** A dotted quad whose first two fields are `169` and `254` passes the prefix test. */
  lemma FieldsMakeLinkLocal(ip: string)
    requires IsIpv4Shaped(ip)
    requires Split(ip, '.')[0] == "169" && Split(ip, '.')[1] == "254"
    ensures IsLinkLocal(ip)
  {
    var f := Split(ip, '.');
    JoinFour(f[0], f[1], f[2], f[3], '.');
    assert [f[0], f[1], f[2], f[3]] == f;
    assert ip == "169.254." + (f[2] + ['.'] + f[3]);
  }

  lemma LinkLocalFields(rest: string)
    ensures Split("169.254." + rest, '.')[0] == "169"
    ensures Split("169.254." + rest, '.')[1] == "254"
  {
    assert "169.254." + rest == "169" + ['.'] + ("254" + ['.'] + rest);
    SplitAfterField("254", rest, '.');
    SplitAfterField("169", "254" + ['.'] + rest, '.');
  }

  /** The character for one decimal digit. */
  function DigitChar(d: nat): (c: char)
    requires d < 10
    ensures IsDigit(c)
  {
    ('0' as int + d) as char
  }

  /** Python's `f"{n}"` for a non-negative integer. */
  function Decimal(n: nat): (r: string)
    ensures IsDigitRun(r)
    ensures r[0] == '0' <==> n == 0
    decreases n
  {
    if n < 10 then [DigitChar(n)] else Decimal(n / 10) + [DigitChar(n % 10)]
  }

  /** The value of a string of decimal digits. */
  function DecimalValue(s: string): (n: nat)
    requires AllIn(s, 0, |s|, IsDigit)
    decreases |s|
  {
    if s == [] then 0
    else
      assert AllIn(s[..|s| - 1], 0, |s| - 1, IsDigit);
      DecimalValue(s[..|s| - 1]) * 10 + (s[|s| - 1] as int - '0' as int)
  }

  /** Reading back a rendered number gives the number. */
  lemma {:induction false} DecimalRoundTrip(n: nat)
    ensures DecimalValue(Decimal(n)) == n
    decreases n
  {
    if n >= 10 {
      DecimalRoundTrip(n / 10);
      var s := Decimal(n);
      assert s[..|s| - 1] == Decimal(n / 10);
    }
  }

  /** The /24 the sweep covers, hard-coded in the source. */
  const SubnetBase: string := "192.168.1."

  /** Hosts 1 to 254 of the subnet: `range(1, 255)`. */
  const FirstHost: nat := 1
  const HostCount: nat := 254

  /** The addresses pinged by the sweep, in launch order. */
  function SweepTargets(): (targets: seq<string>)
    ensures |targets| == HostCount
  {
    seq(HostCount, i requires 0 <= i < HostCount => SubnetBase + Decimal(FirstHost + i))
  }

  /** The host number of a dotted quad: its last field read as a decimal. */
  function HostNumber(ip: string): (n: nat)
    requires IsIpv4Shaped(ip)
  {
    DecimalValue(Split(ip, '.')[3])
  }

  /**
   * Every sweep target is a dotted quad in 192.168.1.0/24 that is not
   * link-local, the i-th one is host i + 1, and no address is pinged twice.
   */
  lemma SweepTargetsAreHosts()
    ensures forall i :: 0 <= i < HostCount ==>
      && IsIpv4Shaped(SweepTargets()[i])
      && SubnetBase <= SweepTargets()[i]
      && !IsLinkLocal(SweepTargets()[i])
      && HostNumber(SweepTargets()[i]) == i + 1
    ensures forall i, j :: 0 <= i < j < HostCount ==> SweepTargets()[i] != SweepTargets()[j]
  {
    var t := SweepTargets();
    forall i | 0 <= i < HostCount
      ensures IsIpv4Shaped(t[i]) && SubnetBase <= t[i] && !IsLinkLocal(t[i]) && HostNumber(t[i]) == i + 1
    {
      var d := Decimal(i + 1);
      assert t[i] == "192" + "." + "168" + "." + "1" + "." + d;
      DottedQuadIsShaped("192", "168", "1", d);
      DecimalRoundTrip(i + 1);
      assert t[i][..8] != "169.254.";
    }
  }
}
