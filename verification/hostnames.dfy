/**
 * `generate_hostname`: the device hostname `opto-<d>-<e>-<f>` built from the
 * last three colon-separated fields of a MAC address.
 */
module Hostnames {
  import opened Wrappers
  import opened Text
  import opened Fields

  /** The literal the hostname starts with, dash included. */
  const HostPrefix: string := "opto-"

  /** `mac.split(":")[-3:]`; defined when the MAC has at least three fields. */
  function LastThree(mac: string): (last: seq<string>)
    requires |Split(mac, ':')| >= 3
    ensures |last| == 3
    ensures forall i :: 0 <= i < 3 ==> ':' !in last[i]
  {
    var parts := Split(mac, ':');
    parts[|parts| - 3..]
  }

  /**
   * `generate_hostname(mac)`. With fewer than three fields Python raises
   * `IndexError`; here that is the precondition.
   */
  function Hostname(mac: string): (h: string)
    requires |Split(mac, ':')| >= 3
    ensures HostPrefix <= h
  {
    var last3 := LastThree(mac);
    HostPrefix + last3[0] + "-" + last3[1] + "-" + last3[2]
  }

  /**
   * `generate_hostname` on any string: `None` where Python's `last3[0]`,
   * `last3[1]` or `last3[2]` raises `IndexError`.
   */
  function GenerateHostname(mac: string): (r: Option<string>)
    ensures r.None? <==> |Split(mac, ':')| < 3
    ensures r.Some? ==> var parts := Split(mac, ':');
      r.value == Join(["opto"] + parts[|parts| - 3..], '-')
  {
    if |Split(mac, ':')| < 3 then None
    else
      HostnameIsJoin(mac);
      Some(Hostname(mac))
  }

  /** The hostname is "opto" and the last three fields joined by dashes. */
  lemma HostnameIsJoin(mac: string)
    requires |Split(mac, ':')| >= 3
    ensures Hostname(mac) == Join(["opto"] + LastThree(mac), '-')
  {
    var l := LastThree(mac);
    assert ["opto"] + l == ["opto", l[0], l[1], l[2]];
    JoinFour("opto", l[0], l[1], l[2], '-');
    assert HostPrefix == "opto" + ['-'];
  }

  /**
   * Splitting a hostname on `-` recovers "opto" and the MAC's last three
   * fields, when the MAC itself holds no dash (a parsed MAC never does).
   */
  lemma HostnameFields(mac: string)
    requires |Split(mac, ':')| >= 3
    requires '-' !in mac
    ensures Split(Hostname(mac), '-') == ["opto"] + LastThree(mac)
  {
    var last3 := LastThree(mac);
    var parts := Split(mac, ':');
    SplitKeepsAbsent(mac, ':', '-');
    var fields := ["opto"] + last3;
    forall i | 0 <= i < 4
      ensures '-' !in fields[i]
    {
      if i > 0 {
        assert fields[i] == parts[|parts| - 4 + i];
      }
    }
    HostnameIsJoin(mac);
    SplitJoin(fields, '-');
  }

  /**
   * Two dash-free MACs get the same hostname exactly when their last three
   * fields agree, whatever their vendor prefixes.
   */
  lemma HostnameCollision(mac1: string, mac2: string)
    requires |Split(mac1, ':')| >= 3 && |Split(mac2, ':')| >= 3
    requires '-' !in mac1 && '-' !in mac2
    ensures Hostname(mac1) == Hostname(mac2) <==> LastThree(mac1) == LastThree(mac2)
  {
    HostnameFields(mac1);
    HostnameFields(mac2);
  }

  /** Six colon-free octets joined by colons: the hostname is built from the fourth, fifth and sixth. */
  lemma HostnameOfOctets(o1: string, o2: string, o3: string, o4: string, o5: string, o6: string)
    requires ':' !in o1 && ':' !in o2 && ':' !in o3
    requires ':' !in o4 && ':' !in o5 && ':' !in o6
    ensures var mac := Join([o1, o2, o3, o4, o5, o6], ':');
      Split(mac, ':') == [o1, o2, o3, o4, o5, o6] && Hostname(mac) == "opto-" + o4 + "-" + o5 + "-" + o6
  {
    var octets := [o1, o2, o3, o4, o5, o6];
    assert forall i :: 0 <= i < 6 ==> ':' !in octets[i];
    SplitJoin(octets, ':');
    assert LastThree(Join(octets, ':')) == [o4, o5, o6];
  }
}
