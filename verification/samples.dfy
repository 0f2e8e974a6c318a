/**
 * Concrete cases of the discovery logic: an address in the `169.254.x.x`
 * range that `is_link_local` names and an ordinary LAN address, an IP and a
 * MAC only one space apart, and the hostname of a MAC with a configured
 * prefix.
 */
module Samples {
  import opened Text
  import opened Fields
  import opened Addresses
  import opened ArpTable
  import opened Hostnames

  /** An address in `169.254.x.x` and an address of the swept /24. */
  lemma LinkLocalExamples()
    ensures IsLinkLocal("169.254.1.1")
    ensures !IsLinkLocal("192.168.1.5")
  {
    assert "192.168.1.5"[1] != "169.254."[1];
  }

  /** A single space between the IP and the MAC is not enough for `\s+.*\s+`. */
  lemma OneSpaceExample()
    ensures Parse("192.168.1.10 b8:27:eb:11:22:33") == []
  {
    var line := "192.168.1.10 b8:27:eb:11:22:33";
    assert forall i :: 0 <= i < |line| && i != 12 ==> !IsSpace(line[i]);
    ParseNeedsTwoSeparators(line);
  }

  /** The example MAC is its six octets joined by colons. */
  lemma ExampleMacOctets()
    ensures Join(["b8", "27", "eb", "11", "22", "33"], ':') == "b8:27:eb:11:22:33"
  {
    JoinSix("b8", "27", "eb", "11", "22", "33", ':');
  }

  /** The hostname of a MAC built from the example's octets. */
  lemma HostnameOfExampleOctets(mac: string)
    requires mac == Join(["b8", "27", "eb", "11", "22", "33"], ':')
    ensures |Split(mac, ':')| >= 3 && Hostname(mac) == "opto-11-22-33"
  {
    HostnameOfOctets("b8", "27", "eb", "11", "22", "33");
  }

  /** The conversion `aa:bb:cc:dd:ee:ff` to `opto-dd-ee-ff` that `generate_hostname` documents, on a MAC with a configured prefix. */
  lemma HostnameExample()
    ensures |Split("b8:27:eb:11:22:33", ':')| >= 3 && Hostname("b8:27:eb:11:22:33") == "opto-11-22-33"
  {
    ExampleMacOctets();
    HostnameOfExampleOctets("b8:27:eb:11:22:33");
  }
}
