# optoFind discovery core in Dafny

optoFind finds devices with a configured MAC vendor prefix on a local /24 network. It pings
192.168.1.1 to 192.168.1.254, reads the kernel ARP table with `arp -n`, and
pulls `(ip, mac)` pairs out of that text with one regular expression. It keeps
the pairs whose MAC starts with a configured vendor prefix. For each kept pair
it fills one table row: a hostname `opto-<d>-<e>-<f>` built from the MAC, the
MAC, and the IP. Each cell may carry a URL to the device's commissioning page.

This project models that pipeline as pure functions over immutable data and
proves what it computes:

- `Text`, `Fields`: character classes, ASCII lower-casing, and Python's `str.split`/`str.join`.
- `Addresses`: the dotted-quad shape, `is_link_local`, and the ping-sweep address list.
- `ArpTable`: `re.findall` of `(\d+\.\d+\.\d+\.\d+)\s+.*\s+([0-9a-fA-F:]{17})` over the whole `arp -n` text, with each MAC lower-cased.
  - The backtracking engine's choice of match is stated declaratively (`IsFirstMatch`).
  - `findall`'s scan is stated the same way (`IsFindAll`).
  - A direct recogniser is proved to meet both.
- `Hostnames`: `generate_hostname`.
- `Rows`: `MAC_PREFIXES`, the vendor filter, and the row built for each kept entry in `OptoScanner.do_scan`.
- `Scanner`: the sweep loop, the outcomes of launching `ping` and running `arp -n`, and `do_scan` as a loop over the entries.
- `Samples`: concrete cases: a link-local and a LAN address, an IP and a MAC one space apart, and the hostname of `b8:27:eb:11:22:33`.

Things the code does that its names and comments do not suggest:

- The regex runs over the whole output, not line by line. `.` stops at a line break, but `\s` does not. So a match may start on one line and take its MAC from a later one. `.*` never crosses a line break; in a match that spans lines, each break lies in one of the two `\s+` runs. `IsFindAll` and `LaterCandidateIsPastNewline` describe exactly when this happens.
- Link-local detection is the textual prefix test `"169.254."`, not a numeric /16 test. `LinkLocalByFields` proves that on dotted quads it agrees with comparing the first two fields, as text, with `169` and `254`. A numeric test would differ on fields with leading zeros, such as `0169.254.1.1`.
- A MAC with fewer than three colon fields makes `generate_hostname` raise `IndexError`; there is no dedicated error.
  - `Hostname` takes this as a precondition, and `GenerateHostname` returns `None` there.
  - `ConfiguredHostnamesDefined` proves it cannot happen for the configured prefixes.
- A `ping` that cannot be launched, an `arp` that cannot be launched, or an `arp` that exits non-zero raises out of `do_scan` before `setRowCount(0)`, so the previous table stays as it was (`DoScan`).

## Model

| member | source | states |
|---|---|---|
| ArpTable.Parse | src/optoFind.py:53-59 | one entry per `findall` match; every IP is four digit runs joined by dots, and every MAC is 17 characters of `[0-9a-f:]` |
| ArpTable.MatchesIsFindAll | src/optoFind.py:53-57 | the recogniser's matches are exactly `findall`'s: each the first fit at its start, in text order, non-overlapping, and every position where the pattern fits lies inside one of them |
| ArpTable.FindAllUnique | src/optoFind.py:56 | `findall`'s result is determined by the text, so any two results meeting its description are equal |
| ArpTable.ReportsUnique | src/optoFind.py:56 | scanning left to right, resuming after each match, has one outcome whenever each start has at most one first match |
| Text.Lower | src/optoFind.py:57 | `.lower()` keeps the length and lower-cases each character; `LowerIsIdempotent` shows the result holds no `A`-`Z` and lower-casing it again changes nothing |
| Fields.Split | src/optoFind.py:64 | `mac.split(":")`: at least one field, no field holds the separator, and joining the fields with it gives the string back; `SplitUnique` shows these properties determine the fields |
| ArpTable.MatchAt | src/optoFind.py:53 | one attempt at a position; whatever it returns is a fit of the pattern starting there |
| ArpTable.FindAll | src/optoFind.py:56 | the scan behind `findall`: every reported item is a fit at or after the scan's start, in text order, none overlapping the next |
| ArpTable.MatchAtIsFirst | src/optoFind.py:53 | an attempt at a position succeeds iff the pattern fits there, and then it yields the fit that greedy backtracking tries first |
| ArpTable.IpEndUnique | src/optoFind.py:53 | a dotted quad not followed by a digit is where the engine's IP group ends |
| ArpTable.FindAllIsFindAll | src/optoFind.py:56 | taking the attempt at each position and resuming after every match gives `findall`'s result |
| ArpTable.ParseIgnoresCase | src/optoFind.py:53-57 | upper-case text gives the same entries as its lower-cased form |
| ArpTable.ParseWithoutDottedQuad | src/optoFind.py:53-57 | text in which no stretch is a dotted quad yields no entry |
| ArpTable.ParseWithoutDigits | src/optoFind.py:53-57 | text without digits, such as the `arp -n` header line, yields no entry |
| ArpTable.ParseNeedsTwoSeparators | src/optoFind.py:53-57 | text in which no whitespace character directly before a MAC-shaped run comes after an earlier whitespace character that directly follows a digit yields no entry; so a line whose IP and MAC are one space apart yields nothing unless later text has whitespace followed by a MAC-shaped run |
| ArpTable.ParseEmptyIffNoMatch | src/optoFind.py:53-59 | no entry exactly when the pattern fits at no position of the text |
| ArpTable.MatchHasTwoSpaces | src/optoFind.py:53 | each match has whitespace right after the IP and right before the MAC, at two distinct positions |
| ArpTable.LaterCandidateIsPastNewline | src/optoFind.py:53 | greedy `.*`: if a later MAC-shaped run after whitespace was not the one captured, a line break lies between |
| Hostnames.Hostname | src/optoFind.py:62-66 | for a MAC of at least three fields, the hostname begins with `opto-` |
| Hostnames.GenerateHostname | src/optoFind.py:62-66 | `None` exactly when the MAC has fewer than three colon fields (Python's `IndexError`); otherwise `opto` and the last three fields joined by dashes |
| Hostnames.HostnameIsJoin | src/optoFind.py:64-66 | the hostname is `"opto"` followed by the last three colon fields, joined with `-` |
| Hostnames.HostnameFields | src/optoFind.py:62-66 | splitting the hostname of a dash-free MAC on `-` gives back `"opto"` and the MAC's last three fields |
| Hostnames.HostnameCollision | src/optoFind.py:64-66 | two dash-free MACs get the same hostname iff their last three fields agree, whatever their vendor prefix |
| Samples.HostnameExample | src/optoFind.py:63 | the documented conversion on a concrete MAC: `b8:27:eb:11:22:33` has at least three fields and becomes `opto-11-22-33` |
| Hostnames.HostnameOfOctets | src/optoFind.py:63-66 | for six colon-free octets joined by `:`, the fields are the octets and the hostname is `opto-<o4>-<o5>-<o6>` |
| Addresses.IsLinkLocal | src/optoFind.py:69-71 | true iff the address is at least eight characters long and they are `169.254.`, one by one, as `str.startswith` checks |
| Addresses.LinkLocalByFields | src/optoFind.py:69-71 | on a dotted quad, the prefix test holds iff the first field is `169` and the second is `254` |
| Addresses.Decimal | src/optoFind.py:45 | the `{i}` of the f-string: a digit run that starts with `0` only for zero; `DecimalRoundTrip` reads the number back |
| Addresses.DecimalRoundTrip | src/optoFind.py:45 | reading back the decimal rendering of a host number gives that number |
| Addresses.SweepTargets | src/optoFind.py:43-45 | one address per host of `range(1, 255)`, 254 in all |
| Addresses.SweepTargetsAreHosts | src/optoFind.py:43-45 | the i-th sweep address is a dotted quad in `192.168.1.` whose last field is host i + 1; none is link-local and none repeats |
| Scanner.SweepAddresses | src/optoFind.py:43-45 | the sweep loop launches pings at exactly the sweep address list, in order |
| Scanner.ScanNetwork | src/optoFind.py:43-59 | fails iff a `ping` cannot be launched, `arp` cannot be launched, or `arp` exits non-zero, telling these apart and keeping the launch error's kind; otherwise yields the parsed entries of `arp`'s output |
| Scanner.ConfiguredRows | src/optoFind.py:123-132 | the rows for the configured prefixes: at most one per entry, and none exactly when no entry's MAC has a configured prefix |
| Scanner.DoScan | src/optoFind.py:119-154 | on failure the table is unchanged and the error is reported; otherwise the table holds exactly the rows for the configured prefixes |
| Rows.AnyPrefix | src/optoFind.py:126 | true iff some prefix in the list is a prefix of the MAC |
| Rows.LowerAll | src/optoFind.py:32 | each prefix lower-cased in place; every result is in lower-case normal form (lower-casing it again changes nothing, and it holds no `A`-`Z`), the form every parsed MAC has |
| Rows.LoweredFilterIgnoresCase | src/optoFind.py:126 | a lower-cased MAC passes the lowered filter iff, with both lower-cased, it starts with some configured prefix; so a prefix configured in upper case, such as `B8:27:EB`, matches the lower-case MACs `scan_network` returns |
| Rows.MacPrefixesAreRaw | src/optoFind.py:26-32 | the configured prefixes are already lower-case, so normalising them changes nothing |
| Rows.MacPrefixesAreOctets | src/optoFind.py:26-30 | each configured prefix has 8 characters with colons at positions 2 and 5 |
| Rows.ConfiguredHostnamesDefined | src/optoFind.py:126-129 | every MAC that passes the configured filter has at least three fields, so `generate_hostname` never raises in `do_scan` |
| Rows.WelcomeUrl | src/optoFind.py:137 | the commissioning URL of a host: scheme, host and path, so its length is theirs added; `WelcomeUrlInverse` reads the host back |
| Rows.WelcomeUrlInverse | src/optoFind.py:137 | a string is the welcome URL of a host iff reading the host back out of it gives that host |
| Rows.IpCell | src/optoFind.py:146-154 | the IP cell carries a URL iff the address is not link-local |
| Rows.MakeRow | src/optoFind.py:134-154 | the hostname and MAC cells are links to the same page, and the IP cell is a link iff the address is not link-local |
| Rows.RowCells | src/optoFind.py:134-154 | the hostname and MAC cells show the hostname and the MAC and both lead to the hostname's page; the IP cell shows `(link-local)` with no URL, or the IP leading to its own page |
| Rows.BuildRows | src/optoFind.py:121-132 | the `do_scan` loop: at most one row per entry, and no row exactly when the filter keeps no entry |
| Rows.BuildRowsIndices | src/optoFind.py:121-132 | the rows are the kept entries' rows, in entry order: a strictly increasing list of kept positions, row k from the k-th of them, and no kept entry missing |
| Rows.BuildRowsAppend | src/optoFind.py:123-132 | the rows for two entry lists in sequence are the rows for the first followed by the rows for the second |
| Rows.BuildRowsStep | src/optoFind.py:123-132 | one more entry appends its row when the filter keeps it and changes nothing otherwise |
| Rows.BuildRowsMonotone | src/optoFind.py:126-127 | with more prefixes the old rows remain, in order, among the new ones, so there are at least as many rows |
| Samples.LinkLocalExamples | src/optoFind.py:69-71 | `169.254.1.1` is link-local and `192.168.1.5` is not |
| Samples.OneSpaceExample | src/optoFind.py:53 | `192.168.1.10 b8:27:eb:11:22:33`, with one space, yields no entry |

## Left out

- Running `ping` and `arp -n` (src/optoFind.py:44-51) is left out. The sweep yields its address list. Whether every `ping` launched (`SweepRun`) and what `arp -n` did (`ArpRun`: exit code plus output, or a launch error) are inputs. Ping's timing, and so which devices appear, is outside the model.
- Scanner.DoScan: an exception from `scan_network` leaves `do_scan`, a Qt slot; PyQt5 5.5 and later then abort the application by default. The model stops at the exception: the table is as it was and the error is returned, and what the application does afterwards is not modelled.
- Console logging is left out: the `print` calls at src/optoFind.py:42 and src/optoFind.py:50 have no effect on the result.
- `.decode()` of the command output is left out: the output is taken as an already decoded string, and a decoding error is not modelled.
- All PyQt5 code is left out: window layout, `setForeground` colours, `cell_clicked` navigation, the browser pane and `__main__`. A cell is a text and an optional URL, and blue colouring is exactly "has a URL" (`Cell.IsLink`).
- `InsecureWebPage.certificateError` is left out: it is browser TLS policy.
- Setting `QTWEBENGINE_CHROMIUM_FLAGS` in the environment is left out.
- `\d` is ASCII `0-9` only. Python's `\d` also accepts other Unicode decimal digits; ARP output does not contain them.
- Lower-casing maps only `A-Z`. Python's `str.lower` also maps non-ASCII letters, which cannot occur in a matched IP or MAC.
- `\s` is Python's whitespace set for `str` patterns, listed in `Text.IsSpace`.
- Hostnames.Hostname: requires at least three colon fields, where Python raises `IndexError`. `Hostnames.GenerateHostname` models that error path. `Rows.ConfiguredHostnamesDefined` discharges the requirement for every configured prefix.
- Rows.BuildRows: requires that every kept MAC has three fields. This holds whenever the prefixes look like the configured ones.
- ArpTable.ParseWithoutDigits: covers the `arp -n` header line through its hypothesis, with no separate lemma about the literal header text.
- A whole-table example on a literal `arp -n` text is not included. `MatchesIsFindAll` and `ParseEmptyIffNoMatch` state what the parser yields for every text, and `DoScan`, `ScanNetwork`, `BuildRowsIndices` and `RowCells` state what the scan leaves in the table.
