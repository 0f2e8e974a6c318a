/**
 * `scan_network` and `OptoScanner.do_scan` around the pure parts: the ping
 * sweep's address list, the outcome of launching `ping` and running `arp -n`,
 * and the table the scan leaves behind. Processes, the clock and the widgets
 * are not modelled; what the launches did is an input.
 */
module Scanner {
  import opened Wrappers
  import opened Addresses
  import opened ArpTable
  import opened Rows

  /**
   * Why launching a program raised: `FileNotFoundError` when there is no such
   * program, or another `OSError` (such as `PermissionError`) when it exists
   * but cannot be started.
   */
  datatype LaunchError = NoSuchProgram | CannotStart

  /**
   * What the ping sweep did: every `Popen` of `ping` returned, or one of them
   * raised, which ends `scan_network` before `arp` runs.
   */
  datatype SweepRun = AllLaunched | PingNotLaunched(why: LaunchError)

  /** What running `arp -n` produced: an exit code and the decoded standard output, or a launch error. */
  datatype ArpRun = Exited(code: int, stdout: string) | ArpNotLaunched(why: LaunchError)

  /** The exception that leaves `scan_network`. */
  datatype ScanError = PingUnavailable(why: LaunchError) | ArpUnavailable(why: LaunchError) | ArpFailed(code: int)

  /**
   * `scan_network`: a `ping` that cannot be launched raises out of the sweep;
   * then `check_output` raises unless `arp` was launched and exited with
   * status 0; otherwise its output is parsed.
   */
  function ScanNetwork(sweep: SweepRun, run: ArpRun): (r: Result<seq<Entry>, ScanError>)
    ensures r.Failure? <==> (sweep.PingNotLaunched? || run.ArpNotLaunched? || run.code != 0)
    ensures sweep.PingNotLaunched? ==> r == Failure(PingUnavailable(sweep.why))
    ensures sweep.AllLaunched? && run.ArpNotLaunched? ==> r == Failure(ArpUnavailable(run.why))
    ensures sweep.AllLaunched? && run.Exited? && run.code != 0 ==> r == Failure(ArpFailed(run.code))
    ensures r.Success? ==> run.Exited? && r.value == Parse(run.stdout)
  {
    if sweep.PingNotLaunched? then Failure(PingUnavailable(sweep.why))
    else if run.ArpNotLaunched? then Failure(ArpUnavailable(run.why))
    else if run.code != 0 then Failure(ArpFailed(run.code))
    else Success(Parse(run.stdout))
  }

  /** The rows `do_scan` builds from parsed entries with the configured prefixes; never raises. */
  function ConfiguredRows(entries: seq<Entry>): (rows: seq<Row>)
    ensures |rows| <= |entries|
    ensures rows == [] <==> forall i :: 0 <= i < |entries| ==> !AnyPrefix(entries[i].mac, MacPrefixes)
  {
    ConfiguredHostnamesDefined(entries);
    BuildRows(entries, MacPrefixes)
  }

  /**
   * The ping sweep's loop `for i in range(1, 255)`, collecting the address
   * each `ping` is launched at instead of launching it.
   */
  method SweepAddresses() returns (targets: seq<string>)
    ensures targets == SweepTargets()
  {
    targets := [];
    var i := FirstHost;
    while i < FirstHost + HostCount
      invariant FirstHost <= i <= FirstHost + HostCount
      invariant |targets| == i - FirstHost
      invariant forall k :: 0 <= k < |targets| ==> targets[k] == SubnetBase + Decimal(FirstHost + k)
    {
      targets := targets + [SubnetBase + Decimal(i)];
      i := i + 1;
    }
  }

  /**
   * `do_scan`. If `scan_network` raises, the exception leaves before
   * `setRowCount(0)`, so the table is untouched. Otherwise the table is
   * cleared and one row appended per entry whose MAC has a configured
   * prefix, in entry order.
   */
  method DoScan(table: seq<Row>, sweep: SweepRun, run: ArpRun) returns (table': seq<Row>, error: Option<ScanError>)
    ensures error.Some? <==> ScanNetwork(sweep, run).Failure?
    ensures error.Some? ==> error.value == ScanNetwork(sweep, run).error && table' == table
    ensures error.None? ==> table' == ConfiguredRows(ScanNetwork(sweep, run).value)
  {
    var scanned := ScanNetwork(sweep, run);
    if scanned.Failure? {
      return table, Some(scanned.error);
    }
    var entries := scanned.value;
    ConfiguredHostnamesDefined(entries);
    assert entries[..0] == [];
    table' := [];
    var i := 0;
    while i < |entries|
      invariant 0 <= i <= |entries|
      invariant HostnamesDefined(entries[..i], MacPrefixes)
      invariant table' == BuildRows(entries[..i], MacPrefixes)
    {
      BuildRowsStep(entries, i, MacPrefixes);
      if !AnyPrefix(entries[i].mac, MacPrefixes) {
        i := i + 1;
        continue;
      }
      var row := MakeRow(entries[i]);
      table' := table' + [row];
      i := i + 1;
    }
    assert entries[..i] == entries;
    error := None;
  }
}
