/** The network probes of the first-run wizard (home/control_install.go):
    whether `/etc/dhcpcd.conf` gives an interface a static address, and
    which interface carries an address. */
module InstallNetwork {
  import opened Wrappers
  import opened Text

  const InterfacePrefix := "interface "
  const StaticAddressPrefix := "static ip_address="
  const WindowsError := "Can't detect static IP: not supported on Windows"

  // ---------------------------------------------------------------------
  // The dhcpcd.conf scan
  // ---------------------------------------------------------------------

  /** The `withinInterfaceCtx` flag after one trimmed line that is not a
      static address inside the block: a blank line closes the block, a
      comment keeps it, outside a block only the interface's own header
      opens one, and inside a block any `interface ` line closes it. */
  function NextWithin(within: bool, line: string, nameLine: string): bool {
    if line == "" then false
    else if line[0] == '#' then within
    else if !within then line == nameLine
    else if StartsWith(line, InterfacePrefix) then false
    else true
  }

  /** Every line trimmed, as the scan sees it. */
  function Trimmed(lines: seq<string>): seq<string> {
    if lines == [] then [] else Trimmed(lines[..|lines| - 1]) + [TrimSpace(lines[|lines| - 1])]
  }

  lemma {:induction false} TrimmedAt(lines: seq<string>, k: nat)
    requires k < |lines|
    ensures |Trimmed(lines)| == |lines| && Trimmed(lines)[k] == TrimSpace(lines[k])
    decreases |lines|
  {
    if k < |lines| - 1 {
      TrimmedAt(lines[..|lines| - 1], k);
    } else {
      TrimmedLength(lines[..|lines| - 1]);
    }
  }

  lemma {:induction false} TrimmedLength(lines: seq<string>)
    ensures |Trimmed(lines)| == |lines|
    decreases |lines|
  {
    if lines != [] {
      TrimmedLength(lines[..|lines| - 1]);
    }
  }

  /** The flag before the trimmed line at index `k` (after the first `k`). */
  function WithinAt(ts: seq<string>, nameLine: string, k: nat): bool
    requires k <= |ts|
  {
    if k == 0 then false
    else NextWithin(WithinAt(ts, nameLine, k - 1), ts[k - 1], nameLine)
  }

  /** What `hasStaticIP` looks for: a trimmed line that starts with
      `static ip_address=` and is met while the flag is up. */
  ghost predicate StaticAddressConfigured(ts: seq<string>, nameLine: string) {
    exists j :: 0 <= j < |ts| && WithinAt(ts, nameLine, j) && StartsWith(ts[j], StaticAddressPrefix)
  }

  /** `hasStaticIP`, with the platform test and the file read as inputs:
      `dhcpcdConf` is the content of `/etc/dhcpcd.conf` or the read error. */
  method HasStaticIP(isWindows: bool, dhcpcdConf: Result<string, string>, ifaceName: string)
    returns (found: bool, err: Option<string>)
    ensures isWindows ==> !found && err == Some(WindowsError)
    ensures !isWindows && dhcpcdConf.Failure? ==> !found && err == Some(dhcpcdConf.error)
    ensures !isWindows && dhcpcdConf.Success? ==>
      err == None &&
      (found <==> StaticAddressConfigured(Trimmed(Split(dhcpcdConf.value, '\n')), InterfacePrefix + ifaceName))
  {
    if isWindows {
      return false, Some(WindowsError);
    }
    if dhcpcdConf.Failure? {
      return false, Some(dhcpcdConf.error);
    }
    var lines := Split(dhcpcdConf.value, '\n');
    var nameLine := InterfacePrefix + ifaceName;
    found := ScanLines(lines, nameLine);
    err := None;
  }

  /** The loop of `hasStaticIP` over the lines of the file. */
  method ScanLines(lines: seq<string>, nameLine: string) returns (found: bool)
    ensures found <==> StaticAddressConfigured(Trimmed(lines), nameLine)
  {
    ghost var ts := Trimmed(lines);
    TrimmedLength(lines);
    var within := false;
    for i := 0 to |lines|
      invariant within == WithinAt(ts, nameLine, i)
      invariant forall j :: 0 <= j < i ==> !(WithinAt(ts, nameLine, j) && StartsWith(ts[j], StaticAddressPrefix))
    {
      var line := TrimSpace(lines[i]);
      TrimmedAt(lines, i);
      PrefixesDiffer(line);
      if within && |line| == 0 {
        within := false;
      }
      if |line| == 0 || line[0] == '#' {
        continue;
      }
      TrimSpaceIdempotent(lines[i]);
      line := TrimSpace(line);
      assert line == ts[i];
      if !within {
        if line == nameLine {
          within := true;
        }
      } else {
        if StartsWith(line, InterfacePrefix) {
          within := false;
          continue;
        }
        if StartsWith(line, StaticAddressPrefix) {
          return true;
        }
      }
    }
    return false;
  }

  /** A line cannot start with both prefixes, and a static address line is
      neither blank nor a comment. */
  lemma PrefixesDiffer(line: string)
    ensures !(StartsWith(line, InterfacePrefix) && StartsWith(line, StaticAddressPrefix))
    ensures StartsWith(line, StaticAddressPrefix) ==> line != "" && line[0] == 's'
  {
    if StartsWith(line, StaticAddressPrefix) {
      assert line[0] == StaticAddressPrefix[0];
    }
  }

  /** A trimmed line that keeps an open block open. */
  predicate Quiet(line: string) {
    line != "" && (line[0] == '#' || !StartsWith(line, InterfacePrefix))
  }

  /** The interface's header at `i` is met with the flag down. */
  predicate OpensBlock(ts: seq<string>, nameLine: string, i: nat)
    requires i < |ts|
  {
    !WithinAt(ts, nameLine, i) && ts[i] == nameLine
  }

  predicate QuietBetween(ts: seq<string>, i: nat, j: nat)
    requires i <= j <= |ts|
  {
    forall m :: i < m < j ==> Quiet(ts[m])
  }

  /** An open block stays open over quiet lines. */
  lemma {:induction false} BlockStaysOpen(ts: seq<string>, nameLine: string, i: nat, j: nat)
    requires nameLine != "" && nameLine[0] != '#'
    requires i < j <= |ts|
    requires OpensBlock(ts, nameLine, i) && QuietBetween(ts, i, j)
    ensures WithinAt(ts, nameLine, j)
    decreases j
  {
    if j > i + 1 {
      BlockStaysOpen(ts, nameLine, i, j - 1);
      assert Quiet(ts[j - 1]);
    }
  }

  /** The flag is up only inside a block its header opened. */
  lemma {:induction false} WithinHasHeader(ts: seq<string>, nameLine: string, j: nat)
    requires j <= |ts|
    requires WithinAt(ts, nameLine, j)
    ensures exists i :: 0 <= i < j && OpensBlock(ts, nameLine, i) && QuietBetween(ts, i, j)
    decreases j
  {
    if !WithinAt(ts, nameLine, j - 1) {
      assert OpensBlock(ts, nameLine, j - 1) && QuietBetween(ts, j - 1, j);
    } else {
      WithinHasHeader(ts, nameLine, j - 1);
      var i :| 0 <= i < j - 1 && OpensBlock(ts, nameLine, i) && QuietBetween(ts, i, j - 1);
      assert Quiet(ts[j - 1]);
      assert QuietBetween(ts, i, j);
    }
  }

  /** The flag is up exactly inside a block: after the interface's header,
      met with the flag down, and quiet lines only. */
  lemma WithinIffBlock(ts: seq<string>, nameLine: string, j: nat)
    requires nameLine != "" && nameLine[0] != '#'
    requires j <= |ts|
    ensures WithinAt(ts, nameLine, j) <==>
      exists i :: 0 <= i < j && OpensBlock(ts, nameLine, i) && QuietBetween(ts, i, j)
  {
    if WithinAt(ts, nameLine, j) {
      WithinHasHeader(ts, nameLine, j);
    }
    if exists i :: 0 <= i < j && OpensBlock(ts, nameLine, i) && QuietBetween(ts, i, j) {
      var i :| 0 <= i < j && OpensBlock(ts, nameLine, i) && QuietBetween(ts, i, j);
      BlockStaysOpen(ts, nameLine, i, j);
    }
  }

  /** `hasStaticIP` answers true exactly when a static address line follows
      the interface's header, met with the flag down, with no blank line and
      no other `interface ` line in between. */
  lemma StaticAddressIffBlock(ts: seq<string>, nameLine: string)
    requires nameLine != "" && nameLine[0] != '#'
    ensures StaticAddressConfigured(ts, nameLine) <==>
      exists i, j :: 0 <= i < j < |ts| && OpensBlock(ts, nameLine, i) && QuietBetween(ts, i, j) &&
        StartsWith(ts[j], StaticAddressPrefix)
  {
    if StaticAddressConfigured(ts, nameLine) {
      var j :| 0 <= j < |ts| && WithinAt(ts, nameLine, j) && StartsWith(ts[j], StaticAddressPrefix);
      WithinHasHeader(ts, nameLine, j);
    }
    if exists i, j :: 0 <= i < j < |ts| && OpensBlock(ts, nameLine, i) && QuietBetween(ts, i, j) &&
        StartsWith(ts[j], StaticAddressPrefix) {
      var i, j :| 0 <= i < j < |ts| && OpensBlock(ts, nameLine, i) && QuietBetween(ts, i, j) &&
        StartsWith(ts[j], StaticAddressPrefix);
      BlockStaysOpen(ts, nameLine, i, j);
    }
  }

  /** A header at the top of the file or right after a blank line always
      opens a block. */
  lemma HeaderAfterBlankOpens(ts: seq<string>, nameLine: string, i: nat)
    requires i < |ts| && ts[i] == nameLine
    requires i == 0 || ts[i - 1] == ""
    ensures OpensBlock(ts, nameLine, i)
  {
  }

  /** Blank and comment lines never open a block, and a blank line closes it. */
  lemma BlankAndCommentLines(ts: seq<string>, nameLine: string, k: nat)
    requires k < |ts|
    requires ts[k] == "" || ts[k][0] == '#'
    ensures !WithinAt(ts, nameLine, k) ==> !WithinAt(ts, nameLine, k + 1)
    ensures ts[k] == "" ==> !WithinAt(ts, nameLine, k + 1)
  {
  }

  /** Inside a block an `interface ` line closes it and is not taken as a
      header, even when it names the same interface. */
  lemma InterfaceLineCloses(ts: seq<string>, nameLine: string, k: nat)
    requires k < |ts| && WithinAt(ts, nameLine, k)
    requires StartsWith(ts[k], InterfacePrefix)
    ensures !WithinAt(ts, nameLine, k + 1)
  {
    assert ts[k][0] == 'i';
  }

  const RepeatedHeader := ["interface eth0", "interface eth0", "static ip_address=192.168.0.2/24"]

  /** The same header twice in a row: the second one closes the block the
      first opened, so the static address right after it is not seen. */
  lemma RepeatedHeaderHidesAddress()
    ensures RepeatedHeader[1] == InterfacePrefix + "eth0"
    ensures StartsWith(RepeatedHeader[2], StaticAddressPrefix)
    ensures !StaticAddressConfigured(RepeatedHeader, InterfacePrefix + "eth0")
  {
    var nameLine := InterfacePrefix + "eth0";
    assert WithinAt(RepeatedHeader, nameLine, 1);
    assert StartsWith(RepeatedHeader[1], InterfacePrefix);
    assert !WithinAt(RepeatedHeader, nameLine, 2);
    assert !StartsWith(RepeatedHeader[0], StaticAddressPrefix) by {
      assert RepeatedHeader[0][0] != StaticAddressPrefix[0];
    }
    assert !StartsWith(RepeatedHeader[1], StaticAddressPrefix) by {
      assert RepeatedHeader[1][0] != StaticAddressPrefix[0];
    }
  }

  /** The example's lines have no white space at either end, so the scan
      sees them as they are. */
  lemma RepeatedHeaderIsTrimmed()
    ensures Trimmed(RepeatedHeader) == RepeatedHeader
  {
    TrimSpaceKeeps(RepeatedHeader[0]);
    TrimSpaceKeeps(RepeatedHeader[1]);
    TrimSpaceKeeps(RepeatedHeader[2]);
    TrimmedAt(RepeatedHeader, 0);
    TrimmedAt(RepeatedHeader, 1);
    TrimmedAt(RepeatedHeader, 2);
  }

  // ---------------------------------------------------------------------
  // Interface lookup
  // ---------------------------------------------------------------------

  /** The parts of a network interface the lookup reads. */
  datatype NetInterface = NetInterface(name: string, addresses: seq<string>)

  predicate IsFirstWithAddress(ifaces: seq<NetInterface>, ip: string, k: int) {
    0 <= k < |ifaces| && ip in ifaces[k].addresses &&
    forall m :: 0 <= m < k ==> ip !in ifaces[m].addresses
  }

  /** `getInterfaceByIP`, with the interface enumeration as an input. */
  method GetInterfaceByIP(ifaces: Result<seq<NetInterface>, string>, ip: string) returns (name: string)
    ensures ifaces.Failure? ==> name == ""
    ensures ifaces.Success? && (forall k :: 0 <= k < |ifaces.value| ==> ip !in ifaces.value[k].addresses) ==> name == ""
    ensures ifaces.Success? ==>
      forall k :: IsFirstWithAddress(ifaces.value, ip, k) ==> name == ifaces.value[k].name
  {
    if ifaces.Failure? {
      return "";
    }
    var list := ifaces.value;
    for i := 0 to |list|
      invariant forall m :: 0 <= m < i ==> ip !in list[m].addresses
    {
      var iface := list[i];
      for j := 0 to |iface.addresses|
        invariant forall t :: 0 <= t < j ==> iface.addresses[t] != ip
      {
        if ip == iface.addresses[j] {
          assert IsFirstWithAddress(list, ip, i);
          return iface.name;
        }
      }
    }
    return "";
  }
}
