/**
 The OS X implementation of netutil (netutil_darwin.go): the reachability probe, the
 listing of network services, and the `networksetup` invocations that switch a
 service's web proxy on and off. Every external command goes through the `Runner`
 oracle of module `Exec`. At the end, the bulk operations of module `NetInterfaces`
 are applied to OS X services.
 */
module Darwin {
  import opened Strings
  import opened Exec
  import NetInterfaces

  const Networksetup := "/usr/sbin/networksetup"
  const Scutil := "/usr/sbin/scutil"

  /** The probe run by `IsInternetReachable`. */
  const ReachabilityCommand := Command(Scutil, ["-r", "s3.amazonaws.com"])

  /** The listing run by `ListInterfaces`. */
  const ListCommand := Command(Networksetup, ["-listallnetworkservices"])

  /** The status line `scutil -r` prints when the host is reachable. */
  const Reachable := "Reachable"

  /** A network service of OS X, known by its name. */
  datatype MacNetInterface = MacNetInterface(name: string) {
    /** The name the service was built with; it identifies the service completely. */
    function Name(): (r: string)
      ensures MacNetInterface(r) == this
    {
      name
    }
  }

  datatype Reachability = Reachability(reachable: bool, err: Status)

  datatype Listing = Listing(intfs: seq<MacNetInterface>, err: Status)

  /** What the per-interface operations return: the error, and the commands they
      handed to the executor (none or one). */
  datatype Effect = Effect(err: Status, issued: seq<Command>)

  /** Either the address was refused before anything ran, or this command is run. */
  datatype Dispatch = Rejected(error: Error) | Issue(command: Command)

  /** The names of the services, in order. */
  function Names(intfs: seq<MacNetInterface>): seq<string>
  {
    seq(|intfs|, i requires 0 <= i < |intfs| => intfs[i].Name())
  }

  // ---------------------------------------------------------------------------
  // Reachability

  /** The verdict on the probe's output: reachable exactly when the output is the word
      `Reachable` with nothing but white space around it. */
  function ParseReachability(output: string): (r: bool)
    ensures r <==> PaddedBy(output, Reachable)
  {
    assert Trimmed(Reachable);
    TrimSpaceIff(output, Reachable);
    TrimSpace(output) == Reachable
  }

  lemma ReachableExample()
    ensures ParseReachability("Reachable\n")
  {
    assert "Reachable\n" == "" + Reachable + "\n";
    TrimSpaceOf("", Reachable, "\n");
  }

  lemma UnreachableExample()
    ensures !ParseReachability("Unreachable\n")
  {
    var no := "Unreachable";
    assert "Unreachable\n" == "" + no + "\n";
    TrimSpaceOf("", no, "\n");
  }

  /** Output made only of white space, the empty output included, is never "reachable". */
  lemma BlankIsUnreachable(output: string)
    requires AllSpace(output)
    ensures !ParseReachability(output)
  {
  }

  /** `IsInternetReachable`: a failing probe yields its error and "not reachable"; a
      probe that ran yields no error, and "reachable" exactly when it completed with
      the word `Reachable`, padded by white space only. A timed-out probe therefore
      reads as "not reachable" without an error. */
  function IsInternetReachable(run: Runner): (r: Reachability)
    ensures r.err.Failure? <==> run(ReachabilityCommand).Failed?
    ensures r.err.Failure? ==> r.err.error == ExecError(run(ReachabilityCommand).detail) && !r.reachable
    ensures r.reachable <==> run(ReachabilityCommand).Completed?
                              && PaddedBy(run(ReachabilityCommand).stdout, Reachable)
  {
    var c := Call(run(ReachabilityCommand));
    if c.err.Failure? then
      Reachability(false, c.err)
    else
      assert !ParseReachability("") by {
        BlankIsUnreachable("");
      }
      Reachability(ParseReachability(c.output), Success)
  }

  // ---------------------------------------------------------------------------
  // Listing the network services

  /** The services named in the listing's output: after trimming, every line but the
      first (an informational header) names one service, in order; blank lines in the
      middle are kept as services with an empty name. There is one service per newline
      of the trimmed output, so blank output lists none. */
  function ParseListing(output: string): (r: seq<MacNetInterface>)
    ensures |r| == multiset(TrimSpace(output))['\n']
    ensures forall i :: 0 <= i < |r| ==> '\n' !in r[i].Name()
    ensures exists header :: '\n' !in header
                            && Join([header] + Names(r), '\n') == TrimSpace(output)
    ensures AllSpace(output) ==> r == []
  {
    var text := TrimSpace(output);
    var lines := Split(text, '\n');
    var r := Services(lines);
    assert '\n' !in lines[0];
    r
  }

  /** One service per line after the first. */
  function Services(lines: seq<string>): (r: seq<MacNetInterface>)
    requires |lines| > 0
    ensures [lines[0]] + Names(r) == lines
  {
    seq(|lines| - 1, i requires 0 <= i < |lines| - 1 => MacNetInterface(lines[i + 1]))
  }

  /** The services are the lines of the trimmed output after the first. */
  lemma ListingLines(output: string)
    ensures Names(ParseListing(output)) == Split(TrimSpace(output), '\n')[1..]
  {
  }

  /** A listing printed as a header line followed by one line per service, with any
      white space around it, lists exactly those services, provided the text between
      the padding starts and ends with something other than white space. */
  lemma ListingRoundTrip(lead: string, header: string, names: seq<string>, trail: string)
    requires AllSpace(lead) && AllSpace(trail)
    requires '\n' !in header
    requires forall i :: 0 <= i < |names| ==> '\n' !in names[i]
    requires Trimmed(Join([header] + names, '\n'))
    ensures Names(ParseListing(lead + Join([header] + names, '\n') + trail)) == names
  {
    var lines := [header] + names;
    var output := lead + Join(lines, '\n') + trail;
    assert forall k :: 0 <= k < |lines| ==> '\n' !in lines[k] by {
      forall k | 0 <= k < |lines| ensures '\n' !in lines[k] {
        if k > 0 { assert lines[k] == names[k - 1]; }
      }
    }
    ListingText(lead, lines, trail);
    ListingLines(output);
    assert lines[1..] == names;
  }

  /** Trimming, then splitting at newlines, recovers the lines of padded text. */
  lemma ListingText(lead: string, lines: seq<string>, trail: string)
    requires AllSpace(lead) && AllSpace(trail)
    requires |lines| > 0 && forall k :: 0 <= k < |lines| ==> '\n' !in lines[k]
    requires Trimmed(Join(lines, '\n'))
    ensures Split(TrimSpace(lead + Join(lines, '\n') + trail), '\n') == lines
  {
    TrimSpaceOf(lead, Join(lines, '\n'), trail);
    SplitJoin(lines, '\n');
  }

  lemma ListingExample()
    ensures Names(ParseListing("Header line\nsvc1\nsvc2\n")) == ["svc1", "svc2"]
  {
    var header, names := "Header line", ["svc1", "svc2"];
    var text := "Header line\nsvc1\nsvc2";
    assert Join([header] + names, '\n') == text;
    assert Trimmed(text);
    assert "Header line\nsvc1\nsvc2\n" == "" + text + "\n";
    ListingRoundTrip("", header, names, "\n");
  }

  /** A blank line between services is a service with an empty name: the services
      before it keep their positions, the blank line is the next service, and the
      services after it follow. (The text must not end in the blank line, or trimming
      would drop it; requiring the joined lines to be trimmed rules that out.) */
  lemma ListingKeepsBlankLines(lead: string, header: string, before: seq<string>,
                               after: seq<string>, trail: string)
    requires AllSpace(lead) && AllSpace(trail)
    requires '\n' !in header
    requires forall i :: 0 <= i < |before| ==> '\n' !in before[i]
    requires forall i :: 0 <= i < |after| ==> '\n' !in after[i]
    requires Trimmed(Join([header] + before + [""] + after, '\n'))
    ensures Names(ParseListing(lead + Join([header] + before + [""] + after, '\n') + trail))
            == before + [""] + after
  {
    var names := before + [""] + after;
    HeaderFirst(header, before, after);
    BlankBetween(before, after);
    ListingRoundTrip(lead, header, names, trail);
  }

  /** Regrouping the lines as header plus names. Kept as a lemma of its own because
      the same step, asserted inside `ListingKeepsBlankLines`, makes that proof too
      costly for the solver. */
  lemma HeaderFirst(header: string, before: seq<string>, after: seq<string>)
    ensures [header] + before + [""] + after == [header] + (before + [""] + after)
  {
  }

  /** Where the parts of `before + [""] + after` sit, and that it is newline-free when
      its parts are. */
  lemma BlankBetween(before: seq<string>, after: seq<string>)
    ensures var names := before + [""] + after;
            |names| == |before| + 1 + |after| && names[|before|] == ""
            && (forall i :: 0 <= i < |before| ==> names[i] == before[i])
            && (forall i :: 0 <= i < |after| ==> names[|before| + 1 + i] == after[i])
    ensures (forall i :: 0 <= i < |before| ==> '\n' !in before[i])
            && (forall i :: 0 <= i < |after| ==> '\n' !in after[i])
            ==> forall i :: 0 <= i < |before + [""] + after| ==> '\n' !in (before + [""] + after)[i]
  {
    var names := before + [""] + after;
    forall i | 0 <= i < |names|
      ensures i < |before| ==> names[i] == before[i]
      ensures i > |before| ==> names[i] == after[i - |before| - 1]
    {
    }
  }

  /** The services of a listing with a blank line between two of them. */
  lemma ListingBlankLineExample()
    ensures Names(ParseListing("Header\nWi-Fi\n\nBluetooth PAN\n")) == ["Wi-Fi", "", "Bluetooth PAN"]
  {
    var names := ["Wi-Fi", "", "Bluetooth PAN"];
    var text := "Header\nWi-Fi\n\nBluetooth PAN";
    BlankLineText();
    assert Trimmed(text);
    assert "Header\nWi-Fi\n\nBluetooth PAN\n" == "" + text + "\n";
    ListingRoundTrip("", "Header", names, "\n");
  }

  /** The text of the listing in `ListingBlankLineExample`, line by line. */
  lemma BlankLineText()
    ensures Join(["Header", "Wi-Fi", "", "Bluetooth PAN"], '\n') == "Header\nWi-Fi\n\nBluetooth PAN"
  {
    var last := ["Bluetooth PAN"];
    var blank := [""] + last;
    var names := ["Wi-Fi"] + blank;
    var lines := ["Header"] + names;
    JoinCons("", last, '\n');
    JoinCons("Wi-Fi", blank, '\n');
    JoinCons("Header", names, '\n');
    assert lines == ["Header", "Wi-Fi", "", "Bluetooth PAN"];
  }

  /** Trimming the whole output loses a blank last line and white space at the end of
      the last name: the listing below names two services but yields one, with its
      trailing blank dropped. */
  lemma ListingTrimsLastLine()
    ensures Names(ParseListing("Header\nWi-Fi \n\n")) == ["Wi-Fi"]
  {
    var header, names := "Header", ["Wi-Fi"];
    var text := "Header\nWi-Fi";
    assert Join([header] + names, '\n') == text;
    assert Trimmed(text);
    assert AllSpace(" \n\n");
    assert "Header\nWi-Fi \n\n" == "" + text + " \n\n";
    ListingRoundTrip("", header, names, " \n\n");
  }

  /** `ListInterfaces`: a failing listing yields its error and no services; otherwise
      the services are those of the captured output, so a timed-out listing yields no
      services and no error. */
  function ListInterfaces(run: Runner): (r: Listing)
    ensures r.err.Failure? <==> run(ListCommand).Failed?
    ensures r.err.Failure? ==> r.err.error == ExecError(run(ListCommand).detail) && r.intfs == []
    ensures run(ListCommand).Completed? ==> r.intfs == ParseListing(run(ListCommand).stdout)
    ensures run(ListCommand).TimedOut? ==> r == Listing([], Success)
  {
    var c := Call(run(ListCommand));
    if c.err.Failure? then
      Listing([], c.err)
    else
      Listing(ParseListing(c.output), Success)
  }

  // ---------------------------------------------------------------------------
  // Switching the web proxy

  /** `cmd` points the web proxy of service `name` at `addr`: it runs
      `networksetup -setwebproxy name host port` where host and port are the two
      colon-free halves of `addr`. */
  predicate SetsProxy(cmd: Command, name: string, addr: string) {
    && cmd.program == Networksetup
    && |cmd.args| == 4
    && cmd.args[0] == "-setwebproxy"
    && cmd.args[1] == name
    && ':' !in cmd.args[2] && ':' !in cmd.args[3]
    && cmd.args[2] + ":" + cmd.args[3] == addr
  }

  /** The validation and argument building of `EnableHTTPProxy`: an address is accepted
      exactly when it holds a single colon (host or port may be empty), and then split
      around it. */
  function ProxyCommand(intf: MacNetInterface, addr: string): (d: Dispatch)
    ensures d.Rejected? <==> multiset(addr)[':'] != 1
    ensures d.Rejected? ==> d.error == AddrFormat
    ensures d.Rejected? ==> d.error.Message() == "Please specify addr as host:port (e.g. 127.0.0.1:8080)"
    ensures d.Issue? ==> SetsProxy(d.command, intf.Name(), addr)
  {
    var parts := Split(addr, ':');
    if |parts| != 2 then
      Rejected(AddrFormat)
    else
      assert Join(parts, ':') == parts[0] + [':'] + parts[1];
      Issue(Command(Networksetup, ["-setwebproxy", intf.name, parts[0], parts[1]]))
  }

  /** An address built from a colon-free host and port is split back into them. */
  lemma ProxyCommandOf(intf: MacNetInterface, host: string, port: string)
    requires ':' !in host && ':' !in port
    ensures ProxyCommand(intf, host + ":" + port)
            == Issue(Command(Networksetup, ["-setwebproxy", intf.Name(), host, port]))
  {
    assert Join([host, port], ':') == host + ":" + port;
    SplitJoin([host, port], ':');
  }

  lemma ProxyCommandExamples(intf: MacNetInterface)
    ensures ProxyCommand(intf, "noport") == Rejected(AddrFormat)
    ensures ProxyCommand(intf, "a:b:c") == Rejected(AddrFormat)
    ensures ProxyCommand(intf, "") == Rejected(AddrFormat)
  {
    assert multiset("noport")[':'] == 0;
    assert multiset("a:b:c")[':'] == 2;
  }

  lemma ProxyCommandExample(intf: MacNetInterface)
    ensures ProxyCommand(intf, "127.0.0.1:8080")
            == Issue(Command(Networksetup, ["-setwebproxy", intf.Name(), "127.0.0.1", "8080"]))
  {
    var host, port := "127.0.0.1", "8080";
    assert host + ":" + port == "127.0.0.1:8080";
    ProxyCommandOf(intf, host, port);
  }

  /** Empty host and port are not refused. */
  lemma ProxyCommandAcceptsEmptyParts(intf: MacNetInterface)
    ensures ProxyCommand(intf, ":")
            == Issue(Command(Networksetup, ["-setwebproxy", intf.Name(), "", ""]))
  {
    assert "" + ":" + "" == ":";
    ProxyCommandOf(intf, "", "");
  }

  /** `EnableHTTPProxy`: a malformed address fails with `AddrFormat` and runs nothing;
      a well-formed one runs the single `-setwebproxy` command for it and returns that
      command's error unchanged. */
  function EnableHTTPProxy(intf: MacNetInterface, addr: string, run: Runner): (r: Effect)
    ensures |r.issued| <= 1
    ensures r.issued == [] <==> multiset(addr)[':'] != 1
    ensures r.issued == [] ==> r.err == Failure(AddrFormat)
    ensures |r.issued| == 1 ==> SetsProxy(r.issued[0], intf.Name(), addr)
                                && r.err == Call(run(r.issued[0])).err
  {
    match ProxyCommand(intf, addr)
    case Rejected(e) => Effect(Failure(e), [])
    case Issue(cmd) => Effect(Call(run(cmd)).err, [cmd])
  }

  /** The command that switches the web proxy of `intf` off. */
  function DisableCommand(intf: MacNetInterface): Command {
    Command(Networksetup, ["-setwebproxystate", intf.name, "off"])
  }

  /** `DisableHTTPProxy`: whatever the environment, exactly one command runs, the
      `-setwebproxystate ... off` one naming this service, and its error is returned
      unchanged; a timeout is not an error. */
  function DisableHTTPProxy(intf: MacNetInterface, run: Runner): (r: Effect)
    ensures |r.issued| == 1
    ensures r.issued[0].program == Networksetup
    ensures r.issued[0].args == ["-setwebproxystate", intf.Name(), "off"]
    ensures r.err.Failure? <==> run(r.issued[0]).Failed?
    ensures r.err.Failure? ==> r.err.error == ExecError(run(r.issued[0]).detail)
  {
    var cmd := DisableCommand(intf);
    Effect(Call(run(cmd)).err, [cmd])
  }

  // ---------------------------------------------------------------------------
  // The bulk operations of netutil.go over OS X services

  /** The bulk enable over OS X services: a malformed address makes the first service
      fail with `AddrFormat` and stops there; with a well-formed one every error is the
      error of a `networksetup` command. */
  method EnableMacProxies(intfs: seq<MacNetInterface>, addr: string, run: Runner)
    returns (err: Status, trace: seq<NetInterfaces.Invocation>)
    ensures multiset(addr)[':'] != 1 && |intfs| == 0 ==> err == Success && trace == []
    ensures multiset(addr)[':'] != 1 && |intfs| > 0 ==>
              err == Failure(AddrFormat) && trace == [NetInterfaces.Invocation(0, addr)]
    ensures multiset(addr)[':'] == 1 && err.Failure? ==> err.error.ExecError?
  {
    var enable := (intf, a) => EnableHTTPProxy(intf, a, run).err;
    err, trace := NetInterfaces.EnableHTTPProxy(intfs, addr, enable);
    if multiset(addr)[':'] != 1 && |intfs| > 0 {
      assert enable(intfs[0], addr) == Failure(AddrFormat);
      assert |trace| == 1;
    }
  }

  /** The bulk disable over OS X services: every error is the error of a
      `networksetup` command, and a service whose command timed out counts as done. */
  method DisableMacProxies(intfs: seq<MacNetInterface>, run: Runner)
    returns (err: Status, trace: seq<nat>)
    ensures err.Failure? ==> err.error.ExecError?
    ensures (forall k :: 0 <= k < |intfs| ==> !run(DisableCommand(intfs[k])).Failed?)
            ==> err == Success && |trace| == |intfs|
  {
    err, trace := NetInterfaces.DisableHTTPProxy(intfs, intf => DisableHTTPProxy(intf, run).err);
  }
}
