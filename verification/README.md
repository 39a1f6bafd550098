# netutil in Dafny

A model of the Go package `netutil`. The package reads and changes the HTTP proxy
settings of network services on OS X through two command-line tools. `scutil -r` probes
whether the internet is reachable. `networksetup` lists the network services and turns a
service's web proxy on or off.

The model has four modules:

- `Strings` (strings.dfy): the two helpers of Go's `strings` package that the parsers
  use, `TrimSpace` and `Split`, and `Join`, the reference against which the result of
  `Split` is stated. `TrimSpace` is characterised as "the part of the input between
  its leading and trailing white space", and that part is proved unique. `Split` with
  a one-character separator is proved to invert `Join`, in both directions.
- `Exec` (exec.dfy): the command executor `call`. The process, goroutine, channels and
  timer are replaced by an oracle `Runner`. It maps each `Command` to how the race
  between the process and the five-second timer ended: `Completed`, `Failed` or
  `TimedOut`. `Call` turns that ending into the `(output, err)` pair the Go function
  returns.
- `Darwin` (darwin.dfy): `MacNetInterface` and the functions of netutil_darwin.go:
  - `IsInternetReachable` and `ListInterfaces`, with their output parsers;
  - `ProxyCommand`, which checks the address and builds the `-setwebproxy` command;
  - `EnableHTTPProxy` and `DisableHTTPProxy`. Both return the error together with the
    commands they handed to the executor, so "nothing ran" can be stated;
  - `EnableMacProxies` and `DisableMacProxies`, which apply the bulk operations of
    `NetInterfaces` to OS X services.
- `NetInterfaces` (netinterfaces.dfy): the bulk `EnableHTTPProxy` / `DisableHTTPProxy`
  of netutil.go. They are generic over the interface implementation. Each interface's
  operation is an abstract fallible function. Each bulk operation returns the trace of
  the calls it made, so the properties "in order", "prefix" and "nothing after the
  first failure" can be stated.

Three behaviours of the code are easy to miss, and the model keeps them as written:

- A command that exceeds the five-second deadline is not an error. After the kill
  attempt, `call` falls through to its final `return` with empty output and a nil
  error. `Exec.TimeoutIsSilent` states this. As a result, a timed-out probe reads as
  "not reachable" with no error. A timed-out listing yields no services and no error.
  A timed-out proxy command counts as success.
- `EnableHTTPProxy` rejects an address only when splitting it on `:` does not give
  exactly two pieces. An empty host or an empty port (`":8080"`, `"host:"`, `":"`) is
  accepted and passed on.
- The service listing keeps blank lines between services, as services with an empty
  name. It drops the first line and the white space around the whole output. Because
  that white space is trimmed before the output is split into lines, a blank last line
  is lost, and so is any white space at the end of the last name.

## Model

| member | source | states |
|---|---|---|
| Strings.TrimSpace | netutil_darwin.go:46 | the trimmed text has no white space at either end, is surrounded in the input by white space only, and is empty exactly when the input is all white space |
| Strings.TrimSpaceUnique | netutil_darwin.go:37 | any core that neither starts nor ends with white space, padded only by white space, is what trimming returns, so trimming is fully determined by the padding |
| Strings.TrimSpaceOf | netutil_darwin.go:37 | trimming `a + t + b` with all-space `a`, `b` and a trimmed `t` returns exactly `t` |
| Strings.TrimSpaceIff | netutil_darwin.go:37 | for a core that neither starts nor ends with white space, trimming yields that core exactly when the input is the core padded by white space |
| Strings.TrimSpaceIdempotent | netutil_darwin.go:46 | trimming twice is the same as trimming once |
| Strings.Split | netutil_darwin.go:46-47 | splitting yields one piece more than there are separators, so at least one piece even for empty text; no piece holds the separator; joining the pieces restores the text |
| Strings.SplitJoin | netutil_darwin.go:62-63 | splitting the join of a non-empty list of separator-free pieces gives back exactly those pieces |
| Exec.Call | netutil_darwin.go:92-102 | an error comes only from a failed process, carries its detail and comes with empty output; a completed process yields exactly its standard output and no error; non-empty output comes only from a completed process; a timeout gives empty output and a nil error |
| Exec.TimeoutIsSilent | netutil_darwin.go:93-102 | a timeout looks the same to the caller as a command that succeeded silently, whether or not the kill failed |
| Darwin.MacNetInterface.Name | netutil_darwin.go:57-59 | returns the name the service was built with, so the service is rebuilt from its name alone |
| Darwin.ParseReachability | netutil_darwin.go:37 | the probe output means "reachable" exactly when it is the word `Reachable` with only white space around it |
| Darwin.ReachableExample | netutil_darwin.go:37 | `"Reachable\n"` means reachable |
| Darwin.UnreachableExample | netutil_darwin.go:37 | `"Unreachable\n"` means not reachable |
| Darwin.BlankIsUnreachable | netutil_darwin.go:37 | output made only of white space means not reachable |
| Darwin.IsInternetReachable | netutil_darwin.go:32-39 | a failed probe returns its error unchanged and "not reachable"; otherwise there is no error, and the result is "reachable" exactly when the probe completed with padded `Reachable` |
| Darwin.ParseListing | netutil_darwin.go:46-53 | there is one service per newline of the trimmed output, so blank output lists none and the length is never negative; no name holds a newline; some header line followed by the names, joined by newlines, is exactly the trimmed output |
| Darwin.Services | netutil_darwin.go:47-52 | one service per line after the first; the first line followed by the services' names gives back the lines |
| Darwin.ListingRoundTrip | netutil_darwin.go:46-53 | a header line plus one line per service, with any white space around it, lists exactly those services in order, each service's `Name()` being its line, provided the joined lines neither start nor end with white space (otherwise trimming also eats into the header or the last name) |
| Darwin.ListingLines | netutil_darwin.go:46-53 | service i is named by line i+1 of the trimmed output, in order, with the header line dropped |
| Darwin.ListingExample | netutil_darwin.go:46-53 | `"Header line\nsvc1\nsvc2\n"` lists `svc1`, `svc2` |
| Darwin.ListingKeepsBlankLines | netutil_darwin.go:46-52 | for any header and any services, a blank line between services becomes a service with an empty name rather than being dropped: the services before it, the empty name, then the services after it, provided the joined lines neither start nor end with white space |
| Darwin.ListingBlankLineExample | netutil_darwin.go:46-52 | `"Header\nWi-Fi\n\nBluetooth PAN\n"` lists `Wi-Fi`, an empty name and `Bluetooth PAN` |
| Darwin.ListingTrimsLastLine | netutil_darwin.go:46-52 | `"Header\nWi-Fi \n\n"` lists only `Wi-Fi`: the trailing blank line and the space after the last name go with the trimmed white space |
| Darwin.ListInterfaces | netutil_darwin.go:41-55 | a failed listing returns its error unchanged and no services; a completed one returns the services its output lists; a timed-out one returns no services and no error |
| Darwin.ProxyCommand | netutil_darwin.go:62-67 | the address is refused with the format error exactly when it does not hold exactly one colon, and that error reads `Please specify addr as host:port (e.g. 127.0.0.1:8080)`; otherwise the command is `networksetup -setwebproxy name host port`, where host and port are colon-free and `host:port` is the address |
| Darwin.ProxyCommandOf | netutil_darwin.go:62-67 | an address built from a colon-free host and port is split back into that host and port |
| Darwin.ProxyCommandExamples | netutil_darwin.go:62-66 | `"noport"`, `"a:b:c"` and `""` are refused with the format error |
| Darwin.ProxyCommandExample | netutil_darwin.go:67 | `"127.0.0.1:8080"` gives host `127.0.0.1` and port `8080` |
| Darwin.ProxyCommandAcceptsEmptyParts | netutil_darwin.go:62-67 | `":"` is accepted, with empty host and empty port |
| Darwin.EnableHTTPProxy | netutil_darwin.go:61-69 | a malformed address fails with the format error and runs no command; a well-formed one runs exactly one `-setwebproxy` command for this service and address and returns that command's error unchanged |
| Darwin.DisableHTTPProxy | netutil_darwin.go:71-74 | exactly one command runs, `networksetup -setwebproxystate name off` (the argument list of line 72, built by `DisableCommand`); its failure is returned unchanged, and anything else is success |
| NetInterfaces.EnableHTTPProxy | netutil.go:19-26 | interfaces are called in order, each with the same address; the calls form a prefix that ends at the first failure; the result is nil exactly when every interface succeeds, and otherwise it is the first failing interface's error; an empty collection calls nothing and returns nil |
| NetInterfaces.DisableHTTPProxy | netutil.go:28-35 | the same first-failure-stops guarantees as the bulk enable, for the disable operation |
| Darwin.EnableMacProxies | netutil.go:19-26 | over OS X services, a malformed address fails on the first service with the format error and calls no other; with a well-formed address every error comes from a command |
| Darwin.DisableMacProxies | netutil.go:28-35 | over OS X services, every error comes from a command, and if no service's command fails (timeouts included), all are visited and the result is nil |

## Left out

- Running commands: `call` spawns the process and races it against a five-second timer
  using a goroutine, channels and `select` (netutil_darwin.go:76-103). This is
  concurrency and process I/O. It is replaced by the `Runner` oracle, which reports how
  the race ended. The timer's length never shows in the results, so it is not modelled.
- The log line written when killing a timed-out process fails. It is a side effect
  only. `TimedOut(killFailed)` records the case, and `Call` ignores it.
- Program paths: they are kept as the literal strings of the source, with no check
  that the executables exist.
- Text encoding: strings are sequences of Unicode scalar values. Go works on UTF-8
  bytes, and its handling of invalid UTF-8 is not modelled. White space is the exact
  set Go's `unicode.IsSpace` accepts.
- Error text: a failing command's error is `ExecError(detail)`, with the detail taken
  from the oracle. The text Go's `exec` package would format is not modelled.
- State of the host: each interface's operation in the bulk methods is a fixed
  function of its arguments, and the oracle gives a fixed result per command. A host
  whose answer to the same command changes between calls is not modelled.
- Reference semantics: Go's interface values (`*MacNetInterface` behind `NetInterface`) become
  immutable datatype values. The implementation is never mutated after creation.
- netutil_test.go: a live test that needs the network and root privileges. Its
  assertions amount to "the calls succeed".
- Darwin.EnableMacProxies: states only the malformed-address path and where
  errors come from. The full first-failure behaviour is in `NetInterfaces.EnableHTTPProxy`.
- Darwin.DisableMacProxies: states only where errors come from and the
  all-succeed case. The full first-failure behaviour is in `NetInterfaces.DisableHTTPProxy`.
