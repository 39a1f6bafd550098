/**
 The bulk operations of netutil.go on `NetInterfaces`, an ordered collection of network
 interfaces. They visit the interfaces one after another and stop at the first error,
 which they return; nothing is undone.

 An interface is any value of type `I`; its own operation is a total function to a
 Go error, so the bulk operations work for every implementation of the interface. Each
 bulk operation also returns the trace of the calls it made, in order.
 */
module NetInterfaces {
  import opened Exec

  /** One call made by the bulk enable: the position of the interface and the address
      it was given. */
  datatype Invocation = Invocation(index: nat, addr: string)

  /** `NetInterfaces.EnableHTTPProxy`: the interfaces are called in order, each with the
      same address, up to and including the first that fails, and none after it. The
      result is nil exactly when every interface succeeds; otherwise it is the first
      failing interface's error. */
  method EnableHTTPProxy<I>(intfs: seq<I>, addr: string, enable: (I, string) -> Status)
    returns (err: Status, trace: seq<Invocation>)
    ensures |trace| <= |intfs|
    ensures forall k :: 0 <= k < |trace| ==> trace[k] == Invocation(k, addr)
    ensures forall k :: 0 <= k < |trace| - 1 ==> enable(intfs[k], addr) == Success
    ensures err == Success <==> forall k :: 0 <= k < |intfs| ==> enable(intfs[k], addr) == Success
    ensures err == Success ==> |trace| == |intfs|
    ensures err.Failure? ==> |trace| > 0 && err == enable(intfs[|trace| - 1], addr)
  {
    trace := [];
    var i := 0;
    while i < |intfs|
      invariant i <= |intfs| && |trace| == i
      invariant forall k :: 0 <= k < i ==> trace[k] == Invocation(k, addr)
      invariant forall k :: 0 <= k < i ==> enable(intfs[k], addr) == Success
    {
      trace := trace + [Invocation(i, addr)];
      err := enable(intfs[i], addr);
      if err.Failure? {
        return;
      }
      i := i + 1;
    }
    err := Success;
  }

  /** `NetInterfaces.DisableHTTPProxy`: the same first-failure-stops visit, on its own:
      the interfaces are called in order up to and including the first that fails. */
  method DisableHTTPProxy<I>(intfs: seq<I>, disable: I -> Status)
    returns (err: Status, trace: seq<nat>)
    ensures |trace| <= |intfs|
    ensures forall k :: 0 <= k < |trace| ==> trace[k] == k
    ensures forall k :: 0 <= k < |trace| - 1 ==> disable(intfs[k]) == Success
    ensures err == Success <==> forall k :: 0 <= k < |intfs| ==> disable(intfs[k]) == Success
    ensures err == Success ==> |trace| == |intfs|
    ensures err.Failure? ==> |trace| > 0 && err == disable(intfs[|trace| - 1])
  {
    trace := [];
    var i := 0;
    while i < |intfs|
      invariant i <= |intfs| && |trace| == i
      invariant forall k :: 0 <= k < i ==> trace[k] == k
      invariant forall k :: 0 <= k < i ==> disable(intfs[k]) == Success
    {
      trace := trace + [i];
      err := disable(intfs[i]);
      if err.Failure? {
        return;
      }
      i := i + 1;
    }
    err := Success;
  }
}
