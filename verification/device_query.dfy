/** The native device listing `query` (src/lib.rs:18-25): one tuple per
    device the driver reports, built with a push loop. The driver's own
    discovery is a parameter. */
module DeviceQuery {
  import opened Wrappers

  /** A device as the driver describes it. */
  datatype DeviceInfo = DeviceInfo(index: nat, humanName: string, description: string, misc: string)

  /** The driver's `query()` failed; the source unwraps it and panics. */
  datatype QueryError = DiscoveryFailed(message: string)

  /** The tuple reported for one device. */
  function Describe(d: DeviceInfo): (nat, string, string, string) {
    (d.index, d.humanName, d.description, d.misc)
  }

  /** `query`: every reported device, in the driver's order, as an
      (index, name, description, misc) tuple. */
  method Query(devices: Result<seq<DeviceInfo>, string>)
    returns (r: Result<seq<(nat, string, string, string)>, QueryError>)
    ensures devices.Err? ==> r == Err(DiscoveryFailed(devices.error))
    ensures devices.Ok? ==> r.Ok? && |r.value| == |devices.value|
    ensures devices.Ok? ==> forall i :: 0 <= i < |devices.value| ==>
      r.value[i] == (devices.value[i].index, devices.value[i].humanName,
                     devices.value[i].description, devices.value[i].misc)
  {
    if devices.Err? {
      return Err(DiscoveryFailed(devices.error));
    }
    var found := devices.value;
    var result: seq<(nat, string, string, string)> := [];
    var i := 0;
    while i < |found|
      invariant 0 <= i <= |found|
      invariant |result| == i
      invariant forall k :: 0 <= k < i ==> result[k] == Describe(found[k])
    {
      result := result + [Describe(found[i])];
      i := i + 1;
    }
    r := Ok(result);
  }
}
