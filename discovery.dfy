/** Finding the UD-CO2S among the serial ports the system lists: the first
    USB port with the sensor's vendor and product IDs. */
module Discovery {
  import opened Wire

  /** What the port enumerator reports about one serial port. */
  datatype PortInfo = PortInfo(name: string, isUSB: bool, vid: string, pid: string)

  const VendorID: string := "04D8"
  const ProductID: string := "E95A"

  /** How the search ends: the device's port name, no such device, or the
      port listing itself failed. */
  datatype Found = Port(name: string) | NotFound | ListFailed

  predicate IsUDCO2S(p: PortInfo) {
    p.isUSB && p.pid == ProductID && p.vid == VendorID
  }

  /** The index of the first UD-CO2S in `ports`, if any. */
  function FirstDevice(ports: seq<PortInfo>): (r: Option<nat>)
    ensures r.Some? ==> r.value < |ports| && IsUDCO2S(ports[r.value])
    ensures r.Some? ==> forall j :: 0 <= j < r.value ==> !IsUDCO2S(ports[j])
    ensures r.None? ==> forall j :: 0 <= j < |ports| ==> !IsUDCO2S(ports[j])
  {
    if ports == [] then None
    else if IsUDCO2S(ports[0]) then Some(0)
    else
      match FirstDevice(ports[1..])
      case None => None
      case Some(i) => Some(i + 1)
  }

  /** `findUDCO2S`: list the ports (`None` when the listing fails) and
      return the name of the first one that is the sensor. */
  method FindUDCO2S(listed: Option<seq<PortInfo>>) returns (r: Found)
    ensures listed.None? <==> r == ListFailed
    ensures listed.Some? ==> match FirstDevice(listed.value)
      case Some(i) => r == Port(listed.value[i].name)
      case None => r == NotFound
  {
    if listed.None? {
      return ListFailed;
    }
    var ports := listed.value;
    var i := 0;
    while i < |ports|
      invariant i <= |ports|
      invariant forall j :: 0 <= j < i ==> !IsUDCO2S(ports[j])
    {
      var p := ports[i];
      if p.isUSB && p.pid == ProductID && p.vid == VendorID {
        FirstDeviceIs(ports, i);
        return Port(p.name);
      }
      i := i + 1;
    }
    NoDevice(ports);
    return NotFound;
  }

  /** A device preceded only by other ports is the first device. */
  lemma {:induction false} FirstDeviceIs(ports: seq<PortInfo>, i: nat)
    requires i < |ports| && IsUDCO2S(ports[i])
    requires forall j :: 0 <= j < i ==> !IsUDCO2S(ports[j])
    ensures FirstDevice(ports) == Some(i)
    decreases i
  {
    if i > 0 {
      FirstDeviceIs(ports[1..], i - 1);
    }
  }

  /** A listing without the device has no first device. */
  lemma {:induction false} NoDevice(ports: seq<PortInfo>)
    requires forall j :: 0 <= j < |ports| ==> !IsUDCO2S(ports[j])
    ensures FirstDevice(ports) == None
    decreases |ports|
  {
    if ports != [] {
      NoDevice(ports[1..]);
    }
  }
}
