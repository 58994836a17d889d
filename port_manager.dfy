/** The port reservation registry of src/io/port_manager.rs: a `PortManager` hands out
    each I/O port address at most once, and a `Port` remembers its address. */
module Ports {
  import opened Wrappers
  import opened Unsigned

  /** `Port { addr: u16 }`. */
  datatype Port = Port(addr: nat)

  /** `Port::new`: the port reads back the address it was made for. */
  function NewPort(addr: nat): (p: Port)
    requires Fits(U16, addr)
    ensures GetAddr(p) == addr && Fits(U16, GetAddr(p))
  {
    Port(addr)
  }

  /** `Port::get_addr`. */
  function GetAddr(p: Port): nat
  {
    p.addr
  }

  /** `request_port(addr)` on the set of addresses in use: afterwards `addr` is
      in use and nothing else changed, and a port is handed out exactly when
      `addr` was free. */
  function Request(inUse: set<nat>, addr: nat): (r: (set<nat>, Option<Port>))
    requires Fits(U16, addr)
    ensures r.0 == inUse + {addr}
    ensures r.1.Some? <==> addr !in inUse
    ensures r.1.Some? ==> GetAddr(r.1.value) == addr
  {
    if addr in inUse then (inUse, None)
    else (inUse + {addr}, Some(NewPort(addr)))
  }

  /** `PortManager { allocated_ports: HashSet<u16> }`. */
  class PortManager {
    var allocatedPorts: set<nat>

    /** `PortManager::new`: no port is in use yet. */
    constructor ()
      ensures allocatedPorts == {}
    {
      allocatedPorts := {};
    }

    /** `request_port`: refuse an address already handed out, otherwise record it and
        return a port for it. */
    method RequestPort(addr: nat) returns (port: Option<Port>)
      requires Fits(U16, addr)
      modifies this
      ensures (allocatedPorts, port) == Request(old(allocatedPorts), addr)
    {
      if addr in allocatedPorts {
        return None;
      }
      allocatedPorts := allocatedPorts + {addr};
      port := Some(NewPort(addr));
    }
  }

  /** The answers to a sequence of requests, starting from the addresses `inUse`. */
  function Requests(inUse: set<nat>, addrs: seq<nat>): (r: seq<Option<Port>>)
    requires forall i :: 0 <= i < |addrs| ==> Fits(U16, addrs[i])
    ensures |r| == |addrs|
    decreases |addrs|
  {
    if addrs == [] then []
    else
      var (next, port) := Request(inUse, addrs[0]);
      [port] + Requests(next, addrs[1..])
  }

  /** Request `i` of a sequence is granted exactly when its address was neither
      inUse at the start nor requested earlier, and a granted port carries the
      requested address. */
  lemma {:induction false} RequestsGrant(inUse: set<nat>, addrs: seq<nat>, i: nat)
    requires forall k :: 0 <= k < |addrs| ==> Fits(U16, addrs[k])
    requires i < |addrs|
    ensures var r := Requests(inUse, addrs);
            && (r[i].Some? <==> addrs[i] !in inUse && addrs[i] !in addrs[..i])
            && (r[i].Some? ==> GetAddr(r[i].value) == addrs[i])
    decreases i
  {
    var next := Request(inUse, addrs[0]).0;
    if i > 0 {
      var rest := addrs[1..];
      RequestsGrant(next, rest, i - 1);
      assert rest[i - 1] == addrs[i];
      assert addrs[..i] == [addrs[0]] + rest[..i - 1];
    }
  }

  /** Over any sequence of requests each address is handed out at most once. */
  lemma RequestsAtMostOnce(inUse: set<nat>, addrs: seq<nat>, i: nat, j: nat)
    requires forall k :: 0 <= k < |addrs| ==> Fits(U16, addrs[k])
    requires i < j < |addrs|
    requires Requests(inUse, addrs)[i].Some? && Requests(inUse, addrs)[j].Some?
    ensures GetAddr(Requests(inUse, addrs)[i].value) != GetAddr(Requests(inUse, addrs)[j].value)
  {
    RequestsGrant(inUse, addrs, i);
    RequestsGrant(inUse, addrs, j);
    assert addrs[i] in addrs[..j];
  }
}
