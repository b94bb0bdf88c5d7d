/** The device list of main/esp32_nat_router.c, its status updates, and the verdict of main/packet_filter.c. */
module PacketFilter {
  import opened Bytes
  import opened ServiceRules
  import opened DeviceTable
  import ServiceFilter

  class Firewall {
    const deviceList: array<Device>
    var deviceCount: nat
    const connectedMacs: array<Mac>
    var connectedCount: nat
    var connectCount: uint16

    ghost predicate Valid()
      reads this, deviceList, connectedMacs
    {
      && deviceList.Length == MAX_DEVICES
      && connectedMacs.Length == MAX_CONNECTED_DEVICES
      && deviceCount <= deviceList.Length
      && connectedCount <= connectedMacs.Length
      && Sound(State())
    }

    ghost function State(): Table
      reads this, deviceList, connectedMacs
      requires deviceCount <= deviceList.Length && connectedCount <= connectedMacs.Length
    {
      Table(deviceList[..deviceCount], connectedMacs[..connectedCount], connectCount)
    }

    /** Static data at power-up. */
    constructor ()
      ensures Valid() && fresh(deviceList) && fresh(connectedMacs)
      ensures State() == AT_BOOT
    {
      deviceList := new Device[MAX_DEVICES](_ => Device([0, 0, 0, 0, 0, 0], Pending));
      connectedMacs := new Mac[MAX_CONNECTED_DEVICES](_ => [0, 0, 0, 0, 0, 0]);
      deviceCount, connectedCount, connectCount := 0, 0, 0;
    }

    method MacExists(mac: Mac) returns (found: bool)
      requires Valid()
      ensures found <==> IndexOf(State().devices, 0, mac) < deviceCount
    {
      for i := 0 to deviceCount
        invariant forall j :: 0 <= j < i ==> deviceList[j].mac != mac
      {
        if deviceList[i].mac == mac {
          return true;
        }
      }
      return false;
    }

    method AddDevice(mac: Mac)
      requires Valid()
      modifies this`deviceCount, deviceList
      ensures Valid()
      ensures State() == old(State()).(devices := WithDevice(old(State()).devices, mac))
    {
      if deviceCount < MAX_DEVICES {
        var found := MacExists(mac);
        if !found {
          deviceList[deviceCount] := Device(mac, Pending);
          deviceCount := deviceCount + 1;
        }
      }
    }

    /** The status of the first entry for the address; PENDING if there is none. */
    method LookUpStatus(mac: Mac) returns (status: Status)
      requires Valid()
      ensures status == StatusOf(State().devices, mac)
    {
      status := Pending;
      for i := 0 to deviceCount
        invariant status == Pending && forall j :: 0 <= j < i ==> deviceList[j].mac != mac
      {
        if deviceList[i].mac == mac {
          status := deviceList[i].status;
          IndexIs(State().devices, mac, i);
          break;
        }
      }
    }

    /** The station's address is kept while there is room; it is counted in any case. */
    method RecordStation(mac: Mac)
      requires Valid()
      modifies this`connectedCount, this`connectCount, connectedMacs
      ensures Valid()
      ensures var was := old(State());
              State() == was.(connected := if |was.connected| < MAX_CONNECTED_DEVICES then was.connected + [mac] else was.connected,
                              connectCount := (was.connectCount + 1) % 0x10000)
    {
      if connectedCount < MAX_CONNECTED_DEVICES {
        connectedMacs[connectedCount] := mac;
        connectedCount := connectedCount + 1;
      }
      connectCount := (connectCount + 1) % 0x10000;
    }

    /** A station joins; a blocked one is turned away and nothing is recorded. */
    method OnStationConnected(mac: Mac) returns (turnedAway: bool)
      requires Valid()
      modifies this, deviceList, connectedMacs
      ensures Valid()
      ensures State() == Step(old(State()), Connected(mac))
      ensures turnedAway <==> StatusOf(old(State()).devices, mac) == Blocked
    {
      hide StatusOf, WithDevice;
      var status := LookUpStatus(mac);
      if status == Blocked {
        return true;
      }
      RecordStation(mac);
      AddDevice(mac);
      return false;
    }

    /** Moves the addresses after slot `i` one slot down. */
    method ShiftDown(i: nat)
      requires i < connectedCount <= connectedMacs.Length
      modifies connectedMacs
      ensures forall k :: 0 <= k < connectedCount - 1 ==>
                connectedMacs[k] == if k < i then old(connectedMacs[k]) else old(connectedMacs[k + 1])
    {
      for j := i to connectedCount - 1
        invariant forall k :: 0 <= k < j ==>
                    connectedMacs[k] == if k < i then old(connectedMacs[k]) else old(connectedMacs[k + 1])
        invariant forall k :: j <= k < connectedCount ==> connectedMacs[k] == old(connectedMacs[k])
      {
        connectedMacs[j] := connectedMacs[j + 1];
      }
    }

    /** The first entry for the address is closed over by shifting. */
    method RemoveConnected(mac: Mac)
      requires connectedCount <= connectedMacs.Length
      modifies this`connectedCount, connectedMacs
      ensures connectedCount <= connectedMacs.Length
      ensures connectedMacs[..connectedCount] == RemoveFirst(old(connectedMacs[..connectedCount]), mac)
    {
      ghost var macs := connectedMacs[..connectedCount];
      for i := 0 to connectedCount
        invariant connectedMacs[..connectedCount] == macs
        invariant forall j :: 0 <= j < i ==> macs[j] != mac
      {
        if connectedMacs[i] == mac {
          RemoveFirstAt(macs, mac, i);
          ShiftDown(i);
          connectedCount := connectedCount - 1;
          assert connectedMacs[..connectedCount] == macs[..i] + macs[i + 1..];
          return;
        }
      }
      RemoveFirstAbsent(macs, mac);
    }

    method OnStationDisconnected(mac: Mac)
      requires Valid()
      modifies this`connectedCount, this`connectCount, connectedMacs
      ensures Valid()
      ensures State() == Step(old(State()), Disconnected(mac))
    {
      StepKeepsSound(State(), Disconnected(mac));
      hide Sound, RemoveFirst;
      RemoveConnected(mac);
      connectCount := (connectCount + 0xFFFF) % 0x10000;
    }

    /** The table update of `update_mac_handler`; false is its "MAC not found" answer. */
    method UpdateMacStatus(mac: Mac, word: string) returns (found: bool)
      requires Valid()
      modifies deviceList
      ensures Valid()
      ensures State() == Step(old(State()), UpdateMac(mac, word))
      ensures found <==> exists i :: 0 <= i < deviceCount && old(deviceList[i].mac) == mac
    {
      found := false;
      ghost var devices := deviceList[..deviceCount];
      for i := 0 to deviceCount
        invariant deviceList[..deviceCount] == devices && !found
        invariant forall j :: 0 <= j < i ==> devices[j].mac != mac
      {
        if deviceList[i].mac == mac {
          IndexIs(devices, mac, i);
          found := true;
          if word == "ALLOWED" {
            deviceList[i] := deviceList[i].(status := Allowed);
          } else if word == "BLOCKED" {
            deviceList[i] := deviceList[i].(status := Blocked);
          }
          break;
        }
      }
    }

    method IsPacketAllowed(services: ServiceFilter.ServiceFilter, srcMac: Mac, proto: byte, srcPort: uint16, dstPort: uint16)
      returns (allowed: bool)
      requires Valid() && services.Shaped()
      ensures allowed == PacketAllowed(State(), services.State(), srcMac, proto, srcPort, dstPort)
    {
      if srcMac == ADMIN_MAC {
        return true;
      }
      var status := LookUpStatus(srcMac);
      if status == Blocked {
        return false;
      }
      if proto == TCP || proto == UDP {
        var serviceAllows := services.ServiceIsPortAllowed(proto, dstPort);
        if !serviceAllows {
          return false;
        }
      }
      return true;
    }
  }

  lemma {:induction false} RemoveFirstAt(macs: seq<Mac>, mac: Mac, i: nat)
    requires i < |macs| && macs[i] == mac && forall j :: 0 <= j < i ==> macs[j] != mac
    ensures RemoveFirst(macs, mac) == macs[..i] + macs[i + 1..]
  {
    if i > 0 {
      RemoveFirstAt(macs[1..], mac, i - 1);
      assert macs[..i] == [macs[0]] + macs[1..][..i - 1];
      assert macs[1..][i..] == macs[i + 1..];
    }
  }

  lemma {:induction false} RemoveFirstAbsent(macs: seq<Mac>, mac: Mac)
    requires mac !in macs
    ensures RemoveFirst(macs, mac) == macs
  {
    if macs != [] {
      RemoveFirstAbsent(macs[1..], mac);
    }
  }
}
