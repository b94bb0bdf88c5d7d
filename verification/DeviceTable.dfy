/** The device table as a value, and the verdict on a packet, over runs of station, update and power events. */
module DeviceTable {
  import opened Bytes
  import opened ServiceRules
  import ServiceTable

  const MAX_DEVICES := 20
  const MAX_CONNECTED_DEVICES := 8

  const ADMIN_MAC: Mac := [0x8C, 0x1D, 0x96, 0x5F, 0x7D, 0xA5]

  datatype Status = Pending | Allowed | Blocked

  datatype Device = Device(mac: Mac, status: Status)

  /** `device_list`, `connected_macs` (the used parts) and `connect_count`. */
  datatype Table = Table(devices: seq<Device>, connected: seq<Mac>, connectCount: uint16)

  const AT_BOOT := Table([], [], 0)

  datatype Event =
    | Connected(mac: Mac)
    | Disconnected(mac: Mac)
    | UpdateMac(mac: Mac, status: string)
    | PowerCycle

  /** First entry for the address, or the length. */
  function IndexOf(devices: seq<Device>, from: nat, mac: Mac): (i: nat)
    requires from <= |devices|
    ensures from <= i <= |devices|
    ensures i < |devices| ==> devices[i].mac == mac
    ensures forall j :: from <= j < i ==> devices[j].mac != mac
    decreases |devices| - from
  {
    if from == |devices| || devices[from].mac == mac then from else IndexOf(devices, from + 1, mac)
  }

  function StatusOf(devices: seq<Device>, mac: Mac): Status {
    var i := IndexOf(devices, 0, mac);
    if i < |devices| then devices[i].status else Pending
  }

  function WithDevice(devices: seq<Device>, mac: Mac): seq<Device> {
    if |devices| < MAX_DEVICES && IndexOf(devices, 0, mac) == |devices| then devices + [Device(mac, Pending)]
    else devices
  }

  /** The list without the first occurrence of the address. */
  function RemoveFirst(macs: seq<Mac>, mac: Mac): seq<Mac> {
    if macs == [] then []
    else if macs[0] == mac then macs[1..]
    else [macs[0]] + RemoveFirst(macs[1..], mac)
  }

  /** The status an update asks for; any other word leaves the status alone. */
  function Requested(was: Status, word: string): Status {
    if word == "ALLOWED" then Allowed else if word == "BLOCKED" then Blocked else was
  }

  function Step(t: Table, e: Event): Table {
    match e
    case Connected(mac) =>
      if StatusOf(t.devices, mac) == Blocked then t
      else
        Table(WithDevice(t.devices, mac),
              if |t.connected| < MAX_CONNECTED_DEVICES then t.connected + [mac] else t.connected,
              (t.connectCount + 1) % 0x10000)
    case Disconnected(mac) =>
      t.(connected := RemoveFirst(t.connected, mac), connectCount := (t.connectCount + 0xFFFF) % 0x10000)
    case UpdateMac(mac, word) =>
      var i := IndexOf(t.devices, 0, mac);
      if i < |t.devices| then
        t.(devices := t.devices[i := Device(mac, Requested(t.devices[i].status, word))])
      else t
    case PowerCycle => AT_BOOT
  }

  function Run(t: Table, events: seq<Event>): Table
    decreases |events|
  {
    if events == [] then t else Run(Step(t, events[0]), events[1..])
  }

  /** Addresses in the table are distinct, and the lists fit their arrays. */
  ghost predicate Sound(t: Table) {
    && |t.devices| <= MAX_DEVICES
    && |t.connected| <= MAX_CONNECTED_DEVICES
    && forall i, j :: 0 <= i < j < |t.devices| ==> t.devices[i].mac != t.devices[j].mac
  }

  /** `is_packet_allowed`. */
  function PacketAllowed(t: Table, s: ServiceTable.State, mac: Mac, proto: byte, srcPort: uint16, dstPort: uint16): bool
    requires ServiceTable.WellShaped(s)
  {
    if mac == ADMIN_MAC then true
    else if StatusOf(t.devices, mac) == Blocked then false
    else if proto == TCP || proto == UDP then ServiceTable.IsPortAllowed(s, proto, dstPort)
    else true
  }

  /** No packet from the address passes, whatever its protocol and ports and whatever the service rules. */
  ghost predicate Dropped(t: Table, mac: Mac) {
    forall s, proto, srcPort, dstPort :: ServiceTable.WellShaped(s) ==> !PacketAllowed(t, s, mac, proto, srcPort, dstPort)
  }

  lemma DroppedExactlyWhenBlocked(t: Table, mac: Mac)
    ensures Dropped(t, mac) <==> mac != ADMIN_MAC && StatusOf(t.devices, mac) == Blocked
  {
    assert ServiceTable.WellShaped(ServiceTable.FACTORY);
    var icmp: byte := 1;
    if Dropped(t, mac) {
      assert !PacketAllowed(t, ServiceTable.FACTORY, mac, icmp, 0, 0);
    }
  }

  lemma {:induction false} RemoveFirstShrinks(macs: seq<Mac>, mac: Mac)
    ensures multiset(RemoveFirst(macs, mac)) == multiset(macs) - multiset{mac}
    ensures |RemoveFirst(macs, mac)| == if mac in macs then |macs| - 1 else |macs|
  {
    if macs != [] {
      assert macs == [macs[0]] + macs[1..];
      RemoveFirstShrinks(macs[1..], mac);
    }
  }

  lemma {:induction false} IndexIs(devices: seq<Device>, mac: Mac, i: nat)
    requires i <= |devices|
    requires i < |devices| ==> devices[i].mac == mac
    requires forall j :: 0 <= j < i ==> devices[j].mac != mac
    ensures IndexOf(devices, 0, mac) == i
  {
  }

  lemma StepKeepsSound(t: Table, e: Event)
    requires Sound(t)
    ensures Sound(Step(t, e))
  {
    if e.Disconnected? {
      RemoveFirstShrinks(t.connected, e.mac);
    }
  }

  /** Addresses stay distinct and at most 20 in every run. */
  lemma {:induction false} RunKeepsSound(t: Table, events: seq<Event>)
    requires Sound(t)
    ensures Sound(Run(t, events))
    decreases |events|
  {
    if events != [] {
      StepKeepsSound(t, events[0]);
      RunKeepsSound(Step(t, events[0]), events[1..]);
    }
  }

  /** The administrator's packets all pass, and those of a blocked device are all dropped; of the others, those that are
      neither TCP nor UDP pass, and the rest as their destination port is decided. */
  lemma PacketVerdict(t: Table, s: ServiceTable.State, mac: Mac, proto: byte, srcPort: uint16, dstPort: uint16)
    requires ServiceTable.WellShaped(s)
    ensures PacketAllowed(t, s, mac, proto, srcPort, dstPort)
       <==> || mac == [0x8C, 0x1D, 0x96, 0x5F, 0x7D, 0xA5]
            || (&& StatusOf(t.devices, mac) != Blocked
                && (proto == 6 || proto == 17 ==> ServiceTable.IsPortAllowed(s, proto, dstPort)))
  {
  }

  /** Without a custom rule for it, a TCP or UDP packet of such a device passes exactly when no blocked service has
      its protocol and destination port. */
  lemma BuiltinsDecidePackets(t: Table, s: ServiceTable.State, mac: Mac, proto: byte, srcPort: uint16, dstPort: uint16)
    requires ServiceTable.Sound(s) && !ServiceTable.HasCustomRule(s, proto, dstPort)
    requires mac != ADMIN_MAC && StatusOf(t.devices, mac) != Blocked
    ensures PacketAllowed(t, s, mac, proto, srcPort, dstPort)
       <==> (proto != 6 && proto != 17)
            || forall id :: 0 <= id < 16 && s.services[id].blocked ==> !IsServicePacket(id, proto, dstPort)
  {
    ServiceTable.BuiltinsDecide(s, proto, dstPort);
    hide IsServicePacket;
  }

  /** The events after which a blocked address can pass again. */
  predicate Unblocks(e: Event, mac: Mac) {
    e == UpdateMac(mac, "ALLOWED") || e == PowerCycle
  }

  /** Whether the address has an entry. */
  predicate Listed(devices: seq<Device>, mac: Mac) {
    IndexOf(devices, 0, mac) < |devices|
  }

  /** What one event does to the entry of one address: only an update for that address or a power cut changes
      its status, and only its own station joining, while it is not blocked and there is room, gives it an entry. */
  lemma StatusStep(t: Table, e: Event, mac: Mac)
    ensures StatusOf(Step(t, e).devices, mac)
         == match e
            case PowerCycle => Pending
            case UpdateMac(m, word) =>
              if m != mac || !Listed(t.devices, mac) then StatusOf(t.devices, mac)
              else if word == "ALLOWED" then Allowed
              else if word == "BLOCKED" then Blocked
              else StatusOf(t.devices, mac)
            case _ => StatusOf(t.devices, mac)
    ensures Listed(Step(t, e).devices, mac)
       <==> match e
            case PowerCycle => false
            case Connected(m) => Listed(t.devices, mac) || (m == mac && |t.devices| < 20)
            case _ => Listed(t.devices, mac)
  {
    var i, t' := IndexOf(t.devices, 0, mac), Step(t, e);
    match e
    case Connected(m) =>
      assert t'.devices == t.devices || t'.devices == t.devices + [Device(m, Pending)];
      IndexIs(t'.devices, mac, if i < |t.devices| || m == mac then i else |t'.devices|);
    case UpdateMac(m, word) => IndexIs(t'.devices, mac, i);
    case _ =>
  }

  /** What a station event does to the list of joined stations, as a multiset. */
  lemma StationsStep(t: Table, e: Event)
    requires !e.PowerCycle?
    ensures multiset(Step(t, e).connected)
         == match e
            case Connected(m) =>
              if StatusOf(t.devices, m) != Blocked && |t.connected| < 8 then
                multiset(t.connected) + multiset{m}
              else multiset(t.connected)
            case Disconnected(m) => multiset(t.connected) - multiset{m}
            case _ => multiset(t.connected)
  {
    if e.Disconnected? {
      RemoveFirstShrinks(t.connected, e.mac);
    }
  }

  /** How an event moves the counter: a station turned away is not counted, one that leaves is, whether or not it was. */
  function Moves(t: Table, e: Event): int {
    match e
    case Connected(m) => if StatusOf(t.devices, m) == Blocked then 0 else 1
    case Disconnected(_) => -1
    case _ => 0
  }

  function Balance(t: Table, events: seq<Event>): int
    decreases |events|
  {
    if events == [] then 0 else Moves(t, events[0]) + Balance(Step(t, events[0]), events[1..])
  }

  lemma CounterMoves(t: Table, e: Event)
    requires e != PowerCycle
    ensures Step(t, e).connectCount == (t.connectCount + Moves(t, e)) % 65536
  {
    hide StatusOf, WithDevice, RemoveFirst, IndexOf;
  }

  /** Between power cuts the 16-bit counter is the balance of what moved it. */
  lemma {:induction false} CounterIsBalance(t: Table, events: seq<Event>)
    requires PowerCycle !in events
    ensures Run(t, events).connectCount == (t.connectCount + Balance(t, events)) % 65536
    decreases |events|
  {
    if events != [] {
      var t1, rest := Step(t, events[0]), events[1..];
      assert events[0] in events && forall e :: e in rest ==> e in events;
      CounterIsBalance(t1, rest);
      CounterMoves(t, events[0]);
      AddWrapped(t.connectCount, Moves(t, events[0]), Balance(t1, rest));
      hide Step, Moves;
    }
  }

  lemma AddWrapped(a: int, d: int, b: int)
    ensures ((a + d) % 65536 + b) % 65536 == (a + (d + b)) % 65536
  {
    assert (a + d) % 65536 == a + d - (a + d) / 65536 * 65536;
    assert ((a + d) - (a + d) / 65536 * 65536 + b) % 65536 == (a + d + b) % 65536;
  }

  /** An update to BLOCKED that finds its device blocks it. */
  lemma BlockTakesEffect(t: Table, mac: Mac)
    requires mac != ADMIN_MAC
    ensures Dropped(Step(t, UpdateMac(mac, "BLOCKED")), mac) <==> Listed(t.devices, mac)
  {
    StatusStep(t, UpdateMac(mac, "BLOCKED"), mac);
    DroppedExactlyWhenBlocked(Step(t, UpdateMac(mac, "BLOCKED")), mac);
  }

  /** No packet from the address passes at any point of the run. */
  ghost predicate DroppedThroughout(t: Table, events: seq<Event>, mac: Mac)
    decreases |events|
  {
    Dropped(t, mac) && (events == [] || DroppedThroughout(Step(t, events[0]), events[1..], mac))
  }

  /** A blocked address other than the administrator's is dropped throughout a run, across reconnects,
      exactly when the run neither sets it ALLOWED nor cuts the power. */
  lemma {:induction false} StaysBlockedExactly(t: Table, events: seq<Event>, mac: Mac)
    requires mac != ADMIN_MAC && StatusOf(t.devices, mac) == Blocked
    ensures DroppedThroughout(t, events, mac) <==> !exists e :: e in events && Unblocks(e, mac)
    decreases |events|
  {
    DroppedExactlyWhenBlocked(t, mac);
    if events != [] {
      var t1 := Step(t, events[0]);
      StatusStep(t, events[0], mac);
      DroppedExactlyWhenBlocked(t1, mac);
      assert events[0] in events && forall e :: e in events <==> e == events[0] || e in events[1..];
      if !Unblocks(events[0], mac) {
        StaysBlockedExactly(t1, events[1..], mac);
      }
    }
  }

  /** An added rule decides the packets it covers, from whatever device, unless the device is the
      administrator's or blocked. */
  lemma AddedRuleDecidesPackets(t: Table, s: ServiceTable.State, name: string, port: uint16, proto: byte, blocked: bool,
                                mac: Mac, p: byte, srcPort: uint16)
    requires ServiceTable.Sound(s)
    requires ServiceTable.Step(s, ServiceTable.AddCustom(Some(name), port, proto, blocked)).1
    requires (p == 6 || p == 17) && (proto == 0 || proto == p)
    ensures var s' := ServiceTable.Step(s, ServiceTable.AddCustom(Some(name), port, proto, blocked)).0;
            PacketAllowed(t, s', mac, p, srcPort, port)
            <==> mac == ADMIN_MAC || (StatusOf(t.devices, mac) != Blocked && !blocked)
  {
    var s' := ServiceTable.Step(s, ServiceTable.AddCustom(Some(name), port, proto, blocked)).0;
    ServiceTable.AddKeepsSound(s, Some(name), port, proto, blocked);
    LastWriteWins(s.services, s.rules, name, port, proto, blocked, p);
    BoundedScanAgrees(s'.services, s'.rules, p, port);
  }
}
