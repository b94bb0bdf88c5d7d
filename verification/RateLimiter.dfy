/** The per-address request limiter of main/dns_server.c, and what it accepts over a whole trace. */
module RateLimiter {
  import opened Bytes

  const MAX_CLIENTS := 20
  const MAX_REQUESTS_PER_SECOND := 5
  const MICROS := 1_000_000

  type uint32 = n: int | 0 <= n < 0x1_0000_0000

  datatype Client = Client(mac: Mac, lastReset: uint32, count: nat)

  /** A request from an address, with the time in microseconds since boot. */
  datatype Request = Request(mac: Mac, time: nat)

  function Second(time: nat): nat {
    time / MICROS
  }

  /** The second as the code holds it, in 32 bits. */
  function Tick(time: nat): uint32 {
    Second(time) % 0x1_0000_0000
  }

  /** `now - last >= 1` on unsigned 32-bit numbers. */
  predicate Elapsed(now: uint32, last: uint32) {
    (now - last) % 0x1_0000_0000 >= 1
  }

  function Find(clients: seq<Client>, from: nat, mac: Mac): (i: nat)
    requires from <= |clients|
    ensures from <= i <= |clients|
    ensures i < |clients| ==> clients[i].mac == mac
    ensures forall j :: from <= j < i ==> clients[j].mac != mac
    decreases |clients| - from
  {
    if from == |clients| || clients[from].mac == mac then from else Find(clients, from + 1, mac)
  }

  /** One call: the table after it and whether the request is let through. */
  function Check(clients: seq<Client>, mac: Mac, time: nat): (seq<Client>, bool) {
    var now, i := Tick(time), Find(clients, 0, mac);
    if i < |clients| then
      var start := if Elapsed(now, clients[i].lastReset) then Client(mac, now, 0) else clients[i];
      (clients[i := start.(count := start.count + 1)], start.count < MAX_REQUESTS_PER_SECOND)
    else if |clients| < MAX_CLIENTS then
      (clients + [Client(mac, now, 1)], true)
    else
      (clients, false)
  }

  class RateLimiter {
    const clients: array<Client>
    var numClients: nat

    ghost predicate Valid()
      reads this
    {
      clients.Length == MAX_CLIENTS && numClients <= MAX_CLIENTS
    }

    constructor ()
      ensures Valid() && fresh(clients) && numClients == 0
    {
      clients := new Client[MAX_CLIENTS](_ => Client([0, 0, 0, 0, 0, 0], 0, 0));
      numClients := 0;
    }

    /** `check_rate_limit_mac`, with the clock as a parameter. */
    method CheckRateLimitMac(mac: Mac, time: nat) returns (allowed: bool)
      requires Valid()
      modifies this`numClients, clients
      ensures Valid()
      ensures (clients[..numClients], allowed) == Check(old(clients[..numClients]), mac, time)
    {
      var now: uint32 := (time / MICROS) % 0x1_0000_0000;
      ghost var table := clients[..numClients];
      for i := 0 to numClients
        invariant clients[..numClients] == table
        invariant Find(table, 0, mac) == Find(table, i, mac)
      {
        if clients[i].mac == mac {
          if Elapsed(now, clients[i].lastReset) {
            clients[i] := clients[i].(count := 0, lastReset := now);
          }
          clients[i] := clients[i].(count := clients[i].count + 1);
          assert clients[..numClients] == table[i := clients[i]];
          return clients[i].count <= MAX_REQUESTS_PER_SECOND;
        }
      }
      if numClients < MAX_CLIENTS {
        clients[numClients] := Client(mac, now, 1);
        numClients := numClients + 1;
        assert clients[..numClients] == table + [Client(mac, now, 1)];
        return true;
      }
      return false;
    }
  }

  function Last(trace: seq<Request>): Request
    requires trace != []
  {
    trace[|trace| - 1]
  }

  function Front(trace: seq<Request>): seq<Request>
    requires trace != []
  {
    trace[..|trace| - 1]
  }

  /** The table after a trace. */
  function Clients(trace: seq<Request>): seq<Client>
    decreases |trace|
  {
    if trace == [] then [] else Check(Clients(Front(trace)), Last(trace).mac, Last(trace).time).0
  }

  /** Whether the last request of a trace is let through. */
  function LastAccepted(trace: seq<Request>): bool
    requires trace != []
  {
    Check(Clients(Front(trace)), Last(trace).mac, Last(trace).time).1
  }

  /** Requests of an address, at times with a property, that were let through. */
  function Accepted(trace: seq<Request>, mac: Mac, at: nat -> bool): nat
    decreases |trace|
  {
    if trace == [] then 0
    else Accepted(Front(trace), mac, at)
         + if Last(trace).mac == mac && at(Last(trace).time) && LastAccepted(trace) then 1 else 0
  }

  function Requests(trace: seq<Request>, mac: Mac, at: nat -> bool): nat
    decreases |trace|
  {
    if trace == [] then 0
    else Requests(Front(trace), mac, at) + if Last(trace).mac == mac && at(Last(trace).time) then 1 else 0
  }

  function In(second: nat): nat -> bool {
    (time: nat) => time / 1_000_000 == second
  }

  /** The addresses of a trace in order of first appearance. */
  function Seen(trace: seq<Request>): seq<Mac>
    decreases |trace|
  {
    if trace == [] then []
    else
      var before := Seen(Front(trace));
      if Last(trace).mac in before then before else before + [Last(trace).mac]
  }

  /** The first 20 distinct addresses. */
  function Tracked(trace: seq<Request>): seq<Mac> {
    var seen := Seen(trace);
    if |seen| <= 20 then seen else seen[..20]
  }

  /** The time of the last request of an address; 0 if there is none. */
  function LastTime(trace: seq<Request>, mac: Mac): nat
    decreases |trace|
  {
    if trace == [] then 0
    else if Last(trace).mac == mac then Last(trace).time
    else LastTime(Front(trace), mac)
  }

  ghost predicate Monotone(trace: seq<Request>) {
    forall i, j :: 0 <= i < j < |trace| ==> trace[i].time <= trace[j].time
  }

  /** The 32-bit second does not confuse two requests of one address. */
  ghost predicate NoWrap(trace: seq<Request>) {
    forall i, j :: 0 <= i < j < |trace| && trace[i].mac == trace[j].mac && Tick(trace[i].time) == Tick(trace[j].time) ==>
      Second(trace[i].time) == Second(trace[j].time)
  }

  function Min(a: nat, b: nat): (r: nat)
    ensures r <= a && r <= b && (r == a || r == b)
  {
    if a <= b then a else b
  }

  /** What one call does to the entry of an address that did not call. */
  lemma OthersKept(clients: seq<Client>, r: Request, mac: Mac)
    requires r.mac != mac
    ensures var clients', i := Check(clients, r.mac, r.time).0, Find(clients, 0, mac);
            var i' := Find(clients', 0, mac);
            && (i < |clients| <==> i' < |clients'|)
            && (i < |clients| ==> clients'[i'] == clients[i])
  {
    var clients', i := Check(clients, r.mac, r.time).0, Find(clients, 0, mac);
    assert forall j :: 0 <= j < |clients| ==> clients'[j].mac == clients[j].mac;
    FindIs(clients', mac, if i < |clients| then i else |clients'|);
  }

  lemma FindIs(clients: seq<Client>, mac: Mac, i: nat)
    requires i <= |clients|
    requires i < |clients| ==> clients[i].mac == mac
    requires forall j :: 0 <= j < i ==> clients[j].mac != mac
    ensures Find(clients, 0, mac) == i
  {
  }

  /** The unsigned difference is zero only between equal seconds. */
  lemma ElapsedIsDifferent(now: uint32, last: uint32)
    ensures Elapsed(now, last) <==> now != last
  {
  }

  /** What one call does to the caller's entry. */
  lemma KnownCaller(clients: seq<Client>, r: Request)
    requires Find(clients, 0, r.mac) < |clients|
    ensures var (clients', ok), c := Check(clients, r.mac, r.time), clients[Find(clients, 0, r.mac)];
            var i' := Find(clients', 0, r.mac);
            && i' < |clients'|
            && clients'[i'] == Client(r.mac, Tick(r.time), if Tick(r.time) == c.lastReset then c.count + 1 else 1)
            && (ok <==> clients'[i'].count <= MAX_REQUESTS_PER_SECOND)
  {
    var clients', i := Check(clients, r.mac, r.time).0, Find(clients, 0, r.mac);
    ElapsedIsDifferent(Tick(r.time), clients[i].lastReset);
    hide Elapsed, Tick;
    FindIs(clients', r.mac, i);
  }

  lemma NewCaller(clients: seq<Client>, r: Request)
    requires Find(clients, 0, r.mac) == |clients|
    ensures var (clients', ok) := Check(clients, r.mac, r.time);
            var i' := Find(clients', 0, r.mac);
            if |clients| < MAX_CLIENTS then i' < |clients'| && clients'[i'] == Client(r.mac, Tick(r.time), 1) && ok
            else i' == |clients'| && !ok
  {
    if |clients| < MAX_CLIENTS {
      FindIs(Check(clients, r.mac, r.time).0, r.mac, |clients|);
    }
  }

  lemma MonotoneFront(trace: seq<Request>)
    requires trace != [] && Monotone(trace)
    ensures Monotone(Front(trace)) && forall i :: 0 <= i < |trace| ==> trace[i].time <= Last(trace).time
    ensures NoWrap(trace) ==> NoWrap(Front(trace))
  {
  }

  /** A table with room left has an entry for every address seen. */
  lemma {:induction false} UnknownUnseen(trace: seq<Request>, mac: Mac, at: nat -> bool)
    requires Find(Clients(trace), 0, mac) == |Clients(trace)| < MAX_CLIENTS
    ensures Requests(trace, mac, at) == 0
    decreases |trace|
  {
    if trace != [] {
      var before := Clients(Front(trace));
      if Last(trace).mac == mac {
        if Find(before, 0, mac) < |before| {
          KnownCaller(before, Last(trace));
        } else {
          NewCaller(before, Last(trace));
        }
        assert false;
      } else {
        OthersKept(before, Last(trace), mac);
        UnknownUnseen(Front(trace), mac, at);
      }
    }
  }

  /** The last request of an address is in the trace, and no request of it is later. */
  lemma {:induction false} LastTimeIs(trace: seq<Request>, mac: Mac) returns (i: nat)
    requires Monotone(trace) && exists j :: 0 <= j < |trace| && trace[j].mac == mac
    ensures i < |trace| && trace[i].mac == mac && trace[i].time == LastTime(trace, mac)
    decreases |trace|
  {
    if Last(trace).mac == mac {
      i := |trace| - 1;
    } else {
      i := LastTimeIs(Front(trace), mac);
    }
  }

  lemma {:induction false} NoneLater(trace: seq<Request>, mac: Mac, second: nat)
    requires Monotone(trace) && second > Second(LastTime(trace, mac))
    ensures Requests(trace, mac, In(second)) == 0 && Accepted(trace, mac, In(second)) == 0
    decreases |trace|
  {
    if trace != [] {
      MonotoneFront(trace);
      if Last(trace).mac == mac {
        NotLater(trace, mac, second);
      } else {
        NoneLater(Front(trace), mac, second);
      }
    }
  }

  lemma {:induction false} NotLater(trace: seq<Request>, mac: Mac, second: nat)
    requires forall i :: 0 <= i < |trace| ==> Second(trace[i].time) < second
    ensures Requests(trace, mac, In(second)) == 0 && Accepted(trace, mac, In(second)) == 0
    decreases |trace|
  {
    if trace != [] {
      NotLater(Front(trace), mac, second);
    }
  }

  /** The entry of a known address: its last second, and how many requests it made in it. */
  ghost predicate EntryIs(trace: seq<Request>, c: Client) {
    c.lastReset == Tick(LastTime(trace, c.mac)) && c.count == Requests(trace, c.mac, In(Second(LastTime(trace, c.mac))))
  }

  /** Known addresses get their first five requests of every second, unknown ones nothing. */
  lemma {:induction false} AcceptedByEntry(trace: seq<Request>, mac: Mac, second: nat)
    requires Monotone(trace) && NoWrap(trace)
    ensures var clients := Clients(trace);
            var i := Find(clients, 0, mac);
            if i < |clients| then
              && EntryIs(trace, clients[i])
              && (exists j :: 0 <= j < |trace| && trace[j].mac == mac)
              && Accepted(trace, mac, In(second)) == Min(MAX_REQUESTS_PER_SECOND, Requests(trace, mac, In(second)))
            else
              Accepted(trace, mac, In(second)) == 0
    decreases |trace|
  {
    if trace != [] {
      var r, front := Last(trace), Front(trace);
      var before := Clients(front);
      MonotoneFront(trace);
      AcceptedByEntry(front, mac, second);
      if r.mac != mac {
        OthersKept(before, r, mac);
      } else {
        assert trace[|trace| - 1].mac == mac;
        if Find(before, 0, mac) < |before| {
          KnownCaller(before, r);
          var last := LastTimeIs(front, mac);
          if Second(r.time) != Second(LastTime(front, mac)) {
            assert trace[last] == front[last];
            assert Tick(r.time) != Tick(front[last].time);
            assert Second(r.time) > Second(LastTime(front, mac));
            NoneLater(front, mac, Second(r.time));
          }
        } else {
          NewCaller(before, r);
          if |before| < MAX_CLIENTS {
            UnknownUnseen(front, mac, In(Second(r.time)));
            UnknownUnseen(front, mac, In(second));
          }
        }
      }
    }
  }

  /** The table holds the first 20 distinct addresses, in order. */
  lemma {:induction false} ClientsAreTracked(trace: seq<Request>)
    ensures |Clients(trace)| == |Tracked(trace)|
    ensures forall i :: 0 <= i < |Clients(trace)| ==> Clients(trace)[i].mac == Tracked(trace)[i]
    decreases |trace|
  {
    if trace != [] {
      ClientsAreTracked(Front(trace));
      var before, i := Clients(Front(trace)), Find(Clients(Front(trace)), 0, Last(trace).mac);
      if i < |before| {
        assert before[i].mac == Seen(Front(trace))[i];
      } else if |before| < MAX_CLIENTS {
        assert Last(trace).mac !in Seen(Front(trace));
      }
    }
  }

  /** For every address and second, the requests let through are the first five if the address is among the
      first 20 seen, and none otherwise. */
  lemma AcceptedPerSecond(trace: seq<Request>, mac: Mac, second: nat)
    requires Monotone(trace) && NoWrap(trace)
    ensures Accepted(trace, mac, In(second))
         == if mac in Tracked(trace) then Min(5, Requests(trace, mac, In(second))) else 0
  {
    AcceptedByEntry(trace, mac, second);
    ClientsAreTracked(trace);
    var i := Find(Clients(trace), 0, mac);
    if mac in Tracked(trace) {
      var j :| 0 <= j < |Tracked(trace)| && Tracked(trace)[j] == mac;
      assert i <= j;
    }
  }

  lemma {:induction false} CountOr(trace: seq<Request>, mac: Mac, p: nat -> bool, a: nat -> bool, b: nat -> bool)
    requires forall t: nat :: p(t) ==> a(t) || b(t)
    ensures Accepted(trace, mac, p) <= Accepted(trace, mac, a) + Accepted(trace, mac, b)
    decreases |trace|
  {
    if trace != [] {
      CountOr(Front(trace), mac, p, a, b);
    }
  }

  /** At most five requests of an address pass in one second, however long the device is up. */
  lemma {:induction false} AtMostFive(trace: seq<Request>, mac: Mac, second: nat)
    requires Monotone(trace)
    ensures Accepted(trace, mac, In(second)) <= 5
    ensures var clients := Clients(trace);
            var i := Find(clients, 0, mac);
            if i < |clients| then
              && clients[i].lastReset == Tick(LastTime(trace, mac))
              && (second == Second(LastTime(trace, mac)) ==> Accepted(trace, mac, In(second)) <= clients[i].count)
            else
              Accepted(trace, mac, In(second)) == 0
    decreases |trace|
  {
    if trace != [] {
      var r, front := Last(trace), Front(trace);
      var before := Clients(front);
      MonotoneFront(trace);
      AtMostFive(front, mac, second);
      assert Clients(trace) == Check(before, r.mac, r.time).0 && LastAccepted(trace) == Check(before, r.mac, r.time).1;
      hide Tick, Elapsed, Second, Check, Clients, LastAccepted;
      if r.mac != mac {
        OthersKept(before, r, mac);
      } else if Find(before, 0, mac) < |before| {
        KnownCaller(before, r);
        if second > Second(LastTime(front, mac)) {
          NoneLater(front, mac, second);
        }
        LastTimeNotLater(front, mac, r.time);
        SecondMonotone(LastTime(front, mac), r.time);
      } else {
        NewCaller(before, r);
      }
    }
  }

  lemma SecondMonotone(a: nat, b: nat)
    requires a <= b
    ensures Second(a) <= Second(b)
  {
  }

  lemma {:induction false} LastTimeNotLater(trace: seq<Request>, mac: Mac, time: nat)
    requires forall i :: 0 <= i < |trace| ==> trace[i].time <= time
    ensures LastTime(trace, mac) <= time
    decreases |trace|
  {
    if trace != [] && Last(trace).mac != mac {
      LastTimeNotLater(Front(trace), mac, time);
    }
  }

  /** Any `n` consecutive seconds pass at most 5n requests of an address. */
  lemma {:induction false} AtMostFivePerSecond(trace: seq<Request>, mac: Mac, p: nat -> bool, lo: nat, n: nat)
    requires Monotone(trace)
    requires forall t: nat :: p(t) ==> lo <= Second(t) < lo + n
    ensures Accepted(trace, mac, p) <= MAX_REQUESTS_PER_SECOND * n
    decreases n
  {
    if n == 0 {
      CountNone(trace, mac, p);
    } else {
      var earlier := (t: nat) => lo <= Second(t) < lo + n - 1;
      CountOr(trace, mac, p, earlier, In(lo + n - 1));
      AtMostFivePerSecond(trace, mac, earlier, lo, n - 1);
      AtMostFive(trace, mac, lo + n - 1);
    }
  }

  lemma {:induction false} CountNone(trace: seq<Request>, mac: Mac, p: nat -> bool)
    requires forall t: nat :: !p(t)
    ensures Accepted(trace, mac, p) == 0
    decreases |trace|
  {
    if trace != [] {
      CountNone(Front(trace), mac, p);
    }
  }

  function Within(from: nat, width: nat): nat -> bool {
    (time: nat) => from <= time < from + width
  }

  /** Any interval of `width` microseconds passes at most 5 * ((width - 1) / 1000000 + 2) requests of an address. */
  lemma AcceptedInWindow(trace: seq<Request>, mac: Mac, from: nat, width: nat)
    requires Monotone(trace) && width >= 1
    ensures Accepted(trace, mac, Within(from, width)) <= 5 * ((width - 1) / 1_000_000 + 2)
  {
    var lo, n := Second(from), (width - 1) / MICROS + 2;
    forall t: nat | Within(from, width)(t)
      ensures lo <= Second(t) < lo + n
    {
      assert t <= from + (width - 1);
    }
    AtMostFivePerSecond(trace, mac, Within(from, width), lo, n);
  }

  /** The hypothesis holds for 136 years of uptime. */
  lemma NoWrapInUptime(trace: seq<Request>)
    requires forall i :: 0 <= i < |trace| ==> trace[i].time < 4_294_967_296 * 1_000_000
    ensures NoWrap(trace)
  {
  }

  /** Beyond that it can fail: a request exactly 2^32 seconds after five others counts as the sixth of their second. */
  lemma WrappedSecondIsRefused(mac: Mac)
    ensures var early, late := Request(mac, 0), Request(mac, 4_294_967_296 * 1_000_000);
            var trace := [early, early, early, early, early, late];
            && Requests(trace, mac, In(0x1_0000_0000)) == 1
            && Accepted(trace, mac, In(0x1_0000_0000)) == 0
  {
    var early, late := Request(mac, 0), Request(mac, 0x1_0000_0000 * MICROS);
    var t1 := [early];
    var t2, t3 := t1 + [early], t1 + [early] + [early];
    var t4 := t3 + [early];
    var t5 := t4 + [early];
    var t6 := t5 + [late];
    assert Front(t1) == [] && Front(t2) == t1 && Front(t3) == t2 && Front(t4) == t3 && Front(t5) == t4 && Front(t6) == t5;
    assert Clients(t1) == [Client(mac, 0, 1)];
    assert Clients(t2) == [Client(mac, 0, 2)];
    assert Clients(t3) == [Client(mac, 0, 3)];
    assert Clients(t4) == [Client(mac, 0, 4)];
    assert Clients(t5) == [Client(mac, 0, 5)];
    assert !LastAccepted(t6);
    NotLater(t5, mac, 0x1_0000_0000);
    assert t6 == [early, early, early, early, early, late];
  }

  ghost predicate ExactFor(trace: seq<Request>) {
    forall mac: Mac, second: nat :: Accepted(trace, mac, In(second))
      == if mac in Tracked(trace) then Min(5, Requests(trace, mac, In(second))) else 0
  }

  ghost predicate ExactUntil(uptime: nat) {
    forall trace: seq<Request> ::
      Monotone(trace) && (forall i :: 0 <= i < |trace| ==> trace[i].time < uptime) ==> ExactFor(trace)
  }

  /** The limiter accepts what it should on all traces of an uptime exactly up to 2^32 seconds. */
  lemma ExactWithinUptime(uptime: nat)
    ensures ExactUntil(uptime) <==> uptime <= 4_294_967_296 * 1_000_000
  {
    if uptime <= 0x1_0000_0000 * MICROS {
      forall trace: seq<Request> | Monotone(trace) && forall i :: 0 <= i < |trace| ==> trace[i].time < uptime
        ensures ExactFor(trace)
      {
        NoWrapInUptime(trace);
        forall mac: Mac, second: nat
          ensures Accepted(trace, mac, In(second))
               == if mac in Tracked(trace) then Min(5, Requests(trace, mac, In(second))) else 0
        {
          AcceptedPerSecond(trace, mac, second);
        }
      }
    } else {
      var mac: Mac := [0, 0, 0, 0, 0, 0];
      var early, late := Request(mac, 0), Request(mac, 0x1_0000_0000 * MICROS);
      var trace := [early, early, early, early, early, late];
      WrappedSecondIsRefused(mac);
      OneAddressIsTracked(trace, mac);
      assert Monotone(trace) && !ExactFor(trace);
    }
  }

  lemma {:induction false} OneAddressIsTracked(trace: seq<Request>, mac: Mac)
    requires trace != [] && forall i :: 0 <= i < |trace| ==> trace[i].mac == mac
    ensures Seen(trace) == [mac] && mac in Tracked(trace)
    decreases |trace|
  {
    if |trace| > 1 {
      OneAddressIsTracked(Front(trace), mac);
    } else {
      assert Front(trace) == [];
    }
  }
}
