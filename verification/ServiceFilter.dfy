/** The rule engine of main/service_filter.c: two tables updated in place, written to flash on every change. */
module ServiceFilter {
  import opened Bytes
  import opened ServiceRules
  import opened ServiceTable

  class ServiceFilter {
    const services: array<Rule>
    const customRules: array<Rule>
    var customRuleCount: nat
    var svcBlocked: Option<bv32>
    var svcCustom: Option<seq<Rule>>

    ghost predicate Shaped()
      reads this, services, customRules
    {
      services != customRules && WellShaped(State())
    }

    ghost predicate Valid()
      reads this, services, customRules
    {
      services != customRules && Sound(State())
    }

    ghost function State(): ServiceTable.State
      reads this, services, customRules
    {
      ServiceTable.State.State(services[..], customRules[..], customRuleCount, svcBlocked, svcCustom)
    }

    /** A device as it leaves the factory. */
    constructor ()
      ensures Valid() && fresh(services) && fresh(customRules)
      ensures State() == FACTORY
    {
      services := new Rule[SVC_BUILTIN_COUNT](i requires 0 <= i < SVC_BUILTIN_COUNT => BUILTINS[i]);
      customRules := new Rule[MAX_CUSTOM_PORT_RULES](_ => EMPTY);
      customRuleCount := 0;
      svcBlocked, svcCustom := None, None;
      new;
      assert services[..] == BUILTINS && customRules[..] == Empties();
      FactoryIsSound();
    }

    method SaveServiceRules()
      requires Shaped()
      modifies this`svcBlocked, this`svcCustom
      ensures State() == Save(old(State()))
    {
      hide WithBit;
      var mask: bv32 := 0;
      for i := 0 to SVC_BUILTIN_COUNT
        invariant mask == Pack(services[..i])
      {
        assert services[..i + 1][..i] == services[..i];
        if services[i].blocked {
          mask := WithBit(mask, i);
        }
      }
      assert services[..SVC_BUILTIN_COUNT] == services[..];
      svcBlocked := Some(mask);
      svcCustom := Some(customRules[..]);
    }

    /** Recomputes the high-water mark, scanning down. */
    method FindHighWater() returns (count: nat)
      requires Shaped()
      ensures count == HighWater(customRules[..], MAX_CUSTOM_PORT_RULES)
    {
      count := 0;
      for j := MAX_CUSTOM_PORT_RULES downto 0
        invariant forall k :: j <= k < MAX_CUSTOM_PORT_RULES ==> !customRules[k].active
      {
        if customRules[j].active {
          count := j + 1;
          break;
        }
      }
      HighWaterIs(customRules[..], count);
    }

    method LoadServiceRules()
      requires Shaped()
      modifies this`customRuleCount, services, customRules
      ensures Shaped() && svcBlocked == old(svcBlocked) && svcCustom == old(svcCustom)
      ensures services[..] == if svcBlocked.Some? then Unpack(old(services[..]), svcBlocked.value) else old(services[..])
      ensures customRules[..] == if svcCustom.Some? then svcCustom.value else old(customRules[..])
      ensures customRuleCount
           == if svcCustom.Some? then HighWater(customRules[..], MAX_CUSTOM_PORT_RULES) else old(customRuleCount)
    {
      hide Bit;
      if svcBlocked.Some? {
        var mask := svcBlocked.value;
        for i := 0 to SVC_BUILTIN_COUNT
          modifies services
          invariant forall k :: 0 <= k < SVC_BUILTIN_COUNT ==>
                      services[k] == if k < i then old(services[k]).(blocked := Bit(mask, k)) else old(services[k])
        {
          services[i] := services[i].(blocked := Bit(mask, i));
        }
      }
      if svcCustom.Some? {
        ghost var loaded := services[..];
        forall i | 0 <= i < customRules.Length {
          customRules[i] := svcCustom.value[i];
        }
        assert customRules[..] == svcCustom.value && services[..] == loaded;
        customRuleCount := FindHighWater();
      }
    }

    method InitServiceFilter()
      requires Shaped()
      modifies this`customRuleCount, services, customRules
      ensures Shaped() && svcBlocked == old(svcBlocked) && svcCustom == old(svcCustom)
      ensures services[..] == if svcBlocked.Some? then Unpack(old(services[..]), svcBlocked.value) else old(services[..])
      ensures customRules[..] == if svcCustom.Some? then svcCustom.value else Empties()
      ensures customRuleCount == if svcCustom.Some? then HighWater(customRules[..], MAX_CUSTOM_PORT_RULES) else 0
    {
      ghost var was := services[..];
      forall i | 0 <= i < customRules.Length {
        customRules[i] := EMPTY;
      }
      customRuleCount := 0;
      assert customRules[..] == Empties() && services[..] == was;
      LoadServiceRules();
    }

    /** Power is cut and comes back: static data has its initial values, then start-up reads flash. */
    method Restart()
      requires Valid()
      modifies this`customRuleCount, services, customRules
      ensures Valid()
      ensures State() == Step(old(State()), ServiceTable.Restart).0 == old(State())
    {
      RestartIsIdentity(State());
      forall i | 0 <= i < services.Length {
        services[i] := BUILTINS[i];
      }
      assert services[..] == BUILTINS;
      InitServiceFilter();
    }

    method ServiceSetBlocked(id: nat, blocked: bool)
      requires Valid()
      modifies this`svcBlocked, this`svcCustom, services
      ensures Valid()
      ensures State() == Step(old(State()), SetBlocked(id, blocked)).0
    {
      StepKeepsSound(State(), SetBlocked(id, blocked));
      if id >= SVC_BUILTIN_COUNT {
        return;
      }
      services[id] := services[id].(blocked := blocked);
      SaveServiceRules();
    }

    /** Rewrites the first rule that overlaps, if there is one. */
    method UpdateExisting(name: string, port: uint16, proto: byte, blocked: bool) returns (done: bool)
      requires Shaped()
      modifies this`svcBlocked, this`svcCustom, customRules
      ensures var s := old(State());
              var i := First(s.rules, 0, |s.rules|, Overlapping(port, proto));
              && (done <==> i < |s.rules|)
              && State() == if done then Updated(s, i, name, proto, blocked) else s
    {
      ghost var rules, n := customRules[..], MAX_CUSTOM_PORT_RULES;
      for i := 0 to MAX_CUSTOM_PORT_RULES
        invariant customRules[..] == rules && State() == old(State())
        invariant First(rules, 0, n, Overlapping(port, proto)) == First(rules, i, n, Overlapping(port, proto))
      {
        if !customRules[i].active {
          continue;
        }
        if customRules[i].port == port
           && (customRules[i].proto == proto || proto == BOTH || customRules[i].proto == BOTH) {
          customRules[i] := customRules[i].(blocked := blocked, proto := proto, name := ShortName(name));
          SaveServiceRules();
          return true;
        }
      }
      return false;
    }

    /** Puts a new rule into the first empty slot, if there is one. */
    method FillEmptySlot(name: string, port: uint16, proto: byte, blocked: bool) returns (done: bool)
      requires Shaped()
      modifies this`customRuleCount, this`svcBlocked, this`svcCustom, customRules
      ensures var s := old(State());
              var k := First(s.rules, 0, |s.rules|, Free());
              && (done <==> k < |s.rules|)
              && State() == if done then Filled(s, k, name, port, proto, blocked) else s
    {
      ghost var rules, n := customRules[..], MAX_CUSTOM_PORT_RULES;
      for i := 0 to MAX_CUSTOM_PORT_RULES
        invariant customRules[..] == rules && State() == old(State())
        invariant First(rules, 0, n, Free()) == First(rules, i, n, Free())
      {
        if customRules[i].active {
          continue;
        }
        customRules[i] := Rule(ShortName(name), port, proto, blocked, true);
        if i + 1 > customRuleCount {
          customRuleCount := i + 1;
        }
        SaveServiceRules();
        return true;
      }
      return false;
    }

    method ServiceAddCustom(name: Option<string>, port: uint16, proto: byte, blocked: bool) returns (ok: bool)
      requires Valid()
      modifies this`customRuleCount, this`svcBlocked, this`svcCustom, customRules
      ensures Valid()
      ensures (State(), ok) == Step(old(State()), AddCustom(name, port, proto, blocked))
    {
      ghost var s := State();
      StepKeepsSound(s, AddCustom(name, port, proto, blocked));
      AddStepIs(s, name, port, proto, blocked);
      assert Shaped();
      hide Sound, Step, Updated, Filled, First, WellShaped;
      if name.None? || port == 0 {
        return false;
      }
      ok := UpdateExisting(name.value, port, proto, blocked);
      if ok {
        return true;
      }
      ok := FillEmptySlot(name.value, port, proto, blocked);
    }

    method ServiceRemoveCustom(port: uint16, proto: byte) returns (ok: bool)
      requires Valid()
      modifies this`customRuleCount, this`svcBlocked, this`svcCustom, customRules
      ensures Valid()
      ensures (State(), ok) == Step(old(State()), RemoveCustom(port, proto))
    {
      StepKeepsSound(State(), RemoveCustom(port, proto));
      assert Shaped();
      hide Sound, Pack;
      ghost var rules, n := customRules[..], MAX_CUSTOM_PORT_RULES;
      for i := 0 to MAX_CUSTOM_PORT_RULES
        invariant customRules[..] == rules
        invariant First(rules, 0, n, Overlapping(port, proto)) == First(rules, i, n, Overlapping(port, proto))
      {
        if !customRules[i].active {
          continue;
        }
        if customRules[i].port != port {
          continue;
        }
        if proto != BOTH && customRules[i].proto != proto && customRules[i].proto != BOTH {
          continue;
        }
        customRules[i] := EMPTY;
        customRuleCount := FindHighWater();
        SaveServiceRules();
        return true;
      }
      return false;
    }

    method ServiceIsPortAllowed(proto: byte, dstPort: uint16) returns (allowed: bool)
      requires Shaped()
      ensures allowed == IsPortAllowed(State(), proto, dstPort)
    {
      ghost var rules, p := customRules[..], Deciding(proto, dstPort);
      for i := 0 to customRuleCount
        invariant First(rules, 0, customRuleCount, p) == First(rules, i, customRuleCount, p)
      {
        if !customRules[i].active {
          continue;
        }
        if customRules[i].port == dstPort && ProtoMatches(customRules[i].proto, proto) {
          return !customRules[i].blocked;
        }
      }
      ghost var builtins := services[..];
      for i := 0 to SVC_BUILTIN_COUNT
        invariant First(builtins, 0, SVC_BUILTIN_COUNT, p) == First(builtins, i, SVC_BUILTIN_COUNT, p)
      {
        if !services[i].active {
          continue;
        }
        if services[i].port == dstPort && ProtoMatches(services[i].proto, proto) {
          return !services[i].blocked;
        }
      }
      return true;
    }
  }
}
