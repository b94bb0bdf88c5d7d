/** The blocked-domain list of main/domain_filter.c: a table in RAM, updated in place, with a copy in flash. */
module DomainFilter {
  import opened Bytes
  import opened DomainMatcher
  import opened DomainTable

  class DomainFilter {
    const blockedDomains: array<BlockedDomain>
    var blockedDomainCount: nat
    var flash: Option<seq<BlockedDomain>>

    ghost predicate Valid()
      reads this, blockedDomains
    {
      blockedDomains.Length == MAX_BLOCKED_DOMAINS && Sound(State())
    }

    ghost function State(): Table
      reads this, blockedDomains
    {
      Table(blockedDomains[..], blockedDomainCount, flash)
    }

    /** A device as it leaves the factory. */
    constructor ()
      ensures Valid() && fresh(blockedDomains)
      ensures State() == FACTORY
    {
      blockedDomains := new BlockedDomain[MAX_BLOCKED_DOMAINS](_ => BLANK);
      blockedDomainCount := 0;
      flash := None;
      new;
      assert blockedDomains[..] == Blanks();
    }

    method IsDomainBlocked(domain: Option<cstring>) returns (blocked: bool)
      requires Valid()
      ensures blocked <==> domain.Some? && Blocks(blockedDomains[..], blockedDomainCount, domain.value)
    {
      if domain.None? || domain.value == [] {
        return false;
      }
      for i := 0 to blockedDomainCount
        invariant forall j :: 0 <= j < i && blockedDomains[j].active ==> !Matches(blockedDomains[j].domain, domain.value)
      {
        if blockedDomains[i].active {
          var matches := DomainMatches(domain.value, blockedDomains[i].domain);
          if matches {
            return true;
          }
        }
      }
      return false;
    }

    method AddBlockedDomain(domain: Option<cstring>) returns (added: bool)
      requires Valid()
      modifies this`blockedDomainCount, this`flash, blockedDomains
      ensures Valid()
      ensures var (state, outcome) := Step(old(State()), Add(domain));
              State() == state && (added <==> outcome != Refused)
    {
      StepKeepsSound(State(), Add(domain));
      if domain.None? || domain.value == [] || |domain.value| >= MAX_DOMAIN_LENGTH {
        return false;
      }
      var name := domain.value;
      ghost var table := blockedDomains[..];
      for i := 0 to blockedDomainCount
        invariant blockedDomains[..] == table
        invariant Find(table, 0, blockedDomainCount, name) == Find(table, i, blockedDomainCount, name)
      {
        if Fold(blockedDomains[i].domain) == Fold(name) {
          blockedDomains[i] := blockedDomains[i].(active := true);
          return true;
        }
      }
      if blockedDomainCount < MAX_BLOCKED_DOMAINS {
        blockedDomains[blockedDomainCount] := BlockedDomain(Truncate(name), true);
        blockedDomainCount := blockedDomainCount + 1;
        flash := Some(blockedDomains[..]);
        return true;
      }
      return false;
    }

    method RemoveBlockedDomain(domain: Option<cstring>) returns (removed: bool)
      requires Valid()
      modifies this`flash, blockedDomains
      ensures Valid()
      ensures var (state, outcome) := Step(old(State()), Remove(domain));
              State() == state && (removed <==> outcome != Refused)
    {
      StepKeepsSound(State(), Remove(domain));
      if domain.None? || domain.value == [] {
        return false;
      }
      var name := domain.value;
      ghost var table := blockedDomains[..];
      for i := 0 to blockedDomainCount
        invariant blockedDomains[..] == table
        invariant Find(table, 0, blockedDomainCount, name) == Find(table, i, blockedDomainCount, name)
      {
        if Fold(blockedDomains[i].domain) == Fold(name) {
          blockedDomains[i] := blockedDomains[i].(active := false);
          flash := Some(blockedDomains[..]);
          return true;
        }
      }
      return false;
    }

    /** Start-up: RAM is cleared and filled from flash. */
    method InitDomainFilter()
      requires Valid()
      modifies this`blockedDomainCount, blockedDomains
      ensures Valid()
      ensures State() == Step(old(State()), Reboot).0
    {
      StepKeepsSound(State(), Reboot);
      forall i | 0 <= i < blockedDomains.Length {
        blockedDomains[i] := BLANK;
      }
      blockedDomainCount := 0;
      assert blockedDomains[..] == Blanks();
      if flash.Some? {
        forall i | 0 <= i < blockedDomains.Length {
          blockedDomains[i] := flash.value[i];
        }
        ghost var image := flash.value;
        assert blockedDomains[..] == image;
        blockedDomainCount := 0;
        for i := 0 to MAX_BLOCKED_DOMAINS
          invariant blockedDomains[..] == image && flash == Some(image)
          invariant blockedDomainCount == Recount(image, i)
        {
          if blockedDomains[i].active && |blockedDomains[i].domain| > 0 {
            blockedDomainCount := i + 1;
          }
        }
      }
    }

    method GetBlockedDomainsCount() returns (count: nat)
      requires Valid()
      ensures count == |ActiveNames(blockedDomains[..], blockedDomainCount)|
    {
      count := 0;
      ghost var table := blockedDomains[..];
      assert ActiveNames(table, 0) == {};
      for i := 0 to blockedDomainCount
        invariant count == |ActiveNames(table, i)|
      {
        OneMoreName(table, i);
        if blockedDomains[i].active {
          count := count + 1;
        }
      }
    }
  }

  lemma OneMoreName(entries: seq<BlockedDomain>, n: nat)
    requires n < |entries| && DistinctBelow(entries, n + 1)
    ensures |ActiveNames(entries, n + 1)| == |ActiveNames(entries, n)| + if entries[n].active then 1 else 0
  {
    var name := Fold(entries[n].domain);
    assert name !in ActiveNames(entries, n);
    assert ActiveNames(entries, n + 1) == ActiveNames(entries, n) + if entries[n].active then {name} else {};
  }
}
