/** Properties of the watcher's transition functions: what one event does,
    what any sequence of events preserves, and two concrete scenarios. */
module SnLemmas {
  import opened SnTypes
  import opened SnTransitions

  // ---- Folding the effect log ----

  lemma {:induction false} PublishedItemsAppend(current: set<string>, a: seq<Effect>, b: seq<Effect>)
    ensures PublishedItems(current, a + b) == PublishedItems(PublishedItems(current, a), b)
    decreases |a|
  {
    if a != [] {
      assert (a + b)[1..] == a[1..] + b;
      PublishedItemsAppend(if a[0].SetRegisteredItems? then a[0].names else current, a[1..], b);
    } else {
      assert a + b == b;
    }
  }

  lemma {:induction false} PublishedHostAppend(current: bool, a: seq<Effect>, b: seq<Effect>)
    ensures PublishedHost(current, a + b) == PublishedHost(PublishedHost(current, a), b)
    decreases |a|
  {
    if a != [] {
      assert (a + b)[1..] == a[1..] + b;
      PublishedHostAppend(if a[0].SetIsHostRegistered? then a[0].registered else current, a[1..], b);
    } else {
      assert a + b == b;
    }
  }

  lemma {:induction false} SignalsAppend(a: seq<Effect>, b: seq<Effect>)
    ensures Signals(a + b) == Signals(a) + Signals(b)
    decreases |a|
  {
    if a != [] {
      assert (a + b)[1..] == a[1..] + b;
      SignalsAppend(a[1..], b);
    } else {
      assert a + b == b;
    }
  }

  /** Effects that set no item list leave the published list as it was. */
  lemma {:induction false} PublishedItemsUntouched(current: set<string>, effs: seq<Effect>)
    requires forall eff :: eff in effs ==> !eff.SetRegisteredItems?
    ensures PublishedItems(current, effs) == current
    decreases |effs|
  {
    if effs != [] {
      PublishedItemsUntouched(current, effs[1..]);
    }
  }

  /** Effects that do not set the host flag leave the published flag as it was. */
  lemma {:induction false} PublishedHostUntouched(current: bool, effs: seq<Effect>)
    requires forall eff :: eff in effs ==> !eff.SetIsHostRegistered?
    ensures PublishedHost(current, effs) == current
    decreases |effs|
  {
    if effs != [] {
      PublishedHostUntouched(current, effs[1..]);
    }
  }

  // ---- Composing runs ----

  /** Running two event sequences one after the other is running their
      concatenation: the effects are those of the first then the second. */
  lemma {:induction false} RunAppend(s: State, a: seq<Event>, b: seq<Event>)
    ensures Run(s, a + b).state == Run(Run(s, a).state, b).state
    ensures Run(s, a + b).effects == Run(s, a).effects + Run(Run(s, a).state, b).effects
    decreases |a|
  {
    if a == [] {
      assert a + b == b;
    } else {
      assert (a + b)[1..] == a[1..] + b;
      RunAppend(Apply(s, a[0]).state, a[1..], b);
    }
  }

  /** Running a single event is applying it. */
  lemma RunOne(s: State, e: Event)
    ensures Run(s, [e]) == Apply(s, e)
  {
  }

  // ---- Startup ----

  /** After setup_dbus an observer sees no items, no host, and version 1,
      whatever it held before. */
  lemma StartPublishes(items: set<string>, hostRegistered: bool)
    ensures PublishedItems(items, Start().effects) == {} == Start().state.items
    ensures !PublishedHost(hostRegistered, Start().effects) && !Start().state.hostRegistered
    ensures Start().state.protocolVersion == 1
  {
  }

  // ---- One event ----

  /** Every handler publishes the store it leaves behind: after its effects,
      the item list property equals the item set and the host flag equals
      the store's flag, so observers never see a stale value. */
  lemma ApplyPublishes(s: State, e: Event)
    ensures PublishedItems(s.items, Apply(s, e).effects) == Apply(s, e).state.items
    ensures PublishedHost(s.hostRegistered, Apply(s, e).effects) == Apply(s, e).state.hostRegistered
  {
    var t := Apply(s, e);
    match e
    case RegisterHost(service) =>
      PublishedItemsUntouched(s.items, t.effects);
      PublishedHostUntouched(true, t.effects[1..][1..]);
    case RegisterItem(service) =>
      PublishedItemsUntouched(t.state.items, t.effects[1..]);
      PublishedHostUntouched(s.hostRegistered, t.effects);
    case NameOwnerChanged(name, oldOwner, newOwner) =>
      var vanished := newOwner == "";
      var afterItem := if vanished && name in s.items then DropItem(s, name) else Transition(s, []);
      var afterHost := if vanished && name in afterItem.state.hosts then DropHost(afterItem.state, name)
                       else Transition(afterItem.state, []);
      assert t.effects == afterItem.effects + afterHost.effects;
      PublishedItemsAppend(s.items, afterItem.effects, afterHost.effects);
      PublishedHostAppend(s.hostRegistered, afterItem.effects, afterHost.effects);
      PublishedItemsUntouched(afterItem.state.items, afterHost.effects);
      PublishedHostUntouched(s.hostRegistered, afterItem.effects);
      if afterItem.effects != [] {
        PublishedItemsUntouched(afterItem.state.items, afterItem.effects[1..]);
      }
      if afterHost.effects != [] {
        assert afterHost.effects[1..] == [];
      }
  }

  /** Entries leave the store only through a NameOwnerChanged whose new
      owner is empty; the registration calls never shrink either set. */
  lemma OnlyPresenceLossEvicts(s: State, e: Event)
    requires !(e.NameOwnerChanged? && e.newOwner == "")
    ensures s.hosts <= Apply(s, e).state.hosts && s.items <= Apply(s, e).state.items
  {
  }

  /** ItemUnregistered(n) is emitted exactly when a tracked item `n` loses
      its owner. */
  lemma ItemUnregisteredOnlyOnEviction(s: State, e: Event, n: string)
    ensures EmitItemUnregistered(n) in Apply(s, e).effects
            <==> e.NameOwnerChanged? && e.name == n && e.newOwner == "" && n in s.items
  {
  }

  /** The only signal NameOwnerChanged can emit is ItemUnregistered for a
      tracked item whose owner is gone. */
  lemma NameOwnerChangedSignals(s: State, name: string, oldOwner: string, newOwner: string)
    ensures Signals(OnNameOwnerChanged(s, name, oldOwner, newOwner).effects)
            == if newOwner == "" && name in s.items then [EmitItemUnregistered(name)] else []
  {
    var vanished := newOwner == "";
    var afterItem := if vanished && name in s.items then DropItem(s, name) else Transition(s, []);
    var afterHost := if vanished && name in afterItem.state.hosts then DropHost(afterItem.state, name)
                     else Transition(afterItem.state, []);
    SignalsAppend(afterItem.effects, afterHost.effects);
    if afterItem.effects != [] {
      assert afterItem.effects[1..][1..] == [];
    }
    if afterHost.effects != [] {
      assert afterHost.effects[1..] == [];
    }
  }

  /** A vanished item is removed alone, the smaller list republished and
      ItemUnregistered emitted for it exactly once; hosts lose the name only
      if it was also a host. */
  lemma ItemVanishes(s: State, name: string, oldOwner: string)
    requires name in s.items
    ensures var t := OnNameOwnerChanged(s, name, oldOwner, "");
      && t.state.items == s.items - {name}
      && t.state.hosts == s.hosts - {name}
      && |t.effects| >= 2
      && t.effects[..2] == [SetRegisteredItems(s.items - {name}), EmitItemUnregistered(name)]
      && Signals(t.effects) == [EmitItemUnregistered(name)]
      && (name !in s.hosts ==> |t.effects| == 2 && t.state.hostRegistered == s.hostRegistered)
  {
    NameOwnerChangedSignals(s, name, oldOwner, "");
  }

  /** A vanished host is removed; the flag is cleared if and only if no host
      is left, and otherwise the property is not touched. No item signal is
      emitted unless the name was also an item. */
  lemma HostVanishes(s: State, name: string, oldOwner: string)
    requires name in s.hosts
    ensures var t := OnNameOwnerChanged(s, name, oldOwner, "");
      && t.state.hosts == s.hosts - {name}
      && (SetIsHostRegistered(false) in t.effects <==> s.hosts == {name})
      && (forall eff :: eff in t.effects && eff.SetIsHostRegistered? ==> !eff.registered)
      && t.state.hostRegistered == (if s.hosts == {name} then false else s.hostRegistered)
      && t.state.items == s.items - {name}
      && Signals(t.effects) == (if name in s.items then [EmitItemUnregistered(name)] else [])
  {
    NameOwnerChangedSignals(s, name, oldOwner, "");
  }

  /** A name that is both an item and a host gets both removals, the item
      branch's effects first. */
  lemma ItemBranchFirst(s: State, name: string, oldOwner: string)
    requires name in s.items && name in s.hosts
    ensures OnNameOwnerChanged(s, name, oldOwner, "").effects
            == [SetRegisteredItems(s.items - {name}), EmitItemUnregistered(name)]
               + (if s.hosts == {name} then [SetIsHostRegistered(false)] else [])
  {
  }

  /** NameOwnerChanged leaves the store as it is exactly when the name still
      has an owner or is tracked in neither set, and then it performs
      nothing at all. */
  lemma NameOwnerChangedNoop(s: State, name: string, oldOwner: string, newOwner: string)
    ensures var t := OnNameOwnerChanged(s, name, oldOwner, newOwner);
      (t.state == s <==> newOwner != "" || (name !in s.items && name !in s.hosts))
    ensures newOwner != "" || (name !in s.items && name !in s.hosts)
            ==> OnNameOwnerChanged(s, name, oldOwner, newOwner) == Transition(s, [])
  {
  }

  // ---- Sequences of events ----

  /** Every state reached from a consistent one is consistent. */
  lemma {:induction false} RunConsistent(s: State, events: seq<Event>)
    requires Consistent(s)
    ensures Consistent(Run(s, events).state)
    decreases |events|
  {
    if events != [] {
      RunConsistent(Apply(s, events[0]).state, events[1..]);
    }
  }

  /** From startup, any sequence of events keeps the host flag equal to the
      non-emptiness of the host set and ProtocolVersion at 1. */
  lemma ReachableConsistent(events: seq<Event>)
    ensures Run(Start().state, events).state.hostRegistered == (Run(Start().state, events).state.hosts != {})
    ensures Run(Start().state, events).state.protocolVersion == 1
  {
    RunConsistent(Start().state, events);
  }

  /** No handler ever changes ProtocolVersion or republishes it. */
  lemma {:induction false} ProtocolVersionNeverChanges(s: State, events: seq<Event>)
    ensures Run(s, events).state.protocolVersion == s.protocolVersion
    ensures forall eff :: eff in Run(s, events).effects ==> !eff.SetProtocolVersion?
    decreases |events|
  {
    if events != [] {
      ProtocolVersionNeverChanges(Apply(s, events[0]).state, events[1..]);
    }
  }

  /** Over any sequence of events, the published item list and host flag
      end equal to the store's item set and flag. */
  lemma {:induction false} RunPublishes(s: State, events: seq<Event>)
    ensures PublishedItems(s.items, Run(s, events).effects) == Run(s, events).state.items
    ensures PublishedHost(s.hostRegistered, Run(s, events).effects) == Run(s, events).state.hostRegistered
    decreases |events|
  {
    if events != [] {
      var first := Apply(s, events[0]);
      ApplyPublishes(s, events[0]);
      RunPublishes(first.state, events[1..]);
      var rest := Run(first.state, events[1..]);
      PublishedItemsAppend(s.items, first.effects, rest.effects);
      PublishedHostAppend(s.hostRegistered, first.effects, rest.effects);
    }
  }

  /** Any number of RegisterStatusNotifierHost calls, duplicates included:
      each distinct caller is in the set once, the flag is on after the
      first call, and every call is answered and announced. */
  lemma {:induction false} RepeatedHostRegistration(s: State, services: seq<string>, events: seq<Event>)
    requires |events| == |services|
    requires forall i :: 0 <= i < |events| ==> events[i] == RegisterHost(services[i])
    ensures Run(s, events).state.hosts == s.hosts + Elems(services)
    ensures Run(s, events).state.items == s.items
    ensures Run(s, events).state.hostRegistered == (s.hostRegistered || services != [])
    ensures multiset(Run(s, events).effects)[EmitHostRegistered] == |services|
    ensures multiset(Run(s, events).effects)[CompleteRegisterHost] == |services|
    decreases |events|
  {
    if events != [] {
      var first := Apply(s, events[0]);
      RepeatedHostRegistration(first.state, services[1..], events[1..]);
      assert Elems(services) == {services[0]} + Elems(services[1..]);
    }
  }

  /** One RegisterStatusNotifierItem call emits exactly ItemRegistered
      for its caller and publishes the item set it leaves. */
  lemma RegisterItemPublishes(s: State, service: string, seen: set<string>)
    ensures Signals(OnRegisterItem(s, service).effects) == [EmitItemRegistered(service)]
    ensures PublishedItems(seen, OnRegisterItem(s, service).effects) == s.items + {service}
  {
    var effs := OnRegisterItem(s, service).effects;
    PublishedItemsUntouched(s.items + {service}, effs[1..]);
    assert effs[1..][1..] == [EmitItemRegistered(service)];
    assert Signals(effs[1..][1..]) == [EmitItemRegistered(service)] + Signals([]);
    assert Signals(effs) == Signals(effs[1..]) == Signals(effs[1..][1..]);
  }

  /** Any number of RegisterStatusNotifierItem calls, duplicates included:
      the item set holds each distinct name once, ItemRegistered is emitted
      once per call with that call's name, and the list published last is
      exactly the set of distinct names. */
  lemma {:induction false} RepeatedItemRegistration(s: State, services: seq<string>, events: seq<Event>, seen: set<string>)
    requires |events| == |services|
    requires forall i :: 0 <= i < |events| ==> events[i] == RegisterItem(services[i])
    requires services != []
    ensures Run(s, events).state.items == s.items + Elems(services)
    ensures Run(s, events).state.hosts == s.hosts
    ensures |Signals(Run(s, events).effects)| == |services|
    ensures forall i :: 0 <= i < |services| ==> Signals(Run(s, events).effects)[i] == EmitItemRegistered(services[i])
    ensures PublishedItems(seen, Run(s, events).effects) == s.items + Elems(services)
    decreases |events|
  {
    var first := Apply(s, events[0]);
    var rest := Run(first.state, events[1..]);
    assert Elems(services) == {services[0]} + Elems(services[1..]);
    RegisterItemPublishes(s, services[0], seen);
    SignalsAppend(first.effects, rest.effects);
    PublishedItemsAppend(seen, first.effects, rest.effects);
    if |events| == 1 {
      assert services == [services[0]];
      assert rest == Transition(first.state, []);
      assert first.effects + [] == first.effects;
    } else {
      RepeatedItemRegistration(first.state, services[1..], events[1..], PublishedItems(seen, first.effects));
      assert services == [services[0]] + services[1..];
    }
  }

  // ---- Scenarios ----


  /** Register items A and B, then A's connection drops: only B is left and
      published, and the signals are A and B registered, then A unregistered
      (once), with nothing for B. */
  lemma ItemScenario(a: string, b: string, aOwner: string)
    requires a != b
    ensures var t := Run(Start().state, [RegisterItem(a), RegisterItem(b), NameOwnerChanged(a, aOwner, "")]);
      && t.state.items == {b}
      && PublishedItems({}, t.effects) == {b}
      && Signals(t.effects) == [EmitItemRegistered(a), EmitItemRegistered(b), EmitItemUnregistered(a)]
  {
    var e1, e2, e3 := RegisterItem(a), RegisterItem(b), NameOwnerChanged(a, aOwner, "");
    var s0 := Start().state;
    var t1 := Apply(s0, e1);
    var t2 := Apply(t1.state, e2);
    var t3 := Apply(t2.state, e3);
    RunOne(s0, e1);
    RunOne(t1.state, e2);
    RunOne(t2.state, e3);
    RunAppend(s0, [e1], [e2]);
    assert [e1] + [e2] == [e1, e2];
    RunAppend(s0, [e1, e2], [e3]);
    assert [e1, e2] + [e3] == [e1, e2, e3];
    assert t2.state.items == {a, b} && t2.state.hosts == {};
    assert t2.state.items - {a} == {b};
    ItemVanishes(t2.state, a, aOwner);
    RegisterItemPublishes(s0, a, {});
    RegisterItemPublishes(t1.state, b, {});
    SignalsAppend(t1.effects, t2.effects);
    SignalsAppend(t1.effects + t2.effects, t3.effects);
    RunPublishes(s0, [e1, e2, e3]);
  }

  /** Hosts A and B register; the flag survives A vanishing and is cleared
      when B vanishes too. */
  lemma HostScenario(a: string, b: string)
    requires a != b
    ensures Run(Start().state, [RegisterHost(a), RegisterHost(b), NameOwnerChanged(a, a, "")]).state.hostRegistered
    ensures !Run(Start().state, [RegisterHost(a), RegisterHost(b), NameOwnerChanged(a, a, ""),
                                 NameOwnerChanged(b, b, "")]).state.hostRegistered
  {
    var e1, e2, e3, e4 := RegisterHost(a), RegisterHost(b), NameOwnerChanged(a, a, ""), NameOwnerChanged(b, b, "");
    var s0 := Start().state;
    var s1 := Apply(s0, e1).state;
    var s2 := Apply(s1, e2).state;
    var s3 := Apply(s2, e3).state;
    var s4 := Apply(s3, e4).state;
    RunOne(s0, e1);
    RunOne(s1, e2);
    RunOne(s2, e3);
    RunOne(s3, e4);
    RunAppend(s0, [e1], [e2]);
    assert [e1] + [e2] == [e1, e2];
    RunAppend(s0, [e1, e2], [e3]);
    assert [e1, e2] + [e3] == [e1, e2, e3];
    RunAppend(s0, [e1, e2, e3], [e4]);
    assert [e1, e2, e3] + [e4] == [e1, e2, e3, e4];
    assert s2.hosts == {a, b};
    assert s3.hosts == {b} && s3.hostRegistered;
    assert s4.hosts == {} && !s4.hostRegistered;
  }
}
