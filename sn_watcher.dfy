/** The StatusNotifierWatcher object of dbus-snw.c: the two hash tables used
    as sets, the three published properties of the exported skeleton, and a
    log of every setter call, method reply and signal emission. */
module SnWatcher {
  import opened SnTypes
  import opened SnTransitions

  /** `a` is a NULL-terminated vector listing each name of `names` exactly
      once, in some order, followed by the terminating NULL. */
  predicate NullTerminatedOf(a: seq<Entry>, names: set<string>) {
    && |a| == |names| + 1
    && a[|names|] == Null
    && (forall i :: 0 <= i < |names| ==> a[i].Name? && a[i].name in names)
    && (forall i, j :: 0 <= i < j < |names| ==> a[i] != a[j])
    && (forall x :: x in names ==> Name(x) in a[..|names|])
  }

  /** array_from_hash_set: a vector of size |table| + 1 filled by walking the
      table with an incrementing index, then terminated with NULL. */
  method ArrayFromHashSet(table: set<string>) returns (a: array<Entry>)
    ensures fresh(a)
    ensures NullTerminatedOf(a[..], table)
  {
    a := new Entry[|table| + 1](_ => Null);
    var rest := table;
    var i := 0;
    while rest != {}
      invariant rest <= table
      invariant i + |rest| == |table|
      invariant forall k :: 0 <= k < i ==> a[k].Name? && a[k].name in table - rest
      invariant forall k, l :: 0 <= k < l < i ==> a[k] != a[l]
      invariant forall x :: x in table - rest ==> Name(x) in a[..i]
    {
      var key :| key in rest;
      ghost var filled := a[..i];
      a[i] := Name(key);
      assert a[..i + 1] == filled + [Name(key)];
      rest := rest - {key};
      i := i + 1;
    }
    a[i] := Null;
  }

  /** What the property setter reads from a vector built by
      ArrayFromHashSet: each name of the table exactly once. */
  lemma StrvOfTable(a: seq<Entry>, names: set<string>)
    requires NullTerminatedOf(a, names)
    ensures |Strv(a)| == |names|
    ensures Distinct(Strv(a))
    ensures Elems(Strv(a)) == names
  {
  }

  class Watcher {
    var hosts: set<string>
    var items: set<string>
    /** The IsStatusNotifierHostRegistered property. */
    var isHostRegistered: bool
    /** The RegisteredStatusNotifierItems property, in published order. */
    var registeredItems: seq<string>
    /** The ProtocolVersion property. */
    var protocolVersion: int
    /** Every effect performed so far, oldest first. */
    var effects: seq<Effect>

    /** The object invariant: the published properties agree with the sets. */
    ghost predicate Valid()
      reads this
    {
      && Consistent(View())
      && Distinct(registeredItems) && |registeredItems| == |items| && Elems(registeredItems) == items
    }

    /** The abstract state the transition functions work on. */
    ghost function View(): State
      reads this
    {
      State(hosts, items, isHostRegistered, protocolVersion)
    }

    /** setup_dbus: empty sets, then ProtocolVersion 1, no host registered and
        an empty (NULL) item vector, set in that order. */
    constructor Setup()
      ensures Valid()
      ensures hosts == {} && items == {} && !isHostRegistered && registeredItems == []
      ensures protocolVersion == 1
      ensures effects == [SetProtocolVersion(1), SetIsHostRegistered(false), SetRegisteredItems({})]
      ensures Transition(View(), effects) == Start()
    {
      hosts, items := {}, {};
      protocolVersion := 1;
      isHostRegistered := false;
      registeredItems := [];
      effects := [SetProtocolVersion(1), SetIsHostRegistered(false), SetRegisteredItems({})];
    }

    /** Publishes the item table: builds its NULL-terminated vector and hands
        it to the RegisteredStatusNotifierItems setter. */
    method PublishItems()
      modifies this
      ensures hosts == old(hosts) && items == old(items) && isHostRegistered == old(isHostRegistered)
      ensures protocolVersion == old(protocolVersion)
      ensures Distinct(registeredItems) && |registeredItems| == |items| && Elems(registeredItems) == items
      ensures effects == old(effects) + [SetRegisteredItems(items)]
    {
      var strv := ArrayFromHashSet(items);
      StrvOfTable(strv[..], items);
      registeredItems := Strv(strv[..]);
      effects := effects + [SetRegisteredItems(Elems(registeredItems))];
    }

    /** on_register_host: a duplicate call leaves the set as it is but is
        still answered, flagged and announced. */
    method OnRegisterHost(service: string)
      requires Valid()
      modifies this
      ensures Valid()
      ensures hosts == old(hosts) + {service} && items == old(items) && isHostRegistered
      ensures registeredItems == old(registeredItems) && protocolVersion == old(protocolVersion)
      ensures effects == old(effects) + [CompleteRegisterHost, SetIsHostRegistered(true), EmitHostRegistered]
      ensures Transition(View(), effects[|old(effects)|..]) == SnTransitions.OnRegisterHost(old(View()), service)
    {
      if service !in hosts {
        hosts := hosts + {service};
      }
      effects := effects + [CompleteRegisterHost];
      isHostRegistered := true;
      effects := effects + [SetIsHostRegistered(true)];
      effects := effects + [EmitHostRegistered];
    }

    /** on_register_item: a duplicate call leaves the set as it is but the
        list is still republished, the call answered and the item announced. */
    method OnRegisterItem(service: string)
      requires Valid()
      modifies this
      ensures Valid()
      ensures items == old(items) + {service} && hosts == old(hosts)
      ensures isHostRegistered == old(isHostRegistered) && protocolVersion == old(protocolVersion)
      ensures Distinct(registeredItems) && |registeredItems| == |items| && Elems(registeredItems) == items
      ensures effects == old(effects) + [SetRegisteredItems(items), CompleteRegisterItem, EmitItemRegistered(service)]
      ensures Transition(View(), effects[|old(effects)|..]) == SnTransitions.OnRegisterItem(old(View()), service)
    {
      if service !in items {
        items := items + {service};
      }
      PublishItems();
      effects := effects + [CompleteRegisterItem];
      effects := effects + [EmitItemRegistered(service)];
    }

    /** The item branch of on_name_owner_changed: drop the item, republish
        the list and announce the removal. */
    method EvictItem(name: string)
      requires Valid() && name in items
      modifies this
      ensures Valid()
      ensures hosts == old(hosts) && isHostRegistered == old(isHostRegistered)
      ensures items == old(items) - {name} && protocolVersion == old(protocolVersion)
      ensures effects == old(effects) + [SetRegisteredItems(items), EmitItemUnregistered(name)]
      ensures View() == DropItem(old(View()), name).state
    {
      items := items - {name};
      PublishItems();
      effects := effects + [EmitItemUnregistered(name)];
    }

    /** The host branch of on_name_owner_changed: drop the host and clear the
        flag only when no host is left. */
    method EvictHost(name: string)
      requires Valid() && name in hosts
      modifies this
      ensures Valid()
      ensures items == old(items) && registeredItems == old(registeredItems)
      ensures hosts == old(hosts) - {name} && protocolVersion == old(protocolVersion)
      ensures hosts == {} ==> !isHostRegistered && effects == old(effects) + [SetIsHostRegistered(false)]
      ensures hosts != {} ==> isHostRegistered == old(isHostRegistered) && effects == old(effects)
      ensures Transition(View(), effects[|old(effects)|..]) == DropHost(old(View()), name)
    {
      hosts := hosts - {name};
      if |hosts| == 0 {
        isHostRegistered := false;
        effects := effects + [SetIsHostRegistered(false)];
      }
    }

    /** on_name_owner_changed: a name whose new owner is empty is evicted
        from the item table (republishing the list and announcing it) and
        then from the host table (clearing the flag if no host is left). */
    method OnNameOwnerChanged(name: string, oldOwner: string, newOwner: string)
      requires Valid()
      modifies this
      ensures Valid()
      ensures protocolVersion == old(protocolVersion)
      ensures newOwner != "" ==> hosts == old(hosts) && items == old(items) && effects == old(effects)
      ensures newOwner == "" ==> hosts == old(hosts) - {name} && items == old(items) - {name}
      ensures name !in old(items) || newOwner != "" ==> registeredItems == old(registeredItems)
      ensures |effects| >= |old(effects)| && effects[..|old(effects)|] == old(effects)
      ensures Transition(View(), effects[|old(effects)|..])
              == SnTransitions.OnNameOwnerChanged(old(View()), name, oldOwner, newOwner)
    {
      ghost var s0, n0 := View(), |effects|;
      ghost var afterItem := if newOwner == "" && name in s0.items then DropItem(s0, name) else Transition(s0, []);
      if name in items && newOwner == "" {
        EvictItem(name);
      }
      assert View() == afterItem.state && effects[n0..] == afterItem.effects;
      ghost var n1 := |effects|;
      ghost var afterHost := if newOwner == "" && name in afterItem.state.hosts then DropHost(afterItem.state, name)
                             else Transition(afterItem.state, []);
      if name in hosts && newOwner == "" {
        EvictHost(name);
      }
      assert View() == afterHost.state && effects[n1..] == afterHost.effects;
      assert effects[n0..] == effects[n0..n1] + effects[n1..];
    }

    /** The dispatch on_bus_acquired sets up: each inbound event goes to its
        handler, which runs to completion. */
    method Deliver(e: Event)
      requires Valid()
      modifies this
      ensures Valid()
      ensures |effects| >= |old(effects)| && effects[..|old(effects)|] == old(effects)
      ensures Transition(View(), effects[|old(effects)|..]) == Apply(old(View()), e)
    {
      match e
      case RegisterHost(service) => OnRegisterHost(service);
      case RegisterItem(service) => OnRegisterItem(service);
      case NameOwnerChanged(name, oldOwner, newOwner) => OnNameOwnerChanged(name, oldOwner, newOwner);
    }
  }
}
