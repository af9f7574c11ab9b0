/** The watcher's registration and eviction rules as pure functions: each
    handler maps the membership store and an inbound event to the new store
    and the list of effects it performs, in order. The class in module
    SnWatcher is proved to follow these functions step by step. */
module SnTransitions {
  import opened SnTypes

  /** The value ProtocolVersion is published with at startup. */
  const ProtocolVersion := 1

  /** The watcher's state: the two name sets and the two published scalar
      properties (RegisteredStatusNotifierItems is abstracted to `items`). */
  datatype State = State(hosts: set<string>, items: set<string>, hostRegistered: bool, protocolVersion: int)

  /** The state after a handler and the effects it performed, in order. */
  datatype Transition = Transition(state: State, effects: seq<Effect>)

  /** What every reachable state satisfies: the host flag reflects whether a
      host is registered, and the protocol version is the published one. */
  predicate Consistent(s: State) {
    s.hostRegistered == (s.hosts != {}) && s.protocolVersion == ProtocolVersion
  }

  /** setup_dbus: empty tables, then the three initial property settings. */
  function Start(): (t: Transition)
    ensures Consistent(t.state)
  {
    Transition(State({}, {}, false, ProtocolVersion),
               [SetProtocolVersion(ProtocolVersion), SetIsHostRegistered(false), SetRegisteredItems({})])
  }

  /** on_register_host: add the caller if absent, then reply, set the host
      flag and announce the host, on every call. */
  function OnRegisterHost(s: State, service: string): (t: Transition)
    ensures Consistent(s) ==> Consistent(t.state)
  {
    Transition(s.(hosts := s.hosts + {service}, hostRegistered := true),
               [CompleteRegisterHost, SetIsHostRegistered(true), EmitHostRegistered])
  }

  /** on_register_item: add the service if absent, then republish the item
      list, reply and announce the item, on every call. */
  function OnRegisterItem(s: State, service: string): (t: Transition)
    ensures Consistent(s) ==> Consistent(t.state)
  {
    var items := s.items + {service};
    Transition(s.(items := items),
               [SetRegisteredItems(items), CompleteRegisterItem, EmitItemRegistered(service)])
  }

  /** The item branch of on_name_owner_changed, taken when `name` is a
      tracked item and has lost its owner. */
  function DropItem(s: State, name: string): Transition
  {
    var items := s.items - {name};
    Transition(s.(items := items), [SetRegisteredItems(items), EmitItemUnregistered(name)])
  }

  /** The host branch of on_name_owner_changed, taken when `name` is a
      tracked host and has lost its owner: the flag is cleared only when no
      host is left, and otherwise left untouched. */
  function DropHost(s: State, name: string): Transition
  {
    var hosts := s.hosts - {name};
    if hosts == {} then Transition(s.(hosts := hosts, hostRegistered := false), [SetIsHostRegistered(false)])
    else Transition(s.(hosts := hosts), [])
  }

  /** on_name_owner_changed: only an empty new owner is acted on; the item
      branch runs first, then the host branch on the state it left. */
  function OnNameOwnerChanged(s: State, name: string, oldOwner: string, newOwner: string): (t: Transition)
    ensures Consistent(s) ==> Consistent(t.state)
  {
    var vanished := newOwner == "";
    var afterItem := if vanished && name in s.items then DropItem(s, name) else Transition(s, []);
    var afterHost := if vanished && name in afterItem.state.hosts then DropHost(afterItem.state, name)
                     else Transition(afterItem.state, []);
    Transition(afterHost.state, afterItem.effects + afterHost.effects)
  }

  /** The handler on_bus_acquired connects to each inbound event. */
  function Apply(s: State, e: Event): (t: Transition)
    ensures Consistent(s) ==> Consistent(t.state)
  {
    match e
    case RegisterHost(service) => OnRegisterHost(s, service)
    case RegisterItem(service) => OnRegisterItem(s, service)
    case NameOwnerChanged(name, oldOwner, newOwner) => OnNameOwnerChanged(s, name, oldOwner, newOwner)
  }

  /** Events handled one at a time, each to completion, in delivery order. */
  function Run(s: State, events: seq<Event>): (t: Transition)
    decreases |events|
  {
    if events == [] then Transition(s, [])
    else
      var first := Apply(s, events[0]);
      var rest := Run(first.state, events[1..]);
      Transition(rest.state, first.effects + rest.effects)
  }
}
