/** Values exchanged between the StatusNotifierWatcher and the bus: the
    inbound events it reacts to, the outbound effects it performs, and the
    NULL-terminated string vectors it hands to the property setter. */
module SnTypes {

  /** One `const gchar *` slot of a NULL-terminated string vector. */
  datatype Entry = Null | Name(name: string)

  /** One outbound action of the exported watcher object, recorded in the
      order the handlers perform it: a property setter, a method reply or a
      signal emission. `SetRegisteredItems` carries the names the published
      vector holds; the vector's order is hash-table order and unspecified. */
  datatype Effect =
    | SetProtocolVersion(version: int)
    | SetIsHostRegistered(registered: bool)
    | SetRegisteredItems(names: set<string>)
    | CompleteRegisterHost
    | CompleteRegisterItem
    | EmitHostRegistered
    | EmitItemRegistered(service: string)
    | EmitItemUnregistered(service: string)
  {
    /** A signal emission, as opposed to a setter call or a method reply. */
    predicate IsSignal() {
      EmitHostRegistered? || EmitItemRegistered? || EmitItemUnregistered?
    }
  }

  /** The three inbound events the watcher handles: the two method calls of
      its own interface and the bus driver's NameOwnerChanged broadcast. */
  datatype Event =
    | RegisterHost(service: string)
    | RegisterItem(service: string)
    | NameOwnerChanged(name: string, oldOwner: string, newOwner: string)

  predicate Distinct(s: seq<string>) {
    forall i, j :: 0 <= i < j < |s| ==> s[i] != s[j]
  }

  function Elems(s: seq<string>): set<string> {
    set x | x in s
  }

  /** The strings a NULL-terminated vector holds: every entry before the
      first `Null` (or all of them when there is none). */
  function Strv(a: seq<Entry>): (r: seq<string>)
    ensures |r| <= |a|
    ensures forall i :: 0 <= i < |r| ==> a[i] == Name(r[i])
    ensures |r| < |a| ==> a[|r|] == Null
  {
    if a == [] || a[0] == Null then [] else [a[0].name] + Strv(a[1..])
  }

  /** The value of RegisteredStatusNotifierItems an observer holds after
      seeing `effs`, starting from `current`: the last one published wins. */
  function PublishedItems(current: set<string>, effs: seq<Effect>): set<string>
    decreases |effs|
  {
    if effs == [] then current
    else PublishedItems(if effs[0].SetRegisteredItems? then effs[0].names else current, effs[1..])
  }

  /** The value of IsStatusNotifierHostRegistered an observer holds after
      seeing `effs`, starting from `current`. */
  function PublishedHost(current: bool, effs: seq<Effect>): bool
    decreases |effs|
  {
    if effs == [] then current
    else PublishedHost(if effs[0].SetIsHostRegistered? then effs[0].registered else current, effs[1..])
  }

  /** The signal emissions among `effs`, in order; setter calls and method
      replies are dropped. */
  function Signals(effs: seq<Effect>): seq<Effect>
    decreases |effs|
  {
    if effs == [] then []
    else
      (if effs[0].IsSignal() then [effs[0]] else []) + Signals(effs[1..])
  }
}
