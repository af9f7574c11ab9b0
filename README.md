# StatusNotifierWatcher registration state machine

This project models the core of a StatusNotifierWatcher. The watcher is the
tray-icon directory service of the freedesktop.org StatusNotifierItem
specification, published on the session bus as `org.kde.StatusNotifierWatcher`.
The model covers three things:

- the two name tables, `hosts` and `items`;
- the three published properties `IsStatusNotifierHostRegistered`,
  `RegisteredStatusNotifierItems` and `ProtocolVersion`;
- the handlers for the `RegisterStatusNotifierHost` and
  `RegisterStatusNotifierItem` calls and for the bus driver's
  `org.freedesktop.DBus.NameOwnerChanged` signal.

Every property setter call, method reply and signal emission is recorded, in
order, as one `Effect` in a log.

Files:

- `sn_types.dfy` (module `SnTypes`) holds:
  - the inbound `Event`s and outbound `Effect`s;
  - `Entry`, one slot of a NULL-terminated string vector, and `Strv`, which
    reads the names from such a vector;
  - `PublishedItems` and `PublishedHost`, which give the property values an
    observer holds after a run of effects;
  - `Signals`, which keeps only the signal emissions of a run of effects.
- `sn_transitions.dfy` (module `SnTransitions`) gives each handler as a pure
  function. A function maps the abstract `State` (hosts, items, host flag,
  protocol version) to the new state and the effects, in order. `Run`
  handles events one at a time, in delivery order. These functions are the
  specification the class is proved against.
- `sn_watcher.dfy` (module `SnWatcher`) holds the imperative model:
  - `ArrayFromHashSet` fills a fresh array with the table's names in a loop
    and ends it with NULL;
  - class `Watcher` has the tables, the property fields and the effect log
    as fields. Its handler methods update them in place, as
    `status_notifier_watcher` is updated in the source. Each method states
    its whole new state and is proved to follow its transition function.
- `sn_lemmas.dfy` (module `SnLemmas`) holds the properties of the
  transition functions:
  - what one event does;
  - what every sequence of events preserves;
  - two scenarios.

Strings are C strings without their terminator. D-Bus strings cannot hold a
NUL byte, so the source's test `new_owner[0] == '\0'` is modelled as
`newOwner == ""`. `g_str_equal` lookups are string equality.

## Model

| member | source | states |
|---|---|---|
| SnWatcher.ArrayFromHashSet | dbus-snw.c:53-66 | The vector is freshly allocated. It has one slot per table name plus one, and its last slot is NULL. The slots before it hold names of the table, pairwise distinct, and every name of the table is among them. |
| SnTypes.Strv | dbus-snw.c:46 | The names a setter reads from a NULL-terminated vector are exactly the slots before the first NULL, in order. |
| SnWatcher.StrvOfTable | dbus-snw.c:45-46 | The list read from a vector built by ArrayFromHashSet has one entry per table name, has no duplicate, and holds exactly the table's names. |
| SnWatcher.Watcher.Setup | dbus-snw.c:152-168 | Both tables start empty. ProtocolVersion is set to 1, IsHostRegistered to false and the item list to NULL (empty), in that order. The object invariant holds. |
| SnTransitions.Start | dbus-snw.c:162-168 | The initial state is consistent: no host and the flag off, protocol version 1. |
| SnWatcher.Watcher.PublishItems | dbus-snw.c:45-46 | Republishing the items builds the vector from the current table. The published list is then distinct, as long as `items` and equal to `items` as a set. One SetRegisteredItems effect is logged and nothing else changes. |
| SnWatcher.Watcher.OnRegisterHost | dbus-snw.c:21-34 | `hosts` becomes old `hosts` ∪ {service}, also on a duplicate call. `items`, the item list and the version are unchanged and the flag is true. The log gains exactly reply, set-flag(true) and HostRegistered, in that order. The result agrees with SnTransitions.OnRegisterHost. |
| SnWatcher.Watcher.OnRegisterItem | dbus-snw.c:36-50 | `items` becomes old `items` ∪ {service} and `hosts`, the flag and the version are unchanged. The republished list is distinct and equals `items` as a set. The log gains exactly set-list(items), reply and ItemRegistered(service), in that order, also on a duplicate call. The result agrees with SnTransitions.OnRegisterItem. |
| SnWatcher.Watcher.OnNameOwnerChanged | dbus-snw.c:68-96 | A non-empty new owner changes neither table and logs nothing. An empty new owner removes the name from both tables. The item list is untouched unless the name was a tracked item. The item branch (EvictItem) runs before the host branch (EvictHost). The object invariant is kept, and the result agrees with SnTransitions.OnNameOwnerChanged. |
| SnWatcher.Watcher.EvictItem | dbus-snw.c:81-87 | A tracked item that lost its owner is removed from `items`, and `hosts`, the flag and the version are unchanged. The log gains exactly set-list(items minus name) then ItemUnregistered(name). The new store is that of SnTransitions.DropItem. |
| SnWatcher.Watcher.EvictHost | dbus-snw.c:89-95 | A tracked host that lost its owner is removed from `hosts`, and `items` and the item list are unchanged. When no host is left the flag is cleared and set-flag(false) is the only effect. Otherwise the flag keeps its value and nothing is logged. The result is that of SnTransitions.DropHost. |
| SnWatcher.Watcher.Deliver | dbus-snw.c:106-126 | Each inbound event reaches its handler. The new state and the appended effects are those of SnTransitions.Apply, and earlier log entries are kept. |
| SnTransitions.OnRegisterHost | dbus-snw.c:27-32 | Registering a host keeps the flag equal to the non-emptiness of `hosts` and keeps the version. |
| SnTransitions.OnRegisterItem | dbus-snw.c:42-48 | Registering an item keeps the state consistent. |
| SnTransitions.OnNameOwnerChanged | dbus-snw.c:81-95 | Evicting a vanished name keeps the flag equal to the non-emptiness of `hosts`. Its two branches are the helpers DropItem (dbus-snw.c:81-87) and DropHost (dbus-snw.c:89-95), run in that order. |
| SnTransitions.Apply | dbus-snw.c:106-126 | Every handler the bus dispatches to keeps the state consistent. |
| SnLemmas.ApplyPublishes | dbus-snw.c:30-31 | After any one handler's effects, an observer's RegisteredStatusNotifierItems equals the new item set and its IsStatusNotifierHostRegistered equals the new flag. |
| SnLemmas.RunPublishes | dbus-snw.c:45-46 | After any sequence of events, the published item list and host flag equal the store's item set and flag, so no observer is left with a stale value. |
| SnLemmas.StartPublishes | dbus-snw.c:166-168 | After startup an observer sees an empty item list, no host and version 1, whatever it held before. |
| SnLemmas.RunConsistent | dbus-snw.c:92-93 | Every state reached from a consistent state by any sequence of events is consistent. |
| SnLemmas.ReachableConsistent | dbus-snw.c:162-168 | From startup, IsHostRegistered == (hosts non-empty) and ProtocolVersion == 1 after every sequence of events. |
| SnLemmas.ProtocolVersionNeverChanges | dbus-snw.c:166 | No event changes the protocol version or publishes it again. |
| SnLemmas.OnlyPresenceLossEvicts | dbus-snw.c:81-89 | Only a NameOwnerChanged with an empty new owner removes entries. The registration calls never shrink either table. |
| SnLemmas.ItemUnregisteredOnlyOnEviction | dbus-snw.c:81-86 | ItemUnregistered(n) is emitted if and only if the event is NameOwnerChanged for n with an empty new owner and n is a tracked item. |
| SnLemmas.NameOwnerChangedSignals | dbus-snw.c:81-95 | NameOwnerChanged emits exactly [ItemUnregistered(name)] when a tracked item lost its owner, and no signal otherwise. |
| SnLemmas.ItemVanishes | dbus-snw.c:81-87 | A vanished item leaves `items` minus that name. The first effects are set-list(items minus name) then ItemUnregistered(name). That is the only signal. If the name is not also a host, those are all the effects and the flag is unchanged. |
| SnLemmas.HostVanishes | dbus-snw.c:89-95 | A vanished host is removed. set-flag(false) is logged if and only if no host is left, the flag is never set to true here, and otherwise it keeps its value. An item signal is emitted only if the name was also an item. |
| SnLemmas.ItemBranchFirst | dbus-snw.c:81-95 | A name that is both host and item gets both removals. The effects are exactly the item branch's, then set-flag(false) if it was the last host. |
| SnLemmas.NameOwnerChangedNoop | dbus-snw.c:81-89 | The store is unchanged if and only if the new owner is non-empty or the name is in neither table. In that case nothing at all is performed. |
| SnLemmas.RepeatedHostRegistration | dbus-snw.c:27-32 | After any number of host registrations, duplicates included, `hosts` is the old set plus the distinct callers and `items` is unchanged. The flag is on once there was a call. Every call is answered and announced once. |
| SnLemmas.RegisterItemPublishes | dbus-snw.c:42-48 | One item registration emits exactly ItemRegistered(service). Afterwards the published list is the old items plus the service. |
| SnLemmas.RepeatedItemRegistration | dbus-snw.c:42-48 | After any non-empty sequence of item registrations, duplicates included, `items` is the old set plus the distinct names and `hosts` is unchanged. The i-th signal is ItemRegistered of the i-th call. The list published last is exactly the set of distinct names. |
| SnLemmas.ItemScenario | dbus-snw.c:36-96 | Register items A and B, then A vanishes. Only B is left and published, and the signals are exactly ItemRegistered(A), ItemRegistered(B), ItemUnregistered(A). |
| SnLemmas.HostScenario | dbus-snw.c:21-96 | Register hosts A and B. The flag stays on after A vanishes and is off after B vanishes too. |

## Left out

- Bus plumbing, which is recorded only as entries in the effect log:
  - name ownership through `g_bus_own_name`, and the name-acquired and
    name-lost callbacks, which only log (dbus-snw.c:142-161);
  - signal subscription;
  - skeleton export and its failure branch.
  `Watcher.Deliver` stands in for the dispatch those connections set up.
- `main`, the GLib main loop and teardown (dbus-snw.c:173-188). These are
  process lifecycle and scheduling. Events are modelled as arriving one at a
  time, each handled to completion.
- GVariant unpacking of the signal parameters (dbus-snw.c:78). The handler
  takes the three strings directly.
- `g_print` logging.
- Memory management: `g_strdup`, `g_new`, `g_free`, and the never-freed
  arrays built by `array_from_hash_set`.
- The generated `dbus-status-notifier-watcher.h` setters, replies and
  emitters. Each call is modelled as appending one `Effect`. Setting a
  property to the value it already holds is still logged. The library's
  suppression of an unchanged-value notification is not modelled.
- Hash-table iteration order. `ArrayFromHashSet` picks the next name with
  `:|`, so the published order is unspecified, as in the source. The
  `SetRegisteredItems` effect carries the set of published names, and the
  `Watcher.registeredItems` field holds the exact list.
- SnWatcher.ArrayFromHashSet: does not model the `gint` index overflowing,
  which would take more than 2^31 registered items.
- The NULL vector passed at startup (dbus-snw.c:168) is modelled as the empty
  list.
