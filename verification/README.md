# kfsm in Dafny

A model of the kfsm finite-state-machine guard (`src/lib.rs`). A machine
holds an initial state label, a current state label, a fixed table of
transitions (each one a set of `from` labels and one `to` label), a history of
the transitions taken, and options whose one field, `max_history`, caps the
history (a negative value, the default, means unbounded).

- `KFSM::new` builds a machine in its initial state with an empty history.
  Without options, the cap is `-1`.
- `KFSM::update(next)` walks the whole table in order. For every transition
  whose `from` contains the current state *at that point of the walk* and
  whose `to` is `next`, it:
  - drops the oldest history entry if the history has reached the cap;
  - appends `current -> next`;
  - moves to `next`.

  If nothing fired, it fails with "transition not found" and changes nothing.

The model is one module, `Kfsm` (`kfsm.dfy`):

- The pure part specifies one update:
  - `Matches`, `Apply` and `Scan` follow the walk transition by transition.
  - `Log` and `Retained` give an independent closed form: the entries
    appended and how many entries survive the cap.
- The class `KFSM` has the fields of the Rust struct. Its `Update` method is
  the loop itself, proved against `Scan` and the closed form. The method keeps
  the machine invariant `Valid`:
  - the current state is the initial one while the history is empty, and
    otherwise the target of the newest recorded move, which the table allows;
  - a non-negative cap is respected;
  - every entry is allowed by the table;
  - the entries chain up to the current state.

Behaviour worth knowing follows from the code re-reading `current` while it
walks the table. Only the first transition that fires leaves the state held
before the call. After it, only self-loops `next -> next` can fire. Take two
transitions `A -> B` and `{A, X} -> B`: updating from `A` to `B` appends one
entry, not two, because the second transition is tested against `B`.
`OverlappingTransitionsFireOnce` states this, and the model follows the code
here. A description of `update` as "every transition that matches the state
before the call is recorded" would give two entries.

## Model

| member | source | states |
|---|---|---|
| Kfsm.Apply | src/lib.rs:47-51 | one firing transition: the machine is in `next`; the history grows by one, or keeps its length when the cap is reached; its newest entry is `current -> next` |
| Kfsm.ApplyKeepsNewest | src/lib.rs:47-50 | one firing transition keeps the old entries in order and drops only the oldest one, and only at the cap: the new history is the newest entries of the old history followed by `current -> next` |
| Kfsm.Scan | src/lib.rs:45-54 | the state after walking the table, where each transition is tested against the state reached so far; an empty resulting history means nothing changed |
| Kfsm.Retained | src/lib.rs:47-50 | how many of `h` old and `n` appended entries the cap keeps: all of them for a negative cap; no more than a non-negative cap the history already respects; the old ones when nothing was appended |
| Kfsm.LogShape | src/lib.rs:45-52 | an update appends nothing exactly when no transition fires from the state before the call; otherwise the first entry leaves that state and every later one is the self-loop `next -> next` |
| Kfsm.SelfLoopsShape | src/lib.rs:45-52 | after the first move, every appended entry is `next -> next` |
| Kfsm.SelfLoopsSnoc | src/lib.rs:45-53 | one more transition at the end of the table adds a self-loop entry exactly when it fires from `next` to `next` |
| Kfsm.LogSnoc | src/lib.rs:45-53 | one more transition at the end of the table appends an entry exactly when it fires from the state reached so far |
| Kfsm.ScanHistory | src/lib.rs:44-54 | closed form of a walk: the machine ends in `next` if anything fired and stays put otherwise; the history is the newest `Retained` entries of the old history followed by the appended entries (first in, first out) |
| Kfsm.ApplyRetains | src/lib.rs:47-50 | dropping the oldest entry at the cap and appending keeps the window of old plus appended entries one entry further on |
| Kfsm.ApplyLast | src/lib.rs:47-50 | applying a transition to the newest `a` entries of a sequence gives the newest `a` or `a + 1` entries of the extended sequence |
| Kfsm.LastOfLast | src/lib.rs:47-50 | taking the newest entries of a window extended by one entry is the same as taking them from the full sequence extended by that entry |
| Kfsm.ScanUnbounded | src/lib.rs:33 | with a negative cap (the default `-1`) nothing is ever dropped: the history is the old one followed by every appended entry |
| Kfsm.ScanWithinCap | src/lib.rs:47-50 | a history within a non-negative cap stays within it after an update |
| Kfsm.ScanOutcome | src/lib.rs:44-59 | a walk in which nothing fires changes neither state nor history; otherwise the machine ends in `next` |
| Kfsm.ScanStep | src/lib.rs:45-54 | walking one more transition of the table is the walk so far followed by testing that transition against the state reached |
| Kfsm.ApplyKeepsInvariant | src/lib.rs:46-51 | a firing transition keeps the machine invariant: the state is the initial one while the history is empty and otherwise the target of the newest recorded move, which the table allows; the cap is respected; the entries are allowed and chained |
| Kfsm.HistorySuffix | src/lib.rs:47-49 | dropping the oldest entries keeps a history allowed and chained |
| Kfsm.HistoryAppend | src/lib.rs:50-51 | appending the entry `current -> next` of a firing transition keeps the history allowed and chained, now up to `next` |
| Kfsm.ScanPrefixKeepsInvariant | src/lib.rs:45-54 | the machine invariant holds after walking any prefix of the table |
| Kfsm.ScanKeepsInvariant | src/lib.rs:43-60 | an update keeps the machine invariant |
| Kfsm.KFSM.constructor | src/lib.rs:32-42 | a new machine is in its initial state with the given table and an empty history, its options are the given ones or a cap of `-1`, and it satisfies the invariant |
| Kfsm.KFSM.Update | src/lib.rs:43-60 | succeeds exactly when some transition fires from the state before the call; on failure reports "transition not found" and changes nothing; on success ends in `next`; the new history is the closed form of `ScanHistory`; keeps the invariant; only `current` and `history` change |
| Kfsm.OverlappingTransitionsFireOnce | src/lib.rs:45-53 | `A -> B` then `{A, X} -> B`, updated from `A` to `B`, appends one entry only |
| Kfsm.SelfLoopFiresAfterMove | src/lib.rs:45-53 | `A -> B` then `B -> B`, updated from `A` to `B`, appends `A -> B` and then `B -> B` |
| Kfsm.NewMachineDefaults | src/lib.rs:68-77 | a machine built without options is in its initial state, has an empty history and a cap of `-1` |
| Kfsm.UpdateMovesAlongTable | src/lib.rs:79-91 | with `A -> B`, `B -> C` from `A` (`B` and `C` distinct), updating to `B` succeeds, the machine is in `B` and the history is `[A -> B]` |
| Kfsm.MoveAlongTableLog | src/lib.rs:45-53 | with `A -> B`, `B -> C` (`B` and `C` distinct), the move from `A` to `B` fires and appends exactly `A -> B` |
| Kfsm.UpdateRejectsUnknownTarget | src/lib.rs:55-57 | from `B` with `A -> B`, `B -> C`, updating to a label no transition leads to fails and leaves state and history unchanged |
| Kfsm.BackAndForthLog | src/lib.rs:45-53 | with `A -> B`, `B -> A`, each move appends exactly one entry |
| Kfsm.BoundedHistoryKeepsNewest | src/lib.rs:47-50 | with a cap of 2, three moves `A -> B -> A -> B` leave the two newest entries `B -> A`, `A -> B` |

## Left out

- Serialization: the `Serialize`/`Deserialize` derives are not modelled. `Valid` therefore describes only machines built by `new` and changed by `update`. A deserialized machine can violate it, for example with a history longer than its cap. `Update` still does what the code does on such a machine; only its `Valid` guarantee needs `Valid` beforehand.
- `KFSM.Update`: the Rust method returns `&mut KFSM` on success. The model returns `Ok` and updates the object in place. The error string is reduced to the single tag `TransitionNotFound`.
- `KFSM.Update`: `self.history.remove(0)` on an empty history aborts the program. On a 64-bit target this happens exactly when the cap is 0, the history is empty and some transition fires. The model makes that case a precondition (`EvictsFromEmpty`) instead of modelling the abort.
- `Evicts`: the cast `max_history as usize` is summarised. On a 64-bit target, a negative cap becomes a length of at least 2^63, which no history reaches, so it never evicts. A non-negative cap is compared as is. The 64-bit range of `max_history` (`i64`) is not enforced, because the model's integers are unbounded. On a 32-bit target the cast truncates (a cap of 2^32 becomes 0); that target is not modelled.
- `Box<[T]>` and `Vec<T>` are both modelled as `seq`. The table is never mutated. Allocation and cloning of strings are not modelled. State labels are `string` values compared by equality, as `==` and `contains` compare Rust `String`s.
