# Value-container sync codec

A model of the `ValueContainer` interface of OcelotModUtilities. A value container is an object with named, typed, client-editable entries. The codec keeps those entries in step between server and client:

- `serialize` turns the **dirty** entries into a sparse list of `(name, data)` records. It visits the entries in list order. A clean entry is skipped. A dirty entry whose `write` throws is also skipped (the exception is printed).
- `deserialize` indexes the container's entries by name. It applies each record in payload order. A record naming an unknown entry is reported and skipped. A record whose `read` throws is reported and skipped. At the end it makes at most one `readEntries(map)` call. That call carries only the names whose `read` succeeded.

Modules:

- `Entries` (`entries.dfy`): the entry value `Entry(name, dirty, value)`, the payload `Record(name, data)`, and `EntryCodec`. `EntryCodec` holds the entry's own `write` and `read`. Each may fail: `write` yields `None`, and `read` yields `Threw(left)`, where `left` is the value the entry holds after the exception.
- `Encoding` (`encoding.dfy`): `Encode` is the specification of `serialize`. The `Serialize` method is the `forEach` loop, proved against `Encode`. The lemmas cover dirty-only output, order, exact contents and write-failure isolation.
- `Decoding` (`decoding.dfy`): `IndexOf` is the name index (`HashMap.put` in list order, so the last entry with a name wins). `Step` applies one record. `Run` and `Decode` fold `Step` over the payload. `Batches` gives the `readEntries` calls a run makes. The lemmas cover what applies, what is skipped and what is reported.
- `Sync` (`sync.dfy`): serialise on one side, then deserialise on the other (the round trip).
- `Containers` (`containers.dfy`): the container as a class, plus the static `serialize(container, entries)` and `deserialize`, written as imperative methods.

The container's fields stand for what its overridable methods supply:

- `legacyEntries`: what the deprecated `getEntries(List)` appends. The interface default appends nothing, so the plain constructor sets it to `[]`.
- `entriesAt`: what `getEntries(World, BlockPos, List)` appends at each location.
- `delivered`: a log of the maps passed to the deprecated `readEntries(Map)`.

`deserialize` builds its index from the deprecated no-argument `getEntries()` (`ValueContainer.java:193`). It reports through the deprecated one-argument `readEntries(Map)` (`ValueContainer.java:217`). The codec never calls the location-aware overloads, so the model's declared entries are `legacyEntries`. `NothingDeclaredNothingApplied` proves what follows for a container that keeps the interface defaults: every record is reported as unknown, and no batch is ever delivered.

In the source, `read` mutates the entry objects, and the applied map holds references to them. So the map shows each applied entry's state at the end of the whole run, including later reads of the same name that threw. The model tracks every indexed entry's current value and builds the batch from those final values (`Batches`). `LastReadWins` states what each final value is: the outcome of the last record naming that entry.

## Model

| member | source | states |
|---|---|---|
| `Encoding.Serialize` | src/main/java/io/github/ocelot/common/valuecontainer/ValueContainer.java:153-182 | The loop over the entries yields exactly `Encode(entries)`, plus the names of the dirty entries whose `write` threw (`WriteFailures`). Entries are values, so nothing about them changes. |
| `Containers.SerializeFor` | src/main/java/io/github/ocelot/common/valuecontainer/ValueContainer.java:116-145 | The deprecated overload ignores its container and yields the same payload and failures as `serialize(entries)`. |
| `Encoding.Encode` | src/main/java/io/github/ocelot/common/valuecontainer/ValueContainer.java:158-172 | The payload never has more records than there are entries. |
| `Encoding.EncodeAppend` | src/main/java/io/github/ocelot/common/valuecontainer/ValueContainer.java:158-172 | The payload of `a + b` is the payload of `a` followed by that of `b`. Records keep the traversal order of their entries. |
| `Encoding.EncodeMembership` | src/main/java/io/github/ocelot/common/valuecontainer/ValueContainer.java:160-172 | Both directions: a record is in the payload exactly when some dirty entry has its name and its `write` produced its data. |
| `Encoding.DropsNonEmitting` | src/main/java/io/github/ocelot/common/valuecontainer/ValueContainer.java:160-177 | A clean entry, or one whose `write` throws, leaves no record. The entries after it are still encoded, as if it were absent. |
| `Encoding.KeepsEmitting` | src/main/java/io/github/ocelot/common/valuecontainer/ValueContainer.java:162-172 | A dirty entry whose `write` succeeds contributes exactly one record, `(getName(), written data)`. It sits between the records of the entries before it and those after it. |
| `Encoding.EveryDirtyEntryAccounted` | src/main/java/io/github/ocelot/common/valuecontainer/ValueContainer.java:158-177 | Number of records + number of write failures = number of dirty entries. So there is one record per dirty entry that writes, and none for clean entries. |
| `Encoding.CleanEncodesEmpty` | src/main/java/io/github/ocelot/common/valuecontainer/ValueContainer.java:160-161 | A list with no dirty entry yields an empty payload and no failures. |
| `Decoding.IndexOf` | src/main/java/io/github/ocelot/common/valuecontainer/ValueContainer.java:192-193 | The index's keys are exactly the declared names, and every indexed entry carries its own key as its name. |
| `Decoding.IndexOfLastWins` | src/main/java/io/github/ocelot/common/valuecontainer/ValueContainer.java:193 | For each name, the index holds the last declared entry with that name. |
| `Decoding.Step` | src/main/java/io/github/ocelot/common/valuecontainer/ValueContainer.java:200-214 | One record touches at most the entry with its own name. `applied` grows by at most that name. At most one error is appended, and earlier errors are kept. The index keeps its key set. |
| `Decoding.Run` | src/main/java/io/github/ocelot/common/valuecontainer/ValueContainer.java:198-215 | Over a whole payload: the index keys never change, and `applied` grows only by names that occur in the payload. Errors are only appended, at most one per record. Consistency is preserved: applied names are indexed, and each entry sits under its own name. An entry that no record names keeps its state, whatever unknown names or failing reads the payload holds. |
| `Decoding.Decode` | src/main/java/io/github/ocelot/common/valuecontainer/ValueContainer.java:192-215 | A decode never adds or removes an entry name. The applied names lie within both the declared names and the payload's names. Every declared entry that no record names comes out exactly as the index holds it. |
| `Decoding.Batches` | src/main/java/io/github/ocelot/common/valuecontainer/ValueContainer.java:216-217 | At most one `readEntries` call. It happens exactly when some record applied. Its map's keys are exactly the applied names, and each value is that entry's final state. |
| `Decoding.AppliedExactly` | src/main/java/io/github/ocelot/common/valuecontainer/ValueContainer.java:204-209 | Both directions: a name is applied exactly when some record with that name found its entry in the index and the entry's `read` did not throw. |
| `Decoding.SkipsUnknown` | src/main/java/io/github/ocelot/common/valuecontainer/ValueContainer.java:202-214 | A record with an undeclared name is reported as `UnknownEntryName`. The entries and applied names come out exactly as they would without that record. |
| `Decoding.ReportsReadFailure` | src/main/java/io/github/ocelot/common/valuecontainer/ValueContainer.java:207-214 | A record whose `read` throws is reported as `ReadFailed`. That step applies nothing, and the entry is left holding the value the throwing `read` left behind. Decoding continues with the remaining records. |
| `Decoding.LastReadWins` | src/main/java/io/github/ocelot/common/valuecontainer/ValueContainer.java:198-214 | A declared entry named by a record that no later record names ends the decode with its name and dirty flag unchanged. Its value is what that record's `read` produced, or what the throwing `read` left behind. |
| `Decoding.NothingDeclaredNothingApplied` | src/main/java/io/github/ocelot/common/valuecontainer/ValueContainer.java:190-218 | Against an empty declaration (the default `getEntries()`), every record is reported unknown, in order. Nothing applies and no batch is delivered. |
| `Sync.EncodeThenDecode` | src/main/java/io/github/ocelot/common/valuecontainer/ValueContainer.java:153-217 | Round trip, when the entry codec reads back what it wrote, sender names are distinct and the receiver declares every emitted name (a dirty entry whose `write` succeeds). Decoding the sender's payload reports no error and applies exactly the emitted names. Each of them gets the sender's value. Every other declared entry stays as declared. |
| `Sync.OneBatchOfEmittedNames` | src/main/java/io/github/ocelot/common/valuecontainer/ValueContainer.java:216-217 | Under the same conditions, exactly one batch is delivered when anything was emitted, and none otherwise. Its keys are exactly the emitted names. |
| `Containers.Container.constructor` | src/main/java/io/github/ocelot/common/valuecontainer/ValueContainer.java:27-28 | A container that keeps the interface default of `getEntries(List)` declares no legacy entries and has received no batch. |
| `Containers.Container.Overriding` | src/main/java/io/github/ocelot/common/valuecontainer/ValueContainer.java:27-28 | A container that overrides `getEntries(List)` declares exactly the given legacy entries and has received no batch. |
| `Containers.Container.FillEntries` | src/main/java/io/github/ocelot/common/valuecontainer/ValueContainer.java:27-28 | `getEntries(List)` keeps the list's existing contents and appends the container's legacy entries after them. |
| `Containers.Container.FillEntriesAt` | src/main/java/io/github/ocelot/common/valuecontainer/ValueContainer.java:37 | `getEntries(World, BlockPos, List)` keeps the list's existing contents and appends the entries at that location. |
| `Containers.Container.GetEntries` | src/main/java/io/github/ocelot/common/valuecontainer/ValueContainer.java:61-66 | The default `getEntries()` materialises exactly the legacy entries, in order. Two calls with no change in between give the same list. |
| `Containers.Container.GetEntriesAt` | src/main/java/io/github/ocelot/common/valuecontainer/ValueContainer.java:75-80 | The default `getEntries(World, BlockPos)` materialises exactly the entries at that location, in order. |
| `Containers.Container.ReadEntries` | src/main/java/io/github/ocelot/common/valuecontainer/ValueContainer.java:45-46 | Each `readEntries(Map)` call is logged once, and nothing else about the container changes. |
| `Containers.BuildIndex` | src/main/java/io/github/ocelot/common/valuecontainer/ValueContainer.java:192-193 | The `forEach`/`put` loop yields exactly `IndexOf` of the declared entries. |
| `Containers.ApplyRecords` | src/main/java/io/github/ocelot/common/valuecontainer/ValueContainer.java:192-215 | Indexing the declared entries and then taking the records in order yields exactly the entries, applied names and errors of `Decode`. |
| `Containers.Deserialize` | src/main/java/io/github/ocelot/common/valuecontainer/ValueContainer.java:190-218 | Returns exactly the errors of `Decode` over the legacy entries (via `ApplyRecords`). The container's log grows by exactly `Batches` of that decode: zero or one call. Only the log changes. |

## Left out

- The NBT encoding is not modelled. A payload is the record list itself, and `data` is an opaque type. The `"entries"`, `"name"` and `"data"` tag keys, and the NBT defaults for a missing key (empty list, `""`, empty compound), are not modelled.
- `printStackTrace` is not modelled. Each caught exception becomes a reported item instead: a failed name from `Serialize`, a `DecodeError` from `Deserialize`. The source returns nothing for these.
- `ValueContainerEntry` is not part of this model. Entry kinds, `parse`, validators, display strings and the real `write`/`read` encodings are out of scope. The codec takes `write` and `read` as parameters. `read` is assumed to leave the name and the dirty flag alone.
- Exceptions thrown outside the source's `try` blocks are not modelled: from `getName` at :193 (while the index is built), `getEntries`, `isDirty` or `readEntries` itself. In the source they propagate to the caller. A `getName` that throws inside a `try` (:166, :209) is covered by `write` yielding `None` and `read` yielding `Threw`.
- Entry objects are modelled as values. The source's `read` mutates entry objects that a container may share with its canonical state. The model shows that effect only through the delivered batch and the decode's final entry states.
- `getTitle()`, `getTitle(World, BlockPos)` and `getContainerPos()` are not modelled. The codec never calls them; they feed the editor screen.
- `readEntries(World, BlockPos, Map)` is not modelled: the codec never calls it.
- `World` and `BlockPos` are modelled only as a `Location` key. The world is a name and the position is integer coordinates.
- The editor screen, shape renderer, scheduler and tile-entity base class are not modelled. They are rendering, input dispatch and thread plumbing over host libraries.
- `Sync.EncodeThenDecode` assumes the sender's entries have distinct names. With duplicate dirty names, the receiver keeps the last record's value; `Decoding.LastReadWins` states that, and this lemma does not.
