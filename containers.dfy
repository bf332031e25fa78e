/** The `ValueContainer` interface: a canonical-state owner that materialises
    its entries on demand and is told, in one batch, which entries a received
    payload updated; with the static `serialize` / `deserialize` helpers that
    run the codec against it. */
module Containers {
  import opened Entries
  import opened Encoding
  import opened Decoding

  /** The world and block position a container is asked about; the model
      only ever compares them. */
  datatype Location = Location(world: string, x: int, y: int, z: int)

  class Container<V> {
    /** What the deprecated `getEntries(List)` appends to the list it is
        given. The interface default appends nothing. */
    var legacyEntries: seq<Entry<V>>
    /** What `getEntries(World, BlockPos, List)` appends at each location. */
    var entriesAt: Location -> seq<Entry<V>>
    /** The maps passed to the deprecated `readEntries(Map)`, oldest first.
        The interface default does nothing with them. */
    var delivered: seq<map<string, Entry<V>>>

    /** A container that overrides only the abstract members, so the
        deprecated `getEntries(List)` keeps its empty default. */
    constructor (entriesAt: Location -> seq<Entry<V>>)
      ensures legacyEntries == [] && this.entriesAt == entriesAt && delivered == []
    {
      this.legacyEntries := [];
      this.entriesAt := entriesAt;
      this.delivered := [];
    }

    /** A container that also overrides the deprecated `getEntries(List)`. */
    constructor Overriding(legacyEntries: seq<Entry<V>>, entriesAt: Location -> seq<Entry<V>>)
      ensures this.legacyEntries == legacyEntries && this.entriesAt == entriesAt && delivered == []
    {
      this.legacyEntries := legacyEntries;
      this.entriesAt := entriesAt;
      this.delivered := [];
    }

    /** `getEntries(List)`: appends the container's entries to `list`. */
    method FillEntries(list: seq<Entry<V>>) returns (filled: seq<Entry<V>>)
      ensures |filled| == |list| + |legacyEntries|
      ensures filled[..|list|] == list && filled[|list|..] == legacyEntries
    {
      filled := list + legacyEntries;
    }

    /** `getEntries(World, BlockPos, List)`: appends the entries at `loc`. */
    method FillEntriesAt(loc: Location, list: seq<Entry<V>>) returns (filled: seq<Entry<V>>)
      ensures |filled| == |list| + |entriesAt(loc)|
      ensures filled[..|list|] == list && filled[|list|..] == entriesAt(loc)
    {
      filled := list + entriesAt(loc);
    }

    /** The default `getEntries()`: a fresh list filled by
        `getEntries(List)`, so exactly the legacy entries, in their order. */
    method GetEntries() returns (es: seq<Entry<V>>)
      ensures es == legacyEntries
    {
      es := FillEntries([]);
    }

    /** The default `getEntries(World, BlockPos)`: a fresh list filled by
        `getEntries(World, BlockPos, List)`. */
    method GetEntriesAt(loc: Location) returns (es: seq<Entry<V>>)
      ensures es == entriesAt(loc)
    {
      es := FillEntriesAt(loc, []);
    }

    /** The deprecated `readEntries(Map)`: one batch notification. */
    method ReadEntries(applied: map<string, Entry<V>>)
      modifies this`delivered
      ensures delivered == old(delivered) + [applied]
    {
      delivered := delivered + [applied];
    }
  }

  /** The name index `deserialize` builds: `put` of every entry under its
      name, in list order. */
  method BuildIndex<V>(entries: seq<Entry<V>>) returns (index: map<string, Entry<V>>)
    ensures index == IndexOf(entries)
  {
    index := map[];
    for i := 0 to |entries|
      invariant index == IndexOf(entries[..i])
    {
      assert entries[..i + 1][..i] == entries[..i];
      index := index[entries[i].name := entries[i]];
    }
    assert entries[..|entries|] == entries;
  }

  /** The deprecated `serialize(container, entries)`: ignores the container
      and produces what `serialize(entries)` produces. */
  method SerializeFor<V, D>(container: Container<V>, entries: seq<Entry<V>>, codec: EntryCodec<V, D>)
    returns (payload: seq<Record<D>>, failures: seq<string>)
    ensures payload == Encode(entries, codec.write)
    ensures failures == WriteFailures(entries, codec.write)
  {
    payload, failures := Serialize(entries, codec);
  }

  /** The record loop of `deserialize`: indexes the declared entries, then
      takes the records in order. An unknown name is reported and skipped; a
      known one has its entry `read` the data, and a throwing read is
      reported and skipped. The result is the decode of the payload. */
  method ApplyRecords<V, D>(declared: seq<Entry<V>>, payload: seq<Record<D>>, read: (Entry<V>, D) -> ReadOutcome<V>)
    returns (current: map<string, Entry<V>>, applied: set<string>, errors: seq<DecodeError>)
    ensures Progress(current, applied, errors) == Decode(declared, payload, read)
  {
    current := BuildIndex(declared);
    applied, errors := {}, [];
    for i := 0 to |payload|
      invariant Progress(current, applied, errors) == Run(Start(declared), payload[..i], read)
    {
      ghost var before := Progress(current, applied, errors);
      var name := payload[i].name;
      if name !in current {
        errors := errors + [UnknownEntryName(name)];
      } else {
        var entry := current[name];
        match read(entry, payload[i].data) {
          case Read(v) =>
            current := current[name := entry.(value := v)];
            applied := applied + {name};
          case Threw(v) =>
            current := current[name := entry.(value := v)];
            errors := errors + [ReadFailed(name)];
        }
      }
      assert Progress(current, applied, errors) == Step(before, payload[i], read);
      assert payload[..i + 1] == payload[..i] + [payload[i]];
      RunSnoc(Start(declared), payload[..i], payload[i], read);
    }
    assert payload[..|payload|] == payload;
  }

  /** `deserialize(container, nbt)`. Applies the records to the entries of
      the deprecated `getEntries()`; at the end one `readEntries` call carries
      every name that applied, unless none did. The reported errors are
      returned; the source prints them. */
  method Deserialize<V, D>(container: Container<V>, payload: seq<Record<D>>, codec: EntryCodec<V, D>)
    returns (errors: seq<DecodeError>)
    modifies container`delivered
    ensures var t := Decode(container.legacyEntries, payload, codec.read);
      && errors == t.errors
      && container.delivered == old(container.delivered) + Batches(t)
  {
    var declared := container.GetEntries();
    var current, applied;
    current, applied, errors := ApplyRecords(declared, payload, codec.read);
    if applied != {} {
      container.ReadEntries(map n | n in applied :: current[n]);
    }
  }
}
