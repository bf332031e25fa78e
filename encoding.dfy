/** The encoding half of the value-container codec: `serialize` turns the
    dirty entries of a list into a sparse list of `(name, data)` records. */
module Encoding {
  import opened Entries

  /** An entry contributes a record exactly when it is dirty and its `write`
      does not throw. */
  predicate Emits<V, D>(e: Entry<V>, write: Entry<V> -> Option<D>)
  {
    e.dirty && write(e).Some?
  }

  /** The record an emitting entry contributes. */
  function RecordOf<V, D>(e: Entry<V>, write: Entry<V> -> Option<D>): (r: Record<D>)
    requires Emits(e, write)
    ensures r.name == e.name && write(e) == Some(r.data)
  {
    Record(e.name, write(e).value)
  }

  /** The payload `serialize` builds from `es`, visiting the entries in list
      order. */
  function Encode<V, D>(es: seq<Entry<V>>, write: Entry<V> -> Option<D>): (out: seq<Record<D>>)
    ensures |out| <= |es|
    decreases |es|
  {
    if es == [] then []
    else
      var last := es[|es| - 1];
      Encode(es[..|es| - 1], write) + (if Emits(last, write) then [RecordOf(last, write)] else [])
  }

  /** The names of the dirty entries whose `write` threw, in list order. */
  function WriteFailures<V, D>(es: seq<Entry<V>>, write: Entry<V> -> Option<D>): (out: seq<string>)
    ensures |out| <= |es|
    decreases |es|
  {
    if es == [] then []
    else
      var last := es[|es| - 1];
      WriteFailures(es[..|es| - 1], write) + (if last.dirty && write(last).None? then [last.name] else [])
  }

  /** Number of dirty entries in a list. */
  function CountDirty<V>(es: seq<Entry<V>>): (k: nat)
    ensures k <= |es|
    decreases |es|
  {
    if es == [] then 0 else CountDirty(es[..|es| - 1]) + (if es[|es| - 1].dirty then 1 else 0)
  }

  /** The payload of a concatenation is the concatenation of the payloads:
      records keep the traversal order of the entries. */
  lemma {:induction false} EncodeAppend<V, D>(a: seq<Entry<V>>, b: seq<Entry<V>>, write: Entry<V> -> Option<D>)
    ensures Encode(a + b, write) == Encode(a, write) + Encode(b, write)
    decreases |b|
  {
    if b == [] {
      assert a + b == a;
    } else {
      var b' := b[..|b| - 1];
      assert (a + b)[..|a + b| - 1] == a + b';
      EncodeAppend(a, b', write);
    }
  }

  /** A one-entry list encodes to one record or to none. */
  lemma EncodeSingle<V, D>(e: Entry<V>, write: Entry<V> -> Option<D>)
    ensures Encode([e], write) == if Emits(e, write) then [RecordOf(e, write)] else []
  {
  }

  lemma SplitAround<T>(s: seq<T>, i: nat)
    requires i < |s|
    ensures s == s[..i] + [s[i]] + s[i + 1..]
  {
  }

  /** The payload of `es` split around position `i`. */
  lemma EncodeAround<V, D>(es: seq<Entry<V>>, i: nat, write: Entry<V> -> Option<D>)
    requires i < |es|
    ensures Encode(es, write) == Encode(es[..i], write) + Encode([es[i]], write) + Encode(es[i + 1..], write)
  {
    var pre, post := es[..i], es[i + 1..];
    SplitAround(es, i);
    EncodeAppend(pre + [es[i]], post, write);
    EncodeAppend(pre, [es[i]], write);
  }

  /** An entry that is clean, or whose `write` throws, leaves no record, and
      the entries after it are encoded as if it were not there. */
  lemma DropsNonEmitting<V, D>(es: seq<Entry<V>>, i: nat, write: Entry<V> -> Option<D>)
    requires i < |es| && !Emits(es[i], write)
    ensures Encode(es, write) == Encode(es[..i], write) + Encode(es[i + 1..], write)
  {
    EncodeAround(es, i, write);
    EncodeSingle(es[i], write);
  }

  /** A dirty entry whose `write` succeeds contributes exactly one record,
      holding its name and the data its `write` produced, between the records
      of the entries before it and those after it. */
  lemma KeepsEmitting<V, D>(es: seq<Entry<V>>, i: nat, write: Entry<V> -> Option<D>)
    requires i < |es| && Emits(es[i], write)
    ensures Encode(es, write) ==
      Encode(es[..i], write) + [Record(es[i].name, write(es[i]).value)] + Encode(es[i + 1..], write)
  {
    EncodeAround(es, i, write);
    EncodeSingle(es[i], write);
  }

  /** Membership, both directions: a record is in the payload exactly when
      some dirty entry with a successful `write` produced it. */
  lemma {:induction false} EncodeMembership<V, D>(es: seq<Entry<V>>, write: Entry<V> -> Option<D>, r: Record<D>)
    ensures r in Encode(es, write) <==>
      exists i :: 0 <= i < |es| && es[i].dirty && write(es[i]) == Some(r.data) && es[i].name == r.name
    decreases |es|
  {
    if es != [] {
      var init := es[..|es| - 1];
      EncodeMembership(init, write, r);
      var last := es[|es| - 1];
      if exists i :: 0 <= i < |init| && init[i].dirty && write(init[i]) == Some(r.data) && init[i].name == r.name {
        var i :| 0 <= i < |init| && init[i].dirty && write(init[i]) == Some(r.data) && init[i].name == r.name;
        assert es[i] == init[i];
      }
      if exists i :: 0 <= i < |es| && es[i].dirty && write(es[i]) == Some(r.data) && es[i].name == r.name {
        var i :| 0 <= i < |es| && es[i].dirty && write(es[i]) == Some(r.data) && es[i].name == r.name;
        if i < |init| {
          assert init[i] == es[i];
        }
      }
    }
  }

  /** Every dirty entry is accounted for exactly once: it yields either a
      record or a reported write failure; clean entries yield neither. */
  lemma {:induction false} EveryDirtyEntryAccounted<V, D>(es: seq<Entry<V>>, write: Entry<V> -> Option<D>)
    ensures |Encode(es, write)| + |WriteFailures(es, write)| == CountDirty(es)
    decreases |es|
  {
    if es != [] {
      EveryDirtyEntryAccounted(es[..|es| - 1], write);
    }
  }

  /** A list with no dirty entry encodes to the empty payload. */
  lemma {:induction false} CleanEncodesEmpty<V, D>(es: seq<Entry<V>>, write: Entry<V> -> Option<D>)
    requires forall i :: 0 <= i < |es| ==> !es[i].dirty
    ensures Encode(es, write) == [] && WriteFailures(es, write) == []
    decreases |es|
  {
    if es != [] {
      CleanEncodesEmpty(es[..|es| - 1], write);
    }
  }

  /** `serialize(entries)`: visits the entries in order, skips the clean ones,
      and appends a `(name, data)` record for each dirty entry whose `write`
      succeeds. A throwing `write` is caught: its name is reported in
      `failures` (the source prints the stack trace) and the loop goes on.
      The entries themselves are values here and are left as they were. */
  method Serialize<V, D>(entries: seq<Entry<V>>, codec: EntryCodec<V, D>)
    returns (payload: seq<Record<D>>, failures: seq<string>)
    ensures payload == Encode(entries, codec.write)
    ensures failures == WriteFailures(entries, codec.write)
  {
    payload, failures := [], [];
    for i := 0 to |entries|
      invariant payload == Encode(entries[..i], codec.write)
      invariant failures == WriteFailures(entries[..i], codec.write)
    {
      assert entries[..i + 1][..i] == entries[..i];
      var entry := entries[i];
      if !entry.dirty {
        continue;
      }
      var data := codec.write(entry);
      match data {
        case Some(d) =>
          payload := payload + [Record(entry.name, d)];
        case None =>
          failures := failures + [entry.name];
      }
    }
    assert entries[..|entries|] == entries;
  }
}
