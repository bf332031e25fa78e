/** Entries of a value container and the records of the sync payload.

    An entry is a named, editable property. Its kind-specific value encoding
    (`write` into a data tag, `read` back from one) belongs to the entry
    implementation, which this model keeps abstract: an `EntryCodec` supplies
    both, and either may fail, as the Java methods may throw.
 */
module Entries {

  datatype Option<+T> = None | Some(value: T)

  /** One entry as the codec sees it: its synchronisation key, whether it was
      edited locally, and its current value. */
  datatype Entry<V> = Entry(name: string, dirty: bool, value: V)

  /** One element of the payload list: the entry's name and its data tag. */
  datatype Record<D> = Record(name: string, data: D)

  /** What an entry's `read` leaves behind. `Threw` carries the value the entry
      object holds after the exception, since a read may mutate the entry
      before it fails. */
  datatype ReadOutcome<V> = Read(value: V) | Threw(left: V)

  /** The kind-specific inner (de)serialisation of an entry's value.
      `write` yields `None` where the Java `write` throws. */
  datatype EntryCodec<!V, !D> = EntryCodec(
    write: Entry<V> -> Option<D>,
    read: (Entry<V>, D) -> ReadOutcome<V>)

  /** The set of names carried by a list of entries. */
  function Names<V>(es: seq<Entry<V>>): (ns: set<string>)
    ensures forall i :: 0 <= i < |es| ==> es[i].name in ns
    ensures forall n :: n in ns ==> exists i :: 0 <= i < |es| && es[i].name == n
  {
    set i | 0 <= i < |es| :: es[i].name
  }

  /** No two entries share a name. */
  predicate DistinctNames<V>(es: seq<Entry<V>>)
  {
    forall i, j :: 0 <= i < j < |es| ==> es[i].name != es[j].name
  }

  /** Every value written by the codec reads back as itself, whatever entry
      object receives it. */
  ghost predicate RoundTrips<V(!new), D>(codec: EntryCodec<V, D>)
  {
    forall e: Entry<V>, target: Entry<V> ::
      codec.write(e).Some? ==> codec.read(target, codec.write(e).value) == Read(e.value)
  }
}
