/** The two halves of the codec together: what one side serialises, the
    other side's deserialise applies. */
module Sync {
  import opened Entries
  import opened Encoding
  import opened Decoding

  /** The names of the entries that `serialize` emits a record for. */
  function EmittedNames<V, D>(src: seq<Entry<V>>, write: Entry<V> -> Option<D>): (ns: set<string>)
    ensures ns <= Names(src)
  {
    set i | 0 <= i < |src| && Emits(src[i], write) :: src[i].name
  }

  lemma EmittedNamesSnoc<V, D>(src: seq<Entry<V>>, write: Entry<V> -> Option<D>)
    requires src != []
    ensures var init, last := src[..|src| - 1], src[|src| - 1];
      EmittedNames(src, write) == EmittedNames(init, write) + (if Emits(last, write) then {last.name} else {})
  {
  }

  /** The values one decode step leaves: those of the earlier entries carry
      over, and the last entry's value is added when it was emitted. */
  lemma CarryValues<V, D>(init: seq<Entry<V>>, last: Entry<V>, write: Entry<V> -> Option<D>,
                          cur: map<string, Entry<V>>, cur': map<string, Entry<V>>)
    requires forall i :: 0 <= i < |init| && Emits(init[i], write) ==>
      init[i].name in cur && cur[init[i].name].value == init[i].value
    requires forall i :: 0 <= i < |init| ==> init[i].name != last.name
    requires forall n :: n in cur && n != last.name ==> n in cur' && cur'[n] == cur[n]
    requires Emits(last, write) ==> last.name in cur' && cur'[last.name].value == last.value
    ensures forall i :: 0 <= i < |init + [last]| && Emits((init + [last])[i], write) ==>
      (init + [last])[i].name in cur' && cur'[(init + [last])[i].name].value == (init + [last])[i].value
  {
  }

  /** The sender's conditions carry over to every prefix of its entries. */
  lemma PrefixConditions<V, D>(src: seq<Entry<V>>, declared: seq<Entry<V>>, write: Entry<V> -> Option<D>)
    requires src != [] && DistinctNames(src)
    requires forall i :: 0 <= i < |src| && Emits(src[i], write) ==> src[i].name in Names(declared)
    ensures var init, last := src[..|src| - 1], src[|src| - 1];
      && src == init + [last]
      && DistinctNames(init)
      && (forall i :: 0 <= i < |init| ==> init[i].name != last.name)
      && (forall i :: 0 <= i < |init| && Emits(init[i], write) ==> init[i].name in Names(declared))
  {
  }

  /** Decoding the payload of `src` is decoding that of its prefix, then
      applying the last entry's record, if any, which always reads back. */
  lemma DecodeSnoc<V(!new), D>(src: seq<Entry<V>>, declared: seq<Entry<V>>, codec: EntryCodec<V, D>)
    requires RoundTrips(codec)
    requires src != [] && (Emits(src[|src| - 1], codec.write) ==> src[|src| - 1].name in Names(declared))
    ensures var init, last := src[..|src| - 1], src[|src| - 1];
      var s := Decode(declared, Encode(init, codec.write), codec.read);
      var t := Decode(declared, Encode(src, codec.write), codec.read);
      if Emits(last, codec.write) then
        last.name in s.current &&
        t == s.(current := s.current[last.name := s.current[last.name].(value := last.value)],
                applied := s.applied + {last.name})
      else t == s
  {
    var w, rd := codec.write, codec.read;
    var init, last := src[..|src| - 1], src[|src| - 1];
    if Emits(last, w) {
      var r := RecordOf(last, w);
      assert Encode(src, w) == Encode(init, w) + [r];
      RunSnoc(Start(declared), Encode(init, w), r, rd);
    } else {
      var q := Encode(init, w);
      assert Encode(src, w) == q + [];
      assert q + [] == q;
    }
  }

  /** Round trip. When the entry codec reads back what it wrote, the sender's
      entries have distinct names and the receiver declares every emitted one,
      decoding the sender's payload reports no error, applies exactly the
      emitted names, gives each of them the sender's value, and leaves every
      other declared entry as the receiver declared it. */
  lemma {:induction false} EncodeThenDecode<V(!new), D>(src: seq<Entry<V>>, declared: seq<Entry<V>>, codec: EntryCodec<V, D>)
    requires RoundTrips(codec)
    requires DistinctNames(src)
    requires forall i :: 0 <= i < |src| && Emits(src[i], codec.write) ==> src[i].name in Names(declared)
    ensures var t := Decode(declared, Encode(src, codec.write), codec.read);
      && t.errors == []
      && t.applied == EmittedNames(src, codec.write)
      && (forall i :: 0 <= i < |src| && Emits(src[i], codec.write) ==> t.current[src[i].name].value == src[i].value)
      && (forall n :: n in t.current && n !in t.applied ==> t.current[n] == IndexOf(declared)[n])
    decreases |src|
  {
    if src != [] {
      var w, rd := codec.write, codec.read;
      var init, last := src[..|src| - 1], src[|src| - 1];
      PrefixConditions(src, declared, w);
      EncodeThenDecode(init, declared, codec);
      EmittedNamesSnoc(src, w);
      DecodeSnoc(src, declared, codec);
      var s := Decode(declared, Encode(init, w), rd);
      var t := Decode(declared, Encode(src, w), rd);
      CarryValues(init, last, w, s.current, t.current);
    }
  }

  /** With such a codec and receiver, a payload of `k` distinct emitted entries
      is delivered as one batch of exactly those `k` names. */
  lemma OneBatchOfEmittedNames<V(!new), D>(src: seq<Entry<V>>, declared: seq<Entry<V>>, codec: EntryCodec<V, D>)
    requires RoundTrips(codec)
    requires DistinctNames(src)
    requires forall i :: 0 <= i < |src| && Emits(src[i], codec.write) ==> src[i].name in Names(declared)
    ensures var b := Batches(Decode(declared, Encode(src, codec.write), codec.read));
      && (|b| == 1 <==> EmittedNames(src, codec.write) != {})
      && forall m :: m in b ==> m.Keys == EmittedNames(src, codec.write)
  {
    EncodeThenDecode(src, declared, codec);
  }
}
