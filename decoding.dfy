/** The decoding half of the value-container codec: `deserialize` applies a
    payload to the entries a container declares, record by record, isolating
    each failure, and collects the names that applied. */
module Decoding {
  import opened Entries

  /** Why a record did not apply; the source prints these and goes on. */
  datatype DecodeError = UnknownEntryName(name: string) | ReadFailed(name: string)

  /** The state of a decode run after some prefix of the payload: the current
      state of every indexed entry, the names whose `read` succeeded, and the
      errors reported so far, in payload order. */
  datatype Progress<V> = Progress(
    current: map<string, Entry<V>>,
    applied: set<string>,
    errors: seq<DecodeError>)

  /** Every applied name is indexed, and every entry is indexed under its own
      name. */
  predicate Consistent<V>(s: Progress<V>)
  {
    && s.applied <= s.current.Keys
    && forall n :: n in s.current ==> s.current[n].name == n
  }

  /** The name index `deserialize` builds with `HashMap.put` over the declared
      entries in list order: a later entry with a name replaces an earlier one. */
  function IndexOf<V>(es: seq<Entry<V>>): (m: map<string, Entry<V>>)
    ensures m.Keys == Names(es)
    ensures forall n :: n in m ==> m[n].name == n
    decreases |es|
  {
    if es == [] then map[]
    else
      var init, last := es[..|es| - 1], es[|es| - 1];
      assert Names(es) == Names(init) + {last.name} by {
        assert forall i :: 0 <= i < |init| ==> init[i] == es[i];
      }
      IndexOf(init)[last.name := last]
  }

  /** The index holds, for each name, the last declared entry with that name. */
  lemma {:induction false} IndexOfLastWins<V>(es: seq<Entry<V>>, i: nat)
    requires i < |es|
    requires forall j :: i < j < |es| ==> es[j].name != es[i].name
    ensures es[i].name in IndexOf(es) && IndexOf(es)[es[i].name] == es[i]
    decreases |es|
  {
    if i < |es| - 1 {
      var init := es[..|es| - 1];
      assert init[i] == es[i];
      IndexOfLastWins(init, i);
    }
  }

  /** The decode state before the first record. */
  function Start<V>(declared: seq<Entry<V>>): (s: Progress<V>)
    ensures Consistent(s) && s.applied == {} && s.errors == []
  {
    Progress(IndexOf(declared), {}, [])
  }

  /** Apply one record. An unknown name is reported and changes nothing else;
      a known name has its entry `read` the data, and the name joins
      `applied` only when the read does not throw. A throwing read leaves the
      entry as the read left it and is reported. */
  function Step<V, D>(s: Progress<V>, rec: Record<D>, read: (Entry<V>, D) -> ReadOutcome<V>): (t: Progress<V>)
    ensures t.current.Keys == s.current.Keys
    ensures forall n :: n in s.current && n != rec.name ==> t.current[n] == s.current[n]
    ensures s.applied <= t.applied <= s.applied + {rec.name}
    ensures |t.errors| == |s.errors| || |t.errors| == |s.errors| + 1
    ensures t.errors[..|s.errors|] == s.errors
    ensures Consistent(s) ==> Consistent(t)
  {
    if rec.name !in s.current then
      s.(errors := s.errors + [UnknownEntryName(rec.name)])
    else
      var entry := s.current[rec.name];
      match read(entry, rec.data)
      case Read(v) =>
        s.(current := s.current[rec.name := entry.(value := v)], applied := s.applied + {rec.name})
      case Threw(v) =>
        s.(current := s.current[rec.name := entry.(value := v)], errors := s.errors + [ReadFailed(rec.name)])
  }

  /** The names carried by a payload. */
  function PayloadNames<D>(p: seq<Record<D>>): (ns: set<string>)
    ensures forall i :: 0 <= i < |p| ==> p[i].name in ns
  {
    set i | 0 <= i < |p| :: p[i].name
  }

  /** Apply the records of `p` in payload order, starting from `s`. */
  function Run<V, D>(s: Progress<V>, p: seq<Record<D>>, read: (Entry<V>, D) -> ReadOutcome<V>): (t: Progress<V>)
    ensures t.current.Keys == s.current.Keys
    ensures forall n :: n in s.current && n !in PayloadNames(p) ==> t.current[n] == s.current[n]
    ensures s.applied <= t.applied <= s.applied + PayloadNames(p)
    ensures |s.errors| <= |t.errors| <= |s.errors| + |p|
    ensures t.errors[..|s.errors|] == s.errors
    ensures Consistent(s) ==> Consistent(t)
    decreases |p|
  {
    if p == [] then s
    else
      var init := p[..|p| - 1];
      assert PayloadNames(p) == PayloadNames(init) + {p[|p| - 1].name} by {
        assert forall i :: 0 <= i < |init| ==> init[i] == p[i];
      }
      Step(Run(s, init, read), p[|p| - 1], read)
  }

  /** The complete decode of a payload against the declared entries. */
  function Decode<V, D>(declared: seq<Entry<V>>, p: seq<Record<D>>, read: (Entry<V>, D) -> ReadOutcome<V>): (t: Progress<V>)
    ensures Consistent(t)
    ensures t.current.Keys == Names(declared)
    ensures forall n :: n in t.current && n !in PayloadNames(p) ==> t.current[n] == IndexOf(declared)[n]
    ensures t.applied <= Names(declared) * PayloadNames(p)
  {
    Run(Start(declared), p, read)
  }

  /** The `readEntries` calls a finished run makes: one call carrying the
      applied names with their entries' final state, or no call when nothing
      applied. (The source's map holds the entry objects themselves, so later
      reads of an applied entry show through.) */
  function Batches<V>(s: Progress<V>): (b: seq<map<string, Entry<V>>>)
    requires Consistent(s)
    ensures |b| <= 1
    ensures |b| == 1 <==> s.applied != {}
    ensures forall m :: m in b ==> m.Keys == s.applied && forall n :: n in m ==> m[n] == s.current[n]
  {
    if s.applied == {} then [] else [map n | n in s.applied :: s.current[n]]
  }

  /** Whether the `read` of the `i`-th record succeeds, given the state the
      records before it left behind. */
  predicate ReadSucceedsAt<V, D>(declared: seq<Entry<V>>, p: seq<Record<D>>, i: nat, read: (Entry<V>, D) -> ReadOutcome<V>)
    requires i < |p|
  {
    var s := Decode(declared, p[..i], read);
    p[i].name in s.current && read(s.current[p[i].name], p[i].data).Read?
  }

  lemma PrefixOfInit<D>(p: seq<Record<D>>, i: nat)
    requires i < |p| - 1
    ensures p[..|p| - 1][..i] == p[..i] && p[..|p| - 1][i] == p[i]
  {
  }

  /** What one step adds to the applied names. */
  lemma StepApplied<V, D>(s: Progress<V>, rec: Record<D>, read: (Entry<V>, D) -> ReadOutcome<V>, n: string)
    ensures n in Step(s, rec, read).applied <==>
      n in s.applied || (n == rec.name && rec.name in s.current && read(s.current[rec.name], rec.data).Read?)
  {
  }

  /** The errors of a run do not influence what it applies. */
  lemma {:induction false} RunIgnoresErrors<V, D>(s: Progress<V>, e: seq<DecodeError>, p: seq<Record<D>>, read: (Entry<V>, D) -> ReadOutcome<V>)
    ensures Run(s.(errors := e), p, read).current == Run(s, p, read).current
    ensures Run(s.(errors := e), p, read).applied == Run(s, p, read).applied
    decreases |p|
  {
    if p != [] {
      RunIgnoresErrors(s, e, p[..|p| - 1], read);
    }
  }

  /** Running over `a + b` is running over `a`, then over `b`. */
  lemma {:induction false} RunAppend<V, D>(s: Progress<V>, a: seq<Record<D>>, b: seq<Record<D>>, read: (Entry<V>, D) -> ReadOutcome<V>)
    ensures Run(s, a + b, read) == Run(Run(s, a, read), b, read)
    decreases |b|
  {
    if b == [] {
      assert a + b == a;
    } else {
      assert (a + b)[..|a + b| - 1] == a + b[..|b| - 1];
      RunAppend(s, a, b[..|b| - 1], read);
    }
  }

  /** Running over `q + [r]` is running over `q`, then one step. */
  lemma RunSnoc<V, D>(s: Progress<V>, q: seq<Record<D>>, r: Record<D>, read: (Entry<V>, D) -> ReadOutcome<V>)
    ensures Run(s, q + [r], read) == Step(Run(s, q, read), r, read)
  {
  }

  /** An error once reported stays reported. */
  lemma ErrorsKept<V, D>(s: Progress<V>, q: seq<Record<D>>, err: DecodeError, read: (Entry<V>, D) -> ReadOutcome<V>)
    requires err in s.errors
    ensures err in Run(s, q, read).errors
  {
  }

  /** The payload split around its `i`-th record. */
  lemma SplitAt<V, D>(declared: seq<Entry<V>>, p: seq<Record<D>>, i: nat, read: (Entry<V>, D) -> ReadOutcome<V>)
    requires i < |p|
    ensures Decode(declared, p, read) == Run(Step(Decode(declared, p[..i], read), p[i], read), p[i + 1..], read)
    ensures Decode(declared, p[..i] + p[i + 1..], read) == Run(Decode(declared, p[..i], read), p[i + 1..], read)
  {
    var s0 := Start(declared);
    var pre, post := p[..i], p[i + 1..];
    assert p == (pre + [p[i]]) + post;
    RunAppend(s0, pre + [p[i]], post, read);
    RunSnoc(s0, pre, p[i], read);
    RunAppend(s0, pre, post, read);
  }

  /** A record whose `read` succeeds leaves its name applied at the end. */
  lemma AppliedIfReadSucceeds<V, D>(declared: seq<Entry<V>>, p: seq<Record<D>>, i: nat, read: (Entry<V>, D) -> ReadOutcome<V>)
    requires i < |p| && ReadSucceedsAt(declared, p, i, read)
    ensures p[i].name in Decode(declared, p, read).applied
  {
    SplitAt(declared, p, i, read);
    StepApplied(Decode(declared, p[..i], read), p[i], read, p[i].name);
  }

  /** An applied name was applied by some record whose `read` succeeded. */
  lemma {:induction false} ReadSucceededIfApplied<V, D>(declared: seq<Entry<V>>, p: seq<Record<D>>, read: (Entry<V>, D) -> ReadOutcome<V>, n: string)
    requires n in Decode(declared, p, read).applied
    ensures exists i :: 0 <= i < |p| && p[i].name == n && ReadSucceedsAt(declared, p, i, read)
    decreases |p|
  {
    var k := |p| - 1;
    var init := p[..k];
    assert Decode(declared, p, read) == Step(Decode(declared, init, read), p[k], read);
    StepApplied(Decode(declared, init, read), p[k], read, n);
    if n in Decode(declared, init, read).applied {
      ReadSucceededIfApplied(declared, init, read, n);
      var i :| 0 <= i < |init| && init[i].name == n && ReadSucceedsAt(declared, init, i, read);
      PrefixOfInit(p, i);
      assert ReadSucceedsAt(declared, p, i, read);
    } else {
      assert ReadSucceedsAt(declared, p, k, read);
    }
  }

  /** A name is applied exactly when some record with that name reached its
      entry and the entry's `read` did not throw. */
  lemma AppliedExactly<V, D>(declared: seq<Entry<V>>, p: seq<Record<D>>, read: (Entry<V>, D) -> ReadOutcome<V>, n: string)
    ensures n in Decode(declared, p, read).applied <==>
      exists i :: 0 <= i < |p| && p[i].name == n && ReadSucceedsAt(declared, p, i, read)
  {
    if n in Decode(declared, p, read).applied {
      ReadSucceededIfApplied(declared, p, read, n);
    }
    if exists i :: 0 <= i < |p| && p[i].name == n && ReadSucceedsAt(declared, p, i, read) {
      var i :| 0 <= i < |p| && p[i].name == n && ReadSucceedsAt(declared, p, i, read);
      AppliedIfReadSucceeds(declared, p, i, read);
    }
  }

  /** A record naming an undeclared entry is reported as unknown, and the
      decode applies exactly what it would have applied without that record. */
  lemma SkipsUnknown<V, D>(declared: seq<Entry<V>>, p: seq<Record<D>>, i: nat, read: (Entry<V>, D) -> ReadOutcome<V>)
    requires i < |p| && p[i].name !in Names(declared)
    ensures UnknownEntryName(p[i].name) in Decode(declared, p, read).errors
    ensures Decode(declared, p, read).current == Decode(declared, p[..i] + p[i + 1..], read).current
    ensures Decode(declared, p, read).applied == Decode(declared, p[..i] + p[i + 1..], read).applied
  {
    SplitAt(declared, p, i, read);
    var s := Decode(declared, p[..i], read);
    var s' := Step(s, p[i], read);
    assert s' == s.(errors := s.errors + [UnknownEntryName(p[i].name)]);
    RunIgnoresErrors(s, s'.errors, p[i + 1..], read);
    ErrorsKept(s', p[i + 1..], UnknownEntryName(p[i].name), read);
  }

  /** A record whose `read` throws is reported as a read failure of its
      entry; that record applies nothing, and its entry keeps the value the
      throwing `read` left in it. */
  lemma ReportsReadFailure<V, D>(declared: seq<Entry<V>>, p: seq<Record<D>>, i: nat, read: (Entry<V>, D) -> ReadOutcome<V>)
    requires i < |p| && p[i].name in Names(declared) && !ReadSucceedsAt(declared, p, i, read)
    ensures ReadFailed(p[i].name) in Decode(declared, p, read).errors
    ensures var s := Decode(declared, p[..i], read);
      var t := Step(s, p[i], read);
      var e := s.current[p[i].name];
      && t.applied == s.applied
      && t.current[p[i].name] == e.(value := read(e, p[i].data).left)
  {
    SplitAt(declared, p, i, read);
    var s := Decode(declared, p[..i], read);
    var s' := Step(s, p[i], read);
    assert s'.errors == s.errors + [ReadFailed(p[i].name)];
    ErrorsKept(s', p[i + 1..], ReadFailed(p[i].name), read);
  }

  /** A named entry ends up as the last record naming it left it: its name
      and dirty flag stay, and its value is what that record's `read`
      produced, or what a throwing `read` left behind. Later reads of other
      names do not touch it. */
  lemma LastReadWins<V, D>(declared: seq<Entry<V>>, p: seq<Record<D>>, i: nat, read: (Entry<V>, D) -> ReadOutcome<V>)
    requires i < |p| && p[i].name in Names(declared)
    requires forall j :: i < j < |p| ==> p[j].name != p[i].name
    ensures var s := Decode(declared, p[..i], read);
      var e := s.current[p[i].name];
      var o := read(e, p[i].data);
      Decode(declared, p, read).current[p[i].name] == e.(value := if o.Read? then o.value else o.left)
  {
    SplitAt(declared, p, i, read);
    var post := p[i + 1..];
    assert p[i].name !in PayloadNames(post) by {
      forall j | 0 <= j < |post| ensures post[j].name != p[i].name {
        assert post[j] == p[i + 1 + j];
      }
    }
  }

  /** Against a container that declares nothing — what the default
      `getEntries()` materialises — every record is reported unknown and
      nothing applies, so no batch is delivered. */
  lemma {:induction false} NothingDeclaredNothingApplied<V, D>(p: seq<Record<D>>, read: (Entry<V>, D) -> ReadOutcome<V>)
    ensures Decode([], p, read).applied == {}
    ensures Batches(Decode([], p, read)) == []
    ensures Decode([], p, read).errors == seq(|p|, k requires 0 <= k < |p| => UnknownEntryName(p[k].name))
    decreases |p|
  {
    if p != [] {
      var init := p[..|p| - 1];
      NothingDeclaredNothingApplied(init, read);
      assert IndexOf<V>([]) == map[];
    }
  }
}
