/** The Redis cache as the ingestors and the drainer use it: one sorted set per key, each mapping a
    member (a price text) to a score (a size), changed through MULTI/EXEC batches and read whole. */
module Cache {
  import opened Common

  /** One member of a sorted set with its score, as `zRangeWithScores` reports it. */
  datatype Entry = Entry(value: string, score: real)

  /** A queued sorted-set command: `ZADD key score member` or `ZREM key member`. */
  datatype Command =
    | ZAdd(key: string, member: string, score: real)
    | ZRem(key: string, member: string)

  /** The whole cache: key to sorted set. */
  type Sets = map<string, map<string, real>>

  /** Redis never keeps an empty sorted set: removing the last member deletes the key. */
  ghost predicate NoEmptySets(s: Sets)
  {
    forall k :: k in s ==> s[k] != map[]
  }

  /** The sorted set at `key`; a key that does not exist reads as an empty set. */
  function Levels(s: Sets, key: string): map<string, real>
  {
    if key in s then s[key] else map[]
  }

  /** The score of `member` in the set at `key`, if it is there. */
  function Lookup(s: Sets, key: string, member: string): Option<real>
  {
    if member in Levels(s, key) then Some(Levels(s, key)[member]) else None
  }

  /** One command's effect. ZADD creates the key when needed and replaces the member's score;
      ZREM deletes the member and, with the last member, the key. */
  function Apply(s: Sets, c: Command): (r: Sets)
    ensures forall k :: k != c.key ==> Levels(r, k) == Levels(s, k)
    ensures c.ZAdd? ==> Levels(r, c.key) == Levels(s, c.key)[c.member := c.score]
    ensures c.ZRem? ==> Levels(r, c.key) == Levels(s, c.key) - {c.member}
    ensures NoEmptySets(s) ==> NoEmptySets(r)
  {
    match c
    case ZAdd(k, m, x) =>
      var set' := Levels(s, k)[m := x];
      assert m in set';
      s[k := set']
    case ZRem(k, m) =>
      var rest := Levels(s, k) - {m};
      if rest == map[] then s - {k} else s[k := rest]
  }

  /** The commands of one batch applied in queue order. */
  function ApplyAll(s: Sets, cs: seq<Command>): (r: Sets)
    ensures NoEmptySets(s) ==> NoEmptySets(r)
    decreases cs
  {
    if cs == [] then s else ApplyAll(Apply(s, cs[0]), cs[1..])
  }

  /** Running two batches in turn is running their concatenation: application is in order. */
  lemma {:induction false} ApplyAllAppend(s: Sets, a: seq<Command>, b: seq<Command>)
    ensures ApplyAll(s, a + b) == ApplyAll(ApplyAll(s, a), b)
    decreases a
  {
    if a == [] {
      assert a + b == b;
    } else {
      assert (a + b)[1..] == a[1..] + b;
      ApplyAllAppend(Apply(s, a[0]), a[1..], b);
    }
  }

  /** A batch leaves every key it does not name exactly as it was. */
  lemma {:induction false} ApplyAllIsolation(s: Sets, cs: seq<Command>, k: string)
    requires forall i :: 0 <= i < |cs| ==> cs[i].key != k
    ensures Levels(ApplyAll(s, cs), k) == Levels(s, k)
    decreases cs
  {
    if cs != [] {
      ApplyAllIsolation(Apply(s, cs[0]), cs[1..], k);
    }
  }

  /** The net effect of a batch on one member: the last command naming it wins (ZADD sets its
      score, ZREM removes it); a member no command names keeps `prior`. */
  function LastWrite(cs: seq<Command>, k: string, m: string, prior: Option<real>): Option<real>
  {
    if cs == [] then prior
    else
      var c := cs[|cs| - 1];
      if c.key == k && c.member == m then (if c.ZAdd? then Some(c.score) else None)
      else LastWrite(cs[..|cs| - 1], k, m, prior)
  }

  /** Applying a batch in order leaves each member at its net effect. */
  lemma {:induction false} ApplyAllNetEffect(s: Sets, cs: seq<Command>, k: string, m: string)
    ensures Lookup(ApplyAll(s, cs), k, m) == LastWrite(cs, k, m, Lookup(s, k, m))
  {
    if cs != [] {
      var n := |cs| - 1;
      ApplyAllAppend(s, cs[..n], [cs[n]]);
      assert cs[..n] + [cs[n]] == cs;
      ApplyAllNetEffect(s, cs[..n], k, m);
      var mid := ApplyAll(s, cs[..n]);
      assert ApplyAll(mid, [cs[n]]) == Apply(mid, cs[n]);
    }
  }

  /** Removing a member that is not there changes nothing. */
  lemma RemoveAbsentIsNoOp(s: Sets, k: string, m: string)
    requires NoEmptySets(s)
    requires m !in Levels(s, k)
    ensures Apply(s, ZRem(k, m)) == s
  {
    if k in s {
      assert s[k] - {m} == s[k];
    }
  }

  /** A snapshot of a sorted set: each member once, with its score, and no other entries. */
  predicate IsSnapshotOf(es: seq<Entry>, levels: map<string, real>)
  {
    && (forall i, j :: 0 <= i < j < |es| ==> es[i].value != es[j].value)
    && (forall i :: 0 <= i < |es| ==> es[i].value in levels && levels[es[i].value] == es[i].score)
    && (forall m :: m in levels ==> exists i :: 0 <= i < |es| && es[i] == Entry(m, levels[m]))
  }

  /** A sequence without repetitions has as many elements as the set of its elements. */
  lemma {:induction false} DistinctCardinality(vs: seq<string>)
    requires forall i, j :: 0 <= i < j < |vs| ==> vs[i] != vs[j]
    ensures |set v | v in vs| == |vs|
  {
    if vs != [] {
      var n := |vs| - 1;
      DistinctCardinality(vs[..n]);
      assert (set v | v in vs) == (set v | v in vs[..n]) + {vs[n]};
      assert vs[n] !in (set v | v in vs[..n]);
    }
  }

  /** A snapshot has exactly one entry per level. */
  lemma SnapshotSize(es: seq<Entry>, levels: map<string, real>)
    requires IsSnapshotOf(es, levels)
    ensures |es| == |levels|
  {
    var vs := seq(|es|, i requires 0 <= i < |es| => es[i].value);
    DistinctCardinality(vs);
    assert (set v | v in vs) == levels.Keys by {
      forall m | m in levels ensures m in vs {
        var i :| 0 <= i < |es| && es[i] == Entry(m, levels[m]);
        assert vs[i] == m;
      }
    }
  }

  /** A MULTI batch: commands queued on it take effect only at EXEC. */
  class Batch {
    var commands: seq<Command>

    constructor ()
      ensures commands == []
    {
      commands := [];
    }

    method ZAdd(key: string, member: string, score: real)
      modifies this
      ensures commands == old(commands) + [Command.ZAdd(key, member, score)]
    {
      commands := commands + [Command.ZAdd(key, member, score)];
    }

    method ZRem(key: string, member: string)
      modifies this
      ensures commands == old(commands) + [Command.ZRem(key, member)]
    {
      commands := commands + [Command.ZRem(key, member)];
    }
  }

  /** The Redis client, reduced to the sorted sets it reaches. */
  class Client {
    var sets: Sets

    ghost predicate Valid()
      reads this
    {
      NoEmptySets(sets)
    }

    constructor ()
      ensures Valid() && sets == map[]
    {
      sets := map[];
    }

    /** `redis.multi()`: a fresh, empty batch. */
    method Multi() returns (b: Batch)
      ensures fresh(b) && b.commands == []
    {
      b := new Batch();
    }

    /** `batch.exec()`: the queued commands take effect together, in queue order. */
    method Exec(b: Batch)
      requires Valid()
      modifies this
      ensures Valid()
      ensures sets == ApplyAll(old(sets), b.commands)
    {
      sets := ApplyAll(sets, b.commands);
    }

    /** `zRangeWithScores(key, 0, -1)`: every member of the set at `key` with its score. Redis
        reports them by ascending score; this model promises no particular order. */
    method RangeWithScores(key: string) returns (entries: seq<Entry>)
      ensures IsSnapshotOf(entries, Levels(sets, key))
    {
      var levels := Levels(sets, key);
      var rest := levels;
      entries := [];
      while rest != map[]
        invariant rest.Keys <= levels.Keys
        invariant forall m :: m in rest ==> rest[m] == levels[m]
        invariant forall i, j :: 0 <= i < j < |entries| ==> entries[i].value != entries[j].value
        invariant forall i :: 0 <= i < |entries| ==>
          entries[i].value in levels && entries[i].value !in rest && levels[entries[i].value] == entries[i].score
        invariant forall m :: m in levels ==>
          m in rest || exists i :: 0 <= i < |entries| && entries[i] == Entry(m, levels[m])
        decreases rest.Keys
      {
        var m :| m in rest;
        ghost var before := entries;
        entries := entries + [Entry(m, rest[m])];
        assert entries[|entries| - 1] == Entry(m, levels[m]);
        assert forall i :: 0 <= i < |before| ==> entries[i] == before[i];
        rest := rest - {m};
      }
    }
  }
}
