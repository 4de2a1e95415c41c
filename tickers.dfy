/** The level-2 ingestor of one instrument: each order-book update event becomes one MULTI batch
    of sorted-set commands, asks first and then bids, committed by EXEC. */
module Tickers {
  import opened Common
  import opened Cache

  /** One changed price level as the exchange feed delivers it: both fields are decimal texts. */
  datatype Limit = Limit(price: string, size: string)

  /** A level-2 update event for the market `base`/`quote`. */
  datatype Level2Update = Level2Update(base: string, quote: Option<string>, asks: seq<Limit>, bids: seq<Limit>)

  // Throughout, `num` stands for JavaScript's `parseFloat`, which is left abstract.

  // An event's asks go to `Key(base, quote, "ask")`, its bids to `Key(base, quote, "bid")`.

  /** The one command `updateLimit` queues for a level: a zero size removes the member named by
      the level's SIZE text (as `updateLimit` does), any other size upserts member price with score size. */
  function LimitCommand(limit: Limit, name: string, num: string -> real): (c: Command)
    ensures c.key == name
    ensures c.ZRem? <==> num(limit.size) == 0.0
    ensures c.ZRem? ==> c.member == limit.size
    ensures c.ZAdd? ==> c.member == limit.price && c.score == num(limit.size) && c.score != 0.0
  {
    if num(limit.size) == 0.0 then ZRem(name, limit.size) else ZAdd(name, limit.price, num(limit.size))
  }

  /** The commands `forEach` queues for a list of levels, one per level, in list order. */
  function Queue(limits: seq<Limit>, name: string, num: string -> real): (r: seq<Command>)
    ensures |r| == |limits|
    ensures forall i :: 0 <= i < |limits| ==> r[i] == LimitCommand(limits[i], name, num)
  {
    if limits == [] then [] else [LimitCommand(limits[0], name, num)] + Queue(limits[1..], name, num)
  }

  /** The whole batch of one event: every ask to the ask key, then every bid to the bid key. */
  function UpdateCommands(limits: Level2Update, num: string -> real): (r: seq<Command>)
    ensures |r| == |limits.asks| + |limits.bids|
    ensures forall i :: 0 <= i < |limits.asks| ==> r[i] == LimitCommand(limits.asks[i], Key(limits.base, limits.quote, "ask"), num)
    ensures forall j :: 0 <= j < |limits.bids| ==>
      r[|limits.asks| + j] == LimitCommand(limits.bids[j], Key(limits.base, limits.quote, "bid"), num)
    ensures forall c :: c in r ==> c.key == Key(limits.base, limits.quote, "ask") || c.key == Key(limits.base, limits.quote, "bid")
  {
    Queue(limits.asks, Key(limits.base, limits.quote, "ask"), num) + Queue(limits.bids, Key(limits.base, limits.quote, "bid"), num)
  }

  /** `updateLimit`: queue exactly one command for one level on `batch`. */
  method UpdateLimit(batch: Batch, limit: Limit, name: string, num: string -> real)
    modifies batch
    ensures |batch.commands| == |old(batch.commands)| + 1
    ensures batch.commands[..|old(batch.commands)|] == old(batch.commands)
    ensures var c := batch.commands[|old(batch.commands)|];
      && c.key == name
      && (c.ZRem? <==> num(limit.size) == 0.0)
      && (c.ZRem? ==> c.member == limit.size)
      && (c.ZAdd? ==> c.member == limit.price && c.score == num(limit.size))
    ensures batch.commands == old(batch.commands) + [LimitCommand(limit, name, num)]
  {
    if num(limit.size) == 0.0 {
      batch.ZRem(name, limit.size);
    } else {
      batch.ZAdd(name, limit.price, num(limit.size));
    }
  }

  /** `levels.forEach(... updateLimit(batch, level, name))`: queue one command per level, in list order. */
  method UpdateLimits(batch: Batch, levels: seq<Limit>, name: string, num: string -> real)
    modifies batch
    ensures batch.commands == old(batch.commands) + Queue(levels, name, num)
  {
    ghost var queued := Queue(levels, name, num);
    for i := 0 to |levels|
      invariant batch.commands == old(batch.commands) + queued[..i]
    {
      UpdateLimit(batch, levels[i], name, num);
      assert queued[..i + 1] == queued[..i] + [queued[i]];
    }
    assert queued[..|levels|] == queued;
  }

  /** `onLimitsUpdate`: one batch per event, asks then bids in list order, committed at once. */
  method OnLimitsUpdate(limits: Level2Update, redis: Client, num: string -> real)
    requires redis.Valid()
    modifies redis
    ensures redis.Valid()
    ensures redis.sets == ApplyAll(old(redis.sets), UpdateCommands(limits, num))
  {
    ghost var asks := Queue(limits.asks, Key(limits.base, limits.quote, "ask"), num);
    ghost var bids := Queue(limits.bids, Key(limits.base, limits.quote, "bid"), num);
    var batch := redis.Multi();
    UpdateLimits(batch, limits.asks, Key(limits.base, limits.quote, "ask"), num);
    assert batch.commands == asks;
    UpdateLimits(batch, limits.bids, Key(limits.base, limits.quote, "bid"), num);
    assert batch.commands == UpdateCommands(limits, num);
    redis.Exec(batch);
  }

  /** The two keys of one market never coincide, so asks and bids never share a sorted set. */
  lemma SideKeysDiffer(limits: Level2Update)
    ensures Key(limits.base, limits.quote, "ask") != Key(limits.base, limits.quote, "bid")
  {
    var a, b := Key(limits.base, limits.quote, "ask"), Key(limits.base, limits.quote, "bid");
    KeyLayout(limits.base, limits.quote, "ask");
    KeyLayout(limits.base, limits.quote, "bid");
    assert a[|a| - 3..] == "ask" && a[|a| - 1] == 'k';
    assert b[|b| - 3..] == "bid" && b[|b| - 1] == 'd';
  }

  /** An event changes no sorted set other than its market's ask and bid sets. */
  lemma UpdateIsolation(s: Sets, limits: Level2Update, num: string -> real, k: string)
    requires k != Key(limits.base, limits.quote, "ask") && k != Key(limits.base, limits.quote, "bid")
    ensures Levels(ApplyAll(s, UpdateCommands(limits, num)), k) == Levels(s, k)
  {
    var cs := UpdateCommands(limits, num);
    forall i | 0 <= i < |cs| ensures cs[i].key != k {
      assert cs[i] in cs;
    }
    ApplyAllIsolation(s, cs, k);
  }

  /** Each side of the book ends as the in-order application of that side's own levels alone. */
  lemma SidesIndependent(s: Sets, limits: Level2Update, num: string -> real)
    ensures Levels(ApplyAll(s, UpdateCommands(limits, num)), Key(limits.base, limits.quote, "ask"))
         == Levels(ApplyAll(s, Queue(limits.asks, Key(limits.base, limits.quote, "ask"), num)), Key(limits.base, limits.quote, "ask"))
    ensures Levels(ApplyAll(s, UpdateCommands(limits, num)), Key(limits.base, limits.quote, "bid"))
         == Levels(ApplyAll(s, Queue(limits.bids, Key(limits.base, limits.quote, "bid"), num)), Key(limits.base, limits.quote, "bid"))
  {
    SideKeysDiffer(limits);
    var asks := Queue(limits.asks, Key(limits.base, limits.quote, "ask"), num);
    var bids := Queue(limits.bids, Key(limits.base, limits.quote, "bid"), num);
    ApplyAllAppend(s, asks, bids);
    ApplyAllIsolation(ApplyAll(s, asks), bids, Key(limits.base, limits.quote, "ask"));
    ApplyAllKeyIsolationBid(s, asks, bids, Key(limits.base, limits.quote, "bid"));
  }

  /** Helper for the bid side: the ask commands do not touch the bid key, before or after. */
  lemma ApplyAllKeyIsolationBid(s: Sets, asks: seq<Command>, bids: seq<Command>, k: string)
    requires forall i :: 0 <= i < |asks| ==> asks[i].key != k
    ensures Levels(ApplyAll(s, asks + bids), k) == Levels(ApplyAll(s, bids), k)
  {
    ApplyAllAppend(s, asks, bids);
    ApplyAllIsolation(s, asks, k);
    ApplyAllSameKey(ApplyAll(s, asks), s, bids, k);
  }

  /** The result at key `k` depends only on the starting set at `k`. */
  lemma {:induction false} ApplyAllSameKey(s: Sets, t: Sets, cs: seq<Command>, k: string)
    requires Levels(s, k) == Levels(t, k)
    ensures Levels(ApplyAll(s, cs), k) == Levels(ApplyAll(t, cs), k)
    decreases cs
  {
    if cs != [] {
      ApplyAllSameKey(Apply(s, cs[0]), Apply(t, cs[0]), cs[1..], k);
    }
  }

  /** The upsert of a non-zero level sets that price's size and leaves every other price, and every
      other key, as it was; it adds at most the one level. */
  lemma UpsertReplaces(s: Sets, limit: Limit, name: string, num: string -> real)
    requires num(limit.size) != 0.0
    ensures var after := Levels(Apply(s, LimitCommand(limit, name, num)), name);
      && limit.price in after && after[limit.price] == num(limit.size)
      && after.Keys == Levels(s, name).Keys + {limit.price}
      && (forall p :: p in Levels(s, name) && p != limit.price ==> after[p] == Levels(s, name)[p])
  {
  }

  /** A zero-size level removes the member whose text is the level's size, so a resting level at
      another price stays, with its size unchanged. */
  lemma ZeroSizeKeepsPriceLevel(s: Sets, limit: Limit, name: string, num: string -> real)
    requires num(limit.size) == 0.0
    ensures var after := Levels(Apply(s, LimitCommand(limit, name, num)), name);
      && after == Levels(s, name) - {limit.size}
      && (limit.price != limit.size && limit.price in Levels(s, name) ==>
            limit.price in after && after[limit.price] == Levels(s, name)[limit.price])
  {
  }

  /** A concrete case: a zero-size ask at 29000.01 leaves the resting 29000.01 level in place. */
  lemma ZeroSizeExample(num: string -> real)
    requires num("0.00000000") == 0.0
    ensures var s := map["BTC:USDT:ask" := map["29000.01" := 1.5]];
      Apply(s, LimitCommand(Limit("29000.01", "0.00000000"), "BTC:USDT:ask", num)) == s
  {
    var s := map["BTC:USDT:ask" := map["29000.01" := 1.5]];
    assert "0.00000000" !in s["BTC:USDT:ask"];
    assert "29000.01" in s["BTC:USDT:ask"];
    RemoveAbsentIsNoOp(s, "BTC:USDT:ask", "0.00000000");
  }
}
