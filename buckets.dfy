/** Token buckets: the rule a bucket enforces, the discrete-window refill and consume step,
    the mutable bucket object, and the pool that recycles buckets. */
module Buckets {
  import opened GoInt

  /** Nanoseconds per second: `Rule.duration` is in seconds, timestamps in nanoseconds. */
  const ONE_SECOND: int := 1_000_000_000

  /** At most `limit` accesses per `duration` seconds. Neither field is validated. */
  datatype Rule = Rule(limit: int32, duration: int32)

  /** The two mutable fields of a bucket. `lastSync == 0` marks a bucket never used. */
  datatype BucketState = BucketState(tokens: int32, lastSync: int64)

  /** What one resync produces: the new state, the token count before consumption, and the
      bucket's timestamp after the step. */
  datatype Resynced = Resynced(state: BucketState, remain: int32, stamp: int64)

  const ZERO: BucketState := BucketState(0, 0)

  /** The step divides by the window length only for a used bucket whose clock has advanced;
      with a zero `duration` that division panics in Go. */
  predicate Defined(s: BucketState, rule: Rule, now: int64)
  {
    s.lastSync == 0 || now <= s.lastSync || rule.duration != 0
  }

  /** The number of whole windows between the last refill and `now`, as Go computes it:
      the `int64` difference (which wraps) divided, truncating, by the window length. */
  function Windows(s: BucketState, rule: Rule, now: int64): (w: int)
    requires rule.duration != 0
    ensures 0 < rule.duration && 0 <= Wrap64(now as int - s.lastSync as int) ==> 0 <= w
    ensures 0 < rule.duration && Wrap64(now as int - s.lastSync as int) <= 0 ==> w <= 0
  {
    TruncDiv(Wrap64(now as int - s.lastSync as int), rule.duration as int * ONE_SECOND)
  }

  /** The refill half of resync on a used bucket. Only when the clock has advanced and the
      credit `windows * limit` is positive are tokens added (through Go's `int32`
      conversion and `int32` addition), the sum capped at `limit` and the timestamp moved
      to `now`; otherwise nothing changes. */
  function Refill(s: BucketState, rule: Rule, now: int64): (r: BucketState)
    requires Defined(s, rule, now)
    ensures r == s || (r.lastSync == now && r.tokens <= rule.limit)
    ensures now <= s.lastSync ==> r == s
    ensures r == s <==> (s.lastSync == 0 || now <= s.lastSync || Wrap64(Windows(s, rule, now) * rule.limit as int) <= 0)
  {
    if s.lastSync != 0 && now > s.lastSync then
      var tmp := Wrap64(Windows(s, rule, now) * rule.limit as int);
      if tmp > 0 then
        var sum := Wrap32(s.tokens as int + Wrap32(tmp) as int);
        BucketState(if sum > rule.limit then rule.limit else sum, now)
      else s
    else s
  }

  /** One resync: a never-used bucket starts full at `now`; a used one is refilled. Then one
      token is consumed if there is one, and the count from before consumption is returned. */
  function ResyncStep(s: BucketState, rule: Rule, now: int64): (r: Resynced)
    requires Defined(s, rule, now)
    ensures r.stamp == r.state.lastSync
    ensures r.state.tokens == if r.remain > 0 then r.remain - 1 else r.remain
    ensures s.lastSync == 0 ==> r.remain == rule.limit && r.stamp == now
    ensures s.lastSync != 0 ==> r.remain == Refill(s, rule, now).tokens
    ensures s.lastSync != 0 ==> r.stamp == Refill(s, rule, now).lastSync
  {
    var t := if s.lastSync == 0 then BucketState(rule.limit, now) else Refill(s, rule, now);
    Resynced(BucketState(if t.tokens > 0 then t.tokens - 1 else t.tokens, t.lastSync), t.tokens, t.lastSync)
  }

  /** The counts returned by resyncs of one bucket at the successive clock readings `times`. */
  function Run(s: BucketState, rule: Rule, times: seq<int64>): (rs: seq<int32>)
    requires rule.duration != 0
    ensures |rs| == |times|
    decreases |times|
  {
    if times == [] then []
    else
      var r := ResyncStep(s, rule, times[0]);
      [r.remain] + Run(r.state, rule, times[1..])
  }

  /** The refill adds no overflow of its own: the elapsed time, the credit and the refilled
      count all fit the Go types they are computed in. */
  predicate RefillFits(s: BucketState, rule: Rule, now: int64)
    requires rule.duration != 0
  {
    now as int - s.lastSync as int <= INT64_MAX
    && Windows(s, rule, now) * rule.limit as int <= INT32_MAX
    && s.tokens as int + Windows(s, rule, now) * rule.limit as int <= INT32_MAX
  }

  /** Whole-window refill: once the clock has moved at least one full window past the last
      refill, the count becomes `min(tokens + windows * limit, limit)` and the timestamp
      `now`, so long as that arithmetic does not overflow. */
  lemma RefillFullWindows(s: BucketState, rule: Rule, now: int64)
    requires s.lastSync != 0 && s.lastSync < now
    requires 0 < rule.duration && 0 < rule.limit
    requires RefillFits(s, rule, now)
    requires (now as int - s.lastSync as int) >= rule.duration as int * ONE_SECOND
    ensures Windows(s, rule, now) == (now as int - s.lastSync as int) / (rule.duration as int * ONE_SECOND) >= 1
    ensures Refill(s, rule, now).tokens == Min(s.tokens as int + Windows(s, rule, now) * rule.limit as int, rule.limit as int)
    ensures Refill(s, rule, now).lastSync == now
  {
    var w := Windows(s, rule, now);
    var d := rule.duration as int * ONE_SECOND;
    var e := now as int - s.lastSync as int;
    assert e / d >= 1 by {
      DivAtLeastOne(e, d);
    }
    assert w * rule.limit as int >= rule.limit as int by {
      MulMonotone(w, rule.limit as int);
    }
  }

  lemma DivAtLeastOne(e: int, d: int)
    requires 0 < d <= e
    ensures e / d >= 1
  {
  }

  lemma MulMonotone(w: int, l: int)
    requires w >= 1 && l > 0
    ensures w * l >= l
  {
  }

  /** With a positive window length and a clock that has advanced by `e` nanoseconds
      without `int64` overflow, Go's window count is the floor of `e` over the window. */
  lemma WindowsElapsed(s: BucketState, rule: Rule, now: int64)
    requires 0 < rule.duration && s.lastSync < now
    requires now as int - s.lastSync as int <= INT64_MAX
    ensures Windows(s, rule, now) == (now as int - s.lastSync as int) / (rule.duration as int * ONE_SECOND)
    ensures Windows(s, rule, now) >= 0
  {
    var e := now as int - s.lastSync as int;
    var d := rule.duration as int * ONE_SECOND;
    assert Wrap64(e) == e;
    DivNonNegative(e, d);
  }

  lemma DivSmall(e: nat, d: nat)
    requires e < d
    ensures e / d == 0
  {
  }

  lemma MulNonNegative(a: int, b: int)
    requires 0 <= a && 0 <= b
    ensures 0 <= a * b
  {
  }

  /** No partial credit: while less than a full window has passed since the last refill, or
      when the clock has gone backwards, the refill changes neither field. */
  lemma NoPartialCredit(s: BucketState, rule: Rule, now: int64)
    requires 0 < rule.duration
    requires now as int - s.lastSync as int < rule.duration as int * ONE_SECOND
    ensures Refill(s, rule, now) == s
  {
    if s.lastSync != 0 && now > s.lastSync {
      var d := rule.duration as int * ONE_SECOND;
      var e := now as int - s.lastSync as int;
      WindowsElapsed(s, rule, now);
      DivSmall(e, d);
      assert Windows(s, rule, now) == 0;
      assert Wrap64(Windows(s, rule, now) * rule.limit as int) == 0;
    }
  }

  /** With a non-negative limit and no refill overflow, a resync keeps the count within
      `0 ..= limit`, whether the bucket was fresh or already within those bounds. */
  lemma ResyncKeepsBounds(s: BucketState, rule: Rule, now: int64)
    requires 0 <= rule.limit && 0 < rule.duration
    requires s.lastSync == 0 || (0 <= s.tokens <= rule.limit && RefillFits(s, rule, now))
    ensures 0 <= ResyncStep(s, rule, now).state.tokens <= rule.limit
  {
    if s.lastSync != 0 && now > s.lastSync {
      WindowsElapsed(s, rule, now);
      var w := Windows(s, rule, now);
      var tmp := w * rule.limit as int;
      MulNonNegative(w, rule.limit as int);
      assert Wrap64(tmp) == tmp;
      assert Wrap32(tmp) == tmp;
      assert Wrap32(s.tokens as int + tmp) == s.tokens as int + tmp;
      assert 0 <= Refill(s, rule, now).tokens <= rule.limit;
    }
  }

  /** Go's `int32(tmp)` truncation, shown on one input: a bucket with `limit` 1000 per
      second that has been idle for 2147484 seconds is credited `2147484000` tokens, which
      `int32` turns into a large negative number, so the refilled count is negative and
      the access is denied. */
  lemma LongIdleCreditWraps()
    ensures ResyncStep(BucketState(0, 1), Rule(1000, 1), 1 + 2147484 * 1_000_000_000).remain < 0
  {
    var s := BucketState(0, 1);
    var rule := Rule(1000, 1);
    var now: int64 := 1 + 2147484 * 1_000_000_000;
    assert Windows(s, rule, now) == 2147484;
    assert Wrap64(2147484 * 1000) == 2147484000;
    assert Wrap32(2147484000) == 2147484000 - TWO_32;
  }

  /** A rule with limit 0 denies every access, from a fresh bucket or one that is already
      empty, whatever the clock does. */
  lemma {:induction false} LimitZeroDeniesAll(s: BucketState, rule: Rule, times: seq<int64>)
    requires rule.limit == 0 && rule.duration != 0
    requires s.lastSync == 0 || s.tokens <= 0
    ensures forall i :: 0 <= i < |times| ==> Run(s, rule, times)[i] <= 0
    decreases |times|
  {
    if times != [] {
      var r := ResyncStep(s, rule, times[0]);
      assert r.remain <= 0;
      LimitZeroDeniesAll(r.state, rule, times[1..]);
    }
  }

  /** Within one window of the last refill (or with the clock behind it) no refill happens,
      so successive resyncs return `tokens`, `tokens - 1`, ... down to 0 and then 0. */
  lemma {:induction false} RunWithinWindow(s: BucketState, rule: Rule, times: seq<int64>)
    requires s.lastSync != 0 && 0 <= s.tokens && 0 < rule.duration
    requires forall i :: 0 <= i < |times| ==> times[i] as int < s.lastSync as int + rule.duration as int * ONE_SECOND
    ensures forall i :: 0 <= i < |times| ==> Run(s, rule, times)[i] == Max(s.tokens as int - i, 0)
    decreases |times|
  {
    if times != [] {
      NoPartialCredit(s, rule, times[0]);
      var r := ResyncStep(s, rule, times[0]);
      assert r.state.lastSync == s.lastSync;
      RunWithinWindow(r.state, rule, times[1..]);
      var rs := Run(s, rule, times);
      forall i | 0 <= i < |times|
        ensures rs[i] == Max(s.tokens as int - i, 0)
      {
        if i > 0 {
          assert rs[i] == Run(r.state, rule, times[1..])[i - 1];
        }
      }
    }
  }

  /** A burst against a fresh bucket: if every check falls within the window that the first
      check opens, the `i`-th check sees `max(limit - i, 0)` tokens, so exactly the first
      `limit` checks are granted and every later one is denied. */
  lemma FreshBurst(rule: Rule, first: int64, times: seq<int64>)
    requires first != 0 && 0 < rule.limit && 0 < rule.duration
    requires forall i :: 0 <= i < |times| ==> times[i] as int < first as int + rule.duration as int * ONE_SECOND
    ensures forall i :: 0 <= i <= |times| ==> Run(ZERO, rule, [first] + times)[i] == Max(rule.limit as int - i, 0)
    ensures forall i :: 0 <= i <= |times| ==> (Run(ZERO, rule, [first] + times)[i] > 0 <==> i < rule.limit as int)
  {
    var r := ResyncStep(ZERO, rule, first);
    assert r.state == BucketState(rule.limit - 1, first);
    RunWithinWindow(r.state, rule, times);
    var rs := Run(ZERO, rule, [first] + times);
    assert ([first] + times)[1..] == times;
    forall i | 0 <= i <= |times|
      ensures rs[i] == Max(rule.limit as int - i, 0)
    {
      if i > 0 {
        assert rs[i] == Run(r.state, rule, times)[i - 1];
      }
    }
  }

  /** A bucket: its token count and last-refill timestamp. The per-bucket mutex of the
      original is not modelled; each resync is one atomic step. */
  class Bucket {
    var tokenRemain: int32
    var lastSyncTime: int64

    /** What the pool's `New` function builds. */
    constructor ()
      ensures State() == ZERO
    {
      tokenRemain := 0;
      lastSyncTime := 0;
    }

    function State(): (s: BucketState)
      reads this
    {
      BucketState(tokenRemain, lastSyncTime)
    }

    /** Refill, then consume one token. Returns the count before consumption and the
        timestamp after the step. */
    method Resync(rule: Rule, now: int64) returns (remain: int32, stamp: int64)
      requires Defined(State(), rule, now)
      modifies this
      ensures State() == ResyncStep(old(State()), rule, now).state
      ensures remain == ResyncStep(old(State()), rule, now).remain
      ensures stamp == ResyncStep(old(State()), rule, now).stamp
    {
      if lastSyncTime == 0 {
        tokenRemain := rule.limit;
        lastSyncTime := now;
        if rule.limit > 0 {
          tokenRemain := tokenRemain - 1;
        }
        return rule.limit, lastSyncTime;
      }

      if now > lastSyncTime {
        var tmp := Wrap64(TruncDiv(Wrap64(now as int - lastSyncTime as int), rule.duration as int * ONE_SECOND) * rule.limit as int);
        if tmp > 0 {
          tokenRemain := Wrap32(tokenRemain as int + Wrap32(tmp) as int);
          if tokenRemain > rule.limit {
            tokenRemain := rule.limit;
          }
          lastSyncTime := now;
        }
      }

      var before := tokenRemain;
      if before > 0 {
        tokenRemain := tokenRemain - 1;
      }
      return before, lastSyncTime;
    }

    /** What `Bucket_Put` does to a bucket before pooling it. */
    method Reset()
      modifies this
      ensures State() == ZERO
    {
      lastSyncTime := 0;
      tokenRemain := 0;
    }
  }

  /** No bucket occurs twice. */
  ghost predicate Distinct(bs: seq<Bucket>)
  {
    forall i, j :: 0 <= i < j < |bs| ==> bs[i] != bs[j]
  }

  /** The buckets of a pattern-to-list map. */
  ghost function Members(lists: map<string, seq<Bucket>>): (bs: set<Bucket>)
  {
    set p, i | p in lists && 0 <= i < |lists[p]| :: lists[p][i]
  }

  /** No bucket occurs twice across all the lists of a map, nor twice in one list. */
  ghost predicate Disjoint(lists: map<string, seq<Bucket>>)
  {
    forall p, q, i, j :: p in lists && q in lists && 0 <= i < |lists[p]| && 0 <= j < |lists[q]| && (p != q || i != j) ==>
      lists[p][i] != lists[q][j]
  }

  /** The reuse pool, as a free list. Every pooled bucket is in the zero state and is pooled
      once. */
  class BucketPool {
    var free: seq<Bucket>

    ghost predicate Valid()
      reads this, free
    {
      Distinct(free) && forall j :: 0 <= j < |free| ==> free[j].State() == ZERO
    }

    constructor ()
      ensures Valid() && free == []
    {
      free := [];
    }

    /** `Bucket_Get`: the most recently pooled bucket, or a new zero one if the pool is
        empty. Either way the bucket handed out is in the zero state and no longer pooled. */
    method Get() returns (b: Bucket)
      requires Valid()
      modifies this
      ensures Valid()
      ensures b.State() == ZERO && b !in free
      ensures old(free) == [] ==> fresh(b) && free == []
      ensures old(free) != [] ==> b == old(free)[|old(free)| - 1] && free == old(free)[..|old(free)| - 1]
    {
      if free == [] {
        b := new Bucket();
      } else {
        b := free[|free| - 1];
        free := free[..|free| - 1];
      }
    }

    /** `n` calls of `Get` in a row: `n` distinct zero buckets, taken from the end of the
        free list while it lasts and newly built after that. */
    method GetMany(n: nat) returns (bs: seq<Bucket>)
      requires Valid()
      modifies this
      ensures Valid()
      ensures |bs| == n && Distinct(bs)
      ensures |free| == |old(free)| - Min(n, |old(free)|) && free == old(free)[..|free|]
      ensures forall j :: 0 <= j < n ==>
        bs[j].State() == ZERO && bs[j] !in free && (bs[j] in old(free) || fresh(bs[j]))
      ensures forall j :: 0 <= j < Min(n, |old(free)|) ==> bs[j] == old(free)[|old(free)| - 1 - j]
      ensures forall j :: |old(free)| <= j < n ==> fresh(bs[j])
    {
      bs := [];
      while |bs| < n
        invariant |bs| <= n
        invariant Valid() && Distinct(bs)
        invariant |free| == |old(free)| - Min(|bs|, |old(free)|) && free == old(free)[..|free|]
        invariant forall j :: 0 <= j < |bs| ==>
          bs[j].State() == ZERO && bs[j] !in free && (bs[j] in old(free) || fresh(bs[j]))
        invariant forall j :: 0 <= j < Min(|bs|, |old(free)|) ==> bs[j] == old(free)[|old(free)| - 1 - j]
        invariant forall j :: |old(free)| <= j < |bs| ==> fresh(bs[j])
      {
        var b := Get();
        bs := bs + [b];
      }
    }

    /** `Bucket_Put`: zero both fields (the bucket object, and in the original its mutex,
        is kept) and pool the bucket. */
    method Put(b: Bucket)
      requires Valid() && b !in free
      modifies this, b
      ensures Valid()
      ensures b.State() == ZERO
      ensures free == old(free) + [b]
    {
      b.Reset();
      free := free + [b];
    }

    /** Put every bucket of a list, in list order. */
    method PutAll(bs: seq<Bucket>)
      requires Valid() && Distinct(bs)
      requires forall j :: 0 <= j < |bs| ==> bs[j] !in free
      modifies this, bs
      ensures Valid()
      ensures free == old(free) + bs
      ensures forall j :: 0 <= j < |bs| ==> bs[j].State() == ZERO
    {
      var i := 0;
      while i < |bs|
        invariant 0 <= i <= |bs|
        invariant Valid()
        invariant free == old(free) + bs[..i]
        invariant forall j :: i <= j < |bs| ==> bs[j] !in free
        invariant forall j :: 0 <= j < i ==> bs[j].State() == ZERO
      {
        Put(bs[i]);
        i := i + 1;
      }
    }

    /** Put every bucket of every list of `lists`, one list after another in an unspecified
        order of the patterns. */
    method PutLists(lists: map<string, seq<Bucket>>)
      requires Valid() && Disjoint(lists)
      requires forall j :: 0 <= j < |free| ==> free[j] !in Members(lists)
      modifies this, Members(lists)
      ensures Valid()
      ensures |old(free)| <= |free| && free[..|old(free)|] == old(free)
      ensures forall j :: |old(free)| <= j < |free| ==> free[j] in Members(lists)
      ensures forall p, i :: p in lists && 0 <= i < |lists[p]| ==> lists[p][i].State() == ZERO && lists[p][i] in free
    {
      var rest := lists.Keys;
      while rest != {}
        invariant rest <= lists.Keys
        invariant Valid()
        invariant |old(free)| <= |free| && free[..|old(free)|] == old(free)
        invariant forall j :: |old(free)| <= j < |free| ==> free[j] in Members(lists)
        invariant forall p, i :: p in rest && 0 <= i < |lists[p]| ==> lists[p][i] !in free
        invariant forall p, i :: p in lists && p !in rest && 0 <= i < |lists[p]| ==>
          lists[p][i].State() == ZERO && lists[p][i] in free
        decreases rest
      {
        var p :| p in rest;
        PutAll(lists[p]);
        rest := rest - {p};
      }
    }
  }
}
