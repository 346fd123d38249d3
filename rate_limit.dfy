/** The in-memory rate limiter: a rule table from pattern to an ordered list of rules, a
    registry from caller (filter) key to pattern to one bucket per rule, the access check,
    and one tick of the idle-eviction sweep. The process-wide limiter, last-access map and
    bucket pool of the original become one limiter object that owns the other two. */
module RateLimit {
  import opened GoInt
  import opened Buckets
  import opened StrInt64

  /** A caller not seen for longer than this many seconds is evicted when sampled. */
  const EXPIRE_SECONDS: int := 30 * 60

  type RuleTable = map<string, seq<Rule>>
  type Registry = map<string, map<string, seq<Bucket>>>

  /** The place of a live bucket in the registry. */
  datatype Slot = Slot(key: string, pattern: string, index: nat)

  /** The rules of `pattern`; an unknown pattern has none (a nil slice in Go). */
  function RulesOf(rules: RuleTable, pattern: string): (rs: seq<Rule>)
  {
    if pattern in rules then rules[pattern] else []
  }

  /** The per-pattern map of `key`; an unknown key has an empty one. */
  function InnerAt(filter: Registry, key: string): (inner: map<string, seq<Bucket>>)
  {
    if key in filter then filter[key] else map[]
  }

  /** The bucket list of `(key, pattern)`; a missing entry reads as the empty list. */
  function ListAt(filter: Registry, key: string, pattern: string): (bs: seq<Bucket>)
  {
    if key in filter && pattern in filter[key] then filter[key][pattern] else []
  }

  predicate NonZeroDurations(rs: seq<Rule>)
  {
    forall j :: 0 <= j < |rs| ==> rs[j].duration != 0
  }

  /** The index of the first bucket, in rule order, whose resync finds no token; `|states|`
      if every one finds a token. */
  function FirstDenial(states: seq<BucketState>, rs: seq<Rule>, times: seq<int64>): (d: nat)
    requires |states| <= |rs| && |states| <= |times| && NonZeroDurations(rs)
    ensures d <= |states|
    ensures forall j :: 0 <= j < d ==> ResyncStep(states[j], rs[j], times[j]).remain > 0
    ensures d < |states| ==> ResyncStep(states[d], rs[d], times[d]).remain <= 0
    decreases |states|
  {
    if states == [] then 0
    else if ResyncStep(states[0], rs[0], times[0]).remain <= 0 then 0
    else 1 + FirstDenial(states[1..], rs[1..], times[1..])
  }

  /** The bucket states partway through a check: the first `i` buckets resynced, the rest
      as they were. */
  function Stepped(states: seq<BucketState>, rs: seq<Rule>, times: seq<int64>, i: nat): (r: seq<BucketState>)
    requires |states| <= |rs| && |states| <= |times| && NonZeroDurations(rs) && i <= |states|
    ensures |r| == |states|
    ensures forall j :: 0 <= j < |states| ==> r[j] == if j < i then ResyncStep(states[j], rs[j], times[j]).state else states[j]
  {
    seq(|states|, j requires 0 <= j < |states| =>
      if j < i then ResyncStep(states[j], rs[j], times[j]).state else states[j])
  }

  /** The bucket states after a check: every bucket up to and including the first denying
      one has been resynced (and so charged when it had a token); the rest are untouched. */
  function Charged(states: seq<BucketState>, rs: seq<Rule>, times: seq<int64>): (r: seq<BucketState>)
    requires |states| <= |rs| && |states| <= |times| && NonZeroDurations(rs)
    ensures |r| == |states|
  {
    Stepped(states, rs, times, Min(FirstDenial(states, rs, times) + 1, |states|))
  }

  /** The first denial is at `i` when every earlier bucket has a token and bucket `i`
      (if there is one) has none. */
  lemma {:induction false} DenialAt(states: seq<BucketState>, rs: seq<Rule>, times: seq<int64>, i: nat)
    requires |states| <= |rs| && |states| <= |times| && NonZeroDurations(rs) && i <= |states|
    requires forall j :: 0 <= j < i ==> ResyncStep(states[j], rs[j], times[j]).remain > 0
    requires i < |states| ==> ResyncStep(states[i], rs[i], times[i]).remain <= 0
    ensures FirstDenial(states, rs, times) == i
    decreases i
  {
    if i > 0 {
      assert ResyncStep(states[0], rs[0], times[0]).remain > 0;
      forall j | 0 <= j < i - 1
        ensures ResyncStep(states[1..][j], rs[1..][j], times[1..][j]).remain > 0
      {
        assert states[1..][j] == states[j + 1] && rs[1..][j] == rs[j + 1] && times[1..][j] == times[j + 1];
      }
      DenialAt(states[1..], rs[1..], times[1..], i - 1);
    }
  }

  /** Charge-then-deny: when the check is denied at bucket `d`, every earlier bucket has
      given up one token of its refilled count and every later bucket is as it was. When
      the check is allowed, every bucket has given up one token. */
  lemma ChargedBeforeDenial(states: seq<BucketState>, rs: seq<Rule>, times: seq<int64>)
    requires |states| <= |rs| && |states| <= |times| && NonZeroDurations(rs)
    ensures var d := FirstDenial(states, rs, times);
            var r := Charged(states, rs, times);
            && (forall j :: 0 <= j < d ==> r[j].tokens == ResyncStep(states[j], rs[j], times[j]).remain - 1)
            && (forall j :: d < j < |states| ==> r[j] == states[j])
  {
  }

  function Zeros(n: nat): (r: seq<BucketState>)
    ensures |r| == n && forall j :: 0 <= j < n ==> r[j] == ZERO
  {
    seq(n, _ => ZERO)
  }

  ghost function States(bs: seq<Bucket>): (r: seq<BucketState>)
    reads bs
    ensures |r| == |bs| && forall j :: 0 <= j < |bs| ==> r[j] == bs[j].State()
  {
    seq(|bs|, j requires 0 <= j < |bs| reads bs => bs[j].State())
  }

  /** The callers of `sample` whose last access, plus the idle threshold (an `int64` sum
      in Go), lies before `now`. */
  function Expired(sample: map<string, int64>, now: int64): (r: set<string>)
    ensures r <= sample.Keys
    ensures forall k :: k in sample && sample[k] as int + EXPIRE_SECONDS <= INT64_MAX ==>
      (k in r <==> sample[k] as int + EXPIRE_SECONDS < now as int)
  {
    set k | k in sample && Wrap64(sample[k] as int + EXPIRE_SECONDS) < now
  }

  /** The loop of a sweep tick that collects the idle callers of a sample, in the sample's
      (unspecified) iteration order. */
  method ExpiredKeys(sample: map<string, int64>, now: int64) returns (keys: seq<string>)
    ensures forall k :: k in keys <==> k in sample && Wrap64(sample[k] as int + EXPIRE_SECONDS) < now
    ensures forall i, j :: 0 <= i < j < |keys| ==> keys[i] != keys[j]
    ensures (set k | k in keys) == Expired(sample, now)
  {
    keys := [];
    var rest := sample.Keys;
    while rest != {}
      invariant rest <= sample.Keys
      invariant forall k :: k in keys <==> k in sample && k !in rest && Wrap64(sample[k] as int + EXPIRE_SECONDS) < now
      invariant forall i, j :: 0 <= i < j < |keys| ==> keys[i] != keys[j]
      decreases rest
    {
      var k :| k in rest;
      if Wrap64(sample[k] as int + EXPIRE_SECONDS) < now {
        keys := keys + [k];
      }
      rest := rest - {k};
    }
  }

  /** Resyncing bucket `i` of a check that has resynced the first `i` takes it one step on. */
  lemma SteppedNext(states: seq<BucketState>, rs: seq<Rule>, times: seq<int64>, i: nat, cur: seq<BucketState>)
    requires |states| <= |rs| && |states| <= |times| && NonZeroDurations(rs) && i < |states|
    requires cur == Stepped(states, rs, times, i)
    ensures cur[i := ResyncStep(states[i], rs[i], times[i]).state] == Stepped(states, rs, times, i + 1)
  {
    var next := cur[i := ResyncStep(states[i], rs[i], times[i]).state];
    assert forall j :: 0 <= j < |states| ==> next[j] == Stepped(states, rs, times, i + 1)[j];
  }

  /** A check that has got past the first `i` buckets gets past bucket `i` exactly when its
      resync finds a token. */
  lemma DenialNext(states: seq<BucketState>, rs: seq<Rule>, times: seq<int64>, i: nat)
    requires |states| <= |rs| && |states| <= |times| && NonZeroDurations(rs) && i < |states|
    requires i <= FirstDenial(states, rs, times)
    ensures ResyncStep(states[i], rs[i], times[i]).remain > 0 <==> i < FirstDenial(states, rs, times)
  {
  }

  /** One iteration of the check loop: resync bucket `i` against rule `i` at `times[i]`.
      The check goes on past `i` exactly when that resync found a token. */
  method ResyncAt(bs: seq<Bucket>, rs: seq<Rule>, times: seq<int64>, i: nat, ghost pre: seq<BucketState>) returns (remain: int32)
    requires Distinct(bs) && |bs| <= |rs| && |bs| <= |times| && NonZeroDurations(rs) && i < |bs| == |pre|
    requires States(bs) == Stepped(pre, rs, times, i) && i <= FirstDenial(pre, rs, times)
    modifies bs[i]
    ensures States(bs) == Stepped(pre, rs, times, i + 1)
    ensures remain > 0 <==> i < FirstDenial(pre, rs, times)
  {
    ghost var cur := States(bs);
    var r, _ := bs[i].Resync(rs[i], times[i]);
    remain := r;
    assert forall j :: 0 <= j < |bs| ==> States(bs)[j] == cur[i := bs[i].State()][j];
    SteppedNext(pre, rs, times, i, cur);
    DenialNext(pre, rs, times, i);
  }

  /** The loop of an access check: resync the buckets in rule order and stop at the first
      that had no token. */
  method Charge(bs: seq<Bucket>, rs: seq<Rule>, times: seq<int64>) returns (allowed: bool)
    requires Distinct(bs) && |bs| <= |rs| && |bs| <= |times| && NonZeroDurations(rs)
    modifies bs
    ensures allowed <==> FirstDenial(old(States(bs)), rs, times) == |bs|
    ensures States(bs) == Charged(old(States(bs)), rs, times)
  {
    ghost var pre := States(bs);
    var i := 0;
    while i < |bs|
      invariant 0 <= i <= |bs|
      invariant i <= FirstDenial(pre, rs, times)
      invariant States(bs) == Stepped(pre, rs, times, i)
    {
      var remain := ResyncAt(bs, rs, times, i, pre);
      if remain <= 0 {
        return false;
      }
      i := i + 1;
    }
    return true;
  }

  /** `Charge` on a list of live buckets, none of them pooled: the pool stays valid. */
  method ChargeLive(bs: seq<Bucket>, rs: seq<Rule>, times: seq<int64>, pool: BucketPool) returns (allowed: bool)
    requires Distinct(bs) && |bs| <= |rs| && |bs| <= |times| && NonZeroDurations(rs)
    requires pool.Valid() && forall j :: 0 <= j < |pool.free| ==> pool.free[j] !in bs
    modifies bs
    ensures pool.Valid()
    ensures allowed <==> FirstDenial(old(States(bs)), rs, times) == |bs|
    ensures States(bs) == Charged(old(States(bs)), rs, times)
  {
    allowed := Charge(bs, rs, times);
    forall j | 0 <= j < |pool.free|
      ensures pool.free[j].State() == ZERO
    {
      assert pool.free[j] !in bs;
    }
  }

  /** Every live bucket fills exactly one slot (so no two slots share a bucket), no list
      is longer than the rule list of its pattern, and no pooled bucket is live. */
  ghost predicate Consistent(filter: Registry, rules: RuleTable, owner: map<Bucket, Slot>, free: seq<Bucket>)
  {
    && (forall k, p, i :: 0 <= i < |ListAt(filter, k, p)| ==>
          ListAt(filter, k, p)[i] in owner && owner[ListAt(filter, k, p)[i]] == Slot(k, p, i))
    && (forall k, p :: |ListAt(filter, k, p)| <= |RulesOf(rules, p)|)
    && (forall j :: 0 <= j < |free| ==> free[j] !in owner)
  }

  /** The ownership map after `bs` is installed in the slot `(key, pattern)`. */
  ghost function Assigned(owner: map<Bucket, Slot>, bs: seq<Bucket>, key: string, pattern: string): (owner': map<Bucket, Slot>)
    requires Distinct(bs) && forall j :: 0 <= j < |bs| ==> bs[j] !in owner
    ensures forall j :: 0 <= j < |bs| ==> bs[j] in owner' && owner'[bs[j]] == Slot(key, pattern, j)
    ensures forall b :: b in owner ==> b in owner' && owner'[b] == owner[b]
    ensures forall b :: b in owner' ==> b in owner || b in bs
  {
    owner + map j | 0 <= j < |bs| :: bs[j] := Slot(key, pattern, j)
  }

  /** Installing a list of fresh or formerly pooled buckets, one per rule, in an empty
      slot keeps the registry consistent. */
  lemma InstallConsistent(filter: Registry, rules: RuleTable, owner: map<Bucket, Slot>, free: seq<Bucket>,
                          key: string, pattern: string, bs: seq<Bucket>, free': seq<Bucket>)
    requires Consistent(filter, rules, owner, free)
    requires ListAt(filter, key, pattern) == [] && |bs| == |RulesOf(rules, pattern)|
    requires Distinct(bs) && forall j :: 0 <= j < |bs| ==> bs[j] !in owner && bs[j] !in free'
    requires forall j :: 0 <= j < |free'| ==> free'[j] in free
    ensures Consistent(filter[key := InnerAt(filter, key)[pattern := bs]], rules,
                       Assigned(owner, bs, key, pattern), free')
  {
    var filter' := filter[key := InnerAt(filter, key)[pattern := bs]];
    var owner' := Assigned(owner, bs, key, pattern);
    forall k, p, i | 0 <= i < |ListAt(filter', k, p)|
      ensures ListAt(filter', k, p)[i] in owner' && owner'[ListAt(filter', k, p)[i]] == Slot(k, p, i)
    {
      if k != key || p != pattern {
        assert ListAt(filter', k, p) == ListAt(filter, k, p);
      }
    }
    forall k, p
      ensures |ListAt(filter', k, p)| <= |RulesOf(rules, p)|
    {
      if k != key || p != pattern {
        assert ListAt(filter', k, p) == ListAt(filter, k, p);
      }
    }
    forall j | 0 <= j < |free'|
      ensures free'[j] !in owner'
    {
      assert free'[j] !in owner;
    }
  }

  /** Giving an absent caller an empty per-pattern map changes no slot, so the registry
      stays consistent. */
  lemma EmptyInnerMap(filter: Registry, rules: RuleTable, owner: map<Bucket, Slot>, free: seq<Bucket>, key: string)
    requires key !in filter && Consistent(filter, rules, owner, free)
    ensures Consistent(filter[key := map[]], rules, owner, free)
  {
    var filter' := filter[key := map[]];
    forall k, p, i | 0 <= i < |ListAt(filter', k, p)|
      ensures ListAt(filter', k, p)[i] in owner && owner[ListAt(filter', k, p)[i]] == Slot(k, p, i)
    {
      assert ListAt(filter', k, p) == ListAt(filter, k, p);
    }
    forall k, p
      ensures |ListAt(filter', k, p)| <= |RulesOf(rules, p)|
    {
      assert ListAt(filter', k, p) == ListAt(filter, k, p);
    }
  }

  /** In a consistent registry the list of one slot is free of repeats and shares no
      bucket with any other slot or with the pool. */
  lemma SlotIsolated(filter: Registry, rules: RuleTable, owner: map<Bucket, Slot>, free: seq<Bucket>,
                     key: string, pattern: string)
    requires Consistent(filter, rules, owner, free)
    ensures Distinct(ListAt(filter, key, pattern))
    ensures forall j :: 0 <= j < |free| ==> free[j] !in ListAt(filter, key, pattern)
  {
  }

  /** The lists of one caller: each is free of repeats, and each of its buckets fills its
      own slot. */
  lemma CallerSlots(filter: Registry, rules: RuleTable, owner: map<Bucket, Slot>, free: seq<Bucket>, key: string)
    requires Consistent(filter, rules, owner, free)
    ensures Disjoint(InnerAt(filter, key))
    ensures forall b :: b in Members(InnerAt(filter, key)) ==> b in owner && owner[b].key == key
    ensures forall j :: 0 <= j < |free| ==> free[j] !in Members(InnerAt(filter, key))
  {
    var ee := InnerAt(filter, key);
    forall p | p in ee
      ensures forall i :: 0 <= i < |ee[p]| ==> ee[p][i] in owner && owner[ee[p][i]] == Slot(key, p, i)
    {
      assert ee[p] == ListAt(filter, key, p);
    }
  }

  /** Removing a caller from the registry, dropping its buckets from the ownership map
      and pooling them keeps the registry consistent. */
  lemma EvictConsistent(filter: Registry, rules: RuleTable, owner: map<Bucket, Slot>, free: seq<Bucket>,
                        key: string, free': seq<Bucket>)
    requires Consistent(filter, rules, owner, free)
    requires forall j :: 0 <= j < |free'| ==> free'[j] in free || (free'[j] in owner && owner[free'[j]].key == key)
    ensures Consistent(filter - {key}, rules, map b | b in owner && owner[b].key != key :: owner[b], free')
  {
    var filter' := filter - {key};
    var owner' := map b | b in owner && owner[b].key != key :: owner[b];
    forall k, p, i | 0 <= i < |ListAt(filter', k, p)|
      ensures ListAt(filter', k, p)[i] in owner' && owner'[ListAt(filter', k, p)[i]] == Slot(k, p, i)
    {
      assert ListAt(filter', k, p) == ListAt(filter, k, p);
    }
    forall k, p
      ensures |ListAt(filter', k, p)| <= |RulesOf(rules, p)|
    {
      if k != key {
        assert ListAt(filter', k, p) == ListAt(filter, k, p);
      }
    }
  }

  /** Removes every key of `keys` from the last-access map, one `Delete` at a time: the
      last loop of the sweep. */
  method DeleteAll(m: StringInt64Map, keys: seq<string>)
    modifies m`BM
    ensures m.BM == old(m.BM) - (set k | k in keys)
  {
    var j := 0;
    while j < |keys|
      invariant 0 <= j <= |keys|
      invariant m.BM == old(m.BM) - (set k | k in keys[..j])
    {
      m.Delete(keys[j]);
      assert keys[..j + 1] == keys[..j] + [keys[j]];
      j := j + 1;
    }
    assert keys[..j] == keys;
  }

  /** Every bucket that `filter0` held under a key of `keys` is in the pool. */
  ghost predicate Pooled(filter0: Registry, keys: set<string>, free: seq<Bucket>)
  {
    forall k, p, i :: k in keys && 0 <= i < |ListAt(filter0, k, p)| ==> ListAt(filter0, k, p)[i] in free
  }

  /** The lists of one caller all in the pool means every bucket the caller held is. */
  lemma CallerPooled(filter: Registry, key: string, free: seq<Bucket>)
    requires forall p, i :: p in InnerAt(filter, key) && 0 <= i < |InnerAt(filter, key)[p]| ==>
      InnerAt(filter, key)[p][i] in free
    ensures Pooled(filter, {key}, free)
  {
    forall k, p, i | k in {key} && 0 <= i < |ListAt(filter, k, p)|
      ensures ListAt(filter, k, p)[i] in free
    {
      assert p in InnerAt(filter, key) && ListAt(filter, k, p) == InnerAt(filter, key)[p];
    }
  }

  /** Evicting one more key from `filter0 - done` keeps the earlier keys' buckets pooled,
      since pooling only appends. */
  lemma PooledStep(filter0: Registry, done: set<string>, key: string, free: seq<Bucket>, free': seq<Bucket>)
    requires Pooled(filter0, done, free)
    requires |free| <= |free'| && free'[..|free|] == free
    requires forall p, i :: 0 <= i < |ListAt(filter0 - done, key, p)| ==> ListAt(filter0 - done, key, p)[i] in free'
    ensures Pooled(filter0, done + {key}, free')
  {
    forall k, p, i | k in done + {key} && 0 <= i < |ListAt(filter0, k, p)|
      ensures ListAt(filter0, k, p)[i] in free'
    {
      if k in done {
        var b := ListAt(filter0, k, p)[i];
        var j :| 0 <= j < |free| && free[j] == b;
        assert free'[j] == b;
      } else {
        assert ListAt(filter0 - done, key, p) == ListAt(filter0, k, p);
      }
    }
  }

  class MemRateLimiter {
    var filter: Registry
    var rules: RuleTable
    /** The last-access map (`record_map` in the original). */
    const record: StringInt64Map
    /** The bucket reuse pool. */
    const pool: BucketPool
    /** Which registry slot each live bucket fills. */
    ghost var owner: map<Bucket, Slot>

    /** The registry invariant over this limiter's state, with the pool's own. */
    ghost predicate Valid()
      reads this, pool, pool.free
    {
      pool.Valid() && Consistent(filter, rules, owner, pool.free)
    }

    constructor ()
      ensures Valid() && fresh(record) && fresh(pool)
      ensures filter == map[] && rules == map[] && record.BM == map[] && pool.free == []
    {
      filter := map[];
      rules := map[];
      record := new StringInt64Map();
      pool := new BucketPool();
      owner := map[];
    }

    /** `Rules.AddRule` on the limiter's rule table: append `rule` to the rules of
        `pattern`, creating the entry if needed. Nothing is validated. */
    method AddRule(pattern: string, rule: Rule)
      requires Valid()
      modifies this`rules
      ensures Valid()
      ensures rules == old(rules)[pattern := RulesOf(old(rules), pattern) + [rule]]
    {
      if pattern !in rules {
        rules := rules[pattern := []];
      }
      rules := rules[pattern := rules[pattern] + [rule]];
    }

    /** The bucket list of `(key, pattern)`. An unconfigured pattern gets the empty list and
        the registry is not touched. Otherwise an existing non-empty list is returned as is,
        or one bucket per rule is drawn from the pool and the new list installed. */
    method GetBuckets(key: string, pattern: string) returns (bs: seq<Bucket>)
      requires Valid()
      modifies this`filter, this`owner, pool
      ensures Valid()
      ensures RulesOf(rules, pattern) == [] ==>
        bs == [] && filter == old(filter) && owner == old(owner) && pool.free == old(pool.free)
      ensures RulesOf(rules, pattern) != [] ==>
        bs != [] && filter == old(filter)[key := InnerAt(old(filter), key)[pattern := bs]]
      ensures ListAt(old(filter), key, pattern) != [] ==>
        && bs == ListAt(old(filter), key, pattern) && filter == old(filter)
        && owner == old(owner) && pool.free == old(pool.free)
      ensures RulesOf(rules, pattern) != [] && ListAt(old(filter), key, pattern) == [] ==>
        && |bs| == |RulesOf(rules, pattern)|
        && (forall j :: 0 <= j < |bs| ==> bs[j].State() == ZERO && (bs[j] in old(pool.free) || fresh(bs[j])))
        && pool.free == old(pool.free)[..|old(pool.free)| - Min(|bs|, |old(pool.free)|)]
      ensures RulesOf(rules, pattern) != [] ==> ListAt(filter, key, pattern) == bs
      ensures States(bs) == if ListAt(old(filter), key, pattern) == [] then Zeros(|bs|) else old(States(ListAt(filter, key, pattern)))
    {
      var n := |RulesOf(rules, pattern)|;
      if n == 0 {
        return [];
      }
      if key !in filter {
        EmptyInnerMap(filter, rules, owner, pool.free, key);
        filter := filter[key := map[]];
      }
      bs := ListAt(filter, key, pattern);
      if |bs| == 0 {
        ghost var filter1 := filter;
        bs := Install(key, pattern);
        assert InnerAt(filter1, key) == InnerAt(old(filter), key);
        assert filter == old(filter)[key := InnerAt(old(filter), key)[pattern := bs]];
      } else {
        assert key in old(filter) && pattern in old(filter)[key] && bs == old(filter)[key][pattern];
        assert InnerAt(old(filter), key)[pattern := bs] == old(filter)[key];
        assert filter == old(filter) == old(filter)[key := InnerAt(old(filter), key)[pattern := bs]];
      }
    }

    /** The creation branch of `getBuckets`: one bucket per rule of `pattern`, each from the
        pool (or new), appended to the empty slot `(key, pattern)`. */
    method Install(key: string, pattern: string) returns (bs: seq<Bucket>)
      requires Valid() && ListAt(filter, key, pattern) == []
      modifies this`filter, this`owner, pool
      ensures Valid()
      ensures filter == old(filter)[key := InnerAt(old(filter), key)[pattern := bs]]
      ensures |bs| == |RulesOf(rules, pattern)|
      ensures forall j :: 0 <= j < |bs| ==> bs[j].State() == ZERO && (bs[j] in old(pool.free) || fresh(bs[j]))
      ensures pool.free == old(pool.free)[..|old(pool.free)| - Min(|bs|, |old(pool.free)|)]
    {
      ghost var free0 := pool.free;
      bs := pool.GetMany(|RulesOf(rules, pattern)|);
      InstallConsistent(filter, rules, owner, free0, key, pattern, bs, pool.free);
      filter := filter[key := InnerAt(filter, key)[pattern := bs]];
      owner := Assigned(owner, bs, key, pattern);
    }

    /** The access check of a caller on a pattern. With no rules it allows and records
        nothing. Otherwise it records `nowSec` as the caller's last access, then resyncs the
        buckets in rule order, bucket `i` at the clock reading `times[i]` (nanoseconds),
        denying at the first without a token; the buckets before that one keep the charge. An
        existing list is used as it is; a new one comes from the pool. `pre` is the state the
        buckets had before the check: zero for a list this check created. No other bucket
        changes. */
    method TokenAccess(key: string, pattern: string, nowSec: int64, times: seq<int64>)
      returns (allowed: bool, ghost bs: seq<Bucket>, ghost pre: seq<BucketState>)
      requires Valid()
      requires NonZeroDurations(RulesOf(rules, pattern)) && |RulesOf(rules, pattern)| <= |times|
      modifies this`filter, this`owner, pool, record, owner.Keys, pool.free
      ensures Valid()
      ensures RulesOf(rules, pattern) == [] ==>
        allowed && bs == [] && filter == old(filter) && record.BM == old(record.BM) && pool.free == old(pool.free)
      ensures RulesOf(rules, pattern) != [] ==>
        && filter == old(filter)[key := InnerAt(old(filter), key)[pattern := bs]]
        && record.BM == old(record.BM)[key := nowSec]
        && 0 < |pre| == |bs| <= |RulesOf(rules, pattern)|
        && (allowed <==> FirstDenial(pre, RulesOf(rules, pattern), times) == |pre|)
        && States(bs) == Charged(pre, RulesOf(rules, pattern), times)
      ensures ListAt(old(filter), key, pattern) != [] ==>
        bs == ListAt(old(filter), key, pattern) && filter == old(filter) && pool.free == old(pool.free)
      ensures RulesOf(rules, pattern) != [] && ListAt(old(filter), key, pattern) == [] ==>
        && |bs| == |RulesOf(rules, pattern)|
        && (forall j :: 0 <= j < |bs| ==> bs[j] in old(pool.free) || fresh(bs[j]))
        && pool.free == old(pool.free)[..|old(pool.free)| - Min(|bs|, |old(pool.free)|)]
      ensures pre == if ListAt(old(filter), key, pattern) == [] then Zeros(|bs|) else old(States(ListAt(filter, key, pattern)))
      ensures forall b :: b in old(owner) && b !in bs ==> b.State() == old(b.State())
    {
      var buckets := GetBuckets(key, pattern);
      bs, pre := buckets, States(buckets);
      if |buckets| == 0 {
        return true, bs, pre;
      }
      allowed := RecordAndCharge(key, pattern, buckets, nowSec, times);
    }

    /** The part of an access check after the lookup of the caller's non-empty bucket list
        `bs`: record `nowSec` as the last access, then charge the buckets at the clock
        readings `times`. */
    method RecordAndCharge(key: string, pattern: string, bs: seq<Bucket>, nowSec: int64, times: seq<int64>) returns (allowed: bool)
      requires Valid() && NonZeroDurations(RulesOf(rules, pattern)) && |RulesOf(rules, pattern)| <= |times|
      requires ListAt(filter, key, pattern) == bs
      modifies record, bs
      ensures Valid()
      ensures record.BM == old(record.BM)[key := nowSec]
      ensures |bs| <= |RulesOf(rules, pattern)|
      ensures allowed <==> FirstDenial(old(States(bs)), RulesOf(rules, pattern), times) == |bs|
      ensures States(bs) == Charged(old(States(bs)), RulesOf(rules, pattern), times)
    {
      SlotIsolated(filter, rules, owner, pool.free, key, pattern);
      var _ := record.Set(key, nowSec);
      allowed := ChargeLive(bs, RulesOf(rules, pattern), times, pool);
    }

    /** Evict one caller: pool every bucket under `key` (zeroing it) and remove the key's
        whole entry from the registry. Every other caller's buckets are untouched. */
    method Evict(key: string)
      requires Valid()
      modifies this`filter, this`owner, pool, owner.Keys
      ensures Valid()
      ensures filter == old(filter) - {key}
      ensures |old(pool.free)| <= |pool.free| && pool.free[..|old(pool.free)|] == old(pool.free)
      ensures Pooled(old(filter), {key}, pool.free)
      ensures forall b :: b in old(owner) && old(owner)[b].key != key ==>
        b in owner && owner[b] == old(owner)[b] && b.State() == old(b.State())
      ensures owner.Keys <= old(owner).Keys
    {
      ghost var owner0 := owner;
      ghost var free0 := pool.free;
      var ee := InnerAt(filter, key);
      CallerSlots(filter, rules, owner, pool.free, key);
      pool.PutLists(ee);
      CallerPooled(filter, key, pool.free);
      filter := filter - {key};
      owner := map b | b in owner && owner[b].key != key :: owner[b];
      EvictConsistent(old(filter), rules, owner0, free0, key, pool.free);
    }

    /** Evicts every caller in `keys`, one after the other: the locked block of the sweep,
        entered only when there is a key to evict. */
    method EvictAll(keys: seq<string>)
      requires Valid()
      modifies this`filter, this`owner, pool, owner.Keys
      ensures Valid()
      ensures filter == old(filter) - (set k | k in keys)
      ensures |old(pool.free)| <= |pool.free| && pool.free[..|old(pool.free)|] == old(pool.free)
      ensures Pooled(old(filter), (set k | k in keys), pool.free)
      ensures forall b :: b in old(owner) && old(owner)[b].key !in keys ==> b.State() == old(b.State())
    {
      if |keys| == 0 {
        return;
      }
      ghost var done: set<string> := {};
      var i := 0;
      while i < |keys|
        invariant 0 <= i <= |keys|
        invariant forall k :: k in done <==> k in keys[..i]
        invariant Valid()
        invariant owner.Keys <= old(owner).Keys
        invariant filter == old(filter) - done
        invariant |old(pool.free)| <= |pool.free| && pool.free[..|old(pool.free)|] == old(pool.free)
        invariant Pooled(old(filter), done, pool.free)
        invariant forall b :: b in old(owner) && old(owner)[b].key !in done ==>
          b in owner && owner[b] == old(owner)[b] && b.State() == old(b.State())
      {
        ghost var free1 := pool.free;
        Evict(keys[i]);
        PooledStep(old(filter), done, keys[i], free1, pool.free);
        done := done + {keys[i]};
        assert keys[..i + 1] == keys[..i] + [keys[i]];
        i := i + 1;
      }
      assert keys[..i] == keys;
      assert done == set k | k in keys;
    }

    /** One tick of the idle sweep at `nowSec`: sample the last-access map (`checkNum + 1`
        entries, see `StringInt64Map.SomeItems`), and evict every sampled caller idle for
        longer than the threshold from the registry and from the last-access map. The
        sample is returned as a ghost result since which entries it holds is unspecified. */
    method SweepTick(nowSec: int64, checkNum: int64) returns (ghost sample: map<string, int64>, ghost evicted: set<string>)
      requires Valid()
      modifies this`filter, this`owner, pool, owner.Keys, record
      ensures Valid()
      ensures IsSubMap(sample, old(record.BM)) && |sample| == SampleSize(|old(record.BM)|, checkNum)
      ensures evicted == Expired(sample, nowSec)
      ensures filter == old(filter) - evicted
      ensures record.BM == old(record.BM) - evicted
      ensures |old(pool.free)| <= |pool.free| && pool.free[..|old(pool.free)|] == old(pool.free)
      ensures Pooled(old(filter), evicted, pool.free)
      ensures forall b :: b in old(owner) && old(owner)[b].key !in evicted ==> b.State() == old(b.State())
    {
      var recordItems := record.SomeItems(checkNum);
      sample := recordItems;
      var deleteKeys := ExpiredKeys(recordItems, nowSec);
      evicted := set k | k in deleteKeys;
      EvictAll(deleteKeys);
      DeleteAll(record, deleteKeys);
    }
  }
}
