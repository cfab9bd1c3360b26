/**
 * The sliding-window script of the rate limiter: a log of admitted requests in a Redis sorted set.
 * Instants are in nanoseconds (a log member is the request's UnixNano), windows and replies in
 * milliseconds.
 *
 * The reference knows no sorted set and no key expiry: it looks at the whole history of admitted
 * instants and counts the distinct ones still inside the window.
 */
module SlidingWindow {
  const MS: int := 1_000_000

  function Ms(t: nat): nat { t / 1_000_000 }

  datatype Reply = Reply(allowed: bool, remaining: int, retryMs: int)

  /** The distinct admitted instants still inside the window that ends at nowMs. */
  function Live(h: seq<nat>, window: nat, nowMs: nat): set<nat> {
    set m | m in h && Ms(m) + window > nowMs
  }

  ghost predicate IsOldest(o: nat, s: set<nat>) {
    o in s && forall m :: m in s ==> Ms(o) <= Ms(m)
  }

  lemma {:induction false} HasOldest(s: set<nat>)
    requires s != {}
    ensures exists o :: IsOldest(o, s)
  {
    var x :| x in s;
    if s == {x} {
      assert IsOldest(x, s);
    } else {
      HasOldest(s - {x});
      var y :| IsOldest(y, s - {x});
      assert forall m :: m in s ==> m == x || m in s - {x};
      assert IsOldest(if Ms(y) < Ms(x) then y else x, s);
    }
  }

  ghost function OldestMs(s: set<nat>): nat
    requires s != {}
  {
    HasOldest(s);
    var o :| IsOldest(o, s);
    Ms(o)
  }

  /** The reply to a request at `now` after the admitted history h, for a key that never expires. */
  ghost function Decide(h: seq<nat>, now: nat, window: nat, limit: int): Reply {
    var live := Live(h, window, Ms(now));
    if |live| < limit then Reply(true, limit - |live| - 1, 0)
    else Reply(false, 0, if live == {} then window else OldestMs(live) + window - Ms(now))
  }

  /** The sorted set of a key, together with its expiry, stands for the history h at instant `clock`. */
  ghost predicate Mirrors(entries: map<nat, nat>, expiresAt: nat, h: seq<nat>, clock: nat, window: nat) {
    && (forall m :: m in entries ==> m in h && entries[m] == Ms(m))
    && (forall m :: m in h ==> m <= clock)
    && (forall m :: m in h && Ms(m) + window > Ms(clock) ==> m in entries)
    && (entries != map[] ==> forall m :: m in h ==> Ms(m) + window <= expiresAt)
  }

  /** ZREMRANGEBYSCORE key 0 top. */
  function RemoveUpTo(entries: map<nat, nat>, top: int): map<nat, nat> {
    map m | m in entries && !(0 <= entries[m] <= top) :: entries[m]
  }

  /** After pruning, exactly the live part of the history is left, whether or not the key was swept. */
  lemma PruneLeavesLive(entries: map<nat, nat>, expiresAt: nat, h: seq<nat>, clock: nat,
                        now: nat, window: nat, swept: bool)
    requires Mirrors(entries, expiresAt, h, clock, window) && clock <= now
    ensures var kept := if swept && expiresAt <= Ms(now) then map[] else entries;
            var pruned := RemoveUpTo(kept, Ms(now) - window);
            && pruned.Keys == Live(h, window, Ms(now)) && |pruned| == |Live(h, window, Ms(now))|
            && Mirrors(pruned, expiresAt, h, now, window)
  {
    var kept := if swept && expiresAt <= Ms(now) then map[] else entries;
    var pruned := RemoveUpTo(kept, Ms(now) - window);
    assert pruned.Keys == Live(h, window, Ms(now));
    assert |pruned| == |pruned.Keys|;
  }

  lemma MirrorsAdmission(entries: map<nat, nat>, expiresAt: nat, h: seq<nat>, now: nat, window: nat)
    requires Mirrors(entries, expiresAt, h, now, window)
    ensures Mirrors(entries[now := Ms(now)], Ms(now) + window, h + [now], now, window)
  {}

  lemma OldestIsLowest(s: set<nat>, m: nat)
    requires IsOldest(m, s)
    ensures OldestMs(s) == Ms(m)
  {
    HasOldest(s);
    var o :| IsOldest(o, s) && OldestMs(s) == Ms(o);
  }

  class Log {
    const window: nat
    const limit: int
    var entries: map<nat, nat>
    var expiresAt: nat
    ghost var history: seq<nat>
    ghost var clock: nat

    ghost predicate Valid()
      reads this
    {
      Mirrors(entries, expiresAt, history, clock, window)
    }

    constructor (window: nat, limit: int, start: nat)
      ensures Valid() && history == [] && clock == start
      ensures this.window == window && this.limit == limit
    {
      this.window, this.limit := window, limit;
      entries, expiresAt, history, clock := map[], 0, [], start;
    }

    /** The key may already be gone; ZREMRANGEBYSCORE then removes what has left the window. */
    method Prune(now: nat, swept: bool)
      requires Valid() && clock <= now
      modifies this`entries, this`clock
      ensures Valid() && clock == now
      ensures entries.Keys == Live(history, window, Ms(now)) && |entries| == |Live(history, window, Ms(now))|
    {
      PruneLeavesLive(entries, expiresAt, history, clock, now, window, swept);
      if swept && expiresAt <= Ms(now) { entries := map[]; }
      entries, clock := RemoveUpTo(entries, Ms(now) - window), now;
    }

    /**
     * One run of the script. `swept` says whether Redis has already reclaimed the key, which it may do
     * at any instant from expiresAt on; the reply promised is that of a key that never expires.
     */
    method Allow(now: nat, swept: bool) returns (r: Reply)
      requires Valid() && clock <= now
      modifies this
      ensures Valid() && clock == now
      ensures r == Decide(old(history), now, window, limit)
      ensures history == if r.allowed then old(history) + [now] else old(history)
    {
      Prune(now, swept);
      var nowMs := Ms(now);
      var count := |entries|;
      if count < limit {
        MirrorsAdmission(entries, expiresAt, history, now, window);
        entries := entries[now := nowMs];
        expiresAt, history := nowMs + window, history + [now];
        return Reply(true, limit - count - 1, 0);
      }
      var retry := window;
      if |entries| > 0 {
        var oldest := ZRangeFirst();
        retry := entries[oldest] + window - nowMs;
      }
      if retry < 0 { retry := 0; }
      return Reply(false, 0, retry);
    }

    /** ZRANGE key 0 0: a member of lowest score. */
    method ZRangeFirst() returns (m: nat)
      requires Valid() && |entries| > 0
      ensures m in entries && entries[m] == OldestMs(entries.Keys)
    {
      assert |entries.Keys| == |entries|;
      var todo := entries.Keys;
      m :| m in todo;
      todo := todo - {m};
      while todo != {}
        invariant todo <= entries.Keys && m in entries
        invariant forall x :: x in entries.Keys - todo ==> entries[m] <= entries[x]
        decreases |todo|
      {
        var x :| x in todo;
        todo := todo - {x};
        if entries[x] < entries[m] { m := x; }
      }
      OldestIsLowest(entries.Keys, m);
    }
  }
}
