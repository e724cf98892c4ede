/** The per-source rate limiter of the XDP program: a fixed one-second window that
    opens with a packet and counts packets and bytes, dropped ones included.

    `ip_stats_map` is modelled as one CPU's map without eviction. */
module RateLimit {
  import opened Bits
  import opened Wrappers

  const WINDOW: nat := 1_000_000_000
  const MAX_LEN: nat := 65535

  /** Ethernet, IPv4 and the shortest transport header: xdp_prog_main drops anything
      shorter before it gets here. */
  const MIN_LEN: nat := 42

  datatype Stats = Stats(pps: u64, bps: u64, nextUpdate: u64)

  datatype Limits = Limits(pps: u64, bps: u64)

  datatype Arrival = Arrival(ip: u32, len: u16, now: u64)

  type Table = map<u32, Stats>

  /** Keys 0 and 1 of config_map, with the built-in defaults. */
  function Configured(config: map<u32, u64>): Limits {
    Limits(if 0 in config then config[0] else 10000, if 1 in config then config[1] else 10 * 1024 * 1024)
  }

  /** One packet against the record of its source. */
  function Account(entry: Option<Stats>, len: u16, now: u64): Stats {
    match entry
    case None => Stats(1, len, (now + WINDOW) % U64)
    case Some(s) =>
      if now > s.nextUpdate then Stats(1, len, (now + WINDOW) % U64)
      else Stats((s.pps + 1) % U64, (s.bps + len) % U64, s.nextUpdate)
  }

  /** A source seen for the first time is not compared with the limits. */
  predicate Drops(lim: Limits, entry: Option<Stats>, len: u16, now: u64) {
    entry.Some? && (Account(entry, len, now).pps > lim.pps || Account(entry, len, now).bps > lim.bps)
  }

  /** The verdict under the limits config_map holds. */
  predicate Limited(config: map<u32, u64>, entry: Option<Stats>, len: u16, now: u64) {
    Drops(Configured(config), entry, len, now)
  }

  function Lookup(t: Table, ip: u32): Option<Stats> {
    if ip in t then Some(t[ip]) else None
  }

  function Record(t: Table, p: Arrival): Table {
    t[p.ip := Account(Lookup(t, p.ip), p.len, p.now)]
  }

  class Limiter {
    var stats: Table
    var config: map<u32, u64>

    constructor (config: map<u32, u64>)
      ensures stats == map[] && this.config == config
    {
      stats := map[];
      this.config := config;
    }

    /** check_rate_limit: 1 to drop, 0 to pass. */
    method CheckRateLimit(ip: u32, pktLen: u16, now: u64) returns (drop: int)
      modifies this`stats
      ensures stats == Record(old(stats), Arrival(ip, pktLen, now))
      ensures drop == if Limited(config, Lookup(old(stats), ip), pktLen, now) then 1 else 0
      ensures ip in stats
      ensures drop == 1 <==> (
                && ip in old(stats)
                && (stats[ip].pps > (if 0 in config then config[0] else 10000) ||
                    stats[ip].bps > (if 1 in config then config[1] else 10485760)))
    {
      var maxPps := if 0 in config then config[0] else 10000;
      var maxBps := if 1 in config then config[1] else 10 * 1024 * 1024;
      if ip in stats {
        var s := stats[ip];
        if now > s.nextUpdate {
          s := Stats(1, pktLen, (now + WINDOW) % U64);
        } else {
          s := Stats((s.pps + 1) % U64, (s.bps + pktLen) % U64, s.nextUpdate);
        }
        stats := stats[ip := s];
        if s.pps > maxPps || s.bps > maxBps {
          return 1;
        }
      } else {
        stats := stats[ip := Stats(1, pktLen, (now + WINDOW) % U64)];
      }
      return 0;
    }
  }

  // ------------------------------------------------------------------ packet streams

  /** The table after a stream of packets from any sources. */
  function After(packets: seq<Arrival>): Table {
    if packets == [] then map[] else Record(After(packets[..|packets| - 1]), packets[|packets| - 1])
  }

  function EntryAt(packets: seq<Arrival>, ip: u32, k: nat): Option<Stats>
    requires k <= |packets|
  {
    Lookup(After(packets[..k]), ip)
  }

  /** Whether the k-th packet of the stream passes. */
  predicate Passes(lim: Limits, packets: seq<Arrival>, k: nat)
    requires k < |packets|
  {
    !Drops(lim, EntryAt(packets, packets[k].ip, k), packets[k].len, packets[k].now)
  }

  /** Whether the k-th packet opens a window for `ip`. */
  predicate Opens(packets: seq<Arrival>, ip: u32, k: nat)
    requires k < |packets|
  {
    packets[k].ip == ip && match EntryAt(packets, ip, k) case None => true case Some(s) => packets[k].now > s.nextUpdate
  }

  /** Packets, bytes and windows of one source among the packets i, ..., j - 1. */
  function PassedIn(lim: Limits, packets: seq<Arrival>, ip: u32, i: nat, j: nat): nat
    requires i <= j <= |packets|
  {
    if i == j then 0
    else PassedIn(lim, packets, ip, i, j - 1) +
         if packets[j - 1].ip == ip && Passes(lim, packets, j - 1) then 1 else 0
  }

  function BytesIn(lim: Limits, packets: seq<Arrival>, ip: u32, i: nat, j: nat): nat
    requires i <= j <= |packets|
  {
    if i == j then 0
    else BytesIn(lim, packets, ip, i, j - 1) +
         if packets[j - 1].ip == ip && Passes(lim, packets, j - 1) then packets[j - 1].len else 0
  }

  function WindowsIn(packets: seq<Arrival>, ip: u32, i: nat, j: nat): nat
    requires i <= j <= |packets|
  {
    if i == j then 0
    else WindowsIn(packets, ip, i, j - 1) + if Opens(packets, ip, j - 1) then 1 else 0
  }

  /** Whether the counters of a record take one more packet without wrapping. */
  predicate Fits(entry: Option<Stats>, p: Arrival) {
    entry.Some? && p.now <= entry.value.nextUpdate ==>
      entry.value.pps + 1 < U64 && entry.value.bps + p.len < U64
  }

  ghost predicate Clocked(packets: seq<Arrival>) {
    && (forall k :: 0 <= k < |packets| ==> packets[k].now + WINDOW < U64)
    && (forall k, l :: 0 <= k <= l < |packets| ==> packets[k].now <= packets[l].now)
  }

  /** A stream a clock can produce in which no 64-bit counter wraps. */
  ghost predicate Timed(packets: seq<Arrival>) {
    Clocked(packets) && forall k :: 0 <= k < |packets| ==> FitsAt(packets, k)
  }

  predicate FitsAt(packets: seq<Arrival>, k: nat)
    requires k < |packets|
  {
    Fits(EntryAt(packets, packets[k].ip, k), packets[k])
  }

  ghost predicate NoneShorter(packets: seq<Arrival>, m: nat) {
    forall p <- packets :: p.len >= m
  }

  lemma EntryStep(packets: seq<Arrival>, ip: u32, k: nat)
    requires k < |packets|
    ensures EntryAt(packets, ip, k + 1) ==
            if packets[k].ip == ip then Some(Account(EntryAt(packets, ip, k), packets[k].len, packets[k].now))
            else EntryAt(packets, ip, k)
  {
    assert packets[..k + 1][..k] == packets[..k];
  }

  lemma {:induction false} CountersFit(packets: seq<Arrival>, ip: u32, k: nat)
    requires Clocked(packets) && MAX_LEN * |packets| < U64 && k <= |packets|
    ensures var e := EntryAt(packets, ip, k);
            e.Some? ==> 1 <= e.value.pps <= k && e.value.bps <= MAX_LEN * k
  {
    if k > 0 {
      CountersFit(packets, ip, k - 1);
      EntryStep(packets, ip, k - 1);
      AccountFits(EntryAt(packets, ip, k - 1), packets[k - 1].len, packets[k - 1].now, k - 1);
    }
  }

  lemma AccountFits(e: Option<Stats>, len: u16, now: u64, k: nat)
    requires MAX_LEN * (k + 1) < U64
    requires e.Some? ==> 1 <= e.value.pps <= k && e.value.bps <= MAX_LEN * k
    ensures var s := Account(e, len, now);
            1 <= s.pps <= k + 1 && s.bps <= MAX_LEN * (k + 1)
  {
  }

  /** No counter wraps in the first 2.8 * 10^14 packets, whatever they are. */
  lemma ShortStreamsAreTimed(packets: seq<Arrival>)
    requires Clocked(packets) && MAX_LEN * |packets| < U64
    ensures Timed(packets)
  {
    forall k | 0 <= k < |packets| ensures FitsAt(packets, k) {
      CountersFit(packets, packets[k].ip, k);
    }
  }

  /** One packet, with the wrap-arounds out of the way. */
  lemma Accounted(lim: Limits, packets: seq<Arrival>, ip: u32, k: nat)
    requires Timed(packets) && k < |packets| && packets[k].ip == ip
    ensures var (e, e', p) := (EntryAt(packets, ip, k), EntryAt(packets, ip, k + 1), packets[k]);
            && e'.Some?
            && (Opens(packets, ip, k) ==> e'.value == Stats(1, p.len, p.now + WINDOW))
            && (!Opens(packets, ip, k) ==>
                  e.Some? && e'.value.pps == e.value.pps + 1 && e'.value.bps == e.value.bps + p.len &&
                  e'.value.nextUpdate == e.value.nextUpdate)
            && (Passes(lim, packets, k) <==> e.None? || (e'.value.pps <= lim.pps && e'.value.bps <= lim.bps))
  {
    EntryStep(packets, ip, k);
    assert FitsAt(packets, k) && packets[k].now + WINDOW < U64;
  }

  /** A record has counted a packet, and at least `m` bytes for each it counted. */
  lemma {:induction false} RecordIsReal(packets: seq<Arrival>, ip: u32, m: nat, k: nat)
    requires Timed(packets) && NoneShorter(packets, m) && k <= |packets|
    ensures var e := EntryAt(packets, ip, k); e.Some? ==> Real(e.value, m)
  {
    if k > 0 {
      RecordIsReal(packets, ip, m, k - 1);
      EntryStep(packets, ip, k - 1);
      if packets[k - 1].ip == ip {
        assert FitsAt(packets, k - 1) && packets[k - 1] in packets;
        AccountIsReal(EntryAt(packets, ip, k - 1), packets[k - 1], m);
      }
    }
  }

  predicate Real(s: Stats, m: nat) { s.pps >= 1 && s.bps >= Budget(m, s.pps) }

  lemma AccountIsReal(e: Option<Stats>, p: Arrival, m: nat)
    requires Fits(e, p) && p.len >= m && (e.Some? ==> Real(e.value, m))
    ensures Real(Account(e, p.len, p.now), m)
  {
    assert Budget(m, 1) == Budget(m, 0) + m;
    assert e.Some? ==> Budget(m, e.value.pps + 1) == Budget(m, e.value.pps) + m;
  }

  // --------------------------------------------------------------------- the bound

  function AtLeast(x: nat, floor: nat): nat { if x < floor then floor else x }

  function AtMost(x: nat, ceiling: nat): nat { if x > ceiling then ceiling else x }

  /** A limit for each of `w` windows. */
  function Budget(limit: nat, w: nat): nat {
    if w == 0 then 0 else Budget(limit, w - 1) + limit
  }

  lemma {:induction false} BudgetIsProduct(limit: nat, w: nat)
    ensures Budget(limit, w) == limit * w
  {
    if w > 0 { BudgetIsProduct(limit, w - 1); }
  }

  /** How many packets of at least `m` bytes a window can pass: what both limits allow,
      but one even if they allow none, since a new source is not compared with them. */
  function PerWindow(lim: Limits, m: nat): (n: nat)
    ensures n >= 1
  {
    AtLeast(if m == 0 then lim.pps else AtMost(lim.pps, lim.bps / m), 1)
  }

  lemma Difference(m: int, a: int, b: int)
    ensures m * a == m * b + m * (a - b)
  {
  }

  lemma QuotientAtMost(m: nat, n: nat, b: nat)
    requires m > 0 && m * n <= b
    ensures n <= b / m
  {
    var q := b / m;
    assert b == m * q + b % m;
    Difference(m, n, q);
    ProductAtLeast(m, n - q);
  }

  lemma WithinWindow(lim: Limits, m: nat, pps: nat)
    requires pps <= lim.pps && Budget(m, pps) <= lim.bps
    ensures pps <= PerWindow(lim, m)
  {
    if m > 0 {
      BudgetIsProduct(m, pps);
      QuotientAtMost(m, pps, lim.bps);
    }
  }

  /** Windows of one source open more than a second apart. */
  lemma {:induction false} WindowsAreSpaced(packets: seq<Arrival>, ip: u32, i: nat, j: nat)
    requires Timed(packets) && i < j <= |packets|
    ensures var w := WindowsIn(packets, ip, i, j);
            w > 0 ==>
              && EntryAt(packets, ip, j).Some?
              && EntryAt(packets, ip, j).value.nextUpdate >= packets[i].now + (w - 1) * (WINDOW + 1) + WINDOW
              && packets[j - 1].now >= packets[i].now + (w - 1) * (WINDOW + 1)
  {
    EntryStep(packets, ip, j - 1);
    if j - 1 > i {
      WindowsAreSpaced(packets, ip, i, j - 1);
      assert packets[i].now <= packets[j - 2].now <= packets[j - 1].now;
    } else {
      assert WindowsIn(packets, ip, i, i) == 0;
    }
  }

  /** Packets passed since the i-th: fewer than a limit from the window that was open,
      a limit from each window opened and closed since, and those of the open one. */
  lemma {:induction false} PassedByWindows(lim: Limits, packets: seq<Arrival>, ip: u32, m: nat, i: nat, j: nat)
    requires Timed(packets) && NoneShorter(packets, m) && i <= j <= |packets|
    ensures var e := EntryAt(packets, ip, j);
            var (limit, w, c) := (PerWindow(lim, m), WindowsIn(packets, ip, i, j), PassedIn(lim, packets, ip, i, j));
            if e.None? then c == 0 else c + 1 <= Budget(limit, w) + AtMost(e.value.pps, limit)
  {
    if i < j {
      PassedByWindows(lim, packets, ip, m, i, j - 1);
      if packets[j - 1].ip == ip {
        PassedOnce(lim, packets, ip, m, i, j);
      } else {
        EntryStep(packets, ip, j - 1);
      }
    } else {
      RecordIsReal(packets, ip, m, j);
    }
  }

  /** The step: one packet of the source. */
  lemma PassedOnce(lim: Limits, packets: seq<Arrival>, ip: u32, m: nat, i: nat, j: nat)
    requires Timed(packets) && NoneShorter(packets, m) && i < j <= |packets| && packets[j - 1].ip == ip
    requires var e := EntryAt(packets, ip, j - 1);
             var (limit, w) := (PerWindow(lim, m), WindowsIn(packets, ip, i, j - 1));
             var c := PassedIn(lim, packets, ip, i, j - 1);
             if e.None? then c == 0 else c + 1 <= Budget(limit, w) + AtMost(e.value.pps, limit)
    ensures var e := EntryAt(packets, ip, j);
            var (limit, w, c) := (PerWindow(lim, m), WindowsIn(packets, ip, i, j), PassedIn(lim, packets, ip, i, j));
            e.Some? && c + 1 <= Budget(limit, w) + AtMost(e.value.pps, limit)
  {
    Accounted(lim, packets, ip, j - 1);
    RecordIsReal(packets, ip, m, j);
    var e', w := EntryAt(packets, ip, j).value, WindowsIn(packets, ip, i, j - 1);
    if Passes(lim, packets, j - 1) && EntryAt(packets, ip, j - 1).Some? {
      WithinWindow(lim, m, e'.pps);
    }
    assert WindowsIn(packets, ip, i, j) == if Opens(packets, ip, j - 1) then w + 1 else w;
    assert Budget(PerWindow(lim, m), w + 1) == Budget(PerWindow(lim, m), w) + PerWindow(lim, m);
  }

  lemma {:induction false} BytesByWindows(lim: Limits, packets: seq<Arrival>, ip: u32, i: nat, j: nat)
    requires Timed(packets) && i <= j <= |packets|
    ensures var e := EntryAt(packets, ip, j);
            var (limit, w) := (AtLeast(lim.bps, MAX_LEN), WindowsIn(packets, ip, i, j));
            var b := BytesIn(lim, packets, ip, i, j);
            if e.None? then b == 0 else b <= Budget(limit, w) + AtMost(e.value.bps, limit)
  {
    if i < j {
      BytesByWindows(lim, packets, ip, i, j - 1);
      if packets[j - 1].ip == ip {
        BytesOnce(lim, packets, ip, i, j);
      } else {
        EntryStep(packets, ip, j - 1);
      }
    }
  }

  lemma BytesOnce(lim: Limits, packets: seq<Arrival>, ip: u32, i: nat, j: nat)
    requires Timed(packets) && i < j <= |packets| && packets[j - 1].ip == ip
    requires var e := EntryAt(packets, ip, j - 1);
             var (limit, w) := (AtLeast(lim.bps, MAX_LEN), WindowsIn(packets, ip, i, j - 1));
             var b := BytesIn(lim, packets, ip, i, j - 1);
             if e.None? then b == 0 else b <= Budget(limit, w) + AtMost(e.value.bps, limit)
    ensures var e := EntryAt(packets, ip, j);
            var (limit, w) := (AtLeast(lim.bps, MAX_LEN), WindowsIn(packets, ip, i, j));
            e.Some? && BytesIn(lim, packets, ip, i, j) <= Budget(limit, w) + AtMost(e.value.bps, limit)
  {
    Accounted(lim, packets, ip, j - 1);
    var limit, w := AtLeast(lim.bps, MAX_LEN), WindowsIn(packets, ip, i, j - 1);
    assert WindowsIn(packets, ip, i, j) == if Opens(packets, ip, j - 1) then w + 1 else w;
    assert Budget(limit, w + 1) == Budget(limit, w) + limit;
  }

  /** The rate bound over any interval, for any limits and any mix of sources whose packets
      have at least `m` bytes: between the i-th and the (j-1)-th packet, T nanoseconds
      apart, fewer than PerWindow * (T / (10^9 + 1) + 2) packets of one source pass, and at
      most max_bps * (T / (10^9 + 1) + 2) bytes, where a byte limit below one full packet
      counts as one. */
  lemma RateBound(lim: Limits, packets: seq<Arrival>, ip: u32, m: nat, i: nat, j: nat)
    requires Timed(packets) && NoneShorter(packets, m) && i < j <= |packets|
    ensures var windows := (packets[j - 1].now - packets[i].now) / (WINDOW + 1) + 2;
            && PassedIn(lim, packets, ip, i, j) < PerWindow(lim, m) * windows
            && BytesIn(lim, packets, ip, i, j) <= AtLeast(lim.bps, MAX_LEN) * windows
  {
    var T := packets[j - 1].now - packets[i].now;
    var q, w := T / (WINDOW + 1), WindowsIn(packets, ip, i, j);
    FewWindows(packets, ip, i, j);
    PassedByWindows(lim, packets, ip, m, i, j);
    BytesByWindows(lim, packets, ip, i, j);
    BudgetIsProduct(PerWindow(lim, m), w);
    BudgetIsProduct(AtLeast(lim.bps, MAX_LEN), w);
    Scaled(PerWindow(lim, m), w, q + 1);
    Scaled(AtLeast(lim.bps, MAX_LEN), w, q + 1);
  }

  lemma FewWindows(packets: seq<Arrival>, ip: u32, i: nat, j: nat)
    requires Timed(packets) && i < j <= |packets|
    ensures var T := packets[j - 1].now - packets[i].now;
            T >= 0 && WindowsIn(packets, ip, i, j) <= T / (WINDOW + 1) + 1
  {
    var T, w := packets[j - 1].now - packets[i].now, WindowsIn(packets, ip, i, j);
    WindowsAreSpaced(packets, ip, i, j);
    if w > 0 {
      assert T >= (w - 1) * (WINDOW + 1);
      QuotientAtLeast(T, w - 1);
    }
  }

  lemma QuotientAtLeast(t: nat, n: nat)
    requires t >= n * (WINDOW + 1)
    ensures t / (WINDOW + 1) >= n
  {
    var q, r := t / (WINDOW + 1), t % (WINDOW + 1);
    assert t == q * (WINDOW + 1) + r;
  }

  lemma Scaled(limit: nat, w: nat, v: nat)
    requires w <= v
    ensures limit * w + limit <= limit * (v + 1)
    ensures limit >= 1 ==> limit * (v + 1) >= 1
  {
    assert limit * (v + 1) == limit * w + limit * (v - w) + limit;
    assert limit * (v - w) >= 0;
  }

  // ---------------------------------------------------------------- the bound is sharp

  function Burst(ip: u32, len: u16, now: u64, n: nat): (b: seq<Arrival>)
    ensures |b| == n && forall k :: 0 <= k < n ==> b[k] == Arrival(ip, len, now)
  {
    seq(n, _ => Arrival(ip, len, now))
  }

  /** Inside an open window, and below both limits, a whole burst passes. */
  lemma {:induction false} BurstPasses(lim: Limits, packets: seq<Arrival>, p: Arrival, s: Stats, i: nat, n: nat, j: nat)
    requires j == i + n <= |packets|
    requires forall k :: i <= k < j ==> packets[k] == p
    requires EntryAt(packets, p.ip, i) == Some(s) && p.now <= s.nextUpdate
    requires s.pps + n <= lim.pps && s.bps + Budget(p.len, n) <= lim.bps
    ensures Shows(EntryAt(packets, p.ip, j), s.pps + n, s.bps + Budget(p.len, n), s.nextUpdate)
    ensures PassedIn(lim, packets, p.ip, i, j) == n
  {
    if n > 0 {
      assert Budget(p.len, n) == Budget(p.len, n - 1) + p.len;
      BurstPasses(lim, packets, p, s, i, n - 1, j - 1);
      BurstGrows(lim, packets, p, s, i, n, j);
    }
  }

  lemma BurstGrows(lim: Limits, packets: seq<Arrival>, p: Arrival, s: Stats, i: nat, n: nat, j: nat)
    requires n > 0 && j == i + n <= |packets| && packets[j - 1] == p && p.now <= s.nextUpdate
    requires s.pps + n <= lim.pps && s.bps + Budget(p.len, n) <= lim.bps
    requires Shows(EntryAt(packets, p.ip, j - 1), s.pps + (n - 1), s.bps + Budget(p.len, n - 1), s.nextUpdate)
    requires PassedIn(lim, packets, p.ip, i, j - 1) == n - 1
    ensures Shows(EntryAt(packets, p.ip, j), s.pps + n, s.bps + Budget(p.len, n), s.nextUpdate)
    ensures PassedIn(lim, packets, p.ip, i, j) == n
  {
    assert Budget(p.len, n) == Budget(p.len, n - 1) + p.len;
    OneMorePasses(lim, packets, p, EntryAt(packets, p.ip, j - 1).value, i, j - 1);
  }

  lemma OneMorePasses(lim: Limits, packets: seq<Arrival>, p: Arrival, s: Stats, i: nat, k: nat)
    requires i <= k < |packets| && packets[k] == p
    requires EntryAt(packets, p.ip, k) == Some(s) && p.now <= s.nextUpdate
    requires s.pps + 1 <= lim.pps && s.bps + p.len <= lim.bps
    ensures EntryAt(packets, p.ip, k + 1) == Some(Stats(s.pps + 1, s.bps + p.len, s.nextUpdate))
    ensures PassedIn(lim, packets, p.ip, i, k + 1) == PassedIn(lim, packets, p.ip, i, k) + 1
  {
    EntryStep(packets, p.ip, k);
    OnePasses(lim, s, p);
    assert Passes(lim, packets, k);
  }

  lemma OnePasses(lim: Limits, s: Stats, p: Arrival)
    requires p.now <= s.nextUpdate && s.pps + 1 <= lim.pps && s.bps + p.len <= lim.bps
    ensures Account(Some(s), p.len, p.now) == Stats(s.pps + 1, s.bps + p.len, s.nextUpdate)
    ensures !Drops(lim, Some(s), p.len, p.now) && Fits(Some(s), p)
  {
  }

  lemma {:induction false} PassedInSplit(lim: Limits, packets: seq<Arrival>, ip: u32, i: nat, m: nat, j: nat)
    requires i <= m <= j <= |packets|
    ensures PassedIn(lim, packets, ip, i, j) == PassedIn(lim, packets, ip, i, m) + PassedIn(lim, packets, ip, m, j)
  {
    if m < j { PassedInSplit(lim, packets, ip, i, m, j - 1); }
  }

  /** The worst stream: a window opens at time 0, n - 1 packets arrive in its last
      nanosecond and n in the next, which belongs to a new window. */
  function Straddle(ip: u32, len: u16, n: nat): (packets: seq<Arrival>)
    requires n >= 1
    ensures |packets| == 2 * n
    ensures NoneShorter(packets, len)
  {
    Burst(ip, len, 0, 1) + Burst(ip, len, WINDOW, n - 1) + Burst(ip, len, WINDOW + 1, n)
  }

  ghost predicate Straddles(packets: seq<Arrival>, ip: u32, len: u16, n: nat) {
    && n >= 1 && |packets| == 2 * n
    && packets[0] == Arrival(ip, len, 0)
    && (forall k :: 1 <= k < n ==> packets[k] == Arrival(ip, len, WINDOW))
    && (forall k :: n <= k < 2 * n ==> packets[k] == Arrival(ip, len, WINDOW + 1))
  }

  lemma StraddleShape(ip: u32, len: u16, n: nat)
    requires n >= 1
    ensures Straddles(Straddle(ip, len, n), ip, len, n) && Clocked(Straddle(ip, len, n))
  {
  }

  predicate Shows(entry: Option<Stats>, pps: nat, bps: nat, nextUpdate: nat) {
    entry.Some? && entry.value.pps == pps && entry.value.bps == bps && entry.value.nextUpdate == nextUpdate
  }

  /** The stream up to its second window: the first window takes n packets. */
  lemma FirstWindow(lim: Limits, packets: seq<Arrival>, ip: u32, len: u16, n: nat, k: nat)
    requires Straddles(packets, ip, len, n) && n <= lim.pps && Budget(len, n) <= lim.bps
    requires 1 <= k <= n
    ensures Shows(EntryAt(packets, ip, k), k, Budget(len, k), WINDOW)
    ensures PassedIn(lim, packets, ip, 1, k) == k - 1
  {
    assert packets[..0] == [];
    EntryStep(packets, ip, 0);
    BudgetShifts(len, k);
    BudgetGrows(len, k, n);
    BurstPasses(lim, packets, Arrival(ip, len, WINDOW), Stats(1, len, WINDOW), 1, k - 1, k);
  }

  /** The second window takes n more. */
  lemma SecondWindow(lim: Limits, packets: seq<Arrival>, ip: u32, len: u16, n: nat, k: nat, j: nat)
    requires Straddles(packets, ip, len, n) && n <= lim.pps && Budget(len, n) <= lim.bps
    requires 1 <= k <= n && j == n + k
    ensures Shows(EntryAt(packets, ip, j), k, Budget(len, k), 2 * WINDOW + 1)
    ensures PassedIn(lim, packets, ip, n, j) == k
  {
    var (next, m) := (Arrival(ip, len, WINDOW + 1), n + 1);
    BudgetShifts(len, k);
    BudgetGrows(len, k, n);
    SecondOpens(lim, packets, ip, len, n);
    BurstPasses(lim, packets, next, Stats(1, len, 2 * WINDOW + 1), m, k - 1, j);
    PassedInSplit(lim, packets, ip, n, m, j);
  }

  lemma SecondOpens(lim: Limits, packets: seq<Arrival>, ip: u32, len: u16, n: nat)
    requires Straddles(packets, ip, len, n) && 1 <= n <= lim.pps && Budget(len, n) <= lim.bps
    ensures EntryAt(packets, ip, n + 1) == Some(Stats(1, len, 2 * WINDOW + 1))
    ensures PassedIn(lim, packets, ip, n, n + 1) == 1
  {
    BudgetGrows(len, 1, n);
    FirstWindow(lim, packets, ip, len, n, n);
    NewWindow(lim, packets, Arrival(ip, len, WINDOW + 1), n);
  }

  lemma NewWindow(lim: Limits, packets: seq<Arrival>, p: Arrival, k: nat)
    requires k < |packets| && packets[k] == p && p.now + WINDOW < U64
    requires EntryAt(packets, p.ip, k).Some? && EntryAt(packets, p.ip, k).value.nextUpdate < p.now
    requires 1 <= lim.pps && p.len <= lim.bps
    ensures EntryAt(packets, p.ip, k + 1) == Some(Stats(1, p.len, p.now + WINDOW))
    ensures PassedIn(lim, packets, p.ip, k, k + 1) == 1
  {
    EntryStep(packets, p.ip, k);
    assert PassedIn(lim, packets, p.ip, k, k) == 0;
  }

  /** No counter wraps in it, since none passes its limit. */
  lemma StraddleFits(lim: Limits, packets: seq<Arrival>, ip: u32, len: u16, n: nat, k: nat)
    requires Straddles(packets, ip, len, n) && n <= lim.pps && Budget(len, n) <= lim.bps
    requires k < 2 * n
    ensures FitsAt(packets, k)
  {
    if k == 0 {
      assert packets[..0] == [];
    } else if k < n {
      FirstWindow(lim, packets, ip, len, n, k);
      assert Budget(len, k + 1) == Budget(len, k) + len;
      BudgetGrows(len, k + 1, n);
    } else if k == n {
      FirstWindow(lim, packets, ip, len, n, n);
    } else {
      SecondWindow(lim, packets, ip, len, n, k - n, k);
      assert Budget(len, k - n + 1) == Budget(len, k - n) + len;
      BudgetGrows(len, k - n + 1, n);
    }
  }

  lemma StraddlePasses(lim: Limits, packets: seq<Arrival>, ip: u32, len: u16, n: nat)
    requires Straddles(packets, ip, len, n) && n <= lim.pps && Budget(len, n) <= lim.bps && Clocked(packets)
    ensures Timed(packets) && PassedIn(lim, packets, ip, 1, 2 * n) == 2 * n - 1
  {
    FirstWindow(lim, packets, ip, len, n, n);
    SecondWindow(lim, packets, ip, len, n, n, |packets|);
    PassedInSplit(lim, packets, ip, 1, n, |packets|);
    forall k | 0 <= k < |packets| ensures FitsAt(packets, k) {
      StraddleFits(lim, packets, ip, len, n, k);
    }
  }

  lemma {:induction false} BudgetGrows(limit: nat, v: nat, w: nat)
    requires v <= w
    ensures Budget(limit, v) <= Budget(limit, w)
  {
    if v < w { BudgetGrows(limit, v, w - 1); }
  }

  lemma {:induction false} BudgetShifts(limit: nat, n: nat)
    requires n >= 1
    ensures Budget(limit, n) == limit + Budget(limit, n - 1) && Budget(limit, n) >= limit
  {
  }

  /** One nanosecond can let 2n - 1 packets of one source pass, for every n and packet
      length the two limits allow in a window: the most RateBound permits. Where n packets
      use up the byte limit, their bytes come to twice that limit less one packet. */
  lemma RateBoundIsSharp(lim: Limits, ip: u32, len: u16, n: nat)
    requires 1 <= n <= lim.pps && len * n <= lim.bps
    ensures var packets := Straddle(ip, len, n);
            && Timed(packets)
            && packets[2 * n - 1].now - packets[1].now <= 1
            && PassedIn(lim, packets, ip, 1, 2 * n) == 2 * n - 1
            && BytesIn(lim, packets, ip, 1, 2 * n) == len * (2 * n - 1)
  {
    var packets := Straddle(ip, len, n);
    StraddleShape(ip, len, n);
    BudgetIsProduct(len, n);
    StraddlePasses(lim, packets, ip, len, n);
    BytesOfEqual(lim, packets, ip, len, 1, 2 * n);
    BudgetIsProduct(len, 2 * n - 1);
  }

  lemma {:induction false} BytesOfEqual(lim: Limits, packets: seq<Arrival>, ip: u32, len: u16, i: nat, j: nat)
    requires i <= j <= |packets| && forall k :: i <= k < j ==> packets[k].len == len
    ensures BytesIn(lim, packets, ip, i, j) == Budget(len, PassedIn(lim, packets, ip, i, j))
  {
    if i < j { BytesOfEqual(lim, packets, ip, len, i, j - 1); }
  }

  ghost predicate InOneSecond(packets: seq<Arrival>, m: nat, i: nat, j: nat) {
    && Timed(packets) && NoneShorter(packets, m)
    && i < j <= |packets| && packets[j - 1].now - packets[i].now <= WINDOW
  }

  /** What a reader of "max_pps" per second expects: in no second do more than max_pps
      packets of a source pass, or more than one if max_pps is 0. */
  ghost predicate KeepsRate(lim: Limits, ip: u32, m: nat) {
    forall packets: seq<Arrival>, i: nat, j: nat ::
      InOneSecond(packets, m, i, j) ==> PassedIn(lim, packets, ip, i, j) <= AtLeast(lim.pps, 1)
  }

  /** The limiter is no token bucket: it keeps the rate exactly when the packet limit is
      at most 1, or the byte limit alone halves it for packets of `m` bytes, the shortest
      there are. For this program `m` is MIN_LEN. */
  lemma KeepsRateIff(lim: Limits, ip: u32, m: u16)
    requires m > 0
    ensures KeepsRate(lim, ip, m) <==> lim.pps <= 1 || 2 * (lim.bps / m) <= lim.pps + 1
  {
    if lim.pps <= 1 || 2 * (lim.bps / m) <= lim.pps + 1 {
      forall packets: seq<Arrival>, i: nat, j: nat | InOneSecond(packets, m, i, j)
        ensures PassedIn(lim, packets, ip, i, j) <= AtLeast(lim.pps, 1)
      {
        RateInOneSecond(lim, packets, ip, m, i, j);
      }
    } else {
      RateExceeded(lim, ip, m);
    }
  }

  lemma RateInOneSecond(lim: Limits, packets: seq<Arrival>, ip: u32, m: u16, i: nat, j: nat)
    requires m > 0 && InOneSecond(packets, m, i, j)
    ensures PassedIn(lim, packets, ip, i, j) <= 2 * PerWindow(lim, m) - 1
  {
    var T := packets[j - 1].now - packets[i].now;
    RateBound(lim, packets, ip, m, i, j);
    FewWindows(packets, ip, i, j);
    ModUnique(T, WINDOW + 1, 0, T);
    assert PassedIn(lim, packets, ip, i, j) < PerWindow(lim, m) * 2;
  }

  lemma RateExceeded(lim: Limits, ip: u32, m: u16)
    requires m > 0 && lim.pps > 1 && 2 * (lim.bps / m) > lim.pps + 1
    ensures !KeepsRate(lim, ip, m)
  {
    var n := AtMost(lim.pps, lim.bps / m);
    Floored(lim.bps, m, n);
    RateBoundIsSharp(lim, ip, m, n);
    assert InOneSecond(Straddle(ip, m, n), m, 1, 2 * n);
    assert PassedIn(lim, Straddle(ip, m, n), ip, 1, 2 * n) > AtLeast(lim.pps, 1);
  }

  /** For this program. */
  lemma KeepsRateHere(lim: Limits, ip: u32)
    ensures KeepsRate(lim, ip, 42) <==> lim.pps <= 1 || 2 * (lim.bps / 42) <= lim.pps + 1
  {
    KeepsRateIff(lim, ip, MIN_LEN);
  }

  lemma Floored(bps: nat, m: nat, n: nat)
    requires m > 0 && n <= bps / m
    ensures m * n <= bps
  {
    assert bps == m * (bps / m) + bps % m;
    assert m * (bps / m) == m * n + m * (bps / m - n);
    assert m * (bps / m - n) >= 0;
  }

  // ------------------------------------------------------------ inside one window

  /** Within a window the passed packets are a prefix: after the first drop everything
      of that source is dropped until a packet opens the next window. */
  lemma {:induction false} DropsPersist(lim: Limits, packets: seq<Arrival>, ip: u32, k: nat, l: nat)
    requires Timed(packets) && k < l < |packets|
    requires packets[k].ip == packets[l].ip == ip
    requires !Passes(lim, packets, k) && WindowsIn(packets, ip, k + 1, l + 1) == 0
    ensures !Passes(lim, packets, l)
  {
    assert WindowsIn(packets, ip, k + 1, l) == 0 && !Opens(packets, ip, l);
    Accounted(lim, packets, ip, k);
    CountersGrow(packets, ip, k + 1, l);
    Accounted(lim, packets, ip, l);
  }

  lemma {:induction false} CountersGrow(packets: seq<Arrival>, ip: u32, i: nat, j: nat)
    requires Timed(packets) && i <= j <= |packets|
    requires EntryAt(packets, ip, i).Some? && WindowsIn(packets, ip, i, j) == 0
    ensures EntryAt(packets, ip, j).Some?
    ensures EntryAt(packets, ip, j).value.pps >= EntryAt(packets, ip, i).value.pps
    ensures EntryAt(packets, ip, j).value.bps >= EntryAt(packets, ip, i).value.bps
  {
    if i < j {
      CountersGrow(packets, ip, i, j - 1);
      EntryStep(packets, ip, j - 1);
      if packets[j - 1].ip == ip { Accounted(Limits(0, 0), packets, ip, j - 1); }
    }
  }

  // ------------------------------------------------------- sources do not interact

  function Only(packets: seq<Arrival>, ip: u32): seq<Arrival> {
    if packets == [] then []
    else Only(packets[..|packets| - 1], ip) +
         if packets[|packets| - 1].ip == ip then [packets[|packets| - 1]] else []
  }

  /** The record of a source, and hence its verdicts, depend on its own packets only. */
  lemma {:induction false} SourcesAreIndependent(packets: seq<Arrival>, ip: u32)
    ensures Lookup(After(packets), ip) == Lookup(After(Only(packets, ip)), ip)
  {
    if packets != [] {
      var before, last := packets[..|packets| - 1], packets[|packets| - 1];
      SourcesAreIndependent(before, ip);
      if last.ip == ip {
        assert (Only(before, ip) + [last])[..|Only(before, ip)|] == Only(before, ip);
      } else {
        assert Only(packets, ip) == Only(before, ip);
      }
    }
  }
}
