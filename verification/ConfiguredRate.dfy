/** The rate limiter in its own terms: which packets pass, counted from the stream itself,
    and what passes in any interval, with the two entries of config_map written out. */
module ConfiguredRate {
  import opened Bits
  import opened RateLimit
  import opened Wrappers

  /** Packets and bytes of one source among the packets i, ..., j - 1. */
  function PacketsOf(packets: seq<Arrival>, ip: u32, i: nat, j: nat): nat
    requires i <= j <= |packets|
  {
    if i == j then 0 else PacketsOf(packets, ip, i, j - 1) + if packets[j - 1].ip == ip then 1 else 0
  }

  function BytesOf(packets: seq<Arrival>, ip: u32, i: nat, j: nat): nat
    requires i <= j <= |packets|
  {
    if i == j then 0 else BytesOf(packets, ip, i, j - 1) + if packets[j - 1].ip == ip then packets[j - 1].len else 0
  }

  /** The packet that opened the window of `ip` that is open after k packets: a window lasts
      a second, and the first packet after that opens the next. */
  function WindowStart(packets: seq<Arrival>, ip: u32, k: nat): Option<nat>
    requires k <= |packets|
    ensures WindowStart(packets, ip, k).Some? ==> WindowStart(packets, ip, k).value < k
  {
    if k == 0 then None
    else
      var open := WindowStart(packets, ip, k - 1);
      if packets[k - 1].ip != ip then open
      else if open.Some? && packets[k - 1].now <= packets[open.value].now + 1_000_000_000 then open
      else Some(k - 1)
  }

  /** Whether the limiter drops the k-th packet of a stream. */
  predicate Dropped(config: map<u32, u64>, packets: seq<Arrival>, k: nat)
    requires k < |packets|
  {
    Limited(config, EntryAt(packets, packets[k].ip, k), packets[k].len, packets[k].now)
  }

  /** What passes of one source among the packets i, ..., j - 1. */
  function PassedPackets(config: map<u32, u64>, packets: seq<Arrival>, ip: u32, i: nat, j: nat): nat
    requires i <= j <= |packets|
  {
    if i == j then 0
    else PassedPackets(config, packets, ip, i, j - 1) +
         if packets[j - 1].ip == ip && !Dropped(config, packets, j - 1) then 1 else 0
  }

  function PassedBytes(config: map<u32, u64>, packets: seq<Arrival>, ip: u32, i: nat, j: nat): nat
    requires i <= j <= |packets|
  {
    if i == j then 0
    else PassedBytes(config, packets, ip, i, j - 1) +
         if packets[j - 1].ip == ip && !Dropped(config, packets, j - 1) then packets[j - 1].len else 0
  }

  /** The record of a source counts its packets and bytes since its window opened. */
  lemma {:induction false} RecordCounts(packets: seq<Arrival>, ip: u32, k: nat)
    requires Timed(packets) && k <= |packets|
    ensures match WindowStart(packets, ip, k)
            case None => EntryAt(packets, ip, k) == None && PacketsOf(packets, ip, 0, k) == 0
            case Some(i) => PacketsOf(packets, ip, 0, k) > 0 && Counts(EntryAt(packets, ip, k), packets, ip, i, k)
  {
    if k > 0 {
      RecordCounts(packets, ip, k - 1);
      if packets[k - 1].ip == ip {
        Accounted(Limits(0, 0), packets, ip, k - 1);
        OnePacket(packets, ip, k - 1);
      } else {
        EntryStep(packets, ip, k - 1);
      }
    }
  }

  /** A record of what the source sent among the packets i, ..., k - 1. */
  predicate Counts(entry: Option<Stats>, packets: seq<Arrival>, ip: u32, i: nat, k: nat)
    requires i < k <= |packets|
  {
    && entry.Some?
    && entry.value.pps == PacketsOf(packets, ip, i, k) && entry.value.bps == BytesOf(packets, ip, i, k)
    && entry.value.nextUpdate == packets[i].now + 1_000_000_000
  }

  lemma OnePacket(packets: seq<Arrival>, ip: u32, k: nat)
    requires k < |packets| && packets[k].ip == ip
    ensures PacketsOf(packets, ip, k, k + 1) == 1 && BytesOf(packets, ip, k, k + 1) == packets[k].len
  {
    assert PacketsOf(packets, ip, k, k) == 0 && BytesOf(packets, ip, k, k) == 0;
  }

  // ------------------------------------------------------------------ main theorems

  /** The window rule: a packet is dropped exactly when its source has been seen before, and
      the packets or the bytes of the source since its window opened, this packet included,
      exceed entry 0 or entry 1 of config_map, or the default where there is no entry. */
  lemma WindowRule(config: map<u32, u64>, packets: seq<Arrival>, k: nat)
    requires Timed(packets) && k < |packets|
    ensures var (ip, start) := (packets[k].ip, WindowStart(packets, packets[k].ip, k + 1));
            && start.Some?
            && (Dropped(config, packets, k) <==>
                  PacketsOf(packets, ip, 0, k) > 0 &&
                  (PacketsOf(packets, ip, start.value, k + 1) > (if 0 in config then config[0] else 10000) ||
                   BytesOf(packets, ip, start.value, k + 1) > (if 1 in config then config[1] else 10485760)))
  {
    var ip := packets[k].ip;
    RecordCounts(packets, ip, k);
    RecordCounts(packets, ip, k + 1);
    Accounted(Configured(config), packets, ip, k);
  }

  /** The rate bound: in an interval of T nanoseconds, with packets of at least `m` bytes. */
  lemma ConfiguredBound(config: map<u32, u64>, packets: seq<Arrival>, ip: u32, m: nat, i: nat, j: nat)
    requires Timed(packets) && NoneShorter(packets, m) && i < j <= |packets|
    ensures var pps := if 0 in config then config[0] else 10000;
            var bps := if 1 in config then config[1] else 10485760;
            var most := if m == 0 || pps <= bps / m then pps else bps / m;
            var windows := (packets[j - 1].now - packets[i].now) / 1_000_000_001 + 2;
            && PassedPackets(config, packets, ip, i, j) < (if most < 1 then 1 else most) * windows
            && PassedBytes(config, packets, ip, i, j) <= (if bps < 65535 then 65535 else bps) * windows
  {
    RateBound(Configured(config), packets, ip, m, i, j);
    SamePassed(config, packets, ip, i, j);
  }

  lemma {:induction false} SamePassed(config: map<u32, u64>, packets: seq<Arrival>, ip: u32, i: nat, j: nat)
    requires i <= j <= |packets|
    ensures PassedPackets(config, packets, ip, i, j) == PassedIn(Configured(config), packets, ip, i, j)
    ensures PassedBytes(config, packets, ip, i, j) == BytesIn(Configured(config), packets, ip, i, j)
  {
    if i < j { SamePassed(config, packets, ip, i, j - 1); }
  }
}
