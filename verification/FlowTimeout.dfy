/** The adaptive timeout: shorter as the table fills. */
module FlowTimeout {
  import opened FlowState

  const U64: nat := 0x1_0000_0000_0000_0000

  /** The 64-bit product of two words. */
  function Mul64(a: nat, b: nat): nat {
    a * b % U64
  }

  /** The share of the span that used of entries take; even a product that wraps around stays below the span. */
  function Shrink(used: nat, span: nat, entries: nat): (r: nat)
    requires used < entries
    ensures r <= span
  {
    ShrinkBound(used, span, entries);
    Mul64(used, span) / entries
  }

  /** The timeout in force with live stored entries. */
  function EffTimeout(cfg: Config, live: nat): nat
    requires cfg.timeoutMin <= cfg.timeout || cfg.timeout == 0
  {
    if cfg.totalSlots == 0 || cfg.timeout == 0 then cfg.timeout
    else
      var e :=
        if live <= cfg.timeoutLo then cfg.timeout
        else if live >= cfg.timeoutHi then cfg.timeoutMin
        else cfg.timeout - Shrink(live - cfg.timeoutLo, cfg.timeout - cfg.timeoutMin, cfg.timeoutHi - cfg.timeoutLo);
      if e == 0 then 1 else e
  }

  lemma ShrinkBound(used: nat, span: nat, entries: nat)
    requires used < entries
    ensures Mul64(used, span) / entries <= span
  {
    var p := Mul64(used, span);
    assert p <= used * span;
    MulMono(used, entries, span);
    assert p <= entries * span;
    DivBound(p, span, entries);
  }

  lemma MulMono(a: nat, b: nat, c: nat)
    requires a <= b
    ensures a * c <= b * c
  {
  }

  lemma DivBound(p: nat, q: nat, d: nat)
    requires 0 < d && p <= d * q
    ensures p / d <= q
  {
    assert d * (p / d) <= p;
    if p / d > q {
      MulMono(q + 1, p / d, d);
    }
  }

  lemma DivMono(p: nat, q: nat, d: nat)
    requires 0 < d && p <= q
    ensures p / d <= q / d
  {
    assert d * (p / d) <= p;
    assert q < d * (q / d) + d;
    if p / d > q / d {
      MulMono(q / d + 1, p / d, d);
    }
  }

  /** A configuration as init computes it. */
  ghost predicate ConfigOk(cfg: Config) {
    && cfg.timeoutLo <= cfg.timeoutHi
    && cfg.timeoutMin == if cfg.timeout / 8 == 0 then 1 else cfg.timeout / 8
  }

  /** The thresholds in terms of the number of slots: 38, 48, 45 and 48 sixty-fourths of it, rounded down. */
  lemma MakeConfigOk(s: Settings, nbBk: nat, max: nat)
    ensures var c, slots := MakeConfig(s, nbBk, max), 16 * nbBk;
            && ConfigOk(c) && c.maxEntries == max && c.nbBk == nbBk && c.totalSlots == slots && c.timeout == s.timeout
            && 64 * c.timeoutLo <= 38 * slots < 64 * c.timeoutLo + 64 && c.timeoutHi == 12 * nbBk
            && 64 * c.reliefMid <= 45 * slots < 64 * c.reliefMid + 64 && c.reliefHi == 12 * nbBk
            && (if s.timeout < 8 then c.timeoutMin == 1 else 8 * c.timeoutMin <= s.timeout < 8 * c.timeoutMin + 8)
            && c.pressure == (if s.pressure == 0 then 1 else s.pressure)
            && c.maintInterval == s.maintInterval && c.maintFillThreshold == s.maintFillThreshold
            && c.maintBaseBk == if s.maintBaseBk == 0 then nbBk else s.maintBaseBk
  {
  }

  /**
   * The timeout in force never leaves the range between an eighth of the setting (at least one tick)
   * and the setting itself, for every fill level and even if the 64-bit product wraps around.
   */
  lemma EffTimeoutRange(cfg: Config, live: nat)
    requires ConfigOk(cfg) && 0 < cfg.timeout && 0 < cfg.totalSlots
    ensures 1 <= cfg.timeoutMin <= EffTimeout(cfg, live) <= cfg.timeout
  {
  }

  /**
   * The timeout falls from the setting to its minimum on a straight line between the two thresholds, rounded up;
   * p is the 64-bit product on the way.
   */
  lemma EffTimeoutLine(cfg: Config, live: nat, p: nat)
    requires ConfigOk(cfg) && p < 0x1_0000_0000_0000_0000
    ensures cfg.timeout == 0 || cfg.totalSlots == 0 || live <= cfg.timeoutLo ==> EffTimeout(cfg, live) == cfg.timeout
    ensures 0 < cfg.timeout && 0 < cfg.totalSlots && live > cfg.timeoutLo && live >= cfg.timeoutHi ==> EffTimeout(cfg, live) == cfg.timeoutMin
    ensures var n, used, span := cfg.timeoutHi - cfg.timeoutLo, live - cfg.timeoutLo, cfg.timeout - cfg.timeoutMin;
            0 < cfg.timeout && 0 < cfg.totalSlots && 0 < used < n && (used * span - p) % 0x1_0000_0000_0000_0000 == 0 ==>
              var shrink := cfg.timeout - EffTimeout(cfg, live);
              shrink * n <= p < (shrink + 1) * n
  {
    var n, used, span := cfg.timeoutHi - cfg.timeoutLo, live - cfg.timeoutLo, cfg.timeout - cfg.timeoutMin;
    if 0 < cfg.timeout && 0 < cfg.totalSlots && 0 < used < n && (used * span - p) % 0x1_0000_0000_0000_0000 == 0 {
      SameRest(used * span, p);
      EffTimeoutRange(cfg, live);
      Quotient(p, n, p / n);
    }
  }

  lemma SameRest(a: nat, p: nat)
    requires p < 0x1_0000_0000_0000_0000 && (a - p) % 0x1_0000_0000_0000_0000 == 0
    ensures a % 0x1_0000_0000_0000_0000 == p
  {
  }

  /** A fuller table never has a longer timeout, as long as the product fits into 64 bits. */
  lemma EffTimeoutAntitone(cfg: Config, live: nat, live': nat)
    requires ConfigOk(cfg) && 0 < cfg.timeout && 0 < cfg.totalSlots && live <= live'
    requires (cfg.timeoutHi - cfg.timeoutLo) * (cfg.timeout - cfg.timeoutMin) < U64
    ensures EffTimeout(cfg, live') <= EffTimeout(cfg, live)
  {
    EffTimeoutRange(cfg, live);
    EffTimeoutRange(cfg, live');
    if cfg.timeoutLo < live && live' < cfg.timeoutHi {
      var u, u', span, n := live - cfg.timeoutLo, live' - cfg.timeoutLo, cfg.timeout - cfg.timeoutMin, cfg.timeoutHi - cfg.timeoutLo;
      MulMono(u, n, span);
      MulMono(u', n, span);
      MulMono(u, u', span);
      NoWrap(u, span, n);
      NoWrap(u', span, n);
      DivMono(u * span, u' * span, n);
    }
  }

  lemma NoWrap(a: nat, b: nat, n: nat)
    requires a * b <= n * b < U64
    ensures Mul64(a, b) == a * b
  {
  }

  /** How few free slots in the target bucket make an insert look for a victim: the configured number, 2 or 3 at the fill levels. */
  function ReliefEmptySlots(cfg: Config, live: nat): (r: nat)
    ensures cfg.pressure <= r
    ensures live >= cfg.reliefHi ==> 3 <= r
    ensures live >= cfg.reliefMid ==> 2 <= r
    ensures r > cfg.pressure ==> r <= 3 && (r == 3 ==> live >= cfg.reliefHi) && (live >= cfg.reliefMid || live >= cfg.reliefHi)
  {
    if live >= cfg.reliefHi then if cfg.pressure < 3 then 3 else cfg.pressure
    else if live >= cfg.reliefMid then if cfg.pressure < 2 then 2 else cfg.pressure
    else cfg.pressure
  }
}
