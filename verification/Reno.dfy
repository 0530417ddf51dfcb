/** Reno congestion control with fractional window growth:
    `src/stack/serval_tcp_cong.c`. The windows and counters are natural numbers. */
module Reno {

  /** The sysctls and socket settings that the code reads and never writes. */
  datatype Settings = Settings(abc: int, maxSsthresh: int, reordering: nat, canGso: bool,
                               winDivisor: nat, gsoMaxSize: nat, clamp: nat, ssthresh: nat, mss: nat)

  /** snd_cwnd, snd_cwnd_cnt and bytes_acked. */
  datatype Window = Window(cwnd: nat, cnt: nat, acked: nat)

  // ---------- What one ACK does ----------

  /** serval_tcp_is_cwnd_limited */
  predicate Limited(s: Settings, cwnd: nat, inFlight: nat) {
    || inFlight >= cwnd
    || (s.canGso && (cwnd - inFlight) * s.winDivisor < cwnd && (cwnd - inFlight) * s.mss < s.gsoMaxSize)
    || cwnd - inFlight <= s.reordering
  }

  /** The increase in packets that a slow-start ACK credits. */
  function Credit(s: Settings, w: Window): nat {
    var once := if s.maxSsthresh > 0 && w.cwnd > s.maxSsthresh then s.maxSsthresh / 2 else w.cwnd;
    if s.abc > 1 && w.acked >= 2 * s.mss then 2 * once else once
  }

  /** Trade credit for window, one window's worth at a time. */
  function Settle(clamp: nat, cwnd: nat, cnt: nat): (nat, nat)
    requires cwnd >= 1
    decreases cnt
  {
    if cnt < cwnd then (cwnd, cnt)
    else Settle(clamp, if cwnd < clamp then cwnd + 1 else cwnd, cnt - cwnd)
  }

  function SlowStart(s: Settings, w: Window): Window
    requires w.cwnd >= 1
  {
    if s.abc != 0 && w.acked < s.mss then w
    else
      var r := Settle(s.clamp, w.cwnd, w.cnt + Credit(s, w));
      Window(r.0, r.1, 0)
  }

  function Grow(s: Settings, cwnd: nat): nat {
    if cwnd < s.clamp then cwnd + 1 else cwnd
  }

  function AvoidAi(s: Settings, w: Window, width: nat): Window {
    if w.cnt >= width then Window(Grow(s, w.cwnd), 0, w.acked) else w.(cnt := w.cnt + 1)
  }

  function AvoidBytes(s: Settings, w: Window): Window {
    if w.acked >= w.cwnd * s.mss then Window(Grow(s, w.cwnd), w.cnt, w.acked - w.cwnd * s.mss) else w
  }

  function Ack(s: Settings, w: Window, inFlight: nat): Window
    requires w.cwnd >= 1
  {
    if !Limited(s, w.cwnd, inFlight) then w
    else if w.cwnd <= s.ssthresh then SlowStart(s, w)
    else if s.abc != 0 then AvoidBytes(s, w)
    else AvoidAi(s, w, w.cwnd)
  }

  // ---------- The socket that the code updates ----------

  class Sock {
    const s: Settings
    var cwnd: nat
    var cnt: nat
    var acked: nat

    constructor (s: Settings, w: Window)
      ensures this.s == s && State() == w
    {
      this.s, cwnd, cnt, acked := s, w.cwnd, w.cnt, w.acked;
    }

    ghost function State(): Window
      reads this
    {
      Window(cwnd, cnt, acked)
    }

    /** serval_tcp_slow_start */
    method SlowStartAck()
      requires cwnd >= 1
      modifies this
      ensures State() == SlowStart(s, old(State())) && cwnd >= 1
    {
      SettleBounds(s.clamp, cwnd, cnt + Credit(s, State()));
      if s.abc != 0 && acked < s.mss {
        return;
      }
      var credit: nat;
      if s.maxSsthresh > 0 && cwnd > s.maxSsthresh {
        credit := s.maxSsthresh / 2;
      } else {
        credit := cwnd;
      }
      if s.abc > 1 && acked >= 2 * s.mss {
        credit := credit * 2;
      }
      acked := 0;
      cnt := cnt + credit;
      ghost var goal := Settle(s.clamp, cwnd, cnt);
      while cnt >= cwnd
        invariant cwnd >= 1 && acked == 0 && Settle(s.clamp, cwnd, cnt) == goal
        decreases cnt
      {
        cnt := cnt - cwnd;
        if cwnd < s.clamp {
          cwnd := cwnd + 1;
        }
      }
    }

    /** serval_tcp_cong_avoid_ai */
    method AvoidAiAck(width: nat)
      modifies this
      ensures State() == AvoidAi(s, old(State()), width)
    {
      if cnt >= width {
        if cwnd < s.clamp {
          cwnd := cwnd + 1;
        }
        cnt := 0;
      } else {
        cnt := cnt + 1;
      }
    }

    /** serval_tcp_reno_cong_avoid */
    method CongAvoid(inFlight: nat)
      requires cwnd >= 1
      modifies this
      ensures State() == Ack(s, old(State()), inFlight) && cwnd >= 1
    {
      if !Limited(s, cwnd, inFlight) {
        return;
      }
      if cwnd <= s.ssthresh {
        SlowStartAck();
      } else if s.abc != 0 {
        if acked >= cwnd * s.mss {
          acked := acked - cwnd * s.mss;
          if cwnd < s.clamp {
            cwnd := cwnd + 1;
          }
        }
      } else {
        AvoidAiAck(cwnd);
      }
    }
  }

  // ---------- Bounds on one ACK ----------

  /** 0 + 1 + ... + (g - 1) */
  function Tri(g: nat): nat {
    if g == 0 then 0 else Tri(g - 1) + g - 1
  }

  /** The price of `g` segments that start at window `cwnd`. */
  function Price(cwnd: nat, g: nat): nat {
    g * cwnd + Tri(g)
  }

  lemma {:induction false} PriceFirst(cwnd: nat, g: nat)
    requires g >= 1
    ensures Price(cwnd, g) == cwnd + Price(cwnd + 1, g - 1)
  {
    if g > 1 {
      PriceFirst(cwnd, g - 1);
    }
  }

  /** Settling spends credit only on window: what it costs is what it buys, and less than one
      window's worth of credit is left. At the clamp, credit is dropped instead. */
  lemma {:induction false} SettleBounds(clamp: nat, cwnd: nat, cnt: nat)
    requires cwnd >= 1
    ensures var (cwnd', cnt') := Settle(clamp, cwnd, cnt);
            && cwnd <= cwnd' && (cwnd' <= clamp || cwnd' == cwnd) && cnt' < cwnd'
            && Price(cwnd, cwnd' - cwnd) + cnt' <= cnt
            && (cwnd' < clamp ==> Price(cwnd, cwnd' - cwnd) + cnt' == cnt)
    decreases cnt
  {
    if cnt >= cwnd {
      SettleBounds(clamp, if cwnd < clamp then cwnd + 1 else cwnd, cnt - cwnd);
      var (cwnd', cnt') := Settle(clamp, cwnd, cnt);
      if cwnd < clamp {
        PriceFirst(cwnd, cwnd' - cwnd);
      }
    }
  }

  ghost predicate Sound(w: Window) {
    1 <= w.cwnd && w.cnt <= w.cwnd
  }

  lemma PriceAtLeast(cwnd: nat, g: nat, k: nat)
    requires k <= g
    ensures Price(cwnd, g) >= Price(cwnd, k)
  {
    if k < g {
      PriceAtLeast(cwnd, g - 1, k);
      assert g * cwnd == (g - 1) * cwnd + cwnd;
    }
  }

  lemma SmallPrices(cwnd: nat)
    ensures Price(cwnd, 2) == 2 * cwnd + 1 && Price(cwnd, 3) == 3 * cwnd + 3
  {
    assert Tri(2) == 1 && Tri(3) == 3;
  }

  /** The window and its counter stay sound, never shrink and respect the clamp; an ACK adds at
      most two segments, and at most one unless byte counting is above level 1. */
  lemma AckBounds(s: Settings, w: Window, inFlight: nat)
    requires Sound(w)
    ensures var w' := Ack(s, w, inFlight);
            && Sound(w')
            && w.cwnd <= w'.cwnd <= w.cwnd + (if s.abc > 1 then 2 else 1)
            && (w'.cwnd <= s.clamp || w'.cwnd == w.cwnd)
  {
    var w' := Ack(s, w, inFlight);
    if Limited(s, w.cwnd, inFlight) && w.cwnd <= s.ssthresh && !(s.abc != 0 && w.acked < s.mss) {
      SettleBounds(s.clamp, w.cwnd, w.cnt + Credit(s, w));
      SmallPrices(w.cwnd);
      var g := w'.cwnd - w.cwnd;
      if g >= 3 {
        PriceAtLeast(w.cwnd, g, 3);
      } else if g == 2 {
        assert Price(w.cwnd, g) == 2 * w.cwnd + 1;
      }
    }
  }

  /** Plain slow start: every limited ACK below the clamp adds exactly one segment. */
  lemma SlowStartAddsOne(s: Settings, w: Window)
    requires Sound(w) && s.abc == 0 && w.cwnd < s.clamp
    requires s.maxSsthresh <= 0 || w.cwnd <= s.maxSsthresh
    ensures SlowStart(s, w) == Window(w.cwnd + 1, w.cnt, 0)
  {
    assert Settle(s.clamp, w.cwnd + 1, w.cnt) == (w.cwnd + 1, w.cnt);
  }

  // ---------- Bounds on whole runs ----------

  /** An arriving ACK: the bytes it acknowledges and the packets in flight. */
  datatype Event = Event(bytes: nat, inFlight: nat)

  /** The caller counts the bytes, when byte counting is on, and then calls cong_avoid. */
  function Step(s: Settings, w: Window, e: Event): Window
    requires w.cwnd >= 1
  {
    Ack(s, if s.abc != 0 then w.(acked := w.acked + e.bytes) else w, e.inFlight)
  }

  ghost function Run(s: Settings, w: Window, es: seq<Event>): (r: Window)
    requires Sound(w)
    ensures Sound(r)
  {
    if es == [] then w
    else
      var before := Run(s, w, es[..|es| - 1]);
      var e := es[|es| - 1];
      AckBounds(s, if s.abc != 0 then before.(acked := before.acked + e.bytes) else before, e.inFlight);
      Step(s, before, e)
  }

  /** Over every run: the window never shrinks, never passes the larger of its start and the
      clamp, never falls behind its counter, and grows by at most two segments an ACK. */
  lemma {:induction false} RunBounds(s: Settings, w: Window, es: seq<Event>)
    requires Sound(w)
    ensures var r := Run(s, w, es);
            && Sound(r)
            && w.cwnd <= r.cwnd <= w.cwnd + |es| * (if s.abc > 1 then 2 else 1)
            && (r.cwnd <= s.clamp || r.cwnd == w.cwnd)
  {
    if es != [] {
      var k := |es| - 1;
      RunBounds(s, w, es[..k]);
      var before := Run(s, w, es[..k]);
      AckBounds(s, if s.abc != 0 then before.(acked := before.acked + es[k].bytes) else before, es[k].inFlight);
    }
  }

  // ---------- Byte counting ----------

  ghost function Bytes(es: seq<Event>): nat {
    if es == [] then 0 else Bytes(es[..|es| - 1]) + es[|es| - 1].bytes
  }

  lemma PriceLast(cwnd: nat, g: nat, mss: nat)
    ensures Price(cwnd, g + 1) * mss == Price(cwnd, g) * mss + (cwnd + g) * mss
  {
    assert Price(cwnd, g + 1) == Price(cwnd, g) + (cwnd + g);
  }

  /** An ACK in congestion avoidance only counts its bytes, or trades a full window of them for a segment,
      and this exactly when there is a full window of them, the window limits and is below the clamp. */
  lemma BytesOrSegment(s: Settings, w: Window, e: Event)
    requires Sound(w) && s.abc != 0 && w.cwnd > s.ssthresh
    ensures Step(s, w, e).cwnd > w.cwnd <==>
            Limited(s, w.cwnd, e.inFlight) && w.acked + e.bytes >= w.cwnd * s.mss && w.cwnd < s.clamp
    ensures var w' := Step(s, w, e);
            if w'.cwnd == w.cwnd
            then w'.acked <= w.acked + e.bytes && (w.cwnd < s.clamp ==> w'.acked == w.acked + e.bytes)
            else w'.cwnd == w.cwnd + 1 <= s.clamp && w'.acked + w.cwnd * s.mss == w.acked + e.bytes
  {
  }

  /** Section 2.1 of RFC 3465: in congestion avoidance every segment of growth is paid for with a
      full window of acknowledged bytes, and below the clamp no byte is lost on the way. */
  lemma {:induction false} ByteCountingPays(s: Settings, w: Window, es: seq<Event>)
    requires Sound(w) && s.abc != 0 && w.cwnd > s.ssthresh
    ensures var r := Run(s, w, es);
            && r.cwnd >= w.cwnd
            && Price(w.cwnd, r.cwnd - w.cwnd) * s.mss + r.acked <= w.acked + Bytes(es)
            && (r.cwnd < s.clamp ==> Price(w.cwnd, r.cwnd - w.cwnd) * s.mss + r.acked == w.acked + Bytes(es))
  {
    if es != [] {
      var k := |es| - 1;
      ByteCountingPays(s, w, es[..k]);
      var before := Run(s, w, es[..k]);
      BytesOrSegment(s, before, es[k]);
      PriceLast(w.cwnd, before.cwnd - w.cwnd, s.mss);
      assert Run(s, w, es) == Step(s, before, es[k]);
    }
  }

  // ---------- When the window is what limits ----------

  lemma LeftMono(left: nat, less: nat, k: nat)
    requires less <= left
    ensures less * k <= left * k
  {
  }

  /** More packets in flight never make the window look unused. */
  lemma LimitedIsThreshold(s: Settings, cwnd: nat, inFlight: nat, more: nat)
    requires Limited(s, cwnd, inFlight) && inFlight <= more
    ensures Limited(s, cwnd, more)
  {
    if more < cwnd {
      LeftMono(cwnd - inFlight, cwnd - more, s.winDivisor);
      LeftMono(cwnd - inFlight, cwnd - more, s.mss);
    }
  }

  /** The most segments that fill less than `n` when each counts for `d`. */
  function MostBelow(d: nat, n: nat, cwnd: nat): nat
    requires n > 0
  {
    if d == 0 then cwnd else (n - 1) / d
  }

  lemma MostBelowIs(x: nat, d: nat, n: nat, cwnd: nat)
    requires n > 0 && x <= cwnd
    ensures x * d < n <==> x <= MostBelow(d, n, cwnd)
  {
    if d > 0 {
      var q := (n - 1) / d;
      assert n - 1 == q * d + (n - 1) % d;
      if x <= q {
        LeftMono(q, x, d);
      } else {
        LeftMono(x, q + 1, d);
      }
    }
  }

  /** How much of the window may be unused for it still to count as limiting: the burst, or what segmentation
      offload may wait for, if that is more. */
  function Slack(s: Settings, cwnd: nat): nat {
    var wait := if !s.canGso || cwnd == 0 || s.gsoMaxSize == 0 then 0
                else Min(MostBelow(s.winDivisor, cwnd, cwnd), MostBelow(s.mss, s.gsoMaxSize, cwnd));
    if wait > s.reordering then wait else s.reordering
  }

  function Min(a: nat, b: nat): nat {
    if a <= b then a else b
  }

  /** The window limits exactly when no more than that is unused; without segmentation offload, the burst. */
  lemma LimitedIs(s: Settings, cwnd: nat, inFlight: nat)
    ensures Limited(s, cwnd, inFlight) <==> inFlight + Slack(s, cwnd) >= cwnd
    ensures !s.canGso ==> (Limited(s, cwnd, inFlight) <==> inFlight + s.reordering >= cwnd)
  {
    if inFlight < cwnd && s.gsoMaxSize > 0 {
      MostBelowIs(cwnd - inFlight, s.winDivisor, cwnd, cwnd);
      MostBelowIs(cwnd - inFlight, s.mss, s.gsoMaxSize, cwnd);
    }
  }

  /** A sender that leaves more than that unused, whatever it acknowledges: the window and its counter stay
      as they were, and bytes are only counted. */
  lemma {:induction false} IdleRun(s: Settings, w: Window, es: seq<Event>)
    requires Sound(w) && forall i :: 0 <= i < |es| ==> es[i].inFlight + Slack(s, w.cwnd) < w.cwnd
    ensures Run(s, w, es) == w.(acked := w.acked + if s.abc != 0 then Bytes(es) else 0)
  {
    if es != [] {
      var k := |es| - 1;
      IdleRun(s, w, es[..k]);
      LimitedIs(s, w.cwnd, es[k].inFlight);
    }
  }

  // ---------- What slow start earns ----------

  /** Slow start with byte counting below max_ssthresh: nothing before a full segment is acknowledged, then one
      segment an ACK; two full segments at level 2 earn two, of which one is kept in the counter if
      that was empty. */
  lemma SlowStartBytes(s: Settings, w: Window)
    requires Sound(w) && s.abc != 0 && w.cwnd + 1 < s.clamp
    requires s.maxSsthresh <= 0 || w.cwnd <= s.maxSsthresh
    ensures SlowStart(s, w) ==
            if w.acked < s.mss then w
            else if s.abc <= 1 || w.acked < 2 * s.mss then Window(w.cwnd + 1, w.cnt, 0)
            else if w.cnt == 0 then Window(w.cwnd + 1, w.cwnd, 0)
            else Window(w.cwnd + 2, w.cnt - 1, 0)
  {
    var c := w.cwnd;
    assert Settle(s.clamp, c + 1, w.cnt) == (c + 1, w.cnt);
    assert Settle(s.clamp, c + 1, c) == (c + 1, c);
    if w.cnt > 0 {
      assert Settle(s.clamp, c + 2, w.cnt - 1) == (c + 2, w.cnt - 1);
      assert Settle(s.clamp, c + 1, w.cnt + c) == (c + 2, w.cnt - 1);
    }
  }

  /** Above max_ssthresh an ACK earns exactly half of that, and twice as much for two full segments at level 2. */
  lemma SlowStartLimited(s: Settings, w: Window)
    requires Sound(w) && 0 < s.maxSsthresh < w.cwnd && (s.abc == 0 || w.acked >= s.mss)
    ensures var w', half := SlowStart(s, w), s.maxSsthresh / 2;
            var earned := if s.abc > 1 && w.acked >= 2 * s.mss then half + half else half;
            && w'.cwnd >= w.cwnd && w'.cnt < w'.cwnd && w'.acked == 0
            && (w'.cwnd < s.clamp ==> Price(w.cwnd, w'.cwnd - w.cwnd) + w'.cnt == w.cnt + earned)
  {
    SettleBounds(s.clamp, w.cwnd, w.cnt + Credit(s, w));
  }

  // ---------- Limited slow start ----------

  /** Window bought since `cwnd0`, at its price, plus the credit in hand. */
  ghost function Wealth(cwnd0: nat, w: Window): nat
    requires w.cwnd >= cwnd0
  {
    Price(cwnd0, w.cwnd - cwnd0) + w.cnt
  }

  lemma {:induction false} PriceAdd(cwnd: nat, g: nat, h: nat)
    ensures Price(cwnd, g + h) == Price(cwnd, g) + Price(cwnd + g, h)
  {
    if h > 0 {
      PriceAdd(cwnd, g, h - 1);
      assert (g + h) * cwnd == (g + h - 1) * cwnd + cwnd;
      assert h * (cwnd + g) == (h - 1) * (cwnd + g) + (cwnd + g);
    }
  }

  /** An ACK earns at most `income`: half of max_ssthresh, or one in congestion avoidance. */
  lemma AckEarns(s: Settings, w: Window, inFlight: nat, cwnd0: nat, income: nat)
    requires Sound(w) && s.abc == 0 && s.maxSsthresh > 0
    requires s.maxSsthresh < cwnd0 <= w.cwnd
    requires s.maxSsthresh / 2 <= income && (w.cwnd > s.ssthresh ==> 1 <= income)
    ensures var w' := Ack(s, w, inFlight); w'.cwnd >= w.cwnd && Wealth(cwnd0, w') <= Wealth(cwnd0, w) + income
  {
    AckBounds(s, w, inFlight);
    var w' := Ack(s, w, inFlight);
    PriceAdd(cwnd0, w.cwnd - cwnd0, w'.cwnd - w.cwnd);
    if Limited(s, w.cwnd, inFlight) && w.cwnd <= s.ssthresh {
      SettleBounds(s.clamp, w.cwnd, w.cnt + Credit(s, w));
    } else {
      assert Price(w.cwnd, 1) == w.cwnd;
    }
  }

  lemma {:induction false} RunEarns(s: Settings, w: Window, es: seq<Event>, income: nat)
    requires Sound(w) && s.abc == 0 && 0 < s.maxSsthresh < w.cwnd
    requires s.maxSsthresh / 2 <= income
    requires income >= 1 || Run(s, w, es).cwnd <= s.ssthresh
    ensures Run(s, w, es).cwnd >= w.cwnd
    ensures Wealth(w.cwnd, Run(s, w, es)) <= w.cnt + |es| * income
  {
    if es != [] {
      var k := |es| - 1;
      var before := Run(s, w, es[..k]);
      AckBounds(s, before, es[k].inFlight);
      RunEarns(s, w, es[..k], income);
      AckEarns(s, before, es[k].inFlight, w.cwnd, income);
      assert |es| * income == k * income + income;
    }
  }

  /** All ACKs of a run find the window limiting. */
  ghost predicate AllLimited(s: Settings, w: Window, es: seq<Event>)
    requires Sound(w)
  {
    forall k :: 0 <= k < |es| ==> Limited(s, Run(s, w, es[..k]).cwnd, es[k].inFlight)
  }

  lemma AllLimitedBefore(s: Settings, w: Window, es: seq<Event>, k: nat)
    requires Sound(w) && AllLimited(s, w, es) && k <= |es|
    ensures AllLimited(s, w, es[..k])
  {
    forall i | 0 <= i < k ensures Limited(s, Run(s, w, es[..k][..i]).cwnd, es[..k][i].inFlight) {
      assert es[..k][..i] == es[..i];
    }
  }

  lemma StepEarns(s: Settings, w: Window, e: Event, cwnd0: nat)
    requires Sound(w) && s.abc == 0 && 0 < s.maxSsthresh < cwnd0 <= w.cwnd <= s.ssthresh
    requires Limited(s, w.cwnd, e.inFlight) && Step(s, w, e).cwnd < s.clamp
    ensures var w' := Step(s, w, e);
            w'.cwnd >= w.cwnd && Wealth(cwnd0, w') == Wealth(cwnd0, w) + s.maxSsthresh / 2
  {
    SlowStartLimited(s, w);
    PriceAdd(cwnd0, w.cwnd - cwnd0, Step(s, w, e).cwnd - w.cwnd);
  }

  /** What limited ACKs earn in slow start above max_ssthresh is not lost: below the clamp, the window bought,
      at its price, and the credit in hand are exactly that. */
  lemma {:induction false} RunEarnsAll(s: Settings, w: Window, es: seq<Event>)
    requires Sound(w) && s.abc == 0 && 0 < s.maxSsthresh < w.cwnd && AllLimited(s, w, es)
    requires Run(s, w, es).cwnd <= s.ssthresh && Run(s, w, es).cwnd < s.clamp
    ensures Run(s, w, es).cwnd >= w.cwnd
    ensures Wealth(w.cwnd, Run(s, w, es)) == w.cnt + |es| * (s.maxSsthresh / 2)
  {
    if es != [] {
      var k, m := |es| - 1, s.maxSsthresh / 2;
      var before := Run(s, w, es[..k]);
      RunBounds(s, w, es[..k]);
      AckBounds(s, before, es[k].inFlight);
      AllLimitedBefore(s, w, es, k);
      RunEarnsAll(s, w, es[..k]);
      StepEarns(s, before, es[k], w.cwnd);
      assert (k + 1) * m == k * m + m;
    }
  }

  /** Limited slow start, section 2 of RFC 3742: above max_ssthresh, one window's worth of ACKs
      adds at most max_ssthresh / 2 segments, whatever the counter held and whether or not
      slow start is left on the way. */
  lemma LimitedSlowStart(s: Settings, w: Window, es: seq<Event>)
    requires Sound(w) && s.abc == 0 && 2 <= s.maxSsthresh < w.cwnd
    requires |es| <= w.cwnd
    ensures Run(s, w, es).cwnd <= w.cwnd + s.maxSsthresh / 2
  {
    RunEarns(s, w, es, s.maxSsthresh / 2);
    CannotAfford(w.cwnd, w.cnt, |es|, s.maxSsthresh / 2, Run(s, w, es).cwnd - w.cwnd);
  }

  lemma CannotAfford(cwnd: nat, cnt: nat, n: nat, m: nat, g: nat)
    requires cnt <= cwnd && n <= cwnd && m >= 1 && Price(cwnd, g) <= cnt + n * m
    ensures g <= m
  {
    if g >= m + 1 {
      PriceAtLeast(cwnd, g, m + 1);
      TriPositive(m + 1);
      MulMono(n, cwnd, m);
    }
  }

  lemma MulMono(n: nat, cwnd: nat, m: nat)
    requires n <= cwnd
    ensures n * m <= cwnd * m && (m + 1) * cwnd == cwnd * m + cwnd
  {
  }

  lemma TriPositive(g: nat)
    requires g >= 2
    ensures Tri(g) >= 1
  {
  }

  /** With max_ssthresh 1 a slow-start ACK earns nothing, and only a full counter can buy a segment. */
  lemma EarnsNothing(s: Settings, w: Window, e: Event)
    requires Sound(w) && s.abc == 0 && s.maxSsthresh == 1 < w.cwnd <= s.ssthresh
    ensures var w', full := Step(s, w, e), Limited(s, w.cwnd, e.inFlight) && w.cnt == w.cwnd;
            w'.cwnd == (if full then Grow(s, w.cwnd) else w.cwnd) && w'.cnt == if full then 0 else w.cnt
  {
    if w.cnt == w.cwnd {
      assert Settle(s.clamp, Grow(s, w.cwnd), 0) == (Grow(s, w.cwnd), 0);
    }
  }

  /** Some ACK finds a window of this size limiting. */
  ghost predicate SomeLimited(s: Settings, cwnd: nat, es: seq<Event>) {
    exists i :: 0 <= i < |es| && Limited(s, cwnd, es[i].inFlight)
  }

  lemma SomeLimitedLast(s: Settings, cwnd: nat, es: seq<Event>)
    requires es != []
    ensures SomeLimited(s, cwnd, es) <==>
            SomeLimited(s, cwnd, es[..|es| - 1]) || Limited(s, cwnd, es[|es| - 1].inFlight)
  {
    var rest := es[..|es| - 1];
    if SomeLimited(s, cwnd, rest) {
      var i :| 0 <= i < |rest| && Limited(s, cwnd, rest[i].inFlight);
      assert Limited(s, cwnd, es[i].inFlight);
    }
    if SomeLimited(s, cwnd, es) && !Limited(s, cwnd, es[|es| - 1].inFlight) {
      var i :| 0 <= i < |es| && Limited(s, cwnd, es[i].inFlight);
      assert Limited(s, cwnd, rest[i].inFlight);
    }
  }

  /** Where the window and the counter are after a run that starts in slow start with max_ssthresh 1. */
  lemma {:induction false} NothingRun(s: Settings, w: Window, es: seq<Event>)
    requires Sound(w) && s.abc == 0 && s.maxSsthresh == 1 < w.cwnd <= s.ssthresh
    requires w.cwnd < s.ssthresh || w.cnt < w.cwnd || |es| <= w.cwnd + 2
    ensures var r := Run(s, w, es);
            if w.cnt == w.cwnd && SomeLimited(s, w.cwnd, es)
            then r.cwnd == Grow(s, w.cwnd) && r.cnt < |es| && (r.cwnd <= s.ssthresh ==> r.cnt == 0)
            else r.cwnd == w.cwnd && r.cnt == w.cnt
  {
    if es != [] {
      var k := |es| - 1;
      var before := Run(s, w, es[..k]);
      NothingRun(s, w, es[..k]);
      SomeLimitedLast(s, w.cwnd, es);
      assert Run(s, w, es) == Step(s, before, es[k]);
      if before.cwnd <= s.ssthresh {
        EarnsNothing(s, before, es[k]);
      }
    }
  }

  /** Above max_ssthresh 1 the bound of RFC 3742 is no growth at all. A run grows the window, and then
      by one segment, exactly when the counter was full, the clamp allows it and some ACK was limited. */
  lemma LimitedToNothing(s: Settings, w: Window, es: seq<Event>)
    requires Sound(w) && s.abc == 0 && s.maxSsthresh == 1 < w.cwnd <= s.ssthresh
    requires w.cwnd < s.ssthresh || w.cnt < w.cwnd || |es| <= w.cwnd + 2
    ensures Run(s, w, es).cwnd ==
            w.cwnd + if w.cnt == w.cwnd < s.clamp && SomeLimited(s, w.cwnd, es) then 1 else 0
  {
    NothingRun(s, w, es);
  }

  /** Such a run: two segments in flight fill the window of two, and one ACK adds a third. */
  lemma LimitedToNothingFails()
    ensures var s := Settings(0, 1, 3, false, 3, 65536, 10, 5, 1460);
            var w := Window(2, 2, 0);
            Sound(w) && Run(s, w, [Event(1460, 2)]).cwnd == 3 > w.cwnd + s.maxSsthresh / 2
  {
    var s := Settings(0, 1, 3, false, 3, 65536, 10, 5, 1460);
    var es := [Event(1460, 2)];
    assert Limited(s, 2, es[0].inFlight);
    LimitedToNothing(s, Window(2, 2, 0), es);
  }

  // ---------- Congestion avoidance ----------

  /** In congestion avoidance without byte counting, `k` limited ACKs within one window's worth
      plus one: the counter runs up to the window, buys one segment, and starts again. */
  lemma {:induction false} AvoidRun(s: Settings, w: Window, es: seq<Event>)
    requires Sound(w) && s.abc == 0 && w.cwnd > s.ssthresh && |es| <= w.cwnd + 1
    ensures var r, k := Run(s, w, es), w.cnt + AckCount(s, w, es);
            if k <= w.cwnd then r.cwnd == w.cwnd && r.cnt == k
            else r.cwnd == (if w.cwnd < s.clamp then w.cwnd + 1 else w.cwnd) && r.cnt == k - (w.cwnd + 1)
  {
    if es != [] {
      var k := |es| - 1;
      AvoidRun(s, w, es[..k]);
      AckCountBound(s, w, es[..k]);
      var before := Run(s, w, es[..k]);
      AckBounds(s, before, es[k].inFlight);
    }
  }

  /** How many of the ACKs found the window limiting. */
  ghost function AckCount(s: Settings, w: Window, es: seq<Event>): nat
    requires Sound(w)
  {
    if es == [] then 0
    else
      var k := |es| - 1;
      AckCount(s, w, es[..k]) + if Limited(s, Run(s, w, es[..k]).cwnd, es[k].inFlight) then 1 else 0
  }

  lemma {:induction false} AckCountBound(s: Settings, w: Window, es: seq<Event>)
    requires Sound(w)
    ensures AckCount(s, w, es) <= |es|
  {
    if es != [] {
      AckCountBound(s, w, es[..|es| - 1]);
    }
  }

  /** Section 3.1 of RFC 2581: in congestion avoidance any window's worth of ACKs and one more
      adds at most one segment, and exactly one if all were limited and the clamp allows it. */
  lemma AvoidanceAddsOne(s: Settings, w: Window, es: seq<Event>)
    requires Sound(w) && s.abc == 0 && w.cwnd > s.ssthresh && |es| <= w.cwnd + 1
    ensures Run(s, w, es).cwnd <= w.cwnd + 1
    ensures AckCount(s, w, es) == w.cwnd + 1 ==>
              Run(s, w, es).cwnd == if w.cwnd < s.clamp then w.cwnd + 1 else w.cwnd
  {
    AvoidRun(s, w, es);
  }
}
