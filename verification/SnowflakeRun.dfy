/** Whole runs of the identifier generator: when all identifiers are different. */
module SnowflakeRun {
  import opened SnowflakeFields
  import opened Snowflake

  datatype Setting = Setting(comp: Composition, actime: int)

  const ZERO: Fields := Fields(0, 0, 0, 0, 0, 0)

  predicate Answered(cfg: Setting, r: Reading) {
    !Fails(cfg.comp, r, cfg.actime)
  }

  /** The fields of the identifiers that a new generator hands out for these readings. */
  function Run(cfg: Setting, rs: seq<Reading>): seq<Fields>
    decreases |rs|
  {
    if rs == [] then []
    else
      var n := |rs| - 1;
      var before := Run(cfg, rs[..n]);
      if !Answered(cfg, rs[n]) then before
      else before + [Next(cfg.comp, rs[n], cfg.actime, LastOf(before))]
  }

  /** The readings that did not fail. */
  function Good(cfg: Setting, rs: seq<Reading>): (g: seq<Reading>)
    decreases |rs|
  {
    if rs == [] then []
    else
      var n := |rs| - 1;
      Good(cfg, rs[..n]) + if Answered(cfg, rs[n]) then [rs[n]] else []
  }

  function FieldsAt(cfg: Setting, g: seq<Reading>, k: nat): Fields
    requires k < |g|
    decreases k
  {
    Next(cfg.comp, g[k], cfg.actime, if k == 0 then ZERO else FieldsAt(cfg, g, k - 1))
  }

  lemma {:induction false} FieldsAtPrefix(cfg: Setting, g: seq<Reading>, h: seq<Reading>, k: nat)
    requires k < |g|
    ensures FieldsAt(cfg, g + h, k) == FieldsAt(cfg, g, k)
    decreases k
  {
    if k > 0 { FieldsAtPrefix(cfg, g, h, k - 1); }
  }

  /** Failed readings leave no trace in a run. */
  lemma {:induction false} FailuresDoNotDisturb(cfg: Setting, rs: seq<Reading>)
    ensures |Run(cfg, rs)| == |Good(cfg, rs)|
    ensures forall k :: 0 <= k < |Run(cfg, rs)| ==> Run(cfg, rs)[k] == FieldsAt(cfg, Good(cfg, rs), k)
    decreases |rs|
  {
    if rs != [] {
      var n := |rs| - 1;
      var g := Good(cfg, rs[..n]);
      FailuresDoNotDisturb(cfg, rs[..n]);
      if Answered(cfg, rs[n]) {
        forall k | 0 <= k < |g| ensures FieldsAt(cfg, g + [rs[n]], k) == FieldsAt(cfg, g, k) {
          FieldsAtPrefix(cfg, g, [rs[n]], k);
        }
      } else {
        assert g + [] == g;
      }
    }
  }

  // What a run must be like.

  function TimeOf(cfg: Setting, r: Reading): nat {
    OuterValue(cfg.comp, r, cfg.actime, Time)
  }

  predicate Regresses(cfg: Setting, g: seq<Reading>, k: nat)
    requires k < |g|
  {
    k > 0 && TimeOf(cfg, g[k]) < TimeOf(cfg, g[k - 1])
  }

  /** How often the time went back among the first n readings. */
  function Regressions(cfg: Setting, g: seq<Reading>, n: nat): nat
    requires n <= |g|
  {
    if n == 0 then 0 else Regressions(cfg, g, n - 1) + if Regresses(cfg, g, n - 1) then 1 else 0
  }

  ghost predicate SameTime(cfg: Setting, g: seq<Reading>, i: nat, j: nat)
    requires j < |g|
  {
    forall k :: i <= k <= j ==> TimeOf(cfg, g[k]) == TimeOf(cfg, g[i])
  }

  /** No unbroken stretch of equal times is longer than the limit. */
  ghost predicate ShortStretches(cfg: Setting, g: seq<Reading>, limit: nat) {
    forall i: nat, j: nat :: i <= j < |g| && SameTime(cfg, g, i, j) ==> j - i < limit
  }

  /** The interfaces keep their addresses. */
  ghost predicate Steady(cfg: Setting, g: seq<Reading>) {
    forall k {:trigger g[k]} :: 0 <= k < |g| ==>
      && OuterValue(cfg.comp, g[k], cfg.actime, Mac) == OuterValue(cfg.comp, g[0], cfg.actime, Mac)
      && OuterValue(cfg.comp, g[k], cfg.actime, Ipv4) == OuterValue(cfg.comp, g[0], cfg.actime, Ipv4)
      && OuterValue(cfg.comp, g[k], cfg.actime, Ipv6) == OuterValue(cfg.comp, g[0], cfg.actime, Ipv6)
  }

  lemma Quotient(x: nat, p: nat, q: nat, r: nat)
    requires x == p * q + r && r < p
    ensures x % p == r
  {
    var q', r' := x / p, x % p;
    assert p * (q - q') == r' - r;
    if q > q' { Product(p, q - q'); }
    if q < q' { Product(p, q' - q); }
  }

  lemma Product(p: nat, n: nat)
    requires n > 0
    ensures p * n >= p
  {
  }

  lemma MaskedSmall(value: nat, bits: nat)
    requires value < Pow2(bits)
    ensures Masked(value, bits) == value
  {
    Quotient(value, Pow2(bits), 0, value);
  }

  lemma MaskedStep(x: nat, bits: nat)
    ensures Masked(Masked(x, bits) + 1, bits) == Masked(x + 1, bits)
  {
    var p := Pow2(bits);
    var q, r := x / p, x % p;
    if r + 1 < p {
      Quotient(x + 1, p, q, r + 1);
      Quotient(r + 1, p, 0, r + 1);
    } else {
      Quotient(x + 1, p, q + 1, 0);
      Quotient(p, p, 1, 0);
    }
  }

  lemma {:induction false} RegressionsGrow(cfg: Setting, g: seq<Reading>, m: nat, n: nat)
    requires m <= n <= |g|
    ensures Regressions(cfg, g, m) <= Regressions(cfg, g, n)
    decreases n
  {
    if m < n { RegressionsGrow(cfg, g, m, n - 1); }
  }

  /** The time-back field counts the regressions, as long as they fit into it. */
  lemma {:induction false} TimeBackCounts(cfg: Setting, g: seq<Reading>, k: nat)
    requires k < |g| && Regressions(cfg, g, |g|) < Pow2(Bits(cfg.comp, TimeBack))
    ensures FieldsAt(cfg, g, k).timeBack == Regressions(cfg, g, k + 1)
    decreases k
  {
    RegressionsGrow(cfg, g, k + 1, |g|);
    MaskedSmall(Regressions(cfg, g, k + 1), Bits(cfg.comp, TimeBack));
    if k > 0 {
      TimeBackCounts(cfg, g, k - 1);
    } else {
      assert Regressions(cfg, g, 0) == 0 && Regressions(cfg, g, 1) == 0;
    }
  }

  /** Without a regression in between times do not fall. */
  lemma {:induction false} TimesRise(cfg: Setting, g: seq<Reading>, i: nat, j: nat)
    requires i <= j < |g| && Regressions(cfg, g, i + 1) == Regressions(cfg, g, j + 1)
    ensures TimeOf(cfg, g[i]) <= TimeOf(cfg, g[j])
    ensures TimeOf(cfg, g[i]) == TimeOf(cfg, g[j]) ==> SameTime(cfg, g, i, j)
    decreases j
  {
    if i < j {
      RegressionsGrow(cfg, g, i + 1, j);
      TimesRise(cfg, g, i, j - 1);
    }
  }

  lemma StandsStill(cfg: Setting, g: seq<Reading>, k: nat)
    requires 0 < k < |g| && Steady(cfg, g) && TimeOf(cfg, g[k]) == TimeOf(cfg, g[k - 1])
    ensures FieldsAt(cfg, g, k).serial == Masked(FieldsAt(cfg, g, k - 1).serial + 1, Bits(cfg.comp, Serial))
  {
    var last := FieldsAt(cfg, g, k - 1);
    assert g[k] == g[k] && g[k - 1] == g[k - 1];
    forall c: Component | Outer(c) ensures OuterValue(cfg.comp, g[k], cfg.actime, c) == Get(last, c) {
      match c
      case Time =>
      case Mac =>
      case Ipv4 =>
      case Ipv6 =>
    }
    assert !Moved(cfg.comp, g[k], cfg.actime, last);
  }

  lemma SerialInRange(cfg: Setting, g: seq<Reading>, k: nat)
    requires k < |g|
    ensures FieldsAt(cfg, g, k).serial < Pow2(Bits(cfg.comp, Serial))
  {
  }

  /** While time stands still the serial number counts on, modulo its size. */
  lemma {:induction false} SerialCounts(cfg: Setting, g: seq<Reading>, i: nat, j: nat)
    requires i <= j < |g| && Steady(cfg, g) && SameTime(cfg, g, i, j)
    ensures FieldsAt(cfg, g, j).serial == Masked(FieldsAt(cfg, g, i).serial + (j - i), Bits(cfg.comp, Serial))
    decreases j
  {
    var bits, s := Bits(cfg.comp, Serial), FieldsAt(cfg, g, i).serial;
    if i == j {
      SerialInRange(cfg, g, i);
      MaskedSmall(s, bits);
    } else {
      SerialCounts(cfg, g, i, j - 1);
      assert TimeOf(cfg, g[j]) == TimeOf(cfg, g[i]) && TimeOf(cfg, g[j - 1]) == TimeOf(cfg, g[i]);
      StandsStill(cfg, g, j);
      MaskedStep(s + (j - 1 - i), bits);
    }
  }

  lemma ModDiffers(s: nat, d: nat, p: nat)
    requires s < p && 0 < d < p
    ensures (s + d) % p != s
  {
    if s + d < p {
      Quotient(s + d, p, 0, s + d);
    } else {
      Quotient(s + d, p, 1, s + d - p);
    }
  }

  /** Two identifiers of a run differ in time, in the time-back field or in the serial
      number. */
  lemma FieldsDiffer(cfg: Setting, g: seq<Reading>, i: nat, j: nat)
    requires i < j < |g| && Steady(cfg, g)
    requires Regressions(cfg, g, |g|) < Pow2(Bits(cfg.comp, TimeBack))
    requires ShortStretches(cfg, g, Pow2(Bits(cfg.comp, Serial)))
    ensures var a, b := FieldsAt(cfg, g, i), FieldsAt(cfg, g, j);
            a.time != b.time || a.timeBack != b.timeBack || a.serial != b.serial
  {
    var a, b := FieldsAt(cfg, g, i), FieldsAt(cfg, g, j);
    if a.time == b.time && a.timeBack == b.timeBack {
      TimeBackCounts(cfg, g, i);
      TimeBackCounts(cfg, g, j);
      TimesRise(cfg, g, i, j);
      SerialCounts(cfg, g, i, j);
      SerialInRange(cfg, g, i);
      ModDiffers(a.serial, j - i, Pow2(Bits(cfg.comp, Serial)));
    }
  }

  lemma AtFields(cfg: Setting, g: seq<Reading>, k: nat)
    requires k < |g| && EachOnce(cfg.comp)
    ensures FieldsInRange(cfg.comp, FieldsAt(cfg, g, k))
    ensures !Has(cfg.comp, TimeBack) ==> FieldsAt(cfg, g, k).timeBack == 0
  {
    var last := if k == 0 then ZERO else FieldsAt(cfg, g, k - 1);
    NextInRange(cfg.comp, g[k], cfg.actime, last);
    if !Has(cfg.comp, TimeBack) { AbsentIsZero(cfg.comp, g[k], cfg.actime, last, TimeBack); }
  }

  lemma IdsDiffer(cfg: Setting, g: seq<Reading>, i: nat, j: nat)
    requires i < j < |g| && Steady(cfg, g) && Proper(cfg.comp)
    requires Has(cfg.comp, Time) && Has(cfg.comp, Serial)
    requires Regressions(cfg, g, |g|) < Pow2(Bits(cfg.comp, TimeBack))
    requires ShortStretches(cfg, g, Pow2(Bits(cfg.comp, Serial)))
    ensures IdOf(cfg.comp, FieldsAt(cfg, g, i)) != IdOf(cfg.comp, FieldsAt(cfg, g, j))
  {
    var a, b := FieldsAt(cfg, g, i), FieldsAt(cfg, g, j);
    AtFields(cfg, g, i);
    AtFields(cfg, g, j);
    IdDetermines(cfg.comp, a, b);
    FieldsDiffer(cfg, g, i, j);
    var t :| 0 <= t < |cfg.comp| && cfg.comp[t].component == Time;
    var s :| 0 <= s < |cfg.comp| && cfg.comp[s].component == Serial;
    if a.timeBack != b.timeBack {
      var u :| 0 <= u < |cfg.comp| && cfg.comp[u].component == TimeBack;
      assert Get(a, cfg.comp[u].component) != Get(b, cfg.comp[u].component);
    }
  }

  /** For every composition with a time and a serial number: if the time goes back at most
      as often as the time-back field can count, never stands still for more calls than
      the serial number has values, and the addresses stay, then no two identifiers of a
      run are equal, whatever readings fail in between, and none is the failure value. */
  lemma RunIsUnique(cfg: Setting, rs: seq<Reading>)
    requires Proper(cfg.comp) && Has(cfg.comp, Time) && Has(cfg.comp, Serial)
    requires Steady(cfg, Good(cfg, rs))
    requires Regressions(cfg, Good(cfg, rs), |Good(cfg, rs)|) < Pow2(Bits(cfg.comp, TimeBack))
    requires ShortStretches(cfg, Good(cfg, rs), Pow2(Bits(cfg.comp, Serial)))
    ensures forall i, j :: 0 <= i < j < |Run(cfg, rs)| ==>
              IdOf(cfg.comp, Run(cfg, rs)[i]) != IdOf(cfg.comp, Run(cfg, rs)[j])
    ensures forall i :: 0 <= i < |Run(cfg, rs)| ==> IdOf(cfg.comp, Run(cfg, rs)[i]) != INVALID_ID
  {
    FailuresDoNotDisturb(cfg, rs);
    var g := Good(cfg, rs);
    forall i, j | 0 <= i < j < |Run(cfg, rs)|
      ensures IdOf(cfg.comp, Run(cfg, rs)[i]) != IdOf(cfg.comp, Run(cfg, rs)[j])
    {
      IdsDiffer(cfg, g, i, j);
    }
  }

  lemma {:induction false} TimeBackStays(cfg: Setting, g: seq<Reading>, i: nat, j: nat)
    requires i <= j < |g| && SameTime(cfg, g, i, j)
    ensures FieldsAt(cfg, g, j).timeBack == FieldsAt(cfg, g, i).timeBack
    decreases j
  {
    if i < j {
      TimeBackStays(cfg, g, i, j - 1);
      assert TimeOf(cfg, g[j]) == TimeOf(cfg, g[i]) && TimeOf(cfg, g[j - 1]) == TimeOf(cfg, g[i]);
      MaskedSmall(FieldsAt(cfg, g, j - 1).timeBack, Bits(cfg.comp, TimeBack));
    }
  }

  /** The limit on a stretch is sharp: one call more at the same time repeats an
      identifier. */
  lemma LongStretchRepeats(cfg: Setting, g: seq<Reading>, i: nat)
    requires Proper(cfg.comp) && Steady(cfg, g)
    requires i + Pow2(Bits(cfg.comp, Serial)) < |g| && SameTime(cfg, g, i, i + Pow2(Bits(cfg.comp, Serial)))
    ensures IdOf(cfg.comp, FieldsAt(cfg, g, i)) == IdOf(cfg.comp, FieldsAt(cfg, g, i + Pow2(Bits(cfg.comp, Serial))))
  {
    var j := i + Pow2(Bits(cfg.comp, Serial));
    var a, b := FieldsAt(cfg, g, i), FieldsAt(cfg, g, j);
    SerialCounts(cfg, g, i, j);
    SerialInRange(cfg, g, i);
    Quotient(a.serial + (j - i), Pow2(Bits(cfg.comp, Serial)), 1, a.serial);
    TimeBackStays(cfg, g, i, j);
    assert TimeOf(cfg, g[j]) == TimeOf(cfg, g[i]);
    assert g[i] == g[i] && g[j] == g[j];
    assert a == b;
  }

  lemma RunSnoc(cfg: Setting, rs: seq<Reading>, i: nat)
    requires i < |rs|
    ensures var before := Run(cfg, rs[..i]);
            Run(cfg, rs[..i + 1]) ==
              if !Answered(cfg, rs[i]) then before else before + [Next(cfg.comp, rs[i], cfg.actime, LastOf(before))]
  {
    assert rs[..i + 1][..i] == rs[..i] && rs[..i + 1][i] == rs[i];
  }

  /** A client that asks a new generator for one identifier after another and keeps those
      that are not the failure value. */
  method Generate(g: Generator, rs: seq<Reading>) returns (ids: seq<int>)
    requires g.Valid() && g.Last() == ZERO
    modifies g, g.last, g.curr
    ensures g.Valid()
    ensures var fs := Run(Setting(g.composition, g.actime), rs);
            |ids| == |fs| && forall k :: 0 <= k < |fs| ==> ids[k] == IdOf(g.composition, fs[k])
  {
    ids := [];
    ghost var cfg := Setting(g.composition, g.actime);
    ghost var fs: seq<Fields> := [];
    for i := 0 to |rs|
      invariant g.Valid() && {g.last, g.curr} == old({g.last, g.curr})
      invariant fs == Run(cfg, rs[..i]) && |ids| == |fs|
      invariant forall k :: 0 <= k < |fs| ==> ids[k] == IdOf(g.composition, fs[k])
      invariant g.Last() == LastOf(fs)
    {
      assert Run(cfg, rs[..i + 1])
          == if !Answered(cfg, rs[i]) then fs else fs + [Next(cfg.comp, rs[i], cfg.actime, LastOf(fs))] by {
        RunSnoc(cfg, rs, i);
      }
      var id := g.ID(rs[i]);
      if id != INVALID_ID {
        ids := ids + [id];
        fs := fs + [g.Last()];
      }
    }
    assert rs[..|rs|] == rs;
  }

  function LastOf(fs: seq<Fields>): Fields {
    if fs == [] then ZERO else fs[|fs| - 1]
  }

  // The predefined modes.

  const DEFAULT: Composition := [Field(Time, 41), Field(Mac, 10), Field(Serial, 12)]
  const SINGLE_NODE: Composition := [Field(Time, 45), Field(TimeBack, 2), Field(Serial, 16)]
  const DISTRIBUTE: Composition := [Field(Time, 41), Field(TimeBack, 2), Field(Mac, 10), Field(Serial, 12)]

  lemma Powers()
    ensures Pow2(0) == 1 && Pow2(2) == 4 && Pow2(12) == 4096 && Pow2(16) == 65536
  {
    Pow2Sum(8, 8);
    Pow2Sum(8, 4);
    assert Pow2(4) == 16 && Pow2(8) == 256;
  }

  lemma ModeBits()
    ensures Proper(DEFAULT) && Bits(DEFAULT, TimeBack) == 0 && Bits(DEFAULT, Serial) == 12
    ensures Has(DEFAULT, Time) && Has(DEFAULT, Serial)
    ensures Proper(SINGLE_NODE) && Bits(SINGLE_NODE, TimeBack) == 2 && Bits(SINGLE_NODE, Serial) == 16
    ensures Has(SINGLE_NODE, Time) && Has(SINGLE_NODE, Serial)
    ensures forall c: Component :: c.Ipv4? || c.Ipv6? ==> Bits(DEFAULT, c) == 0 && Bits(SINGLE_NODE, c) == 0
    ensures Bits(SINGLE_NODE, Mac) == 0
    ensures Total(DISTRIBUTE) == 65 && !Proper(DISTRIBUTE)
  {
    assert DEFAULT[0].component == Time && DEFAULT[2].component == Serial;
    assert SINGLE_NODE[0].component == Time && SINGLE_NODE[2].component == Serial;
    assert Total(DEFAULT) == 63 && Total(SINGLE_NODE) == 63;
  }

  lemma NoAddresses(cfg: Setting, g: seq<Reading>, c: Component)
    requires Outer(c) && Bits(cfg.comp, c) == 0
    ensures forall k :: 0 <= k < |g| ==> OuterValue(cfg.comp, g[k], cfg.actime, c) == 0
  {
    assert Pow2(0) == 1;
  }

  lemma SingleNodeIsSteady(actime: int, g: seq<Reading>)
    ensures Steady(Setting(SINGLE_NODE, actime), g)
  {
    var cfg := Setting(SINGLE_NODE, actime);
    ModeBits();
    NoAddresses(cfg, g, Mac);
    NoAddresses(cfg, g, Ipv4);
    NoAddresses(cfg, g, Ipv6);
  }

  lemma DefaultIsSteady(actime: int, g: seq<Reading>, mac: nat)
    requires forall k :: 0 <= k < |g| ==> OuterValue(DEFAULT, g[k], actime, Mac) == mac
    ensures Steady(Setting(DEFAULT, actime), g)
  {
    var cfg := Setting(DEFAULT, actime);
    ModeBits();
    NoAddresses(cfg, g, Ipv4);
    NoAddresses(cfg, g, Ipv6);
  }
}
