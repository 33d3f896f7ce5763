/** Exactly which runs of the identifier generator repeat an identifier. */
module SnowflakeUnique {
  import opened Common
  import opened Snowflake
  import opened SnowflakeFields
  import opened SnowflakeRun

  ghost predicate SameOuter(cfg: Setting, a: Reading, b: Reading) {
    forall c: Component :: Outer(c) ==> OuterValue(cfg.comp, a, cfg.actime, c) == OuterValue(cfg.comp, b, cfg.actime, c)
  }

  /** The reading shows nothing new. */
  ghost predicate Still(cfg: Setting, g: seq<Reading>, k: nat)
    requires k < |g|
  {
    k > 0 && SameOuter(cfg, g[k], g[k - 1])
  }

  /** How many of the first n readings show nothing new. */
  ghost function Stills(cfg: Setting, g: seq<Reading>, n: nat): nat
    requires n <= |g|
  {
    if n == 0 then 0 else Stills(cfg, g, n - 1) + if Still(cfg, g, n - 1) then 1 else 0
  }

  lemma {:induction false} StillsGrow(cfg: Setting, g: seq<Reading>, m: nat, n: nat)
    requires m <= n <= |g|
    ensures Stills(cfg, g, m) <= Stills(cfg, g, n) <= Stills(cfg, g, m) + (n - m)
    decreases n
  {
    if m < n { StillsGrow(cfg, g, m, n - 1); }
  }

  /** Two calls with the same time and addresses, between which the time went back a
      multiple of what its field can count, and nothing was new a multiple of what the
      serial number can count. */
  ghost predicate Clash(cfg: Setting, g: seq<Reading>, i: nat, j: nat)
    requires i < j < |g|
  {
    && SameOuter(cfg, g[i], g[j])
    && Masked(Between(cfg, g, i, j).0, Bits(cfg.comp, TimeBack)) == 0
    && Masked(Between(cfg, g, i, j).1, Bits(cfg.comp, Serial)) == 0
  }

  /** Regressions, and readings that show nothing new, after reading i up to reading j. */
  ghost function Between(cfg: Setting, g: seq<Reading>, i: nat, j: nat): (nat, nat)
    requires i < j < |g|
  {
    RegressionsGrow(cfg, g, i + 1, j + 1);
    StillsGrow(cfg, g, i + 1, j + 1);
    (Regressions(cfg, g, j + 1) - Regressions(cfg, g, i + 1), Stills(cfg, g, j + 1) - Stills(cfg, g, i + 1))
  }

  lemma MovedIsNew(cfg: Setting, g: seq<Reading>, k: nat)
    requires 0 < k < |g|
    ensures Moved(cfg.comp, g[k], cfg.actime, FieldsAt(cfg, g, k - 1)) <==> !Still(cfg, g, k)
  {
    var last := FieldsAt(cfg, g, k - 1);
    forall c: Component | Outer(c) ensures Get(last, c) == OuterValue(cfg.comp, g[k - 1], cfg.actime, c) {
      match c
      case Time =>
      case Mac =>
      case Ipv4 =>
      case Ipv6 =>
    }
    if !Still(cfg, g, k) {
      var c: Component :| Outer(c)
        && OuterValue(cfg.comp, g[k], cfg.actime, c) != OuterValue(cfg.comp, g[k - 1], cfg.actime, c);
      NewIsThere(cfg, g[k], g[k - 1], c);
      var i :| 0 <= i < |cfg.comp| && cfg.comp[i].component == c;
      assert Outer(cfg.comp[i].component);
    }
  }

  lemma NewIsThere(cfg: Setting, a: Reading, b: Reading, c: Component)
    requires Outer(c) && OuterValue(cfg.comp, a, cfg.actime, c) != OuterValue(cfg.comp, b, cfg.actime, c)
    ensures Has(cfg.comp, c)
  {
    if !Has(cfg.comp, c) {
      AbsentOuter(cfg, a, c);
      AbsentOuter(cfg, b, c);
    }
  }

  lemma AbsentOuter(cfg: Setting, r: Reading, c: Component)
    requires Outer(c) && !Has(cfg.comp, c)
    ensures OuterValue(cfg.comp, r, cfg.actime, c) == 0
  {
    BitsAbsent(cfg.comp, c);
    assert Pow2(0) == 1;
  }

  lemma MaskedSum(x: nat, n: nat, bits: nat)
    ensures Masked(Masked(x, bits) + n, bits) == Masked(x + n, bits)
    decreases n
  {
    if n == 0 {
      MaskedSmall(Masked(x, bits), bits);
    } else {
      var u, v := Masked(x, bits) + (n - 1), x + (n - 1);
      assert Masked(u, bits) == Masked(v, bits) by { MaskedSum(x, n - 1, bits); }
      NextMasked(u, v, bits);
    }
  }

  lemma NextMasked(u: nat, v: nat, bits: nat)
    requires Masked(u, bits) == Masked(v, bits)
    ensures Masked(u + 1, bits) == Masked(v + 1, bits)
  {
    MaskedStep(u, bits);
    MaskedStep(v, bits);
  }

  lemma SerialStep(bits: nat, last: Fields, before: nat, still: bool)
    requires last.serial == Masked(before, bits)
    ensures SerialValue(bits, last, !still) == Masked(if still then before + 1 else before, bits)
  {
    if still { MaskedStep(before, bits); } else { MaskedSmall(last.serial, bits); }
  }

  /** The serial number counts the readings that show nothing new, modulo its size. */
  lemma {:induction false} SerialIsStills(cfg: Setting, g: seq<Reading>, k: nat)
    requires k < |g|
    ensures FieldsAt(cfg, g, k).serial
         == Masked(FieldsAt(cfg, g, 0).serial + Stills(cfg, g, k + 1), Bits(cfg.comp, Serial))
    decreases k
  {
    var bits, first := Bits(cfg.comp, Serial), FieldsAt(cfg, g, 0).serial;
    if k == 0 {
      SerialInRange(cfg, g, 0);
      assert Stills(cfg, g, 0) == 0 && Stills(cfg, g, 1) == 0;
      MaskedSmall(first, bits);
    } else {
      var before := first + Stills(cfg, g, k);
      assert FieldsAt(cfg, g, k - 1).serial == Masked(before, bits) by { SerialIsStills(cfg, g, k - 1); }
      assert FieldsAt(cfg, g, k).serial == SerialValue(bits, FieldsAt(cfg, g, k - 1), !Still(cfg, g, k)) by {
        MovedIsNew(cfg, g, k);
      }
      SerialStep(bits, FieldsAt(cfg, g, k - 1), before, Still(cfg, g, k));
    }
  }

  /** The time-back field counts the regressions, modulo its size. */
  lemma {:induction false} TimeBackIsRegressions(cfg: Setting, g: seq<Reading>, k: nat)
    requires k < |g|
    ensures FieldsAt(cfg, g, k).timeBack == Masked(Regressions(cfg, g, k + 1), Bits(cfg.comp, TimeBack))
    decreases k
  {
    var bits := Bits(cfg.comp, TimeBack);
    if k == 0 {
      assert Regressions(cfg, g, 0) == 0 && Regressions(cfg, g, 1) == 0;
    } else {
      TimeBackIsRegressions(cfg, g, k - 1);
      var before := Regressions(cfg, g, k);
      if Regresses(cfg, g, k) {
        MaskedStep(before, bits);
      } else {
        MaskedSmall(Masked(before, bits), bits);
      }
    }
  }

  lemma SameMask(x: nat, n: nat, bits: nat)
    ensures Masked(x + n, bits) == Masked(x, bits) <==> Masked(n, bits) == 0
  {
    var p := Pow2(bits);
    var r, m := x % p, n % p;
    MaskedSum(n, r, bits);
    MaskedSum(x, n, bits);
    assert Masked(x + n, bits) == Masked(m + r, bits);
    if m + r < p {
      MaskedSmall(m + r, bits);
    } else {
      Quotient(m + r, p, 1, m + r - p);
    }
  }

  /** Equal identifiers are those with equal fields, the absent ones included. */
  lemma IdIsFields(cfg: Setting, g: seq<Reading>, i: nat, j: nat)
    requires i < |g| && j < |g| && Proper(cfg.comp)
    ensures IdOf(cfg.comp, FieldsAt(cfg, g, i)) == IdOf(cfg.comp, FieldsAt(cfg, g, j))
       <==> FieldsAt(cfg, g, i) == FieldsAt(cfg, g, j)
  {
    var a, b := FieldsAt(cfg, g, i), FieldsAt(cfg, g, j);
    AtFields(cfg, g, i);
    AtFields(cfg, g, j);
    IdDetermines(cfg.comp, a, b);
    if IdOf(cfg.comp, a) == IdOf(cfg.comp, b) {
      forall c: Component ensures Get(a, c) == Get(b, c) {
        if Has(cfg.comp, c) {
          var k :| 0 <= k < |cfg.comp| && cfg.comp[k].component == c;
          assert Get(a, cfg.comp[k].component) == Get(b, cfg.comp[k].component);
        } else {
          AbsentIsZero(cfg.comp, g[i], cfg.actime, if i == 0 then ZERO else FieldsAt(cfg, g, i - 1), c);
          AbsentIsZero(cfg.comp, g[j], cfg.actime, if j == 0 then ZERO else FieldsAt(cfg, g, j - 1), c);
        }
      }
      SameFields(a, b);
    }
  }

  lemma SameFields(a: Fields, b: Fields)
    requires forall c: Component :: Get(a, c) == Get(b, c)
    ensures a == b
  {
    assert Get(a, Time) == Get(b, Time) && Get(a, TimeBack) == Get(b, TimeBack) && Get(a, Serial) == Get(b, Serial);
    assert Get(a, Mac) == Get(b, Mac) && Get(a, Ipv4) == Get(b, Ipv4) && Get(a, Ipv6) == Get(b, Ipv6);
  }

  lemma OuterIsFields(cfg: Setting, g: seq<Reading>, i: nat, j: nat)
    requires i < |g| && j < |g|
    ensures var a, b := FieldsAt(cfg, g, i), FieldsAt(cfg, g, j);
            SameOuter(cfg, g[i], g[j]) <==> a.time == b.time && a.mac == b.mac && a.ipv4 == b.ipv4 && a.ipv6 == b.ipv6
  {
    var a, b := FieldsAt(cfg, g, i), FieldsAt(cfg, g, j);
    if SameOuter(cfg, g[i], g[j]) {
      assert Outer(Time) && Outer(Mac) && Outer(Ipv4) && Outer(Ipv6);
    }
    if a.time == b.time && a.mac == b.mac && a.ipv4 == b.ipv4 && a.ipv6 == b.ipv6 {
      forall c: Component | Outer(c)
        ensures OuterValue(cfg.comp, g[i], cfg.actime, c) == OuterValue(cfg.comp, g[j], cfg.actime, c)
      {
        match c
        case Time =>
        case Mac =>
        case Ipv4 =>
        case Ipv6 =>
      }
    }
  }

  lemma EqualTimeBack(cfg: Setting, g: seq<Reading>, i: nat, j: nat)
    requires i < j < |g|
    ensures FieldsAt(cfg, g, i).timeBack == FieldsAt(cfg, g, j).timeBack
       <==> Masked(Between(cfg, g, i, j).0, Bits(cfg.comp, TimeBack)) == 0
  {
    var bits := Bits(cfg.comp, TimeBack);
    assert FieldsAt(cfg, g, i).timeBack == Masked(Regressions(cfg, g, i + 1), bits) by { TimeBackIsRegressions(cfg, g, i); }
    assert FieldsAt(cfg, g, j).timeBack == Masked(Regressions(cfg, g, j + 1), bits) by { TimeBackIsRegressions(cfg, g, j); }
    SameMask(Regressions(cfg, g, i + 1), Between(cfg, g, i, j).0, Bits(cfg.comp, TimeBack));
  }

  lemma EqualSerial(cfg: Setting, g: seq<Reading>, i: nat, j: nat)
    requires i < j < |g|
    ensures FieldsAt(cfg, g, i).serial == FieldsAt(cfg, g, j).serial
       <==> Masked(Between(cfg, g, i, j).1, Bits(cfg.comp, Serial)) == 0
  {
    SerialIsStills(cfg, g, i);
    SerialIsStills(cfg, g, j);
    SameMask(FieldsAt(cfg, g, 0).serial + Stills(cfg, g, i + 1), Between(cfg, g, i, j).1, Bits(cfg.comp, Serial));
  }

  /** Two calls get the same identifier exactly if they clash. */
  lemma EqualIffClash(cfg: Setting, g: seq<Reading>, i: nat, j: nat)
    requires i < j < |g| && Proper(cfg.comp)
    ensures IdOf(cfg.comp, FieldsAt(cfg, g, i)) == IdOf(cfg.comp, FieldsAt(cfg, g, j)) <==> Clash(cfg, g, i, j)
  {
    IdIsFields(cfg, g, i, j);
    OuterIsFields(cfg, g, i, j);
    EqualTimeBack(cfg, g, i, j);
    EqualSerial(cfg, g, i, j);
  }

  ghost predicate Unique(cfg: Setting, rs: seq<Reading>)
  {
    && Total(cfg.comp) <= ID_BITS
    && forall i, j :: 0 <= i < j < |Run(cfg, rs)| ==>
         IdOf(cfg.comp, Run(cfg, rs)[i]) != IdOf(cfg.comp, Run(cfg, rs)[j])
  }

  /** For every composition and every run, whatever the clock and the interfaces do: all
      identifiers are different exactly if no two answered calls clash. */
  lemma UniqueIffNoClash(cfg: Setting, rs: seq<Reading>)
    requires Proper(cfg.comp)
    ensures Unique(cfg, rs) <==>
            forall i: nat, j: nat :: i < j < |Good(cfg, rs)| ==> !Clash(cfg, Good(cfg, rs), i, j)
  {
    FailuresDoNotDisturb(cfg, rs);
    forall i: nat, j: nat | i < j < |Good(cfg, rs)|
      ensures IdOf(cfg.comp, Run(cfg, rs)[i]) == IdOf(cfg.comp, Run(cfg, rs)[j]) <==> Clash(cfg, Good(cfg, rs), i, j)
    {
      RunEqualIffClash(cfg, rs, i, j);
    }
  }

  lemma RunEqualIffClash(cfg: Setting, rs: seq<Reading>, i: nat, j: nat)
    requires Proper(cfg.comp) && i < j < |Good(cfg, rs)|
    ensures |Run(cfg, rs)| == |Good(cfg, rs)|
    ensures IdOf(cfg.comp, Run(cfg, rs)[i]) == IdOf(cfg.comp, Run(cfg, rs)[j]) <==> Clash(cfg, Good(cfg, rs), i, j)
  {
    FailuresDoNotDisturb(cfg, rs);
    EqualIffClash(cfg, Good(cfg, rs), i, j);
  }

  /** While the time does not go back too often and the addresses stay, that is to say:
      exactly if no time is shown by more calls in a row than the serial number counts. */
  lemma UniqueIffShortStretches(cfg: Setting, rs: seq<Reading>)
    requires Proper(cfg.comp) && Has(cfg.comp, Time) && Has(cfg.comp, Serial)
    requires Steady(cfg, Good(cfg, rs))
    requires Regressions(cfg, Good(cfg, rs), |Good(cfg, rs)|) < Pow2(Bits(cfg.comp, TimeBack))
    ensures Unique(cfg, rs) <==> ShortStretches(cfg, Good(cfg, rs), Pow2(Bits(cfg.comp, Serial)))
  {
    var g, limit := Good(cfg, rs), Pow2(Bits(cfg.comp, Serial));
    if ShortStretches(cfg, g, limit) {
      RunIsUnique(cfg, rs);
    } else {
      var i: nat, j: nat :| i <= j < |g| && SameTime(cfg, g, i, j) && j - i >= limit;
      LongStretchInRun(cfg, rs, i);
    }
  }

  lemma LongStretchInRun(cfg: Setting, rs: seq<Reading>, i: nat)
    requires Proper(cfg.comp) && Steady(cfg, Good(cfg, rs))
    requires i + Pow2(Bits(cfg.comp, Serial)) < |Good(cfg, rs)|
    requires SameTime(cfg, Good(cfg, rs), i, i + Pow2(Bits(cfg.comp, Serial)))
    ensures !Unique(cfg, rs)
  {
    var g, j := Good(cfg, rs), i + Pow2(Bits(cfg.comp, Serial));
    LongStretchRepeats(cfg, g, i);
    FailuresDoNotDisturb(cfg, rs);
    assert Run(cfg, rs)[i] == FieldsAt(cfg, g, i) && Run(cfg, rs)[j] == FieldsAt(cfg, g, j);
  }

  lemma SingleNodeUniqueIff(actime: int, rs: seq<Reading>)
    requires var cfg := Setting(SINGLE_NODE, actime); Regressions(cfg, Good(cfg, rs), |Good(cfg, rs)|) <= 3
    ensures var cfg := Setting(SINGLE_NODE, actime); Unique(cfg, rs) <==> ShortStretches(cfg, Good(cfg, rs), 65536)
  {
    var cfg := Setting(SINGLE_NODE, actime);
    ModeBits();
    Powers();
    SingleNodeIsSteady(actime, Good(cfg, rs));
    UniqueIffShortStretches(cfg, rs);
  }

  lemma DefaultUniqueIff(actime: int, rs: seq<Reading>, mac: nat)
    requires var cfg := Setting(DEFAULT, actime);
             var g := Good(cfg, rs);
             && Regressions(cfg, g, |g|) == 0
             && forall k :: 0 <= k < |g| ==> OuterValue(DEFAULT, g[k], actime, Mac) == mac
    ensures var cfg := Setting(DEFAULT, actime); Unique(cfg, rs) <==> ShortStretches(cfg, Good(cfg, rs), 4096)
  {
    var cfg := Setting(DEFAULT, actime);
    ModeBits();
    Powers();
    DefaultIsSteady(actime, Good(cfg, rs), mac);
    UniqueIffShortStretches(cfg, rs);
  }

  // Runs that repeat an identifier.

  function At(time: nat): Reading {
    Reading(Some(time), None, None, None)
  }

  lemma {:induction false} AllAnswered(cfg: Setting, rs: seq<Reading>)
    requires forall k :: 0 <= k < |rs| ==> Answered(cfg, rs[k])
    ensures Good(cfg, rs) == rs
    decreases |rs|
  {
    if rs != [] {
      AllAnswered(cfg, rs[..|rs| - 1]);
      assert rs == rs[..|rs| - 1] + [rs[|rs| - 1]];
    }
  }

  lemma ClockAnswers(time: nat)
    ensures Answered(Setting(SINGLE_NODE, 0), At(time))
  {
  }

  lemma {:induction false} NoRegressions(cfg: Setting, g: seq<Reading>, n: nat)
    requires n <= |g| && forall k :: 0 <= k < |g| ==> g[k] == g[0]
    ensures Regressions(cfg, g, n) == 0
  {
    if n > 0 { NoRegressions(cfg, g, n - 1); }
  }

  /** A clock that stands still for one call too many. */
  lemma StandingClockRepeats()
    ensures !Unique(Setting(SINGLE_NODE, 0), seq(65537, _ => At(1)))
  {
    var cfg, rs := Setting(SINGLE_NODE, 0), seq(65537, _ => At(1));
    ClockAnswers(1);
    AllAnswered(cfg, rs);
    NoRegressions(cfg, rs, |rs|);
    SingleNodeUniqueIff(0, rs);
    assert SameTime(cfg, rs, 0, 65536);
  }

  /** The clock goes to and fro. */
  function Swing(n: nat): seq<Reading> {
    seq(n, k => if k % 2 == 0 then At(1) else At(2))
  }

  /** A clock that goes back once too often: the fifth low reading is the first again. */
  lemma SwingingClockRepeats()
    ensures !Unique(Setting(SINGLE_NODE, 0), Swing(9))
  {
    var cfg, rs := Setting(SINGLE_NODE, 0), Swing(9);
    ClockAnswers(1);
    ClockAnswers(2);
    AllAnswered(cfg, rs);
    SwingClash(cfg, rs);
    ModeBits();
    UniqueIffNoClash(cfg, rs);
  }

  lemma SwingClash(cfg: Setting, g: seq<Reading>)
    requires cfg == Setting(SINGLE_NODE, 0) && g == Swing(9)
    ensures Clash(cfg, g, 0, 8)
  {
    assert Swings(cfg, g) by {
      SmallTime(1);
      SmallTime(2);
    }
    assert Between(cfg, g, 0, 8) == (4, 0) by {
      SwingCounts(cfg, g, 0);
      SwingCounts(cfg, g, 8);
    }
    assert SameOuter(cfg, g[0], g[8]);
    assert Masked(4, Bits(cfg.comp, TimeBack)) == 0 && Masked(0, Bits(cfg.comp, Serial)) == 0 by {
      ModeBits();
      MaskedFour();
      MaskedSmall(0, Bits(SINGLE_NODE, Serial));
    }
  }

  lemma MaskedFour()
    ensures Masked(4, 2) == 0
  {
    Powers();
  }

  lemma SmallTime(time: nat)
    requires time < 4
    ensures TimeOf(Setting(SINGLE_NODE, 0), At(time)) == time
  {
    assert Bits(SINGLE_NODE, Time) == 45;
    assert time < Pow2(45) by {
      Pow2Sum(43, 2);
      Powers();
      Product(4, Pow2(43));
    }
    MaskedSmall(time, 45);
  }

  ghost predicate Swings(cfg: Setting, g: seq<Reading>) {
    forall m {:trigger g[m]} :: 0 <= m < |g| ==> TimeOf(cfg, g[m]) == 1 + m % 2
  }

  lemma SwingMoves(cfg: Setting, g: seq<Reading>, k: nat)
    requires 0 < k < |g| && Swings(cfg, g)
    ensures !Still(cfg, g, k) && (Regresses(cfg, g, k) <==> k % 2 == 0)
  {
    TimeMoves(cfg, g[k], g[k - 1]);
  }

  lemma HalfStep(k: nat)
    requires k > 0
    ensures k / 2 == (k - 1) / 2 + if k % 2 == 0 then 1 else 0
  {
  }

  lemma {:induction false} SwingCounts(cfg: Setting, g: seq<Reading>, k: nat)
    requires k < |g| && Swings(cfg, g)
    ensures Regressions(cfg, g, k + 1) == k / 2 && Stills(cfg, g, k + 1) == 0
  {
    if k == 0 {
      assert Regressions(cfg, g, 0) == 0 && Stills(cfg, g, 0) == 0;
    } else {
      SwingCounts(cfg, g, k - 1);
      SwingMoves(cfg, g, k);
      HalfStep(k);
    }
  }

  lemma TimeMoves(cfg: Setting, a: Reading, b: Reading)
    ensures TimeOf(cfg, a) != TimeOf(cfg, b) ==> !SameOuter(cfg, a, b)
  {
    assert Outer(Time);
  }
}
