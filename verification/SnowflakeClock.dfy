/** What the identifiers of the predefined modes show: the clock since the activation
    time, and counts of what the clock did. */
module SnowflakeClock {
  import opened Common
  import opened Snowflake
  import opened SnowflakeFields
  import opened SnowflakeRun
  import opened SnowflakeUnique

  // Readings.

  /** The clock was read and is not before the activation time. */
  predicate Started(r: Reading, actime: int) {
    r.clock.Some? && r.clock.value >= actime
  }

  function Elapsed(r: Reading, actime: int): nat
    requires Started(r, actime)
  {
    r.clock.value - actime
  }

  /** A call fails exactly if something that the composition asks for could not be read,
      or the clock is before the activation time. */
  lemma FailsExactly(comp: Composition, r: Reading, actime: int)
    ensures Fails(comp, r, actime) <==>
            || (Has(comp, Time) && !Started(r, actime))
            || (Has(comp, Mac) && r.mac.None?)
            || (Has(comp, Ipv4) && r.ipv4.None?)
            || (Has(comp, Ipv6) && r.ipv6.None?)
  {
    if Has(comp, Time) && !Started(r, actime) {
      var i :| 0 <= i < |comp| && comp[i].component == Time;
    }
    if Has(comp, Mac) && r.mac.None? {
      var i :| 0 <= i < |comp| && comp[i].component == Mac;
    }
    if Has(comp, Ipv4) && r.ipv4.None? {
      var i :| 0 <= i < |comp| && comp[i].component == Ipv4;
    }
    if Has(comp, Ipv6) && r.ipv6.None? {
      var i :| 0 <= i < |comp| && comp[i].component == Ipv6;
    }
  }

  /** Otherwise each outer field shows its reading, modulo its size. */
  lemma OuterShows(comp: Composition, r: Reading, actime: int)
    requires Started(r, actime) && r.mac.Some? && r.ipv4.Some? && r.ipv6.Some?
    ensures OuterValue(comp, r, actime, Time) == (r.clock.value - actime) % Pow2(Bits(comp, Time))
    ensures OuterValue(comp, r, actime, Mac) == r.mac.value % Pow2(Bits(comp, Mac))
    ensures OuterValue(comp, r, actime, Ipv4) == r.ipv4.value % Pow2(Bits(comp, Ipv4))
    ensures OuterValue(comp, r, actime, Ipv6) == r.ipv6.value % Pow2(Bits(comp, Ipv6))
  {
  }

  // The layout of the two modes.

  lemma ThreeFields(a: Field, b: Field, c: Field, f: Fields)
    requires a.bits + b.bits + c.bits == 63
    ensures Total([a, b, c]) == 63
    ensures IdOf([a, b, c], f)
         == Get(f, a.component) * Pow2(b.bits + c.bits) + Get(f, b.component) * Pow2(c.bits) + Get(f, c.component)
  {
    var comp, values := [a, b, c], ValuesOf([a, b, c], f);
    assert comp[1..] == [b, c] && comp[1..][1..] == [c] && comp[1..][1..][1..] == [];
    assert Total([c]) == c.bits && Total([b, c]) == b.bits + c.bits;
    assert Positional([c], values[1..][1..], c.bits) == Get(f, c.component) * Pow2(0);
    assert Positional([b, c], values[1..], b.bits + c.bits) == Get(f, b.component) * Pow2(c.bits) + Get(f, c.component);
  }

  lemma MorePowers()
    ensures Pow2(10) == 1024 && Pow2(18) == 0x40000 && Pow2(22) == 0x400000
  {
    Powers();
    Pow2Sum(2, 8);
    Pow2Sum(2, 16);
    Pow2Sum(10, 12);
    assert Pow2(8) == 256;
  }

  /** SingleNode: 45 bits of time, 2 that count how often it went back, 16 of serial number. */
  lemma SingleNodeLayout(f: Fields)
    ensures IdOf(SINGLE_NODE, f) == f.time * 0x40000 + f.timeBack * 0x10000 + f.serial
  {
    ThreeFields(Field(Time, 45), Field(TimeBack, 2), Field(Serial, 16), f);
    Powers();
    MorePowers();
  }

  /** Default: 41 bits of time, 10 of the MAC address, 12 of serial number. */
  lemma DefaultLayout(f: Fields)
    ensures IdOf(DEFAULT, f) == f.time * 0x400000 + f.mac * 0x1000 + f.serial
  {
    ThreeFields(Field(Time, 41), Field(Mac, 10), Field(Serial, 12), f);
    Powers();
    MorePowers();
  }

  lemma WidthsOf(a: Field, b: Field, c: Field, d: Component)
    ensures Bits([a, b, c], d)
         == if a.component == d then a.bits else if b.component == d then b.bits else if c.component == d then c.bits else 0
  {
    assert [a, b, c][1..] == [b, c] && [b, c][1..] == [c] && [c][1..] == [];
    assert Bits([c], d) == if c.component == d then c.bits else 0;
    assert Bits([b, c], d) == if b.component == d then b.bits else Bits([c], d);
  }

  // Whole runs.

  ghost predicate InClock(g: seq<Reading>, actime: int, bits: nat) {
    forall k {:trigger g[k]} :: 0 <= k < |g| ==> Started(g[k], actime) && Elapsed(g[k], actime) < Pow2(bits)
  }

  /** What the clock and the MAC address showed last, how often the clock went back, and how
      often neither changed. */
  datatype Dial = Dial(now: nat, mac: nat, backs: nat, stands: nat)

  function Turned(d: Dial, now: nat, mac: nat): Dial {
    Dial(now, mac, d.backs + (if now < d.now then 1 else 0), d.stands + (if now == d.now && mac == d.mac then 1 else 0))
  }

  /** What of the MAC address is used. */
  function MacOf(r: Reading, size: nat): (mac: nat)
    requires size > 0
    ensures mac < size
  {
    if r.mac.None? then 0 else r.mac.value % size
  }

  /** After the first n calls; before the first it shows the activation time. */
  ghost function DialAfter(g: seq<Reading>, actime: int, size: nat, n: nat): (d: Dial)
    requires n <= |g| && size > 0 && forall j {:trigger g[j]} :: 0 <= j < |g| ==> Started(g[j], actime)
    ensures d.mac < size
  {
    if n == 0 then Dial(0, 0, 0, 0)
    else Turned(DialAfter(g, actime, size, n - 1), Elapsed(g[n - 1], actime), MacOf(g[n - 1], size))
  }

  lemma Counted(n: nat, bits: nat)
    ensures Masked(Masked(n, bits) + 1, bits) == Masked(n + 1, bits) && Masked(Masked(n, bits), bits) == Masked(n, bits)
  {
    MaskedStep(n, bits);
    MaskedSmall(Masked(n, bits), bits);
  }

  /** Which fields show a dial, in compositions with so many bits of each. */
  ghost predicate Shows(f: Fields, d: Dial, backBits: nat, serialBits: nat) {
    f.time == d.now && f.mac == d.mac && f.timeBack == Masked(d.backs, backBits) && f.serial == Masked(d.stands, serialBits)
  }

  /** Every answered call turns the dial on. */
  ghost predicate Turns(cfg: Setting, timeBits: nat, size: nat, backBits: nat, serialBits: nat)
    requires size > 0
  {
    forall r: Reading, last: Fields, d: Dial
      {:trigger Next(cfg.comp, r, cfg.actime, last), Shows(last, d, backBits, serialBits)} ::
      && Started(r, cfg.actime) && Elapsed(r, cfg.actime) < Pow2(timeBits)
      && d.mac < size && Shows(last, d, backBits, serialBits) ==>
        Shows(Next(cfg.comp, r, cfg.actime, last), Turned(d, Elapsed(r, cfg.actime), MacOf(r, size)), backBits, serialBits)
  }

  /** The fields that one call writes, from the widths of the composition. */
  lemma NextFields(comp: Composition, r: Reading, actime: int, last: Fields, time: nat, back: nat, serial: nat)
    requires Started(r, actime) && Elapsed(r, actime) < Pow2(time)
    requires Bits(comp, Time) == time && Bits(comp, TimeBack) == back && Bits(comp, Serial) == serial
    ensures OuterValue(comp, r, actime, Time) == Elapsed(r, actime)
    ensures var f, now := Next(comp, r, actime, last), Elapsed(r, actime);
            && f.time == now
            && f.timeBack == Masked(if now < last.time then last.timeBack + 1 else last.timeBack, back)
            && f.serial == Masked(if Moved(comp, r, actime, last) then last.serial else last.serial + 1, serial)
  {
    MaskedSmall(Elapsed(r, actime), time);
  }

  lemma NoBits(comp: Composition, r: Reading, actime: int, last: Fields)
    requires Bits(comp, Mac) == 0
    ensures OuterValue(comp, r, actime, Mac) == 0 && Next(comp, r, actime, last).mac == 0
  {
    assert Pow2(0) == 1;
  }

  lemma ShowsTurned(last: Fields, f: Fields, d: Dial, now: nat, mac: nat, backBits: nat, serialBits: nat)
    requires Shows(last, d, backBits, serialBits) && f.time == now && f.mac == mac
    requires f.timeBack == Masked(if now < last.time then last.timeBack + 1 else last.timeBack, backBits)
    requires f.serial == Masked(if now == last.time && mac == last.mac then last.serial + 1 else last.serial, serialBits)
    ensures Shows(f, Turned(d, now, mac), backBits, serialBits)
  {
    Counted(d.backs, backBits);
    Counted(d.stands, serialBits);
  }

  lemma NothingShown(backBits: nat, serialBits: nat)
    ensures Shows(ZERO, Dial(0, 0, 0, 0), backBits, serialBits)
  {
    MaskedSmall(0, backBits);
    MaskedSmall(0, serialBits);
  }

  lemma {:induction false} FieldsShow(cfg: Setting, g: seq<Reading>, timeBits: nat, size: nat,
                                      backBits: nat, serialBits: nat, k: nat)
    requires size > 0 && Turns(cfg, timeBits, size, backBits, serialBits) && InClock(g, cfg.actime, timeBits) && k < |g|
    ensures Shows(FieldsAt(cfg, g, k), DialAfter(g, cfg.actime, size, k + 1), backBits, serialBits)
    decreases k
  {
    var last := if k == 0 then ZERO else FieldsAt(cfg, g, k - 1);
    var d := DialAfter(g, cfg.actime, size, k);
    assert Shows(last, d, backBits, serialBits) by {
      if k == 0 { NothingShown(backBits, serialBits); } else { FieldsShow(cfg, g, timeBits, size, backBits, serialBits, k - 1); }
    }
    assert Started(g[k], cfg.actime);
    assert Shows(Next(cfg.comp, g[k], cfg.actime, last), Turned(d, Elapsed(g[k], cfg.actime), MacOf(g[k], size)),
                 backBits, serialBits);
  }

  /** The readings that a call is answered for. */
  ghost function Kept(rs: seq<Reading>, actime: int, needsMac: bool): (g: seq<Reading>)
    ensures forall k {:trigger g[k]} :: 0 <= k < |g| ==> Started(g[k], actime) && (needsMac ==> g[k].mac.Some?)
  {
    if rs == [] then []
    else
      var n := |rs| - 1;
      Kept(rs[..n], actime, needsMac) +
      if Started(rs[n], actime) && (needsMac ==> rs[n].mac.Some?) then [rs[n]] else []
  }

  // SingleNode.

  lemma SingleNodeAnswers(r: Reading, actime: int)
    ensures Answered(Setting(SINGLE_NODE, actime), r) <==> Started(r, actime)
  {
    FailsExactly(SINGLE_NODE, r, actime);
    assert SINGLE_NODE[0].component == Time;
  }

  lemma {:induction false} SingleNodeKeeps(rs: seq<Reading>, actime: int)
    ensures Good(Setting(SINGLE_NODE, actime), rs) == Kept(rs, actime, false)
    decreases |rs|
  {
    if rs != [] {
      SingleNodeKeeps(rs[..|rs| - 1], actime);
      SingleNodeAnswers(rs[|rs| - 1], actime);
    }
  }

  lemma SingleNodeWidths()
    ensures Bits(SINGLE_NODE, Time) == 45 && Bits(SINGLE_NODE, TimeBack) == 2 && Bits(SINGLE_NODE, Serial) == 16
    ensures Bits(SINGLE_NODE, Mac) == Bits(SINGLE_NODE, Ipv4) == Bits(SINGLE_NODE, Ipv6) == 0
  {
    forall c: Component {
      WidthsOf(Field(Time, 45), Field(TimeBack, 2), Field(Serial, 16), c);
    }
  }

  lemma SingleNodeMoved(r: Reading, actime: int, last: Fields)
    ensures Moved(SINGLE_NODE, r, actime, last) <==> OuterValue(SINGLE_NODE, r, actime, Time) != last.time
  {
    assert SINGLE_NODE[0].component == Time && SINGLE_NODE[1].component == TimeBack && SINGLE_NODE[2].component == Serial;
  }

  /** One call: the time of the clock; one more in the second field if it went back, and in
      the third if it stood still. */
  lemma SingleNodeNext(r: Reading, actime: int, last: Fields)
    requires Started(r, actime) && Elapsed(r, actime) < Pow2(45)
    ensures var f, now := Next(SINGLE_NODE, r, actime, last), Elapsed(r, actime);
            && f.time == now && f.mac == 0
            && f.timeBack == Masked(if now < last.time then last.timeBack + 1 else last.timeBack, 2)
            && f.serial == Masked(if now == last.time then last.serial + 1 else last.serial, 16)
  {
    SingleNodeWidths();
    NextFields(SINGLE_NODE, r, actime, last, 45, 2, 16);
    NoBits(SINGLE_NODE, r, actime, last);
    SingleNodeMoved(r, actime, last);
  }

  lemma SingleNodeShows(r: Reading, actime: int, last: Fields, d: Dial)
    requires Started(r, actime) && Elapsed(r, actime) < Pow2(45) && d.mac < 1 && Shows(last, d, 2, 16)
    ensures Shows(Next(SINGLE_NODE, r, actime, last), Turned(d, Elapsed(r, actime), MacOf(r, 1)), 2, 16)
  {
    SingleNodeNext(r, actime, last);
    ShowsTurned(last, Next(SINGLE_NODE, r, actime, last), d, Elapsed(r, actime), 0, 2, 16);
  }

  lemma SingleNodeTurns(actime: int)
    ensures Turns(Setting(SINGLE_NODE, actime), 45, 1, 2, 16)
  {
    forall r: Reading, last: Fields, d: Dial {:trigger Next(SINGLE_NODE, r, actime, last), Shows(last, d, 2, 16)}
      | Started(r, actime) && Elapsed(r, actime) < Pow2(45) && d.mac < 1 && Shows(last, d, 2, 16)
      ensures Shows(Next(SINGLE_NODE, r, actime, last), Turned(d, Elapsed(r, actime), MacOf(r, 1)), 2, 16)
    {
      SingleNodeShows(r, actime, last, d);
    }
  }

  /** The identifier: the time since the activation, then how often the clock has gone
      back, modulo 4, then how often it has stood still, modulo 65536. */
  function SingleNodeId(d: Dial): nat {
    d.now * 0x40000 + d.backs % 4 * 0x10000 + d.stands % 0x10000
  }

  lemma SingleNodeShown(f: Fields, d: Dial)
    requires Shows(f, d, 2, 16)
    ensures IdOf(SINGLE_NODE, f) == SingleNodeId(d)
  {
    SingleNodeLayout(f);
    Powers();
  }

  /** A client of a SingleNode generator; identifiers rise with the clock. */
  method GenerateSingleNode(g: Generator, rs: seq<Reading>) returns (ids: seq<int>)
    requires g.Valid() && g.Last() == ZERO && g.composition == SINGLE_NODE
    requires InClock(Kept(rs, g.actime, false), g.actime, 45)
    modifies g, g.last, g.curr
    ensures var kept := Kept(rs, g.actime, false);
            && |ids| == |kept|
            && (forall k :: 0 <= k < |ids| ==> ids[k] == SingleNodeId(DialAfter(kept, g.actime, 1, k + 1)))
            && (forall i, j :: 0 <= i < |ids| && 0 <= j < |ids| && Elapsed(kept[i], g.actime) < Elapsed(kept[j], g.actime) ==>
                  ids[i] < ids[j])
  {
    ghost var kept, cfg := Kept(rs, g.actime, false), Setting(SINGLE_NODE, g.actime);
    ids := Generate(g, rs);
    SingleNodeKeeps(rs, g.actime);
    FailuresDoNotDisturb(cfg, rs);
    SingleNodeTurns(g.actime);
    forall k | 0 <= k < |kept| ensures ids[k] == SingleNodeId(DialAfter(kept, g.actime, 1, k + 1)) {
      FieldsShow(cfg, kept, 45, 1, 2, 16, k);
      SingleNodeShown(FieldsAt(cfg, kept, k), DialAfter(kept, g.actime, 1, k + 1));
    }
  }

  // Default.

  lemma DefaultAnswers(r: Reading, actime: int)
    ensures Answered(Setting(DEFAULT, actime), r) <==> Started(r, actime) && r.mac.Some?
  {
    FailsExactly(DEFAULT, r, actime);
    assert DEFAULT[0].component == Time && DEFAULT[1].component == Mac;
  }

  lemma {:induction false} DefaultKeeps(rs: seq<Reading>, actime: int)
    ensures Good(Setting(DEFAULT, actime), rs) == Kept(rs, actime, true)
    decreases |rs|
  {
    if rs != [] {
      DefaultKeeps(rs[..|rs| - 1], actime);
      DefaultAnswers(rs[|rs| - 1], actime);
    }
  }

  lemma DefaultWidths()
    ensures Bits(DEFAULT, Time) == 41 && Bits(DEFAULT, Mac) == 10 && Bits(DEFAULT, Serial) == 12
    ensures Bits(DEFAULT, TimeBack) == Bits(DEFAULT, Ipv4) == Bits(DEFAULT, Ipv6) == 0
  {
    forall c: Component {
      WidthsOf(Field(Time, 41), Field(Mac, 10), Field(Serial, 12), c);
    }
  }

  lemma DefaultMoved(r: Reading, actime: int, last: Fields)
    ensures Moved(DEFAULT, r, actime, last) <==>
            OuterValue(DEFAULT, r, actime, Time) != last.time || OuterValue(DEFAULT, r, actime, Mac) != last.mac
  {
    assert DEFAULT[0].component == Time && DEFAULT[1].component == Mac && DEFAULT[2].component == Serial;
  }

  lemma DefaultMac(r: Reading, actime: int)
    ensures OuterValue(DEFAULT, r, actime, Mac) == MacOf(r, 1024)
  {
    DefaultWidths();
    MorePowers();
  }

  /** One call: the time of the clock and the last bits of the MAC address, and one more in
      the third field if neither changed. */
  lemma DefaultNext(r: Reading, actime: int, last: Fields)
    requires Started(r, actime) && Elapsed(r, actime) < Pow2(41)
    ensures var f, now, mac := Next(DEFAULT, r, actime, last), Elapsed(r, actime), MacOf(r, 1024);
            && f.time == now && f.mac == mac && f.timeBack == 0
            && f.serial == Masked(if now == last.time && mac == last.mac then last.serial + 1 else last.serial, 12)
  {
    DefaultWidths();
    NextFields(DEFAULT, r, actime, last, 41, 0, 12);
    DefaultMac(r, actime);
    DefaultMoved(r, actime, last);
    assert Next(DEFAULT, r, actime, last).timeBack < Pow2(0) == 1;
  }

  lemma DefaultShows(r: Reading, actime: int, last: Fields, d: Dial)
    requires Started(r, actime) && Elapsed(r, actime) < Pow2(41) && Shows(last, d, 0, 12)
    ensures Shows(Next(DEFAULT, r, actime, last), Turned(d, Elapsed(r, actime), MacOf(r, 1024)), 0, 12)
  {
    DefaultNext(r, actime, last);
    assert Masked(last.timeBack, 0) < Pow2(0) == 1 && Masked(last.timeBack + 1, 0) < Pow2(0) == 1;
    ShowsTurned(last, Next(DEFAULT, r, actime, last), d, Elapsed(r, actime), MacOf(r, 1024), 0, 12);
  }

  lemma DefaultTurns(actime: int)
    ensures Turns(Setting(DEFAULT, actime), 41, 1024, 0, 12)
  {
    forall r: Reading, last: Fields, d: Dial {:trigger Next(DEFAULT, r, actime, last), Shows(last, d, 0, 12)}
      | Started(r, actime) && Elapsed(r, actime) < Pow2(41) && d.mac < 1024 && Shows(last, d, 0, 12)
      ensures Shows(Next(DEFAULT, r, actime, last), Turned(d, Elapsed(r, actime), MacOf(r, 1024)), 0, 12)
    {
      DefaultShows(r, actime, last, d);
    }
  }

  /** The identifier: the time since the activation, then the last ten bits of the MAC
      address, then how often neither changed, modulo 4096. */
  function DefaultId(d: Dial): nat {
    d.now * 0x400000 + d.mac * 0x1000 + d.stands % 0x1000
  }

  lemma DefaultShown(f: Fields, d: Dial)
    requires Shows(f, d, 0, 12)
    ensures IdOf(DEFAULT, f) == DefaultId(d)
  {
    DefaultLayout(f);
    Powers();
  }

  /** A client of a Default generator; identifiers rise with the clock. */
  method GenerateDefault(g: Generator, rs: seq<Reading>) returns (ids: seq<int>)
    requires g.Valid() && g.Last() == ZERO && g.composition == DEFAULT
    requires InClock(Kept(rs, g.actime, true), g.actime, 41)
    modifies g, g.last, g.curr
    ensures var kept := Kept(rs, g.actime, true);
            && |ids| == |kept|
            && (forall k :: 0 <= k < |ids| ==> ids[k] == DefaultId(DialAfter(kept, g.actime, 1024, k + 1)))
            && (forall i, j :: 0 <= i < |ids| && 0 <= j < |ids| && Elapsed(kept[i], g.actime) < Elapsed(kept[j], g.actime) ==>
                  ids[i] < ids[j])
  {
    ghost var kept, cfg := Kept(rs, g.actime, true), Setting(DEFAULT, g.actime);
    ids := Generate(g, rs);
    DefaultKeeps(rs, g.actime);
    FailuresDoNotDisturb(cfg, rs);
    DefaultTurns(g.actime);
    forall k | 0 <= k < |kept| ensures ids[k] == DefaultId(DialAfter(kept, g.actime, 1024, k + 1)) {
      FieldsShow(cfg, kept, 41, 1024, 0, 12, k);
      DefaultShown(FieldsAt(cfg, kept, k), DialAfter(kept, g.actime, 1024, k + 1));
    }
  }
}
