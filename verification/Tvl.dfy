/** The length-prefixed vectors of libparser/parser_tvl.cc. */
module Tvl {
  import opened Common

  /** Thrown is std::out_of_range from substr. */
  datatype ParserRet = Success | BadFormat | Thrown

  const MAX_TVL_ELEMENT: nat := 9999

  // sprintf("%04lu") for the numbers that have four digits, and sscanf("%d") on at most
  // four characters.

  function Digit(d: nat): (c: char)
    requires d < 10
  {
    "0123456789"[d]
  }

  predicate IsDigit(c: char) {
    '0' <= c <= '9'
  }

  function FourDigits(n: nat): (s: string)
    requires n <= MAX_TVL_ELEMENT
    ensures |s| == 4
  {
    [Digit(n / 1000), Digit(n / 100 % 10), Digit(n / 10 % 10), Digit(n % 10)]
  }

  predicate IsSpace(c: char) {
    c == ' ' || '\t' <= c <= '\r'
  }

  function SkipSpaces(s: string): string {
    if s != [] && IsSpace(s[0]) then SkipSpaces(s[1..]) else s
  }

  function ScanDigits(s: string, value: nat): nat {
    if s != [] && IsDigit(s[0]) then ScanDigits(s[1..], 10 * value + (s[0] as int - '0' as int)) else value
  }

  function ScanNumber(s: string): Option<nat> {
    if s != [] && IsDigit(s[0]) then Some(ScanDigits(s, 0)) else None
  }

  function ScanInt(s: string): Option<int> {
    var t := SkipSpaces(s);
    if t != [] && (t[0] == '-' || t[0] == '+') then
      match ScanNumber(t[1..])
      case None => None
      case Some(n) => Some((if t[0] == '-' then -1 else 1) * n)
    else ScanNumber(t)
  }

  /** The variable keeps its zero when nothing matches. */
  function ScanOrZero(s: string): int {
    var n := ScanInt(s);
    if n.Some? then n.value else 0
  }

  lemma DigitFacts(d: nat)
    requires d < 10
    ensures IsDigit(Digit(d)) && !IsSpace(Digit(d)) && Digit(d) as int - '0' as int == d
    ensures Digit(d) != '-' && Digit(d) != '+'
  {
    if d == 0 {} else if d == 1 {} else if d == 2 {} else if d == 3 {} else if d == 4 {}
    else if d == 5 {} else if d == 6 {} else if d == 7 {} else if d == 8 {} else {}
  }

  lemma ScanOneDigit(d: nat, rest: string, value: nat)
    requires d < 10
    ensures ScanDigits([Digit(d)] + rest, value) == ScanDigits(rest, 10 * value + d)
  {
    DigitFacts(d);
    assert ([Digit(d)] + rest)[1..] == rest;
  }

  lemma DigitsOf(n: nat)
    requires n <= MAX_TVL_ELEMENT
    ensures n / 1000 < 10
    ensures 10 * (10 * (10 * (n / 1000) + n / 100 % 10) + n / 10 % 10) + n % 10 == n
  {
    assert n / 10 / 10 == n / 100 && n / 100 / 10 == n / 1000;
  }

  /** What is printed with four digits is read back. */
  lemma ScanFourDigits(n: nat)
    requires n <= MAX_TVL_ELEMENT
    ensures ScanOrZero(FourDigits(n)) == n
  {
    DigitsOf(n);
    var a, b, c, d := n / 1000, n / 100 % 10, n / 10 % 10, n % 10;
    ScanPieces(a, b, c, d);
    assert FourDigits(n) == [Digit(a)] + ([Digit(b)] + ([Digit(c)] + ([Digit(d)] + [])));
  }

  lemma ScanPieces(a: nat, b: nat, c: nat, d: nat)
    requires a < 10 && b < 10 && c < 10 && d < 10
    ensures ScanOrZero([Digit(a)] + ([Digit(b)] + ([Digit(c)] + ([Digit(d)] + []))))
         == 10 * (10 * (10 * a + b) + c) + d
  {
    DigitFacts(a);
    ScanOneDigit(d, [], 10 * (10 * a + b) + c);
    ScanOneDigit(c, [Digit(d)] + [], 10 * a + b);
    ScanOneDigit(b, [Digit(c)] + ([Digit(d)] + []), a);
    ScanOneDigit(a, [Digit(b)] + ([Digit(c)] + ([Digit(d)] + [])), 0);
  }

  /** The number that decimal digits stand for. */
  function Decimal(ds: string): int {
    if ds == [] then 0 else 10 * Decimal(ds[..|ds| - 1]) + (ds[|ds| - 1] as int - '0' as int)
  }

  predicate AllDigits(ds: string) {
    forall i :: 0 <= i < |ds| ==> IsDigit(ds[i])
  }

  lemma OneMoreDigit(done: string, c: char)
    ensures Decimal(done + [c]) == 10 * Decimal(done) + (c as int - '0' as int)
  {
    assert (done + [c])[..|done|] == done;
  }

  lemma {:induction false} ScanDigitsAre(done: string, ds: string, rest: string, value: nat)
    requires AllDigits(ds) && (rest == [] || !IsDigit(rest[0])) && value == Decimal(done)
    ensures ScanDigits(ds + rest, value) == Decimal(done + ds)
    decreases |ds|
  {
    if ds == [] {
      assert ds + rest == rest && done + ds == done;
    } else {
      var c, tail := ds[0], ds[1..];
      var next := 10 * value + (c as int - '0' as int);
      assert ScanDigits(ds + rest, value) == ScanDigits(tail + rest, next) by { assert (ds + rest)[1..] == tail + rest; }
      OneMoreDigit(done, c);
      ScanDigitsAre(done + [c], tail, rest, next);
      assert (done + [c]) + tail == done + ds;
    }
  }

  lemma {:induction false} SkipSpacesAre(blanks: string, rest: string)
    requires (forall i :: 0 <= i < |blanks| ==> IsSpace(blanks[i])) && (rest == [] || !IsSpace(rest[0]))
    ensures SkipSpaces(blanks + rest) == rest
    decreases |blanks|
  {
    if blanks == [] {
      assert blanks + rest == rest;
    } else {
      assert (blanks + rest)[1..] == blanks[1..] + rest;
      SkipSpacesAre(blanks[1..], rest);
    }
  }

  /** What is scanned: blanks are skipped, then comes at most one sign, then the digits up to
      the first other character; without a digit there the variable keeps its zero. */
  lemma ScanReads(blanks: string, sign: string, ds: string, rest: string)
    requires forall i :: 0 <= i < |blanks| ==> IsSpace(blanks[i])
    requires sign == "" || sign == "-" || sign == "+"
    requires AllDigits(ds) && (rest == [] || !IsDigit(rest[0]))
    requires sign == "" && ds == [] && rest != [] ==> !IsSpace(rest[0]) && rest[0] != '-' && rest[0] != '+'
    ensures ScanOrZero(blanks + (sign + (ds + rest))) == if sign == "-" then -Decimal(ds) else Decimal(ds)
  {
    SkipSpacesAre(blanks, sign + (ds + rest));
    assert [] + ds == ds;
    ScanDigitsAre([], ds, rest, 0);
    if sign != "" { assert (sign + (ds + rest))[1..] == ds + rest; } else { assert sign + (ds + rest) == ds + rest; }
    if ds == [] { assert ds + rest == rest; } else { assert (ds + rest)[0] == ds[0] && IsDigit(ds[0]); }
  }

  lemma {:induction false} ScanDigitsBound(s: string, value: nat, limit: nat)
    requires |s| <= 4 && 0 < limit && value < limit
    ensures ScanDigits(s, value) < limit * [1, 10, 100, 1000, 10000][|s|]
  {
    if s != [] && IsDigit(s[0]) { ScanDigitsBound(s[1..], 10 * value + (s[0] as int - '0' as int), 10 * limit); }
  }

  lemma {:induction false} SkipSpacesShorter(s: string)
    ensures |SkipSpaces(s)| <= |s|
  {
    if s != [] && IsSpace(s[0]) { SkipSpacesShorter(s[1..]); }
  }

  lemma ScanBound(s: string)
    requires |s| <= 4
    ensures ScanOrZero(s) <= MAX_TVL_ELEMENT
  {
    SkipSpacesShorter(s);
    var t := SkipSpaces(s);
    if t != [] { ScanDigitsBound(t[1..], 0, 1); }
    ScanDigitsBound(t, 0, 1);
  }

  // std::string::substr with a position and a length of type int.

  predicate SubstrThrows(s: string, pos: int) {
    pos < 0 || pos > |s|
  }

  function Substr(s: string, pos: int, len: int): string
    requires !SubstrThrows(s, pos)
  {
    if len < 0 || len > |s| - pos then s[pos..] else s[pos..pos + len]
  }

  // What the two operations compute.

  predicate Storable(vec: seq<string>) {
    |vec| <= MAX_TVL_ELEMENT && forall i :: 0 <= i < |vec| ==> |vec[i]| <= MAX_TVL_ELEMENT
  }

  function Elements(vec: seq<string>): string
    requires forall i :: 0 <= i < |vec| ==> |vec[i]| <= MAX_TVL_ELEMENT
  {
    if vec == [] then [] else FourDigits(|vec[0]|) + vec[0] + Elements(vec[1..])
  }

  function Store(vec: seq<string>): string
    requires Storable(vec)
  {
    FourDigits(|vec|) + Elements(vec)
  }

  datatype Loaded = Loaded(ret: ParserRet, vec: seq<string>)

  /** The loop of LoadString from an offset on, with so many elements to come. */
  function LoadFrom(s: string, offset: int, left: nat): Loaded
    decreases left
  {
    if left == 0 then Loaded(Success, [])
    else if SubstrThrows(s, offset) || SubstrThrows(s, offset + 4) then Loaded(Thrown, [])
    else
      var len := ScanOrZero(Substr(s, offset, 4));
      var rest := LoadFrom(s, offset + 4 + len, left - 1);
      Loaded(rest.ret, [Substr(s, offset + 4, len)] + rest.vec)
  }

  function Load(s: string): Loaded
    requires |s| > 4
  {
    LoadFrom(s, 4, AtLeastZero(ScanOrZero(s[..4])))
  }

  function AtLeastZero(n: int): nat {
    if n < 0 then 0 else n
  }

  /** Four characters lie there, and so may an element behind them. */
  predicate InsideAt(s: string, o: int) {
    0 <= o && o + 4 <= |s|
  }

  /** What is loaded from a position: the characters behind the length there, as many as it
      says, or all that are left if it says more or is below zero. */
  predicate TakenAt(s: string, o: int, next: int, e: string) {
    && InsideAt(s, o)
    && var len := ScanOrZero(s[o..o + 4]);
       && next == o + 4 + len
       && e == if 0 <= len <= |s| - (o + 4) then s[o + 4..o + 4 + len] else s[o + 4..]
  }

  /** Elements one behind the other at these positions, as many as called for or up to a
      position that falls outside. */
  ghost predicate ReadsAt(s: string, at: seq<int>, l: Loaded, left: nat) {
    && |at| == |l.vec| + 1 && |l.vec| <= left
    && (forall k :: 0 <= k < |l.vec| ==> TakenAt(s, at[k], at[k + 1], l.vec[k]))
    && l.ret == (if |l.vec| == left then Success else Thrown)
    && (|l.vec| < left ==> !InsideAt(s, at[|l.vec|]))
  }

  lemma ReadsOneMore(s: string, at: seq<int>, l: Loaded, left: nat, offset: int, e: string)
    requires ReadsAt(s, at, l, left) && TakenAt(s, offset, at[0], e)
    ensures ReadsAt(s, [offset] + at, Loaded(l.ret, [e] + l.vec), left + 1)
  {
    var at', vec' := [offset] + at, [e] + l.vec;
    forall k | 0 <= k < |vec'| ensures TakenAt(s, at'[k], at'[k + 1], vec'[k]) {
      if k > 0 { assert TakenAt(s, at[k - 1], at[k], l.vec[k - 1]); }
    }
  }

  lemma {:induction false} LoadReadsFrom(s: string, offset: int, left: nat) returns (at: seq<int>)
    ensures at != [] && at[0] == offset && ReadsAt(s, at, LoadFrom(s, offset, left), left)
    decreases left
  {
    if left == 0 || !InsideAt(s, offset) {
      at := [offset];
    } else {
      var next, e := OneTaken(s, offset, left);
      var more := LoadReadsFrom(s, next, left - 1);
      ReadsOneMore(s, more, LoadFrom(s, next, left - 1), left - 1, offset, e);
      at := [offset] + more;
    }
  }

  lemma OneTaken(s: string, offset: int, left: nat) returns (next: int, e: string)
    requires left > 0 && InsideAt(s, offset)
    ensures TakenAt(s, offset, next, e)
    ensures var rest := LoadFrom(s, next, left - 1); LoadFrom(s, offset, left) == Loaded(rest.ret, [e] + rest.vec)
  {
    assert Substr(s, offset, 4) == s[offset..offset + 4];
    var len := ScanOrZero(s[offset..offset + 4]);
    next, e := offset + 4 + len, Substr(s, offset + 4, len);
  }

  /** What any string loads to: elements one behind the other, as many as its first four
      characters say; or, where a position falls outside the string, those up to there and
      the exception of substr. */
  lemma LoadReads(s: string) returns (at: seq<int>)
    requires |s| > 4
    ensures var l, n := Load(s), ScanOrZero(s[..4]);
            && |at| == |l.vec| + 1 && at[0] == 4
            && (forall k :: 0 <= k < |l.vec| ==> TakenAt(s, at[k], at[k + 1], l.vec[k]))
            && (l.ret == Success <==> |l.vec| == if n < 0 then 0 else n)
            && (l.ret != Success ==> l.ret == Thrown && !InsideAt(s, at[|l.vec|]))
  {
    at := LoadReadsFrom(s, 4, AtLeastZero(ScanOrZero(s[..4])));
  }

  // Round trips.

  function Prepended(vec: seq<string>, more: Loaded): Loaded {
    Loaded(more.ret, vec + more.vec)
  }

  lemma PrependedTwice(a: seq<string>, b: seq<string>, more: Loaded)
    ensures Prepended(a, Prepended(b, more)) == Prepended(a + b, more)
  {
    assert a + (b + more.vec) == a + b + more.vec;
  }

  lemma LoadOne(s: string, offset: nat, left: nat, len: nat, e: string)
    requires left > 0 && !SubstrThrows(s, offset) && !SubstrThrows(s, offset + 4)
    requires ScanOrZero(Substr(s, offset, 4)) == len && Substr(s, offset + 4, len) == e
    ensures LoadFrom(s, offset, left) == Prepended([e], LoadFrom(s, offset + 4 + len, left - 1))
  {
  }

  lemma ElementParts(s: string, before: string, e: string, rest: string)
    requires |e| <= MAX_TVL_ELEMENT && s == before + (FourDigits(|e|) + e + rest)
    ensures !SubstrThrows(s, |before|) && ScanOrZero(Substr(s, |before|, 4)) == |e|
    ensures !SubstrThrows(s, |before| + 4) && Substr(s, |before| + 4, |e|) == e
    ensures s == (before + FourDigits(|e|) + e) + rest
  {
    ScanFourDigits(|e|);
    assert Substr(s, |before|, 4) == FourDigits(|e|);
  }

  /** One round of the loop on a stream that goes on with a stored element. */
  lemma ReadElement(s: string, before: string, e: string, rest: string, left: nat) returns (next: string)
    requires |e| <= MAX_TVL_ELEMENT && s == before + (FourDigits(|e|) + e + rest) && left > 0
    ensures s == next + rest
    ensures LoadFrom(s, |before|, left) == Prepended([e], LoadFrom(s, |next|, left - 1))
  {
    next := before + FourDigits(|e|) + e;
    assert |next| == |before| + 4 + |e|;
    ElementParts(s, before, e, rest);
    assert LoadFrom(s, |before|, left) == Prepended([e], LoadFrom(s, |before| + 4 + |e|, left - 1)) by {
      LoadOne(s, |before|, left, |e|, e);
    }
  }

  lemma {:induction false} LoadElements(s: string, before: string, vec: seq<string>, tail: string)
    requires forall i :: 0 <= i < |vec| ==> |vec[i]| <= MAX_TVL_ELEMENT
    requires s == before + (Elements(vec) + tail)
    ensures LoadFrom(s, |before|, |vec|) == Loaded(Success, vec)
    decreases |vec|
  {
    if vec != [] {
      var e, rest := vec[0], Elements(vec[1..]) + tail;
      assert Elements(vec) + tail == FourDigits(|e|) + e + rest;
      var next := ReadElement(s, before, e, rest, |vec|);
      assert LoadFrom(s, |next|, |vec| - 1) == Loaded(Success, vec[1..]) by { LoadElements(s, next, vec[1..], tail); }
      assert [e] + vec[1..] == vec;
    }
  }

  /** What is stored is loaded again, whatever follows it. Only the empty vector with
      nothing behind it is too short to load. */
  lemma LoadAfterStore(vec: seq<string>, tail: string)
    requires Storable(vec)
    ensures |Store(vec) + tail| > 4 <==> vec != [] || tail != []
    ensures |Store(vec) + tail| > 4 ==> Load(Store(vec) + tail) == Loaded(Success, vec)
  {
    var s := Store(vec) + tail;
    assert s == FourDigits(|vec|) + (Elements(vec) + tail);
    assert vec != [] ==> |Elements(vec)| >= 4;
    if |s| > 4 {
      assert s[..4] == FourDigits(|vec|);
      ScanFourDigits(|vec|);
      LoadElements(s, FourDigits(|vec|), vec, tail);
    }
  }

  /** No encoding is the beginning of another: a reader knows where one ends. */
  lemma PrefixFree(a: seq<string>, b: seq<string>)
    requires Storable(a) && Storable(b) && Store(a) <= Store(b)
    ensures a == b
  {
    var tail := Store(b)[|Store(a)|..] + "-";
    assert Store(a) + tail == Store(b) + "-";
    LoadAfterStore(a, tail);
    LoadAfterStore(b, "-");
  }

  // Where everything lies.

  /** Four decimal digits, the highest first, with zeros in front. */
  lemma FourDigitsAre(n: nat)
    requires n <= MAX_TVL_ELEMENT
    ensures var s := FourDigits(n);
            && |s| == 4 && (forall i :: 0 <= i < 4 ==> '0' <= s[i] <= '9')
            && n == 1000 * (s[0] as int - 48) + 100 * (s[1] as int - 48) + 10 * (s[2] as int - 48) + (s[3] as int - 48)
  {
    DigitsOf(n);
    DigitFacts(n / 1000);
    DigitFacts(n / 100 % 10);
    DigitFacts(n / 10 % 10);
    DigitFacts(n % 10);
  }

  /** How long the first k elements are, each with its length. */
  function Offset(vec: seq<string>, k: nat): nat
    requires k <= |vec|
  {
    if k == 0 then 0 else Offset(vec, k - 1) + 4 + |vec[k - 1]|
  }

  lemma {:induction false} OffsetRest(vec: seq<string>, k: nat)
    requires 0 < k <= |vec|
    ensures Offset(vec, k) == 4 + |vec[0]| + Offset(vec[1..], k - 1)
  {
    if k > 1 { OffsetRest(vec, k - 1); }
  }

  predicate LiesAt(s: string, o: nat, piece: string) {
    o + |piece| <= |s| && forall i :: 0 <= i < |piece| ==> s[o + i] == piece[i]
  }

  lemma LiesBehind(head: string, s: string, o: nat, piece: string)
    requires LiesAt(s, o, piece)
    ensures LiesAt(head + s, |head| + o, piece)
  {
    forall i | 0 <= i < |piece| ensures (head + s)[|head| + o + i] == piece[i] {
      assert (head + s)[|head| + (o + i)] == s[o + i];
    }
  }

  /** An element with its length in front. */
  function Framed(e: string): (s: string)
    requires |e| <= MAX_TVL_ELEMENT
    ensures |s| == 4 + |e| && s[..4] == FourDigits(|e|) && s[4..] == e
  {
    FourDigits(|e|) + e
  }

  lemma {:induction false} ElementAt(vec: seq<string>, k: nat)
    requires (forall i :: 0 <= i < |vec| ==> |vec[i]| <= MAX_TVL_ELEMENT) && k < |vec|
    ensures LiesAt(Elements(vec), Offset(vec, k), Framed(vec[k]))
    decreases |vec|
  {
    if k == 0 {
      assert Elements(vec) == Framed(vec[0]) + Elements(vec[1..]);
    } else {
      ElementAt(vec[1..], k - 1);
      OffsetRest(vec, k);
      LiesBehind(Framed(vec[0]), Elements(vec[1..]), Offset(vec[1..], k - 1), Framed(vec[k]));
    }
  }

  lemma {:induction false} ElementsLength(vec: seq<string>)
    requires forall i :: 0 <= i < |vec| ==> |vec[i]| <= MAX_TVL_ELEMENT
    ensures |Elements(vec)| == Offset(vec, |vec|)
    decreases |vec|
  {
    if vec != [] {
      ElementsLength(vec[1..]);
      OffsetRest(vec, |vec|);
    }
  }

  lemma ElementBehind(head: string, vec: seq<string>, k: nat)
    requires (forall i :: 0 <= i < |vec| ==> |vec[i]| <= MAX_TVL_ELEMENT) && k < |vec|
    ensures LiesAt(head + Elements(vec), |head| + Offset(vec, k), Framed(vec[k]))
  {
    ElementAt(vec, k);
    LiesBehind(head, Elements(vec), Offset(vec, k), Framed(vec[k]));
  }

  lemma StoredAt(vec: seq<string>, k: nat)
    requires Storable(vec) && k < |vec|
    ensures LiesAt(Store(vec), 4 + Offset(vec, k), Framed(vec[k]))
  {
    ElementBehind(FourDigits(|vec|), vec, k);
  }

  /** Which text is the encoding: the number of elements in four digits, then each in turn
      with its length in front, and nothing else. */
  ghost predicate LaidOut(s: string, vec: seq<string>)
    requires Storable(vec)
  {
    && |s| == 4 + Offset(vec, |vec|) && LiesAt(s, 0, FourDigits(|vec|))
    && forall k :: 0 <= k < |vec| ==> LiesAt(s, 4 + Offset(vec, k), Framed(vec[k]))
  }

  lemma StoreLayout(vec: seq<string>)
    requires Storable(vec)
    ensures LaidOut(Store(vec), vec)
  {
    ElementsLength(vec);
    forall k | 0 <= k < |vec| ensures LiesAt(Store(vec), 4 + Offset(vec, k), Framed(vec[k])) {
      StoredAt(vec, k);
    }
  }

  class ParserTvl {
    var vec: seq<string>

    ghost predicate Valid()
      reads this
    {
      |vec| <= MAX_TVL_ELEMENT
    }

    constructor ()
      ensures Valid() && vec == []
    {
      vec := [];
    }

    method LoadString(str: string) returns (ret: ParserRet)
      requires Valid()
      modifies this
      ensures Valid()
      ensures |str| <= 4 ==> ret == BadFormat && vec == old(vec)
      ensures |str| > 4 ==> Loaded(ret, vec) == Load(str)
    {
      if |str| <= 4 {
        return BadFormat;
      }
      vec := [];
      ScanBound(str[..4]);
      ret := LoadAll(str, ScanOrZero(str[..4]));
    }

    method LoadAll(str: string, size: int) returns (ret: ParserRet)
      requires vec == [] && size <= MAX_TVL_ELEMENT
      modifies this
      ensures Valid() && Loaded(ret, vec) == LoadFrom(str, 4, AtLeastZero(size))
    {
      var offset: int := 4;
      var loop := 0;
      ghost var result := LoadFrom(str, 4, AtLeastZero(size));
      while loop < size
        invariant 0 <= loop <= AtLeastZero(size) && |vec| == loop
        invariant result == Prepended(vec, LoadFrom(str, offset, AtLeastZero(size) - loop))
      {
        var ok, element, next := LoadElement(str, offset, AtLeastZero(size) - loop);
        if !ok {
          return Thrown;
        }
        PrependedTwice(vec, [element], LoadFrom(str, next, AtLeastZero(size) - loop - 1));
        vec := vec + [element];
        offset := next;
        loop := loop + 1;
      }
      return Success;
    }

    /** The body of the loop. */
    static method LoadElement(str: string, offset: int, ghost left: nat) returns (ok: bool, element: string, next: int)
      requires left > 0
      ensures ok ==> LoadFrom(str, offset, left) == Prepended([element], LoadFrom(str, next, left - 1))
      ensures !ok ==> LoadFrom(str, offset, left) == Loaded(Thrown, [])
    {
      next := offset;
      if SubstrThrows(str, next) {
        return false, "", next;
      }
      var len := ScanOrZero(Substr(str, next, 4));
      next := next + 4;
      if SubstrThrows(str, next) {
        return false, "", next;
      }
      element := Substr(str, next, len);
      next := next + len;
      ok := true;
    }

    /** StoreString, for vectors whose lengths four digits can hold. */
    method StoreString() returns (str: string)
      requires Storable(vec)
      ensures str == Store(vec)
    {
      str := FourDigits(|vec|);
      for i := 0 to |vec|
        invariant Store(vec) == str + Elements(vec[i..])
      {
        assert vec[i..][1..] == vec[i + 1..];
        assert str + Elements(vec[i..]) == str + FourDigits(|vec[i]|) + vec[i] + Elements(vec[i + 1..]);
        str := str + FourDigits(|vec[i]|);
        str := str + vec[i];
      }
    }

    /** The other vector goes in front, unless there would be too many elements. */
    method PushHeadAll(other: ParserTvl)
      requires Valid() && other.Valid() && other != this
      modifies this
      ensures Valid()
      ensures vec == if |old(vec)| + |other.vec| > MAX_TVL_ELEMENT then old(vec) else other.vec + old(vec)
    {
      if |vec| + |other.vec| > MAX_TVL_ELEMENT {
        return;
      }
      vec := other.vec + vec;
    }

    method PushHead(built: string)
      requires Valid()
      modifies this
      ensures Valid()
      ensures vec == if |old(vec)| >= MAX_TVL_ELEMENT then old(vec) else [built] + old(vec)
    {
      if |vec| >= MAX_TVL_ELEMENT {
        return;
      }
      vec := [built] + vec;
    }

    method PushBackAll(other: ParserTvl)
      requires Valid() && other.Valid() && other != this
      modifies this
      ensures Valid()
      ensures vec == if |old(vec)| + |other.vec| > MAX_TVL_ELEMENT then old(vec) else old(vec) + other.vec
    {
      if |vec| + |other.vec| > MAX_TVL_ELEMENT {
        return;
      }
      vec := vec + other.vec;
    }

    method PushBack(built: string)
      requires Valid()
      modifies this
      ensures Valid()
      ensures vec == if |old(vec)| >= MAX_TVL_ELEMENT then old(vec) else old(vec) + [built]
    {
      if |vec| >= MAX_TVL_ELEMENT {
        return;
      }
      vec := vec + [built];
    }

    method PopHead() returns (first: string)
      requires Valid()
      modifies this
      ensures Valid()
      ensures old(vec) == [] ==> first == [] && vec == []
      ensures old(vec) != [] ==> old(vec) == [first] + vec
    {
      if |vec| == 0 {
        return "";
      }
      first := vec[0];
      vec := vec[1..];
    }

    method PopBack() returns (last: string)
      requires Valid()
      modifies this
      ensures Valid()
      ensures old(vec) == [] ==> last == [] && vec == []
      ensures old(vec) != [] ==> old(vec) == vec + [last]
    {
      if |vec| == 0 {
        return "";
      }
      last := vec[|vec| - 1];
      vec := vec[..|vec| - 1];
    }
  }
}
