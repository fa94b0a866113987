/** The CRC-32 of mkmylofw.c and add_header.c: two ways to fill the table, and the table-driven update
    against the register that shifts one bit at a time (section 8 of RFC 1952 gives the same code). */
module Crc {

  import opened Words

  /* ---------- iterating a function that respects an operation ---------- */

  function Iter<T>(f: T -> T, c: T, n: nat): T {
    if n == 0 then c else f(Iter(f, c, n - 1))
  }

  ghost predicate Respects<T(!new)>(f: T -> T, op: (T, T) -> T) {
    forall x, y {:trigger op(f(x), f(y))} {:trigger f(op(x, y))} :: f(op(x, y)) == op(f(x), f(y))
  }

  lemma {:induction false} IterRespects<T(!new)>(f: T -> T, op: (T, T) -> T, x: T, y: T, n: nat)
    requires Respects(f, op)
    ensures Iter(f, op(x, y), n) == op(Iter(f, x, n), Iter(f, y, n))
  {
    if n > 0 { IterRespects(f, op, x, y, n - 1); }
  }

  lemma IterSplit<T(!new)>(f: T -> T, op: (T, T) -> T, x: T, lo: T, hi: T, n: nat)
    requires Respects(f, op) && x == op(lo, hi)
    ensures Iter(f, x, n) == op(Iter(f, lo, n), Iter(f, hi, n))
  {
    IterRespects(f, op, lo, hi, n);
  }

  lemma {:induction false} IterChain<T>(f: T -> T, s: seq<T>, n: nat)
    requires n < |s| && forall k :: 0 <= k < |s| - 1 ==> f(s[k]) == s[k + 1]
    ensures Iter(f, s[0], n) == s[n]
  {
    if n > 0 { IterChain(f, s, n - 1); }
  }

  /* ---------- the shift register ---------- */

  /** Bits in a byte. */
  const BITS: nat := 8

  /** The polynomial, reflected. */
  const POLY: bv32 := 0xedb88320

  predicate Odd(c: bv32) {
    c & 1 == 1
  }

  function Shift(c: bv32): bv32 {
    if Odd(c) then (c >> 1) ^ POLY else c >> 1
  }

  function Xor(x: bv32, y: bv32): bv32 {
    x ^ y
  }

  /** `n` bits leave the register. */
  function Shifts(c: bv32, n: nat): bv32 {
    Iter(Shift, c, n)
  }

  /** A byte enters at the low end and its eight bits are shifted through. */
  function SerialByte(c: bv32, b: Byte): bv32 {
    Shifts(Xor(c, b as bv32), BITS)
  }

  function Serial(c: bv32, s: seq<Byte>): bv32 {
    Fold(SerialByte, c, s)
  }

  lemma OddOdd(x: bv32, y: bv32)
    requires Odd(x) && Odd(y)
    ensures Shift(x ^ y) == Shift(x) ^ Shift(y)
  {
  }

  lemma OddEven(x: bv32, y: bv32)
    requires Odd(x) && !Odd(y)
    ensures Shift(x ^ y) == Shift(x) ^ Shift(y)
  {
  }

  lemma EvenOdd(x: bv32, y: bv32)
    requires !Odd(x) && Odd(y)
    ensures Shift(x ^ y) == Shift(x) ^ Shift(y)
  {
  }

  lemma EvenEven(x: bv32, y: bv32)
    requires !Odd(x) && !Odd(y)
    ensures Shift(x ^ y) == Shift(x) ^ Shift(y)
  {
  }

  lemma ShiftLinear(x: bv32, y: bv32)
    ensures Shift(x ^ y) == Shift(x) ^ Shift(y)
  {
    if Odd(x) {
      if Odd(y) { OddOdd(x, y); } else { OddEven(x, y); }
    } else {
      if Odd(y) { EvenOdd(x, y); } else { EvenEven(x, y); }
    }
  }

  lemma ShiftRespectsXor()
    ensures Respects(Shift, Xor)
  {
    forall x: bv32, y: bv32 ensures Shift(Xor(x, y)) == Xor(Shift(x), Shift(y)) {
      ShiftLinear(x, y);
    }
  }

  /* ---------- a whole byte at once ---------- */

  /** Shifting a value whose low byte is empty only moves it. */
  lemma HighSteps(h: bv32)
    requires h & 0xff == 0
    ensures Shift(h) == h >> 1 && Shift(h >> 1) == h >> 2 && Shift(h >> 2) == h >> 3 && Shift(h >> 3) == h >> 4
    ensures Shift(h >> 4) == h >> 5 && Shift(h >> 5) == h >> 6 && Shift(h >> 6) == h >> 7 && Shift(h >> 7) == h >> 8
  {
  }

  lemma HighPart(h: bv32)
    requires h & 0xff == 0
    ensures Shifts(h, BITS) == h >> 8
  {
    var s := [h, h >> 1, h >> 2, h >> 3, h >> 4, h >> 5, h >> 6, h >> 7, h >> 8];
    HighSteps(h);
    IterChain(Shift, s, BITS);
  }

  lemma SplitByte(x: bv32)
    ensures x == Xor(x & 0xff, x & 0xffffff00)
    ensures (x & 0xffffff00) & 0xff == 0 && (x & 0xffffff00) >> 8 == x >> 8
  {
  }

  /** The table row for a byte. */
  function Row(b: bv32): bv32 {
    Shifts(b, BITS)
  }

  lemma ByTable(x: bv32)
    ensures Shifts(x, BITS) == Xor(Row(x & 0xff), x >> 8)
  {
    var lo, hi := x & 0xff, x & 0xffffff00;
    SplitByte(x);
    HighPart(hi);
    ShiftRespectsXor();
    IterSplit(Shift, Xor, x, lo, hi, BITS);
  }

  /* ---------- the checksum of a message ---------- */

  function Flip(c: bv32): bv32 {
    c ^ 0xffffffff
  }

  lemma FlipTwice(c: bv32)
    ensures Flip(Flip(c)) == c
  {
  }

  /** `update_crc` as a function of the register before and the bytes. */
  function Updated(crc: bv32, s: seq<Byte>): bv32 {
    Flip(Serial(Flip(crc), s))
  }

  function Crc32(s: seq<Byte>): bv32 {
    Updated(0, s)
  }

  /** Consecutive chunks give what one call over all of them gives. */
  lemma UpdatedConcat(crc: bv32, s: seq<Byte>, t: seq<Byte>)
    ensures Updated(Updated(crc, s), t) == Updated(crc, s + t)
  {
    FlipTwice(Serial(Flip(crc), s));
    FoldConcat(SerialByte, Flip(crc), s, t);
  }

  ghost predicate IsTable(tab: seq<bv32>) {
    |tab| == 256 && forall i :: 0 <= i < 256 ==> tab[i] == Row(i as bv32)
  }

  lemma TablesEqual(a: seq<bv32>, b: seq<bv32>)
    requires IsTable(a) && IsTable(b)
    ensures a == b
  {
    assert forall i :: 0 <= i < 256 ==> a[i] == b[i];
  }

  /** The low byte as an index. */
  function Index(x: bv32): (i: nat)
    ensures i < 256
  {
    (x & 0xff) as int
  }

  lemma RowAt(tab: seq<bv32>, x: bv32)
    requires IsTable(tab)
    ensures tab[Index(x)] == Row(x & 0xff)
  {
    LowByte(x & 0xff);
  }

  lemma LowByte(c: bv32)
    ensures (c as int) as bv32 == c
  {
  }

  lemma ByteAbove(t: bv32, b: Byte)
    ensures Xor(t, b as bv32) >> 8 == t >> 8
  {
    var c := b as bv32;
    assert c < 256;
    ShiftedOut(t, c);
  }

  lemma ShiftedOut(t: bv32, c: bv32)
    requires c < 256
    ensures (t ^ c) >> 8 == t >> 8
  {
  }

  /** One table look-up is eight steps of the register. */
  lemma LookUp(tab: seq<bv32>, t: bv32, b: Byte)
    requires IsTable(tab)
    ensures Xor(tab[Index(Xor(t, b as bv32))], t >> 8) == SerialByte(t, b)
  {
    var x := Xor(t, b as bv32);
    RowAt(tab, x);
    ByTable(x);
    ByteAbove(t, b);
  }

  /* ---------- mkmylofw.c ---------- */

  /** The exclusive-or pattern from the exponents of the polynomial. */
  method Pattern() returns (e: bv32)
    ensures e == POLY
  {
    var p: seq<bv32> := [0, 1, 2, 4, 5, 7, 8, 10, 11, 12, 16, 22, 23, 26];
    ghost var after: seq<bv32> := [
      0x00000000, 0x80000000, 0xc0000000, 0xe0000000, 0xe8000000, 0xec000000, 0xed000000, 0xed800000, 0xeda00000,
      0xedb00000, 0xedb80000, 0xedb88000, 0xedb88200, 0xedb88300, 0xedb88320];
    e := 0;
    var i := 0;
    while i < |p|
      invariant 0 <= i <= |p| && e == after[i]
    {
      e := e | (1 << (31 - p[i]));
      i := i + 1;
    }
  }

  /** The bits of the index that are still to come, and the marker above them. */
  predicate Marked(k: bv32, rem: bv32, m: bv32) {
    && (m == 256 || m == 128 || m == 64 || m == 32 || m == 16 || m == 8 || m == 4 || m == 2 || m == 1)
    && rem < m && k == rem | m
  }

  lemma NextMark(k: bv32, rem: bv32, m: bv32)
    requires Marked(k, rem, m) && k != 1
    ensures m != 1 && Marked(k >> 1, rem >> 1, m >> 1) && Odd(k) == Odd(rem)
  {
  }

  /** Where the marker is after `t` bits. */
  function Mark(t: nat): bv32 {
    if t == 0 then 256 else if t == 1 then 128 else if t == 2 then 64 else if t == 3 then 32 else if t == 4 then 16
    else if t == 5 then 8 else if t == 6 then 4 else if t == 7 then 2 else 1
  }

  lemma MarkStart(i: bv32)
    requires i < 256
    ensures Marked(i | 256, i, 256) && Xor(0, i) == i
  {
  }

  lemma MarkFalls(t: nat)
    requires Mark(t) != 1
    ensures t < 8 && Mark(t + 1) == Mark(t) >> 1
  {
  }

  lemma MarkEnd(k: bv32, rem: bv32, m: bv32, t: nat)
    requires Marked(k, rem, m) && k == 1 && m == Mark(t) && t <= 8
    ensures rem == 0 && t == BITS
  {
  }

  /** Feeding the next bit of the index into `c` is one step of the register that holds both. */
  lemma FeedBit(c: bv32, rem: bv32)
    ensures Xor(if Odd(rem) then Shift(c) ^ POLY else Shift(c), rem >> 1) == Shift(Xor(c, rem))
  {
    ShiftLinear(c, rem);
    FeedCases(Shift(c), rem);
  }

  lemma FeedCases(s: bv32, rem: bv32)
    ensures (if Odd(rem) then s ^ POLY else s) ^ (rem >> 1) == s ^ Shift(rem)
  {
    if Odd(rem) { Commute(s, POLY, rem >> 1); }
  }

  lemma Commute(s: bv32, p: bv32, r: bv32)
    ensures (s ^ p) ^ r == s ^ (r ^ p)
  {
  }

  ghost predicate RowSoFar(i: bv32, c: bv32, k: bv32, rem: bv32, t: nat) {
    t <= 8 && Marked(k, rem, Mark(t)) && Xor(c, rem) == Shifts(i, t)
  }

  function Feed(c: bv32, bit: bool): bv32 {
    if bit then Shift(c) ^ POLY else Shift(c)
  }

  lemma RowStep(i: bv32, c: bv32, k: bv32, rem: bv32, t: nat)
    requires RowSoFar(i, c, k, rem, t) && k != 1
    ensures t < 8 && RowSoFar(i, Feed(c, Odd(k)), k >> 1, rem >> 1, t + 1)
  {
    NextMark(k, rem, Mark(t));
    MarkFalls(t);
    FeedBit(c, rem);
  }

  lemma RowEnd(i: bv32, c: bv32, rem: bv32, t: nat)
    requires RowSoFar(i, c, 1, rem, t)
    ensures c == Row(i)
  {
    MarkEnd(1, rem, Mark(t), t);
    assert Xor(c, 0) == c;
  }

  /** One row, from the index with a marker bit above it down to the marker. */
  method MarkedRow(i: bv32, e: bv32) returns (c: bv32)
    requires i < 256 && e == POLY
    ensures c == Row(i)
  {
    c := 0;
    var k := i | 256;
    ghost var rem, t := i, 0;
    MarkStart(i);
    while k != 1
      invariant RowSoFar(i, c, k, rem, t)
      decreases 8 - t
    {
      c := FeedNext(c, k, e, i, rem, t);
      k := k >> 1;
      rem, t := rem >> 1, t + 1;
    }
    RowEnd(i, c, rem, t);
  }

  /** One round of the inner loop. */
  method FeedNext(c: bv32, k: bv32, e: bv32, ghost i: bv32, ghost rem: bv32, ghost t: nat) returns (d: bv32)
    requires RowSoFar(i, c, k, rem, t) && k != 1 && e == POLY
    ensures t < 8 && RowSoFar(i, d, k >> 1, rem >> 1, t + 1)
  {
    hide Shifts;
    RowStep(i, c, k, rem, t);
    ghost var fed := Feed(c, Odd(k));
    d := if c & 1 == 1 then (c >> 1) ^ e else c >> 1;
    if k & 1 == 1 {
      d := d ^ e;
    }
    assert d == fed;
  }

  lemma {:induction false} ZeroStays(n: nat)
    ensures Shifts(0, n) == 0
  {
    if n > 0 {
      ZeroStays(n - 1);
      assert Shift(0) == 0;
    }
  }

  /** `init_crc_table` */
  method InitCrcTable(tab: array<bv32>)
    requires tab.Length == 256
    modifies tab
    ensures IsTable(tab[..])
  {
    var e := Pattern();
    tab[0] := 0;
    ZeroStays(BITS);
    assert Row(0) == 0;
    hide Row;
    var i := 1;
    while i < 256
      invariant 1 <= i <= 256
      invariant forall j :: 0 <= j < i ==> tab[j] == Row(j as bv32)
    {
      RowIndex(i);
      var c := MarkedRow(i as bv32, e);
      tab[i] := c;
      i := i + 1;
    }
  }

  lemma RowIndex(i: int)
    requires 0 <= i < 256
    ensures (i as bv32) < 256
  {
  }

  /** The body of both update loops. */
  method NextByte(tab: array<bv32>, t: bv32, p: seq<Byte>, i: nat, ghost start: bv32) returns (r: bv32)
    requires IsTable(tab[..]) && i < |p| && t == Serial(start, p[..i])
    ensures r == Serial(start, p[..i + 1])
  {
    hide SerialByte, Xor, Index, Row;
    LookUp(tab[..], t, p[i]);
    FoldStep(SerialByte, start, p, i);
    r := Xor(tab[Index(Xor(t, p[i] as bv32))], t >> 8);
  }

  /** `update_crc` */
  method UpdateCrc(tab: array<bv32>, p: seq<Byte>, crc: bv32) returns (r: bv32)
    requires IsTable(tab[..])
    ensures r == Updated(crc, p)
  {
    hide SerialByte;
    var t := crc ^ 0xffffffff;
    var i := 0;
    while i < |p|
      invariant 0 <= i <= |p| && t == Serial(Flip(crc), p[..i])
    {
      t := NextByte(tab, t, p, i, Flip(crc));
      i := i + 1;
    }
    assert p[..i] == p;
    r := t ^ 0xffffffff;
  }

  /** `get_crc` */
  method GetCrc(tab: array<bv32>, p: seq<Byte>) returns (crc: bv32)
    requires IsTable(tab[..])
    ensures crc == Crc32(p)
  {
    crc := UpdateCrc(tab, p, 0);
  }

  /* ---------- add_header.c ---------- */

  /** `ntohl` on a little-endian host. */
  function SwapBytes(x: bv32): bv32 {
    (x << 24) | ((x & 0xff00) << 8) | ((x >> 8) & 0xff00) | (x >> 24)
  }

  method HostPoly() returns (poly: bv32)
    ensures poly == POLY
  {
    poly := SwapBytes(0x2083b8ed);
  }

  /** `init_crc32` */
  method InitCrc32(tab: array<bv32>)
    requires tab.Length == 256
    modifies tab
    ensures IsTable(tab[..])
  {
    hide Row;
    var poly := HostPoly();
    var n := 0;
    while n < 256
      invariant 0 <= n <= 256
      invariant forall j :: 0 <= j < n ==> tab[j] == Row(j as bv32)
    {
      var c := ShiftedRow(n as bv32, poly);
      tab[n] := c;
      n := n + 1;
    }
  }

  /** One row, by shifting the index itself. */
  method ShiftedRow(n: bv32, poly: bv32) returns (crc: bv32)
    requires poly == POLY
    ensures crc == Row(n)
  {
    crc := n;
    var bit := 0;
    while bit < BITS
      invariant 0 <= bit <= BITS && crc == Shifts(n, bit)
    {
      ghost var next := Shift(crc);
      crc := if crc & 1 == 1 then poly ^ (crc >> 1) else crc >> 1;
      assert crc == next;
      bit := bit + 1;
    }
  }

  /** `crc32buf` */
  method Crc32Buf(tab: array<bv32>, buf: seq<Byte>) returns (r: bv32)
    requires IsTable(tab[..])
    ensures r == Crc32(buf)
  {
    hide SerialByte;
    var crc: bv32 := 0xffffffff;
    var i := 0;
    while i < |buf|
      invariant 0 <= i <= |buf| && crc == Serial(0xffffffff, buf[..i])
    {
      crc := NextByte(tab, crc, buf, i, 0xffffffff);
      i := i + 1;
    }
    assert buf[..i] == buf;
    assert Flip(0) == 0xffffffff;
    r := !crc;
    Complement(crc);
  }

  lemma Complement(c: bv32)
    ensures !c == Flip(c)
  {
  }

  /** The letter `a`, and no bytes at all. */
  lemma KnownCrc()
    ensures Crc32([]) == 0 && Crc32([0x61]) == 0xe8b7be43
  {
    hide Shifts;
    var c: bv32 := 0xffffffff;
    assert Fold(SerialByte, c, [0x61]) == SerialByte(c, 0x61) by { assert Fold(SerialByte, c, [0x61][..0]) == c; }
    KnownRegister();
  }

  lemma KnownRegister()
    ensures Xor(0xffffffff, 0x61) == 0xffffff9e && Shifts(0xffffff9e, 8) == 0x174841bc
  {
    var s: seq<bv32> := [0xffffff9e, 0x7fffffcf, 0xd2477cc7, 0x849b3d43, 0xaff51d81, 0xba420de0, 0x5d2106f0, 0x2e908378,
                         0x174841bc];
    IterChain(Shift, s, 8);
  }
}
