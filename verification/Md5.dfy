/** Streaming MD5 (md5.c): bytes arrive in any chunks; the digest is that of the padded message of
    sections 3.1 and 3.2 of RFC 1321. The block function of section 3.4 is a parameter. */
module Md5 {
  import opened Words

  const WORD: nat := 0x1_0000_0000
  const LENGTH: nat := 0x1_0000_0000_0000_0000

  type Word = w: nat | w < WORD

  datatype Chain = Chain(a: Word, b: Word, c: Word, d: Word)

  /** Sixteen words, with the low-order byte first in each. */
  type Block = seq<Word>

  type BlockFunction = (Chain, Block) -> Chain

  const INIT := Chain(0x67452301, 0xefcdab89, 0x98badcfe, 0x10325476)

  /* ---------- words and bytes ---------- */

  function LoadWord(b: Bytes): Word
    requires |b| == 4
  {
    b[0] as int + 256 * (b[1] as int + 256 * (b[2] as int + 256 * b[3] as int))
  }

  function Le32(w: Word): (r: Bytes)
    ensures |r| == 4
  {
    var x := w / 256;
    var y := x / 256;
    [w % 256, x % 256, y % 256, y / 256]
  }

  lemma LoadStored(w: Word)
    ensures LoadWord(Le32(w)) == w
  {
  }

  function WordsOf(s: Bytes): (r: Block)
    requires |s| == 64
    ensures |r| == 16
  {
    seq(16, i requires 0 <= i < 16 => LoadWord(s[4 * i..4 * i + 4]))
  }

  /* ---------- what the digest of a message is ---------- */

  function Whole(n: nat): (r: nat)
    ensures r <= n < r + 64 && r % 64 == 0 && r == n - n % 64
  {
    n / 64 * 64
  }

  /** The chaining value after all the blocks of `s`. */
  function Absorb(f: BlockFunction, s: Bytes): Chain
    requires |s| % 64 == 0
    decreases |s|
  {
    if s == [] then INIT else f(Absorb(f, s[..|s| - 64]), WordsOf(s[|s| - 64..]))
  }

  /** Section 3.1: at least one byte of padding, and the least that leaves 56 bytes in the last block. */
  ghost predicate IsPadLen(n: nat, p: nat) {
    p >= 1 && LeavesRoom(n + p) && forall q :: n < q < n + p ==> !LeavesRoom(q)
  }

  predicate LeavesRoom(n: nat) {
    n % 64 == 56
  }

  function PadLen(n: nat): (p: nat)
    ensures 1 <= p <= 64 && (n + p) % 64 == 56
  {
    var m := n % 64;
    if m < 56 then 56 - m else 120 - m
  }

  lemma PadLenIsLeast(n: nat)
    ensures IsPadLen(n, PadLen(n))
  {
    var p := PadLen(n);
    forall q | n < q < n + p ensures !LeavesRoom(q) {
      ModApart(q, n + p);
    }
  }

  lemma ModApart(a: nat, b: nat)
    requires a < b < a + 64
    ensures a % 64 != b % 64
  {
  }

  lemma WholeSteps(n: nat)
    ensures n % 64 < 63 ==> Whole(n + 1) == Whole(n)
    ensures n % 64 == 63 ==> Whole(n + 1) == n + 1 == Whole(n) + 64
    ensures n % 64 == 56 ==> (n + 8) % 64 == 0 && Whole(n) + 56 == n
  {
  }

  function Padding(n: nat): (r: Bytes)
    requires n >= 1
    ensures |r| == n
  {
    [0x80] + seq(n - 1, i => 0)
  }

  /** Section 3.2: the length in bits modulo 2^64, low-order word first. */
  function LengthBytes(n: nat): (r: Bytes)
    ensures |r| == 8
  {
    var bits := 8 * n % LENGTH;
    Le32(bits % WORD) + Le32(bits / WORD)
  }

  function Padded(msg: Bytes): (r: Bytes)
    ensures |r| % 64 == 0
  {
    var p := PadLen(|msg|);
    WholeSteps(|msg| + p);
    msg + Padding(p) + LengthBytes(|msg|)
  }

  function DigestBytes(c: Chain): (r: Bytes)
    ensures |r| == 16
  {
    Le32(c.a) + Le32(c.b) + Le32(c.c) + Le32(c.d)
  }

  function Digest(f: BlockFunction, msg: Bytes): Bytes {
    DigestBytes(Absorb(f, Padded(msg)))
  }

  /* ---------- one more byte ---------- */

  /** The chaining value and the bytes still waiting for a full block. */
  ghost predicate Content(f: BlockFunction, chain: Chain, waiting: Bytes, m: Bytes) {
    chain == Absorb(f, m[..Whole(|m|)]) && waiting == m[Whole(|m|)..]
  }

  lemma MoreWaiting(f: BlockFunction, chain: Chain, waiting: Bytes, m: Bytes, x: Byte)
    requires Content(f, chain, waiting, m) && |waiting| < 63
    ensures Content(f, chain, waiting + [x], m + [x])
  {
    hide Absorb;
    var n := Whole(|m|);
    WholeSteps(|m|);
    assert (m + [x])[..n] == m[..n];
  }

  lemma FullBlock(f: BlockFunction, chain: Chain, waiting: Bytes, m: Bytes, x: Byte)
    requires Content(f, chain, waiting, m) && |waiting| == 63
    ensures Content(f, f(chain, WordsOf(waiting + [x])), [], m + [x])
  {
    hide WordsOf;
    var n, s := Whole(|m|), m + [x];
    WholeSteps(|m|);
    assert s[..|s|] == s && s[..n] == m[..n] && s[n..] == waiting + [x];
  }

  /* ---------- the bit counter ---------- */

  ghost predicate Counts(lo: Word, hi: Word, n: nat) {
    hi * WORD + lo == 8 * n % LENGTH
  }

  function AddLo(lo: Word, len: nat): Word {
    (lo + 8 * len % WORD) % WORD
  }

  /** The carry is noticed by the sum being smaller; the high bits of the length come on top. */
  function AddHi(lo: Word, hi: Word, len: nat): Word {
    ((if AddLo(lo, len) < lo then hi + 1 else hi) + len / 0x2000_0000) % WORD
  }

  lemma CountsMore(lo: Word, hi: Word, n: nat, len: nat)
    requires Counts(lo, hi, n) && len < WORD
    ensures Counts(AddLo(lo, len), AddHi(lo, hi, len), n + len)
  {
    var l, h := 8 * len % WORD, len / 0x2000_0000;
    assert 8 * len == h * WORD + l;
    var sum := hi * WORD + lo + 8 * len;
    var carry := if lo + l >= WORD then 1 else 0;
    assert AddLo(lo, len) == lo + l - carry * WORD;
    assert AddLo(lo, len) < lo <==> carry == 1;
    var top := hi + carry + h;
    assert sum == top * WORD + AddLo(lo, len);
    CountsWrap(8 * n, 8 * len, hi * WORD + lo);
    TopWrap(top, AddLo(lo, len));
  }

  lemma CountsWrap(a: nat, b: nat, r: nat)
    requires r == a % LENGTH
    ensures (a + b) % LENGTH == (r + b) % LENGTH
  {
  }

  lemma TopWrap(top: nat, lo: Word)
    ensures (top * WORD + lo) % LENGTH == (top % WORD) * WORD + lo
  {
    var q := top / WORD;
    assert top == q * WORD + top % WORD;
    assert top * WORD + lo == q * LENGTH + ((top % WORD) * WORD + lo);
  }

  class Context {
    const f: BlockFunction
    var lo: Word
    var hi: Word
    var chain: Chain
    const input: array<Byte>

    ghost predicate Valid()
      reads this
    {
      input.Length == 64
    }

    /** The bytes `m` have been fed in. */
    ghost predicate Holds(m: Bytes)
      reads this, input
    {
      Valid() && Counts(lo, hi, |m|) && Fed(m)
    }

    ghost predicate Fed(m: Bytes)
      reads this, input
      requires input.Length == 64
    {
      Content(f, chain, input[..|m| % 64], m)
    }

    /** `MD5_Init` */
    constructor (block: BlockFunction)
      ensures f == block && Holds([]) && fresh(input)
    {
      f := block;
      lo, hi := 0, 0;
      chain := INIT;
      input := new Byte[64];
    }

    /** `MD5_Update` */
    method Update(s: Bytes, ghost m: Bytes)
      requires Holds(m) && |s| < WORD
      modifies this`lo, this`hi, this`chain, input
      ensures Holds(m + s)
    {
      hide Content, AddLo, AddHi;
      var mdi := lo / 8 % 64;
      BytesWaiting(lo, hi, |m|);
      CountsMore(lo, hi, |m|, |s|);
      hi := AddHi(lo, hi, |s|);
      lo := AddLo(lo, |s|);
      var k := 0;
      assert m + s[..0] == m;
      while k < |s|
        invariant 0 <= k <= |s| && Valid() && mdi == |m + s[..k]| % 64 && Fed(m + s[..k])
        invariant Counts(lo, hi, |m| + |s|)
      {
        mdi := Feed(s[k], mdi, m + s[..k]);
        assert m + s[..k] + [s[k]] == m + s[..k + 1];
        k := k + 1;
      }
      assert s[..k] == s;
    }

    /** One byte into the buffer, and the buffer into the chain when it is full. */
    method Feed(x: Byte, mdi: nat, ghost m: Bytes) returns (next: nat)
      requires Valid() && mdi == |m| % 64 && Fed(m)
      modifies this`chain, input
      ensures next == |m + [x]| % 64 && Fed(m + [x])
    {
      hide Absorb, WordsOf, Whole;
      ghost var waiting := input[..mdi];
      input[mdi] := x;
      next := mdi + 1;
      NextIndex(|m|);
      assert input[..mdi + 1] == waiting + [x];
      if next == 64 {
        FullBlock(f, chain, waiting, m, x);
        var words := Load(16);
        assert input[..] == input[..64];
        assert words == WordsOf(waiting + [x]);
        chain := f(chain, words);
        next := 0;
        assert input[..0] == [];
      } else {
        MoreWaiting(f, chain, waiting, m, x);
      }
    }

    /** The loop that reads words out of the buffer. */
    method Load(n: nat) returns (words: seq<Word>)
      requires Valid() && n <= 16
      ensures |words| == n && forall i :: 0 <= i < n ==> words[i] == WordsOf(input[..])[i]
    {
      words := [];
      while |words| < n
        invariant |words| <= n && forall i :: 0 <= i < |words| ==> words[i] == WordsOf(input[..])[i]
      {
        var i := 4 * |words|;
        assert input[i..i + 4] == input[..][i..i + 4];
        words := words + [LoadWord(input[i..i + 4])];
      }
    }

    /** `MD5_Final` */
    method Final(ghost m: Bytes) returns (digest: Bytes)
      requires Holds(m)
      modifies this`lo, this`hi, this`chain, input
      ensures digest == Digest(f, m)
    {
      var lo0, hi0 := lo, hi;
      BytesWaiting(lo, hi, |m|);
      var mdi := lo / 8 % 64;
      var padLen := if mdi < 56 then 56 - mdi else 120 - mdi;
      Update(Padding(padLen), m);
      var words := Load(14);
      LastBlock(f, chain, input[..], m, lo0, hi0, words + [lo0, hi0]);
      chain := f(chain, words + [lo0, hi0]);
      digest := DigestBytes(chain);
    }
  }

  lemma NextIndex(n: nat)
    ensures n % 64 < 63 ==> (n + 1) % 64 == n % 64 + 1
    ensures n % 64 == 63 ==> (n + 1) % 64 == 0
  {
  }

  lemma BytesWaiting(lo: Word, hi: Word, n: nat)
    requires Counts(lo, hi, n)
    ensures lo / 8 % 64 == n % 64
  {
    var q := 8 * n / LENGTH;
    var z := q * 0x80_0000_0000_0000 + hi * 0x80_0000;
    assert lo == 8 * (n - 64 * z);
    ModShift(n, z);
  }

  lemma ModShift(n: nat, z: nat)
    requires n >= 64 * z
    ensures (n - 64 * z) % 64 == n % 64
  {
  }

  /** The words read from the buffer and the two saved counters are the last block of the padded message. */
  lemma LastBlock(f: BlockFunction, chain: Chain, input: Bytes, m: Bytes, lo: Word, hi: Word, words: Block)
    requires var s := m + Padding(PadLen(|m|));
             |input| == 64 && Content(f, chain, input[..|s| % 64], s)
    requires Counts(lo, hi, |m|) && |words| == 16 && words[14] == lo && words[15] == hi
    requires forall i :: 0 <= i < 14 ==> words[i] == WordsOf(input)[i]
    ensures f(chain, words) == Absorb(f, Padded(m))
  {
    hide WordsOf, LengthBytes, PadLen, Padding;
    var s, e := m + Padding(PadLen(|m|)), LengthBytes(|m|);
    var n := Whole(|s|);
    WholeSteps(|s|);
    var t := Padded(m);
    assert t == s + e && |t| == n + 64;
    assert t[..n] == s[..n] && t[n..] == s[n..] + e;
    LastWords(input, |m|, lo, hi, words);
    assert s[n..] == input[..56];
  }

  lemma LastWords(input: Bytes, n: nat, lo: Word, hi: Word, words: Block)
    requires |input| == 64 && Counts(lo, hi, n) && |words| == 16 && words[14] == lo && words[15] == hi
    requires forall i :: 0 <= i < 14 ==> words[i] == WordsOf(input)[i]
    ensures WordsOf(input[..56] + LengthBytes(n)) == words
  {
    var b := input[..56] + LengthBytes(n);
    var bits := 8 * n % LENGTH;
    assert lo == bits % WORD && hi == bits / WORD;
    assert b[56..60] == Le32(lo) && b[60..64] == Le32(hi);
    LoadStored(lo);
    LoadStored(hi);
    forall i | 0 <= i < 14 ensures WordsOf(b)[i] == words[i] {
      assert b[4 * i..4 * i + 4] == input[4 * i..4 * i + 4];
    }
    assert WordsOf(b)[14] == LoadWord(b[56..60]) && WordsOf(b)[15] == LoadWord(b[60..64]);
  }

  function Joined(chunks: seq<Bytes>): Bytes {
    if chunks == [] then [] else Joined(chunks[..|chunks| - 1]) + chunks[|chunks| - 1]
  }

  /** However a message is cut into calls, the digest is that of the whole. */
  method HashChunks(f: BlockFunction, chunks: seq<Bytes>) returns (digest: Bytes)
    requires forall i :: 0 <= i < |chunks| ==> |chunks[i]| < WORD
    ensures digest == Digest(f, Joined(chunks))
  {
    hide Digest, Content, Counts;
    var c := new Context(f);
    var i := 0;
    while i < |chunks|
      invariant 0 <= i <= |chunks| && c.f == f && fresh(c) && fresh(c.input) && c.Holds(Joined(chunks[..i]))
    {
      c.Update(chunks[i], Joined(chunks[..i]));
      assert chunks[..i + 1][..i] == chunks[..i];
      i := i + 1;
    }
    assert chunks[..i] == chunks;
    digest := c.Final(Joined(chunks));
  }

  /* ---------- the format in the words of the standard ---------- */

  /** Section 3.3 of RFC 1321: the four words as bytes, low-order byte first. */
  lemma InitialBytes()
    ensures DigestBytes(INIT) == [0x01, 0x23, 0x45, 0x67, 0x89, 0xab, 0xcd, 0xef,
                                  0xfe, 0xdc, 0xba, 0x98, 0x76, 0x54, 0x32, 0x10]
  {
    assert Le32(INIT.a) == [0x01, 0x23, 0x45, 0x67] && Le32(INIT.b) == [0x89, 0xab, 0xcd, 0xef];
    assert Le32(INIT.c) == [0xfe, 0xdc, 0xba, 0x98] && Le32(INIT.d) == [0x76, 0x54, 0x32, 0x10];
  }

  /** Section 2: a word is four bytes with the low-order byte first, a block sixteen words in a row. */
  lemma WordBytes(s: Bytes, i: nat)
    requires |s| == 64 && i < 16
    ensures WordsOf(s)[i] == s[4 * i] as int + s[4 * i + 1] as int * 0x100 + s[4 * i + 2] as int * 0x10000 +
                             s[4 * i + 3] as int * 0x1000000
    ensures Le32(WordsOf(s)[i]) == s[4 * i..4 * i + 4]
  {
    FourBytes(s[4 * i..4 * i + 4]);
  }

  lemma FourBytes(b: Bytes)
    requires |b| == 4
    ensures LoadWord(b) == b[0] as int + b[1] as int * 0x100 + b[2] as int * 0x10000 + b[3] as int * 0x1000000
    ensures Le32(LoadWord(b)) == b
  {
  }

  /** Sections 3.1 and 3.2: a single 1 bit, zeros up to 56 bytes of a block, and eight bytes of length, low-order
      first. */
  lemma PaddedBytes(msg: Bytes)
    ensures var n, p, r := |msg|, PadLen(|msg|), Padded(msg);
            && |r| == n + p + 8 && r[..n] == msg && r[n] == 0x80
            && (forall k :: n < k < n + p ==> r[k] == 0)
            && LowFirst(r[n + p..], 8) == 8 * n % 0x1_0000_0000_0000_0000
  {
    var n, p, r := |msg|, PadLen(|msg|), Padded(msg);
    assert r[n + p..] == LengthBytes(n);
    LengthLowFirst(n);
  }

  /** The number that bytes make with the lowest first. */
  function LowFirst(b: Bytes, k: nat): nat
    requires k <= |b|
  {
    if k == 0 then 0 else b[0] as int + 256 * LowFirst(b[1..], k - 1)
  }

  lemma LengthLowFirst(n: nat)
    ensures LowFirst(LengthBytes(n), 8) == 8 * n % LENGTH
  {
    var bits := 8 * n % LENGTH;
    var a, b := Le32(bits % WORD), Le32(bits / WORD);
    WordLowFirst(bits % WORD, b);
    WordLowFirst(bits / WORD, []);
    assert b + [] == b && bits == bits / WORD * WORD + bits % WORD;
  }

  lemma WordLowFirst(w: Word, rest: Bytes)
    ensures LowFirst(Le32(w) + rest, 4 + |rest|) == w + WORD * LowFirst(rest, |rest|)
  {
    var b0 := Le32(w) + rest;
    var b1 := b0[1..];
    var b2 := b1[1..];
    var b3 := b2[1..];
    var r := |rest|;
    assert b3[1..] == rest;
    assert b0[0] == w % 256 && b1[0] == w / 256 % 256 && b2[0] == w / 256 / 256 % 256 && b3[0] == w / 256 / 256 / 256;
    assert LowFirst(b3, 1 + r) == b3[0] + 256 * LowFirst(rest, r);
    assert LowFirst(b2, 2 + r) == b2[0] + 256 * LowFirst(b3, 1 + r);
    assert LowFirst(b1, 3 + r) == b1[0] + 256 * LowFirst(b2, 2 + r);
    assert LowFirst(b0, 4 + r) == b0[0] + 256 * LowFirst(b1, 3 + r);
  }

  /** Blocks are taken in one after the other, the first into the initial words. */
  lemma AbsorbBlocks(f: BlockFunction, s: Bytes, t: Bytes)
    requires |s| % 64 == 0 && |t| == 64
    ensures Absorb(f, []) == Chain(0x67452301, 0xefcdab89, 0x98badcfe, 0x10325476)
    ensures Absorb(f, s + t) == f(Absorb(f, s), WordsOf(t))
  {
    assert (s + t)[..|s + t| - 64] == s && (s + t)[|s + t| - 64..] == t;
  }
}
