/** The stream cipher of buffalo-lib.c: key schedule, key stream, and a buffer crypted into itself
    or into an overlapping place further down. */
module BuffaloCipher {

  import opened Words

  /** Exclusive or of the low `n` bits, from the lowest up. */
  function XorBits(a: nat, b: nat, n: nat): nat {
    if n == 0 then 0 else 2 * XorBits(a / 2, b / 2, n - 1) + (a + b) % 2
  }

  function Pow2(n: nat): nat {
    if n == 0 then 1 else 2 * Pow2(n - 1)
  }

  lemma {:induction false} XorBitsTwice(a: nat, b: nat, n: nat)
    requires a < Pow2(n)
    ensures XorBits(XorBits(a, b, n), b, n) == a
  {
    if n > 0 {
      LowBit(XorBits(a / 2, b / 2, n - 1), a, b);
      XorBitsTwice(a / 2, b / 2, n - 1);
    }
  }

  lemma LowBit(x: nat, a: nat, b: nat)
    ensures var c := 2 * x + (a + b) % 2;
            c / 2 == x && (c + b) % 2 == a % 2 && a == 2 * (a / 2) + a % 2
  {
  }

  lemma {:induction false} XorBitsBound(a: nat, b: nat, n: nat)
    ensures XorBits(a, b, n) < Pow2(n)
  {
    if n > 0 { XorBitsBound(a / 2, b / 2, n - 1); }
  }

  lemma Pow2Of8()
    ensures Pow2(8) == 256
  {
    assert Pow2(4) == 16;
  }

  function XorByte(a: Byte, b: Byte): Byte {
    XorBitsBound(a, b, 8);
    Pow2Of8();
    XorBits(a, b, 8)
  }

  lemma XorTwice(a: Byte, b: Byte)
    ensures XorByte(XorByte(a, b), b) == a
  {
    Pow2Of8();
    XorBitsTwice(a, b, 8);
  }

  function Xors(a: Bytes, k: Bytes): (r: Bytes)
    requires |a| == |k|
    ensures |r| == |a|
  {
    seq(|a|, i requires 0 <= i < |a| => XorByte(a[i], k[i]))
  }

  lemma XorsTwice(a: Bytes, k: Bytes)
    requires |a| == |k|
    ensures Xors(Xors(a, k), k) == a
  {
    hide XorByte;
    forall i | 0 <= i < |a| ensures Xors(Xors(a, k), k)[i] == a[i] {
      XorTwice(a[i], k[i]);
    }
  }

  /* ---------- the key schedule ---------- */

  function Swapped(s: Bytes, a: nat, b: nat): (r: Bytes)
    requires a < |s| && b < |s|
    ensures |r| == |s|
  {
    s[a := s[b]][b := s[a]]
  }

  /** What `bcrypt_init` makes of the state from position `i` on; `j` runs around the key and `k` is the
      last swap partner. */
  function Mixed(s: Bytes, key: Bytes, i: nat, j: nat, k: nat): (r: Bytes)
    requires j < |key| && i <= |s|
    ensures |r| == |s|
    decreases |s| - i
  {
    if i == |s| then s
    else
      var k' := (k + key[j] + s[i]) % |s|;
      Mixed(Swapped(s, i, k'), key, i + 1, (j + 1) % |key|, k')
  }

  /** The state starts with the low byte of every index. */
  function Schedule(key: Bytes, n: nat): (r: Bytes)
    requires |key| > 0
    ensures |r| == n
  {
    Mixed(seq(n, i => i % 256), key, 0, 0, 0)
  }

  /* ---------- the key stream ---------- */

  /** `struct bcrypt_ctx`; `i` and `j` pass through an unsigned char on every step. */
  datatype Cipher = Cipher(i: Byte, j: Byte, state: Bytes)

  predicate Proper(c: Cipher) {
    |c.state| > 0 && c.i < |c.state| && c.j < |c.state|
  }

  /** An index into the state, cut to an unsigned char. */
  function Wrapped(x: nat, n: nat): (r: Byte)
    requires n > 0
    ensures r < n
  {
    (x % n) % 256
  }

  function Next(c: Cipher): (r: Cipher)
    requires |c.state| > 0
    ensures |r.state| == |c.state| && Proper(r)
  {
    var n := |c.state|;
    var i := Wrapped(c.i + 1, n);
    var j := Wrapped(c.j + c.state[i], n);
    Cipher(i, j, Swapped(c.state, i, j))
  }

  function Output(c: Cipher): Byte
    requires Proper(c)
  {
    c.state[(c.state[c.i] + c.state[c.j]) % |c.state|]
  }

  function After(c: Cipher, n: nat): (r: Cipher)
    requires n > 0 ==> |c.state| > 0
    ensures |r.state| == |c.state| && (n > 0 ==> Proper(r))
  {
    if n == 0 then c else Next(After(c, n - 1))
  }

  function Stream(c: Cipher, n: nat): (r: Bytes)
    requires n > 0 ==> |c.state| > 0
    ensures |r| == n
  {
    if n == 0 then [] else Stream(c, n - 1) + [Output(After(c, n))]
  }

  lemma {:induction false} StreamAt(c: Cipher, n: nat, k: nat)
    requires k < n && |c.state| > 0
    ensures Stream(c, n)[k] == Output(After(c, k + 1))
  {
    if k < n - 1 { StreamAt(c, n - 1, k); }
  }

  const DEFAULT_STATE_LEN: nat := 256
  const MAX_KEYLEN: nat := 254

  function StateLen(len: nat, longstate: bool): nat {
    if longstate then len else DEFAULT_STATE_LEN
  }

  function Started(seed: Byte, key: Bytes, len: nat, longstate: bool): (c: Cipher)
    ensures |c.state| == StateLen(len, longstate)
  {
    Cipher(0, 0, Schedule([seed] + key, StateLen(len, longstate)))
  }

  /** `bcrypt_buf` as a function: the key stream depends on the seed, the key and the length only. */
  function Crypt(seed: Byte, key: Bytes, data: Bytes, longstate: bool): (r: Bytes)
    ensures |r| == |data|
  {
    Xors(data, Stream(Started(seed, key, |data|, longstate), |data|))
  }

  lemma CryptTwice(seed: Byte, key: Bytes, data: Bytes, longstate: bool)
    ensures Crypt(seed, key, Crypt(seed, key, data, longstate), longstate) == data
  {
    XorsTwice(data, Stream(Started(seed, key, |data|, longstate), |data|));
  }

  /* ---------- in place ---------- */

  /** `bcrypt_init` */
  method BcryptInit(key: Bytes, n: nat) returns (state: array<Byte>)
    requires |key| > 0
    ensures fresh(state) && state[..] == Schedule(key, n)
  {
    state := new Byte[n];
    var i := 0;
    while i < n
      invariant 0 <= i <= n && forall m :: 0 <= m < i ==> state[m] == m % 256
    {
      state[i] := i % 256;
      i := i + 1;
    }
    assert state[..] == seq(n, m => m % 256);
    var j, k := 0, 0;
    i := 0;
    while i < n
      invariant 0 <= i <= n && 0 <= j < |key|
      invariant Mixed(state[..], key, i, j, k) == Schedule(key, n)
    {
      k := MixOne(state, key, i, j, k);
      j := (j + 1) % |key|;
      i := i + 1;
    }
  }

  /** One swap of the key schedule. */
  method MixOne(state: array<Byte>, key: Bytes, i: nat, j: nat, k0: nat) returns (k: nat)
    requires j < |key| && i < state.Length
    modifies state
    ensures Mixed(state[..], key, i + 1, (j + 1) % |key|, k) == Mixed(old(state[..]), key, i, j, k0)
  {
    var t := state[i];
    k := (k0 + key[j] + t) % state.Length;
    state[i] := state[k];
    state[k] := t;
    assert state[..] == Swapped(old(state[..]), i, k);
  }

  /** One turn of the generator. */
  method Turn(state: array<Byte>, i0: Byte, j0: Byte) returns (i: Byte, j: Byte, key: Byte)
    requires state.Length > 0
    modifies state
    ensures Cipher(i, j, state[..]) == Next(Cipher(i0, j0, old(state[..])))
    ensures key == Output(Cipher(i, j, state[..]))
  {
    hide Wrapped;
    var n := state.Length;
    i := Wrapped(i0 + 1, n);
    j := Wrapped(j0 + state[i], n);
    var t := state[j];
    state[j] := state[i];
    state[i] := t;
    assert state[..] == Swapped(old(state[..]), i, j);
    key := state[(state[i] as int + state[j] as int) % n];
  }

  /** `bcrypt_process`: the target may overlap the source as long as it does not start after it. */
  method BcryptProcess(state: array<Byte>, src: array<Byte>, s: nat, dst: array<Byte>, d: nat, len: nat)
    requires state != src && state != dst && s + len <= src.Length && d + len <= dst.Length
    requires src == dst ==> d <= s
    requires len > 0 ==> state.Length > 0
    modifies state, dst
    ensures dst[d..d + len] == Xors(old(src[s..s + len]), Stream(Cipher(0, 0, old(state[..])), len))
    ensures forall m :: 0 <= m < dst.Length && !(d <= m < d + len) ==> dst[m] == old(dst[m])
  {
    hide Next, Output, XorByte;
    ghost var c := Cipher(0, 0, state[..]);
    ghost var was := src[..];
    var i: Byte, j: Byte := 0, 0;
    var k := 0;
    while k < len
      invariant 0 <= k <= len && Cipher(i, j, state[..]) == After(c, k)
      invariant forall m :: d <= m < d + k ==> dst[m] == XorByte(was[m - d + s], Output(After(c, m - d + 1)))
      invariant forall m :: 0 <= m < dst.Length && !(d <= m < d + k) ==> dst[m] == old(dst[m])
      invariant forall m :: s + k <= m < src.Length ==> src[m] == was[m]
    {
      var key;
      i, j, key := Turn(state, i, j);
      dst[d + k] := XorByte(src[s + k], key);
      k := k + 1;
    }
    forall m | d <= m < d + len ensures dst[m] == Xors(was[s..s + len], Stream(c, len))[m - d] {
      StreamAt(c, len, m - d);
    }
  }

  /** `bcrypt_buf` */
  method BcryptBuf(seed: Byte, key: Bytes, src: array<Byte>, s: nat, dst: array<Byte>, d: nat, len: nat,
                   longstate: bool)
    requires |key| <= MAX_KEYLEN && s + len <= src.Length && d + len <= dst.Length && (src == dst ==> d <= s)
    modifies dst
    ensures dst[d..d + len] == Crypt(seed, key, old(src[s..s + len]), longstate)
    ensures forall m :: 0 <= m < dst.Length && !(d <= m < d + len) ==> dst[m] == old(dst[m])
  {
    var state := BcryptInit([seed] + key, if longstate then len else DEFAULT_STATE_LEN);
    BcryptProcess(state, src, s, dst, d, len);
  }
}
