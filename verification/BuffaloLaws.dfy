/** The cipher of buffalo-lib.c by what happens to its cells: which two are exchanged at each step of the key
    schedule and of the generator, what depends on the key, and what does not. */
module BuffaloLaws {
  import opened Words
  import opened BuffaloCipher

  /** `b` is `a` with the cells `x` and `y` exchanged. */
  ghost predicate Exchanged(a: Bytes, b: Bytes, x: nat, y: nat) {
    && |b| == |a| && x < |a| && y < |a| && b[x] == a[y] && b[y] == a[x]
    && forall m :: 0 <= m < |a| && m != x && m != y ==> b[m] == a[m]
  }

  /* ---------- the key schedule ---------- */

  /** The key byte used at step `m`: the key is repeated. */
  function KeyAt(key: Bytes, m: nat): Byte
    requires |key| > 0
  {
    key[m % |key|]
  }

  /** All that has been added up after `m` more steps from step `i` on: key bytes and the bytes found at each place. */
  function Total(key: Bytes, i: nat, states: seq<Bytes>, m: nat): nat
    requires |key| > 0 && m <= |states| && forall r :: 0 <= r < m ==> i + r < |states[r]|
  {
    if m == 0 then 0 else Total(key, i, states, m - 1) + KeyAt(key, i + m - 1) + states[m - 1][i + m - 1]
  }

  /** From step `i` to the end of `n` cells, with `base` added up before: each step exchanges its own cell with the one
      the total points to. */
  ghost predicate RunFrom(key: Bytes, n: nat, i: nat, base: nat, states: seq<Bytes>, partners: seq<nat>) {
    && |key| > 0 && i + |partners| == n && |states| == |partners| + 1
    && (forall m :: 0 <= m < |states| ==> |states[m]| == n)
    && (forall m :: 0 <= m < |partners| ==> RunAt(key, n, i, base, states, partners, m))
  }

  /** The whole schedule: it starts from the low byte of every index. */
  ghost predicate IsRun(key: Bytes, n: nat, states: seq<Bytes>, partners: seq<nat>) {
    RunFrom(key, n, 0, 0, states, partners) && forall m :: 0 <= m < n ==> states[0][m] == m % 256
  }

  lemma {:induction false} TotalShift(key: Bytes, i: nat, s: Bytes, states: seq<Bytes>, m: nat)
    requires |key| > 0 && m <= |states| && i < |s| && forall r :: 0 <= r < m ==> i + 1 + r < |states[r]|
    ensures Total(key, i, [s] + states, m + 1) == KeyAt(key, i) + s[i] + Total(key, i + 1, states, m)
  {
    if m > 0 { TotalShift(key, i, s, states, m - 1); }
  }

  lemma ModIs(a: nat, q: int, r: nat, n: nat)
    requires r < n && a == q * n + r
    ensures a % n == r
  {
    var d := q - a / n;
    assert d * n == a % n - r;
    MultipleApart(d, n);
  }

  lemma MultipleApart(d: int, n: nat)
    ensures d >= 1 ==> d * n >= n
    ensures d <= -1 ==> d * n <= 0 - n
  {
  }

  lemma ModAdd(a: nat, k: nat, x: nat, n: nat)
    requires n > 0 && k == a % n
    ensures (k + x) % n == (a + x) % n
  {
    var p, q := (k + x) / n, a / n;
    assert k + x == p * n + (k + x) % n && a == q * n + k;
    assert (p + q) * n == p * n + q * n;
    ModIs(a + x, p + q, (k + x) % n, n);
  }

  lemma ModMultiple(q: nat, x: nat, n: nat)
    requires n > 0
    ensures (q * n + x) % n == x % n
  {
    assert (q + x / n) * n == q * n + x / n * n;
    ModIs(q * n + x, q + x / n, x % n, n);
  }

  lemma NextAround(i: nat, n: nat)
    requires n > 0
    ensures (i % n + 1) % n == (i + 1) % n
  {
    ModAdd(i, i % n, 1, n);
  }

  /** What a run does at place `m`. */
  ghost predicate RunAt(key: Bytes, n: nat, i: nat, base: nat, states: seq<Bytes>, partners: seq<nat>, m: nat)
    requires |key| > 0 && |states| == |partners| + 1 && m < |partners| && i + |partners| == n
    requires forall r :: 0 <= r < |states| ==> |states[r]| == n
  {
    && Exchanged(states[m], states[m + 1], i + m, partners[m])
    && partners[m] == (base + Total(key, i, states, m + 1)) % n
  }

  lemma RunConsAt(key: Bytes, n: nat, i: nat, base: nat, s: Bytes, k: nat, rest: seq<Bytes>, more: seq<nat>, m: nat)
    requires |key| > 0 && i < n == |s| && k == (base + (KeyAt(key, i) + s[i])) % n
    requires RunFrom(key, n, i + 1, base + (KeyAt(key, i) + s[i]), rest, more) && Exchanged(s, rest[0], i, k)
    requires m <= |more| && forall r :: 0 <= r < |rest| + 1 ==> |([s] + rest)[r]| == n
    ensures RunAt(key, n, i, base, [s] + rest, [k] + more, m)
  {
    hide Exchanged, KeyAt;
    TotalShift(key, i, s, rest, m);
    if m == 0 {
      assert Total(key, i + 1, rest, 0) == 0;
    } else {
      assert RunAt(key, n, i + 1, base + (KeyAt(key, i) + s[i]), rest, more, m - 1);
      assert ([s] + rest)[m] == rest[m - 1] && ([s] + rest)[m + 1] == rest[m] && ([k] + more)[m] == more[m - 1];
    }
  }

  /** One more step before a run. */
  lemma RunCons(key: Bytes, n: nat, i: nat, base: nat, s: Bytes, k: nat, rest: seq<Bytes>, more: seq<nat>)
    requires |key| > 0 && i < n == |s| && k == (base + (KeyAt(key, i) + s[i])) % n
    requires RunFrom(key, n, i + 1, base + (KeyAt(key, i) + s[i]), rest, more) && Exchanged(s, rest[0], i, k)
    ensures RunFrom(key, n, i, base, [s] + rest, [k] + more)
  {
    hide RunAt, Exchanged, KeyAt;
    assert forall r :: 0 < r < |rest| + 1 ==> ([s] + rest)[r] == rest[r - 1];
    forall m | 0 <= m < |more| + 1 ensures RunAt(key, n, i, base, [s] + rest, [k] + more, m) {
      RunConsAt(key, n, i, base, s, k, rest, more, m);
    }
  }

  lemma {:induction false} MixedRuns(s: Bytes, key: Bytes, i: nat, j: nat, k: nat, base: nat)
    returns (states: seq<Bytes>, partners: seq<nat>)
    requires |key| > 0 && i <= |s| && j == i % |key| && (|s| > 0 ==> k == base % |s|)
    ensures RunFrom(key, |s|, i, base, states, partners)
    ensures states[0] == s && states[|states| - 1] == Mixed(s, key, i, j, k)
    decreases |s| - i
  {
    if i == |s| {
      states, partners := [s], [];
    } else {
      var add := KeyAt(key, i) + s[i];
      ModAdd(base, k, add, |s|);
      var k' := (k + key[j] + s[i]) % |s|;
      NextAround(i, |key|);
      var rest, more := MixedRuns(Swapped(s, i, k'), key, i + 1, (j + 1) % |key|, k', base + add);
      RunCons(key, |s|, i, base, s, k', rest, more);
      states, partners := [s] + rest, [k'] + more;
    }
  }

  /** `bcrypt_init` is such a run. */
  lemma ScheduleRuns(key: Bytes, n: nat) returns (states: seq<Bytes>, partners: seq<nat>)
    requires |key| > 0
    ensures IsRun(key, n, states, partners) && states[n] == Schedule(key, n)
  {
    states, partners := MixedRuns(seq(n, i => i % 256), key, 0, 0, 0, 0);
  }

  /* ---------- what depends on the key ---------- */

  /** The two keys agree, up to the state length, at every step. */
  ghost predicate SameSteps(k: Bytes, l: Bytes, n: nat)
    requires |k| > 0 && |l| > 0
  {
    forall m :: 0 <= m < n ==> KeyAt(k, m) % n == KeyAt(l, m) % n
  }

  lemma ModPair(a: nat, b: nat, x: nat, y: nat, z: nat, n: nat)
    requires n > 0 && a % n == b % n
    ensures x % n == y % n <==> (a + x + z) % n == (b + y + z) % n
  {
    ModAdd(a, a % n, x + z, n);
    ModAdd(b, b % n, y + z, n);
    var c := a % n + z;
    assert (a + x + z) % n == (c + x) % n && (b + y + z) % n == (c + y) % n;
    ModCancel(c, x, y, n);
  }

  lemma ModCancel(c: nat, x: nat, y: nat, n: nat)
    requires n > 0
    ensures x % n == y % n <==> (c + x) % n == (c + y) % n
  {
    ModAdd(x, x % n, c, n);
    ModAdd(y, y % n, c, n);
    ModBack(c, x, n);
    ModBack(c, y, n);
  }

  /** Adding what is missing to a multiple takes the first addend away again. */
  lemma ModBack(c: nat, x: nat, n: nat)
    requires n > 0
    ensures c * n - c >= 0 && ((c + x) % n + (c * n - c)) % n == x % n
  {
    AtLeast(c, n);
    var y := c * n - c;
    ModAdd(c + x, (c + x) % n, y, n);
    ModMultiple(c, x, n);
    assert c + x + y == c * n + x;
  }

  lemma AtLeast(c: nat, n: nat)
    requires n > 0
    ensures c * n >= c
  {
  }

  /** Step `m` of the schedule: its own cell is exchanged with the one the total points to. */
  lemma StepAt(key: Bytes, n: nat, states: seq<Bytes>, partners: seq<nat>, m: nat)
    requires IsRun(key, n, states, partners) && m < n
    ensures |states[m]| == |states[m + 1]| == n && Exchanged(states[m], states[m + 1], m, partners[m])
    ensures partners[m] == (Total(key, 0, states, m) + KeyAt(key, m) + states[m][m]) % n
  {
    assert RunAt(key, n, 0, 0, states, partners, m);
  }

  lemma ExchangedOnce(a: Bytes, b: Bytes, c: Bytes, x: nat, y: nat)
    requires Exchanged(a, b, x, y) && Exchanged(a, c, x, y)
    ensures b == c
  {
    assert forall m :: 0 <= m < |a| ==> b[m] == c[m];
  }

  /** As long as the keys agree, two runs do the same. */
  lemma {:induction false} RunsAgree(k: Bytes, l: Bytes, n: nat, s: seq<Bytes>, p: seq<nat>, t: seq<Bytes>, q: seq<nat>,
                                     i: nat)
    requires IsRun(k, n, s, p) && IsRun(l, n, t, q) && i <= n
    requires forall m :: 0 <= m < i ==> KeyAt(k, m) % n == KeyAt(l, m) % n
    ensures s[i] == t[i] && (forall m :: 0 <= m < i ==> p[m] == q[m])
    ensures n > 0 ==> Total(k, 0, s, i) % n == Total(l, 0, t, i) % n
  {
    if i == 0 {
      assert s[0] == t[0];
    } else {
      hide Exchanged, KeyAt, RunAt;
      var m := i - 1;
      RunsAgree(k, l, n, s, p, t, q, m);
      StepAt(k, n, s, p, m);
      StepAt(l, n, t, q, m);
      ModPair(Total(k, 0, s, m), Total(l, 0, t, m), KeyAt(k, m), KeyAt(l, m), s[m][m], n);
      ExchangedOnce(s[m], s[i], t[i], m, p[m]);
    }
  }

  /** And where they first differ, the runs part: another cell is exchanged. */
  lemma RunsPart(k: Bytes, l: Bytes, n: nat, s: seq<Bytes>, p: seq<nat>, t: seq<Bytes>, q: seq<nat>, i: nat)
    requires IsRun(k, n, s, p) && IsRun(l, n, t, q) && i < n
    requires forall m :: 0 <= m < i ==> KeyAt(k, m) % n == KeyAt(l, m) % n
    ensures p[i] == q[i] <==> KeyAt(k, i) % n == KeyAt(l, i) % n
  {
    hide Exchanged, KeyAt, RunAt, Total;
    RunsAgree(k, l, n, s, p, t, q, i);
    StepAt(k, n, s, p, i);
    StepAt(l, n, t, q, i);
    ModPair(Total(k, 0, s, i), Total(l, 0, t, i), KeyAt(k, i), KeyAt(l, i), s[i][i], n);
  }

  lemma {:induction false} RunsSame(k: Bytes, l: Bytes, n: nat, s: seq<Bytes>, p: seq<nat>, t: seq<Bytes>, q: seq<nat>,
                                    i: nat)
    requires IsRun(k, n, s, p) && IsRun(l, n, t, q) && i <= n && p == q
    ensures forall m :: 0 <= m < i ==> KeyAt(k, m) % n == KeyAt(l, m) % n
  {
    if i > 0 {
      RunsSame(k, l, n, s, p, t, q, i - 1);
      RunsPart(k, l, n, s, p, t, q, i - 1);
    }
  }

  /** Two keys make the same exchanges if and only if they agree at every step, and then the states are the same. */
  lemma KeysDecide(k: Bytes, l: Bytes, n: nat, s: seq<Bytes>, p: seq<nat>, t: seq<Bytes>, q: seq<nat>)
    requires IsRun(k, n, s, p) && IsRun(l, n, t, q)
    ensures p == q <==> SameSteps(k, l, n)
    ensures SameSteps(k, l, n) ==> s[n] == t[n]
  {
    if SameSteps(k, l, n) { RunsAgree(k, l, n, s, p, t, q, n); }
    if p == q { RunsSame(k, l, n, s, p, t, q, n); }
  }

  /** So there is no other run than that of the source. */
  lemma RunEndsInSchedule(key: Bytes, n: nat, states: seq<Bytes>, partners: seq<nat>)
    requires IsRun(key, n, states, partners)
    ensures states[n] == Schedule(key, n)
  {
    var s, p := ScheduleRuns(key, n);
    KeysDecide(key, key, n, states, partners, s, p);
  }

  lemma FirstPartner(key: Bytes, n: nat, states: seq<Bytes>, partners: seq<nat>)
    requires IsRun(key, n, states, partners) && n > 0
    ensures partners[0] == key[0] % n
  {
    StepAt(key, n, states, partners, 0);
  }

  /** Different keys need not give different ciphers: a key written twice, with the seed between, does what it did
      before. */
  lemma DoubledKey(seed: Byte, key: Bytes, data: Bytes, longstate: bool)
    ensures Crypt(seed, key + [seed] + key, data, longstate) == Crypt(seed, key, data, longstate)
  {
    var k := [seed] + key;
    var l := [seed] + (key + [seed] + key);
    var n := StateLen(|data|, longstate);
    assert l == k + k;
    forall m: nat ensures KeyAt(l, m) == KeyAt(k, m) { TwiceAround(k, m); }
    var s, p := ScheduleRuns(k, n);
    var t, q := ScheduleRuns(l, n);
    KeysDecide(k, l, n, s, p, t, q);
  }

  lemma AroundTwice(m: nat, n: nat)
    requires n > 0
    ensures var r := m % (2 * n); m % n == if r < n then r else r - n
  {
    var r, q := m % (2 * n), m / (2 * n);
    assert m == q * (2 * n) + r;
    assert q * (2 * n) == (2 * q) * n;
    if r < n {
      ModIs(m, 2 * q, r, n);
    } else {
      assert (2 * q + 1) * n == (2 * q) * n + n;
      ModIs(m, 2 * q + 1, r - n, n);
    }
  }

  lemma TwiceAround(k: Bytes, m: nat)
    requires |k| > 0
    ensures KeyAt(k + k, m) == KeyAt(k, m)
  {
    assert |k + k| == 2 * |k|;
    AroundTwice(m, |k|);
  }

  /* ---------- a permutation ---------- */

  ghost predicate EveryByte(s: Bytes) {
    forall x: Byte :: x in s
  }

  ghost predicate NoByteTwice(s: Bytes) {
    forall m, r :: 0 <= m < r < |s| ==> s[m] != s[r]
  }

  lemma ExchangeKeeps(a: Bytes, b: Bytes, x: nat, y: nat)
    requires Exchanged(a, b, x, y)
    ensures EveryByte(a) ==> EveryByte(b)
    ensures NoByteTwice(a) ==> NoByteTwice(b)
  {
    if EveryByte(a) {
      forall z: Byte ensures z in b {
        assert z in a;
        var m :| 0 <= m < |a| && a[m] == z;
        assert b[if m == x then y else if m == y then x else m] == z;
      }
    }
  }

  lemma {:induction false} RunKeeps(key: Bytes, n: nat, states: seq<Bytes>, partners: seq<nat>, i: nat)
    requires IsRun(key, n, states, partners) && i <= n
    ensures EveryByte(states[0]) ==> EveryByte(states[i])
    ensures NoByteTwice(states[0]) ==> NoByteTwice(states[i])
  {
    if i > 0 {
      RunKeeps(key, n, states, partners, i - 1);
      StepAt(key, n, states, partners, i - 1);
      ExchangeKeeps(states[i - 1], states[i], i - 1, partners[i - 1]);
    }
  }

  /** With the default state length every byte occurs exactly once. */
  lemma SchedulePermutes(key: Bytes)
    requires |key| > 0
    ensures EveryByte(Schedule(key, 256)) && NoByteTwice(Schedule(key, 256))
  {
    var states, partners := ScheduleRuns(key, 256);
    forall x: Byte ensures x in states[0] { assert states[0][x] == x; }
    RunKeeps(key, 256, states, partners, 256);
  }

  /* ---------- the generator ---------- */

  /** Each turn moves on by one cell, adds what it finds there, exchanges the two cells, and gives out the cell that the
      sum of both points to. Both indices pass through an unsigned char. */
  lemma TurnLaw(c: Cipher)
    requires |c.state| > 0
    ensures var n, d := |c.state|, Next(c);
            && d.i == ((c.i + 1) % n) % 256
            && d.j == ((c.j + c.state[d.i]) % n) % 256
            && Exchanged(c.state, d.state, d.i, d.j)
            && Output(d) == d.state[(c.state[d.i] + c.state[d.j]) % n]
  {
  }

  /** Byte `k` of the result is byte `k` of the data, its bits flipped by the output of turn `k + 1`. */
  lemma CryptAt(seed: Byte, key: Bytes, data: Bytes, longstate: bool, k: nat)
    requires k < |data|
    ensures var c := Started(seed, key, |data|, longstate);
            && c.i == 0 && c.j == 0 && c.state == Schedule([seed] + key, if longstate then |data| else 256)
            && Crypt(seed, key, data, longstate)[k] == XorByte(data[k], Output(After(c, k + 1)))
  {
    StreamAt(Started(seed, key, |data|, longstate), |data|, k);
  }

  /** Bit `k`, counted from the lowest. */
  function Bit(x: nat, k: nat): nat {
    if k == 0 then x % 2 else Bit(x / 2, k - 1)
  }

  lemma Halves(x: nat, b: nat)
    requires b < 2
    ensures (2 * x + b) / 2 == x && (2 * x + b) % 2 == b
  {
  }

  lemma ParityAdds(a: nat, b: nat)
    ensures (a + b) % 2 == (a % 2 + b % 2) % 2
  {
    ModAdd(a, a % 2, b, 2);
    ModAdd(b, b % 2, a % 2, 2);
  }

  lemma {:induction false} XorBit(a: nat, b: nat, n: nat, k: nat)
    requires k < n
    ensures Bit(XorBits(a, b, n), k) == (Bit(a, k) + Bit(b, k)) % 2
  {
    Halves(XorBits(a / 2, b / 2, n - 1), (a + b) % 2);
    ParityAdds(a, b);
    if k > 0 { XorBit(a / 2, b / 2, n - 1, k - 1); }
  }

  /** Every one of the eight bits is flipped where the other byte has it set, and only there. */
  lemma XorByteBits(a: Byte, b: Byte, k: nat)
    requires k < 8
    ensures Bit(XorByte(a, b), k) == (Bit(a, k) + Bit(b, k)) % 2
  {
    XorBit(a, b, 8, k);
  }

  /* ---------- examples ---------- */

  /** Four bytes with the long state. */
  lemma KnownAnswer()
    ensures Crypt(2, [7, 1], [16, 32, 48, 64], true) == [19, 32, 51, 65]
  {
    hide Schedule, Crypt, XorByte, After, Output;
    KnownState();
    var c := Started(2, [7, 1], 4, true);
    KnownTurns();
    SmallXors();
    var r, data := Crypt(2, [7, 1], [16, 32, 48, 64], true), [16, 32, 48, 64];
    CryptAt(2, [7, 1], data, true, 0);
    CryptAt(2, [7, 1], data, true, 1);
    CryptAt(2, [7, 1], data, true, 2);
    CryptAt(2, [7, 1], data, true, 3);
    assert r[0] == 19 && r[1] == 32 && r[2] == 51 && r[3] == 65;
  }

  lemma KnownState()
    ensures Started(2, [7, 1], 4, true) == Cipher(0, 0, [1, 3, 2, 0])
  {
    var key := [2, 7, 1];
    var states: seq<Bytes> := [[0, 1, 2, 3], [2, 1, 0, 3], [2, 0, 1, 3], [1, 0, 2, 3], [1, 3, 2, 0]];
    var partners: seq<nat> := [2, 2, 0, 1];
    assert [2] + [7, 1] == key;
    assert KeyAt(key, 0) == 2 && KeyAt(key, 1) == 7 && KeyAt(key, 2) == 1 && KeyAt(key, 3) == 2;
    assert Total(key, 0, states, 0) == 0;
    assert Total(key, 0, states, 1) == 2;
    assert Total(key, 0, states, 2) == 10;
    assert Total(key, 0, states, 3) == 12;
    assert Total(key, 0, states, 4) == 17;
    assert Exchanged(states[0], states[1], 0, 2) && Exchanged(states[1], states[2], 1, 2);
    assert Exchanged(states[2], states[3], 2, 0) && Exchanged(states[3], states[4], 3, 1);
    assert RunFrom(key, 4, 0, 0, states, partners) by {
      hide KeyAt, Total, Exchanged;
      forall m | 0 <= m < 4 ensures RunAt(key, 4, 0, 0, states, partners, m) {
        if m == 0 { } else if m == 1 { } else if m == 2 { } else { assert m == 3; }
      }
    }
    RunEndsInSchedule(key, 4, states, partners);
  }

  lemma KnownTurns()
    ensures var c := Cipher(0, 0, [1, 3, 2, 0]);
            Output(After(c, 1)) == 3 && Output(After(c, 2)) == 0 && Output(After(c, 3)) == 3 && Output(After(c, 4)) == 1
  {
    var c := Cipher(0, 0, [1, 3, 2, 0]);
    FirstTwo();
    LastTwo();
    hide Next, Output;
    assert After(c, 0) == c;
    assert After(c, 1) == Next(c);
    assert After(c, 2) == Next(After(c, 1));
    assert After(c, 3) == Next(After(c, 2));
    assert After(c, 4) == Next(After(c, 3));
  }

  lemma FirstTwo()
    ensures var d, e := Cipher(1, 3, [1, 0, 2, 3]), Cipher(2, 1, [1, 2, 0, 3]);
            && Next(Cipher(0, 0, [1, 3, 2, 0])) == d && Next(d) == e && Output(d) == 3 && Output(e) == 0
  {
  }

  lemma LastTwo()
    ensures var d, e := Cipher(3, 0, [3, 2, 0, 1]), Cipher(0, 3, [1, 2, 0, 3]);
            && Next(Cipher(2, 1, [1, 2, 0, 3])) == d && Next(d) == e && Output(d) == 3 && Output(e) == 1
  {
  }

  lemma {:induction false} XorZero(a: nat, n: nat)
    requires a < Pow2(n)
    ensures XorBits(a, 0, n) == a
  {
    if n > 0 { XorZero(a / 2, n - 1); }
  }

  lemma SmallXors()
    ensures XorByte(16, 3) == 19 && XorByte(32, 0) == 32 && XorByte(48, 3) == 51 && XorByte(64, 1) == 65
  {
    Pow2Of8();
    XorZero(32, 8);
    assert Pow2(6) == 64 && Pow2(7) == 128;
    XorZero(4, 6);
    XorZero(12, 6);
    XorZero(32, 7);
    assert XorBits(8, 1, 7) == 9 && XorBits(24, 1, 7) == 25;
    assert XorBits(16, 3, 8) == 19 && XorBits(48, 3, 8) == 51 && XorBits(64, 1, 8) == 65;
  }

  /** Keys do matter: with seed 0 and two zero bytes these two differ in the first byte. */
  lemma KeysMatter()
    ensures Crypt(0, [1], [0, 0], true)[0] == 1 && Crypt(0, [2], [0, 0], true)[0] == 0
  {
    hide Schedule, Crypt, XorByte, After, Output;
    TwoStates();
    CryptAt(0, [1], [0, 0], true, 0);
    CryptAt(0, [2], [0, 0], true, 0);
    TwoTurns();
    ZeroXors();
  }

  lemma TwoStates()
    ensures Started(0, [1], 2, true) == Cipher(0, 0, [1, 0]) && Started(0, [2], 2, true) == Cipher(0, 0, [0, 1])
  {
    var k, l := [0, 1], [0, 2];
    assert [0] + [1] == k && [0] + [2] == l;
    var s: seq<Bytes>, t: seq<Bytes> := [[0, 1], [0, 1], [1, 0]], [[0, 1], [0, 1], [0, 1]];
    var p: seq<nat>, q: seq<nat> := [0, 0], [0, 1];
    assert KeyAt(k, 0) == 0 && KeyAt(k, 1) == 1 && KeyAt(l, 0) == 0 && KeyAt(l, 1) == 2;
    assert Total(k, 0, s, 0) == 0 && Total(k, 0, s, 1) == 0 && Total(k, 0, s, 2) == 2;
    assert Total(l, 0, t, 0) == 0 && Total(l, 0, t, 1) == 0 && Total(l, 0, t, 2) == 3;
    assert RunAt(k, 2, 0, 0, s, p, 0) && RunAt(k, 2, 0, 0, s, p, 1);
    assert RunAt(l, 2, 0, 0, t, q, 0) && RunAt(l, 2, 0, 0, t, q, 1);
    RunEndsInSchedule(k, 2, s, p);
    RunEndsInSchedule(l, 2, t, q);
  }

  lemma TwoTurns()
    ensures Output(After(Cipher(0, 0, [1, 0]), 1)) == 1 && Output(After(Cipher(0, 0, [0, 1]), 1)) == 0
  {
    var c, d := Cipher(0, 0, [1, 0]), Cipher(0, 0, [0, 1]);
    assert After(c, 0) == c && After(d, 0) == d;
    assert After(c, 1) == Cipher(1, 0, [0, 1]) && After(d, 1) == Cipher(1, 1, [0, 1]);
  }

  lemma ZeroXors()
    ensures XorByte(0, 1) == 1 && XorByte(0, 0) == 0
  {
    Pow2Of8();
    assert Pow2(7) == 128;
    XorZero(0, 7);
    XorZero(0, 8);
    assert XorBits(0, 1, 8) == 1;
  }
}
