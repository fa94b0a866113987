/** The encrypted container of buffalo-lib.c: `encrypt_buf` and `decrypt_buf`. */
module BuffaloContainer {
  import opened Options
  import opened Words
  import opened BuffaloCipher
  import Crc

  const MAGIC_LEN: nat := 6
  const PRODUCT_LEN: nat := 32
  const VERSION_LEN: nat := 8

  /* ---------- 32-bit numbers, most significant byte first ---------- */

  const LIMIT: nat := 0x1_0000_0000

  function Be32(v: nat): (r: Bytes)
    requires v < LIMIT
    ensures |r| == 4
  {
    var w := v / 256;
    var x := w / 256;
    [x / 256, x % 256, w % 256, v % 256]
  }

  function GetBe32(b: Bytes): (v: nat)
    requires |b| == 4
    ensures v < LIMIT
  {
    ((b[0] as int * 256 + b[1] as int) * 256 + b[2] as int) * 256 + b[3] as int
  }

  lemma GetPut(v: nat)
    requires v < LIMIT
    ensures GetBe32(Be32(v)) == v
  {
  }

  /* ---------- the checksum ---------- */

  /** The byte is a signed char when it meets the register. */
  function SignExtended(b: Byte): bv32 {
    if b < 128 then b as bv32 else (b as bv32) | 0xffffff00
  }

  function CsumByte(c: bv32, b: Byte): bv32 {
    Crc.Shifts(Crc.Xor(c, SignExtended(b)), 8)
  }

  /** `buffalo_csum(len, data, len)` */
  function Csum(data: Bytes): (r: nat)
    ensures r < LIMIT
  {
    Fold(CsumByte, (|data| % LIMIT) as bv32, data) as int
  }

  method BuffaloCsum(buf: array<Byte>, len: nat) returns (r: nat)
    requires len <= buf.Length && len < LIMIT
    ensures r == Csum(buf[..len])
  {
    hide CsumByte;
    var csum := len as bv32;
    var i := 0;
    while i < len
      invariant 0 <= i <= len && csum == Fold(CsumByte, len as bv32, buf[..i])
    {
      csum := CsumOne(csum, buf[i]);
      FoldStep(CsumByte, len as bv32, buf[..len], i);
      assert buf[..len][..i] == buf[..i] && buf[..len][..i + 1] == buf[..i + 1];
      i := i + 1;
    }
    r := csum as int;
  }

  method CsumOne(csum: bv32, b: Byte) returns (c: bv32)
    ensures c == CsumByte(csum, b)
  {
    c := csum ^ SignExtended(b);
    ghost var c0 := c;
    var i := 0;
    while i < 8
      invariant 0 <= i <= 8 && c == Crc.Shifts(c0, i)
    {
      ghost var next := Crc.Shift(c);
      c := (c >> 1) ^ (if c & 1 == 1 then 0xedb88320 else 0);
      assert c == next;
      i := i + 1;
    }
  }

  /* ---------- the format ---------- */

  datatype Param = Param(key: Bytes, magic: Bytes, seed: Byte, product: Bytes, version: Bytes,
                         longstate: bool, csum: nat)

  /** What the caller of `encrypt_buf` has checked. */
  predicate Fits(p: Param) {
    && |p.key| <= MAX_KEYLEN && |p.magic| == MAGIC_LEN
    && |p.product| < PRODUCT_LEN && |p.version| < VERSION_LEN && p.csum < LIMIT
  }

  function HeaderLen(p: Param): nat {
    MAGIC_LEN + 1 + |p.product| + 1 + |p.version| + 1 + 3 * 4
  }

  /** Each stage is keyed by the first cipher byte of the one before. */
  function CProduct(p: Param): (r: Bytes)
    ensures |r| == |p.product| + 1
  {
    Crypt(p.seed, p.key, p.product + [0], p.longstate)
  }

  function CVersion(p: Param): (r: Bytes)
    ensures |r| == |p.version| + 1
  {
    Crypt(CProduct(p)[0], p.key, p.version + [0], p.longstate)
  }

  function CData(p: Param, data: Bytes): (r: Bytes)
    ensures |r| == |data|
  {
    Crypt(CVersion(p)[0], p.key, data, p.longstate)
  }

  /** The container with whatever follows it. */
  function Layout(p: Param, data: Bytes, tail: Bytes): Bytes
    requires Fits(p) && |data| < LIMIT
  {
    p.magic + ([p.seed] + (Be32(|CProduct(p)|) + (CProduct(p) + AfterProduct(p, data, tail))))
  }

  function AfterProduct(p: Param, data: Bytes, tail: Bytes): Bytes
    requires Fits(p) && |data| < LIMIT
  {
    Be32(|CVersion(p)|) + (CVersion(p) + (Be32(|data|) + (CData(p, data) + (Be32(p.csum) + tail))))
  }

  function Encoded(p: Param, data: Bytes): Bytes
    requires Fits(p) && |data| < LIMIT
  {
    Layout(p, data, [])
  }

  /* ---------- reading it back ---------- */

  datatype Parsed = Parsed(magic: Bytes, seed: Byte, cp: Bytes, cv: Bytes, cd: Bytes, csum: nat)

  predicate MagicOk(m: Bytes) {
    m == [115, 116, 97, 114, 116, 0] || m == [97, 115, 97, 114, 49, 0]
  }

  /** The length checks of `decrypt_buf`, in order. */
  function Parse(b: Bytes): Option<Parsed> {
    if |b| < MAGIC_LEN || !MagicOk(b[..MAGIC_LEN]) || |b| < 11 then None
    else ParseProduct(b, GetBe32(b[7..11]))
  }

  function ParseProduct(b: Bytes, pl: nat): Option<Parsed>
    requires |b| >= 11
  {
    if pl > PRODUCT_LEN || |b| < 11 + pl + 4 then None
    else ParseVersion(b, pl, GetBe32(b[11 + pl..11 + pl + 4]))
  }

  function ParseVersion(b: Bytes, pl: nat, vl: nat): Option<Parsed>
    requires |b| >= 11 + pl + 4
  {
    var q := 15 + pl;
    if vl > VERSION_LEN || |b| < q + vl + 4 then None
    else ParseData(b, pl, vl, GetBe32(b[q + vl..q + vl + 4]))
  }

  function ParseData(b: Bytes, pl: nat, vl: nat, dl: nat): Option<Parsed>
    requires |b| >= 19 + pl + vl
  {
    var q, r := 15 + pl, 19 + pl + vl;
    if |b| < r + dl + 4 then None
    else Some(Parsed(b[..MAGIC_LEN], b[6], b[11..11 + pl], b[q..q + vl], b[r..r + dl], GetBe32(b[r + dl..r + dl + 4])))
  }

  /** An empty field leaves the zero the structure was cleared to. */
  function First(s: Bytes): Byte {
    if s == [] then 0 else s[0]
  }

  datatype Plain = Plain(magic: Bytes, seed: Byte, product: Bytes, version: Bytes, data: Bytes)

  function Opened(b: Bytes, key: Bytes, longstate: bool): Option<Plain> {
    match Parse(b)
    case None => None
    case Some(x) =>
      var data := Crypt(First(x.cv), key, x.cd, longstate);
      if Csum(data) != x.csum then None
      else Some(Plain(x.magic, x.seed, Crypt(x.seed, key, x.cp, longstate),
                      Crypt(First(x.cp), key, x.cv, longstate), data))
  }

  /** The next field of a buffer of which `pre` has been read. */
  lemma Peel(b: Bytes, pre: Bytes, x: Bytes, post: Bytes)
    requires b == pre + (x + post)
    ensures |b| == |pre| + |x| + |post| && b[|pre|..|pre| + |x|] == x && b == (pre + x) + post
  {
  }

  lemma Assoc(x: Bytes, y: Bytes, z: Bytes)
    ensures (x + y) + z == x + (y + z)
  {
  }

  lemma EncodedThen(p: Param, data: Bytes, tail: Bytes)
    requires Fits(p) && |data| < LIMIT
    ensures Encoded(p, data) + tail == Layout(p, data, tail)
  {
    hide CProduct, CVersion, CData, Be32;
    var cp, cv, cd := CProduct(p), CVersion(p), CData(p, data);
    var y7 := Be32(p.csum) + [];
    var y6 := cd + y7;
    var y5 := Be32(|data|) + y6;
    var y4 := cv + y5;
    var y3 := Be32(|cv|) + y4;
    var y2 := cp + y3;
    var y1 := Be32(|cp|) + y2;
    var y0 := [p.seed] + y1;
    assert y7 + tail == Be32(p.csum) + tail;
    Assoc(cd, y7, tail);
    Assoc(Be32(|data|), y6, tail);
    Assoc(cv, y5, tail);
    Assoc(Be32(|cv|), y4, tail);
    Assoc(cp, y3, tail);
    Assoc(Be32(|cp|), y2, tail);
    Assoc([p.seed], y1, tail);
    Assoc(p.magic, y0, tail);
  }

  /** What was laid out is what is parsed, whatever follows it. */
  lemma ParseLayout(p: Param, data: Bytes, tail: Bytes)
    requires Fits(p) && |data| < LIMIT && MagicOk(p.magic)
    ensures Parse(Layout(p, data, tail)) ==
            Some(Parsed(p.magic, p.seed, CProduct(p), CVersion(p), CData(p, data), p.csum))
  {
    hide CProduct, CVersion, CData, Be32, GetBe32, ParseProduct, MagicOk;
    var b, cp := Layout(p, data, tail), CProduct(p);
    var rest := AfterProduct(p, data, tail);
    Peel(b, [], p.magic, [p.seed] + (Be32(|cp|) + (cp + rest)));
    Peel(b, p.magic, [p.seed], Be32(|cp|) + (cp + rest));
    Peel(b, p.magic + [p.seed], Be32(|cp|), cp + rest);
    GetPut(|cp|);
    ParseFromProduct(p, data, tail, b, p.magic + [p.seed] + Be32(|cp|));
  }

  lemma ParseFromProduct(p: Param, data: Bytes, tail: Bytes, b: Bytes, pre: Bytes)
    requires Fits(p) && |data| < LIMIT && |pre| == 11
    requires b == pre + (CProduct(p) + AfterProduct(p, data, tail))
    ensures ParseProduct(b, |CProduct(p)|) ==
            Some(Parsed(b[..MAGIC_LEN], b[6], CProduct(p), CVersion(p), CData(p, data), p.csum))
  {
    hide CProduct, CVersion, CData, Be32, GetBe32, ParseVersion;
    var cp, cv := CProduct(p), CVersion(p);
    var rest := Be32(|data|) + (CData(p, data) + (Be32(p.csum) + tail));
    Peel(b, pre, cp, Be32(|cv|) + (cv + rest));
    Peel(b, pre + cp, Be32(|cv|), cv + rest);
    GetPut(|cv|);
    ParseFromVersion(p, data, tail, b, pre + cp + Be32(|cv|), |cp|);
    assert b[11..11 + |cp|] == cp;
  }

  lemma ParseFromVersion(p: Param, data: Bytes, tail: Bytes, b: Bytes, pre: Bytes, pl: nat)
    requires Fits(p) && |data| < LIMIT && |pre| == 15 + pl
    requires b == pre + (CVersion(p) + (Be32(|data|) + (CData(p, data) + (Be32(p.csum) + tail))))
    ensures ParseVersion(b, pl, |CVersion(p)|) ==
            Some(Parsed(b[..MAGIC_LEN], b[6], b[11..11 + pl], CVersion(p), CData(p, data), p.csum))
  {
    hide CVersion, CData, Be32, GetBe32;
    var cv, cd := CVersion(p), CData(p, data);
    var rest := cd + (Be32(p.csum) + tail);
    Peel(b, pre, cv, Be32(|data|) + rest);
    Peel(b, pre + cv, Be32(|data|), rest);
    Peel(b, pre + cv + Be32(|data|), cd, Be32(p.csum) + tail);
    Peel(b, pre + cv + Be32(|data|) + cd, Be32(p.csum), tail);
    GetPut(|data|);
    GetPut(p.csum);
  }

  /** Decrypting what was encrypted succeeds if and only if the checksum was that of the data, and
      then gives back the product, the version and the data. */
  lemma RoundTrip(p: Param, data: Bytes, tail: Bytes)
    requires Fits(p) && |data| < LIMIT && MagicOk(p.magic)
    ensures Opened(Encoded(p, data) + tail, p.key, p.longstate) ==
            if p.csum == Csum(data) then Some(Plain(p.magic, p.seed, p.product + [0], p.version + [0], data)) else None
  {
    hide Crypt, Parse, Csum;
    EncodedThen(p, data, tail);
    ParseLayout(p, data, tail);
    CryptTwice(p.seed, p.key, p.product + [0], p.longstate);
    CryptTwice(CProduct(p)[0], p.key, p.version + [0], p.longstate);
    CryptTwice(CVersion(p)[0], p.key, data, p.longstate);
  }

  /* ---------- in the buffer ---------- */

  /** `memcpy` into the buffer. */
  method Put(buf: array<Byte>, off: nat, b: Bytes)
    requires off + |b| <= buf.Length
    modifies buf
    ensures buf[..off + |b|] == old(buf[..off]) + b && buf[off + |b|..] == old(buf[off + |b|..])
  {
    var i := 0;
    while i < |b|
      invariant 0 <= i <= |b|
      invariant forall m :: 0 <= m < off ==> buf[m] == old(buf[m])
      invariant forall m :: off <= m < off + i ==> buf[m] == b[m - off]
      invariant forall m :: off + i <= m < buf.Length ==> buf[m] == old(buf[m])
    {
      buf[off + i] := b[i];
      i := i + 1;
    }
  }

  /** Copy a field into the buffer and crypt it there. */
  method PutCrypted(buf: array<Byte>, off: nat, text: Bytes, seed: Byte, key: Bytes, longstate: bool)
    requires off + |text| <= buf.Length && |key| <= MAX_KEYLEN
    modifies buf
    ensures buf[..off + |text|] == old(buf[..off]) + Crypt(seed, key, text, longstate)
    ensures buf[off + |text|..] == old(buf[off + |text|..])
  {
    hide Crypt;
    Put(buf, off, text);
    ghost var mid := buf[..];
    assert buf[off..off + |text|] == text;
    BcryptBuf(seed, key, buf, off, buf, off, |text|, longstate);
    assert forall m :: 0 <= m < off ==> buf[m] == mid[m];
    assert buf[..off] == mid[..off];
    assert buf[..off + |text|] == buf[..off] + buf[off..off + |text|];
    assert buf[off + |text|..] == mid[off + |text|..];
  }

  function ProductPart(p: Param): (r: Bytes)
    requires Fits(p)
    ensures |r| == 12 + |p.product|
  {
    p.magic + [p.seed] + Be32(|CProduct(p)|) + CProduct(p)
  }

  function VersionPart(p: Param): (r: Bytes)
    requires Fits(p)
    ensures |r| == 5 + |p.version|
  {
    Be32(|CVersion(p)|) + CVersion(p)
  }

  lemma EncodedParts(p: Param, data: Bytes)
    requires Fits(p) && |data| < LIMIT
    ensures Encoded(p, data) == ProductPart(p) + VersionPart(p) + Be32(|data|) + CData(p, data) + Be32(p.csum)
  {
    hide CProduct, CVersion, CData, Be32;
    var l, cp, cv, cd := Encoded(p, data), CProduct(p), CVersion(p), CData(p, data);
    var post := AfterProduct(p, data, []);
    var rest := Be32(|data|) + (cd + (Be32(p.csum) + []));
    Peel(l, p.magic, [p.seed], Be32(|cp|) + (cp + post));
    Peel(l, p.magic + [p.seed], Be32(|cp|), cp + post);
    Peel(l, p.magic + [p.seed] + Be32(|cp|), cp, post);
    var a := ProductPart(p);
    Peel(l, a, Be32(|cv|), cv + rest);
    Peel(l, a + Be32(|cv|), cv, rest);
    Assoc(a, Be32(|cv|), cv);
    Peel(l, a + VersionPart(p), Be32(|data|), cd + (Be32(p.csum) + []));
    Peel(l, a + VersionPart(p) + Be32(|data|), cd, Be32(p.csum) + []);
    assert Be32(p.csum) + [] == Be32(p.csum);
  }

  /** Magic, seed and product; the first cipher byte keys the next stage. */
  method PutProduct(p: Param, buf: array<Byte>) returns (s: Byte)
    requires Fits(p) && 12 + |p.product| <= buf.Length
    modifies buf
    ensures buf[..12 + |p.product|] == ProductPart(p) && buf[12 + |p.product|..] == old(buf[12 + |p.product|..])
    ensures s == CProduct(p)[0]
  {
    hide Crypt, Be32;
    ghost var k := 12 + |p.product|;
    ghost var end := buf[k..];
    Put(buf, 0, p.magic);
    assert buf[k..] == end by { assert buf[k..] == buf[6..][k - 6..]; }
    Put(buf, MAGIC_LEN, [p.seed]);
    assert buf[k..] == end by { assert buf[k..] == buf[7..][k - 7..]; }
    Put(buf, 7, Be32(|p.product| + 1));
    assert buf[k..] == end by { assert buf[k..] == buf[11..][k - 11..]; }
    PutCrypted(buf, 11, p.product + [0], p.seed, p.key, p.longstate);
    s := buf[11];
    assert buf[..k][11] == s;
  }

  method PutVersion(p: Param, buf: array<Byte>, off: nat, s: Byte) returns (s': Byte)
    requires Fits(p) && off + 5 + |p.version| <= buf.Length && s == CProduct(p)[0]
    modifies buf
    ensures buf[..off + 5 + |p.version|] == old(buf[..off]) + VersionPart(p)
    ensures buf[off + 5 + |p.version|..] == old(buf[off + 5 + |p.version|..])
    ensures s' == CVersion(p)[0]
  {
    hide Crypt, Be32, CProduct;
    ghost var k := off + 5 + |p.version|;
    ghost var pre, end := buf[..off], buf[k..];
    Put(buf, off, Be32(|p.version| + 1));
    assert buf[k..] == end by { assert buf[k..] == buf[off + 4..][k - off - 4..]; }
    PutCrypted(buf, off + 4, p.version + [0], s, p.key, p.longstate);
    Assoc(pre, Be32(|CVersion(p)|), CVersion(p));
    s' := buf[off + 4];
    assert buf[..k][off + 4] == s';
  }

  lemma SuffixKept(a: Bytes, b: Bytes, k: nat, h: nat)
    requires k <= h <= |a| == |b| && a[k..] == b[k..]
    ensures a[h..] == b[h..]
  {
    assert a[h..] == a[k..][h - k..] && b[h..] == b[k..][h - k..];
  }

  method PutHeader(p: Param, buf: array<Byte>, n: nat) returns (s: Byte)
    requires Fits(p) && n < LIMIT && HeaderLen(p) <= buf.Length
    modifies buf
    ensures buf[..HeaderLen(p)] == ProductPart(p) + VersionPart(p) + Be32(n)
    ensures buf[HeaderLen(p)..] == old(buf[HeaderLen(p)..])
    ensures s == CVersion(p)[0]
  {
    hide Be32, ProductPart, VersionPart, CProduct, CVersion;
    ghost var h, a := HeaderLen(p), buf[..];
    s := PutProduct(p, buf);
    var off := 12 + |p.product|;
    ghost var b := buf[..];
    SuffixKept(a, b, off, h);
    s := PutVersion(p, buf, off, s);
    off := off + 5 + |p.version|;
    SuffixKept(b, buf[..], off, h);
    Put(buf, off, Be32(n));
  }

  /** `encrypt_buf` on a buffer whose data already stands behind the place for the header. */
  method EncryptBuf(p: Param, buf: array<Byte>, n: nat)
    requires Fits(p) && n < LIMIT && HeaderLen(p) + n + 4 <= buf.Length
    modifies buf
    ensures buf[..HeaderLen(p) + n + 4] == Encoded(p, old(buf[HeaderLen(p)..HeaderLen(p) + n]))
    ensures buf[HeaderLen(p) + n + 4..] == old(buf[HeaderLen(p) + n + 4..])
  {
    hide Crypt, Be32, ProductPart, VersionPart, Encoded, CProduct, CVersion;
    var h := HeaderLen(p);
    ghost var a, data := buf[..], buf[h..h + n];
    EncodedParts(p, data);
    var s := PutHeader(p, buf, n);
    ghost var b := buf[..];
    SuffixKept(a, b, h, h + n + 4);
    assert buf[h..h + n] == data by { assert b[h..h + n] == b[h..][..n] && a[h..h + n] == a[h..][..n]; }
    CryptData(buf, h, n, s, p.key, p.longstate, data);
    SuffixKept(b, buf[..], h + n, h + n + 4);
    Put(buf, h + n, Be32(p.csum));
  }

  /** The data is crypted where it stands. */
  method CryptData(buf: array<Byte>, off: nat, n: nat, seed: Byte, key: Bytes, longstate: bool, ghost data: Bytes)
    requires off + n <= buf.Length && |key| <= MAX_KEYLEN && buf[off..off + n] == data
    modifies buf
    ensures buf[..off + n] == old(buf[..off]) + Crypt(seed, key, data, longstate)
    ensures buf[off + n..] == old(buf[off + n..])
  {
    hide Crypt;
    ghost var mid := buf[..];
    BcryptBuf(seed, key, buf, off, buf, off, n, longstate);
    assert buf[..off] == mid[..off];
    assert buf[..off + n] == buf[..off] + buf[off..off + n];
    assert buf[off + n..] == mid[off + n..];
  }

  /** The checks of `decrypt_buf` up to the length of the data. */
  method ReadLengths(buf: array<Byte>, n: nat) returns (ok: bool, pl: nat, vl: nat, dl: nat)
    requires n <= buf.Length
    ensures !ok ==> Parse(buf[..n]) == None
    ensures ok ==> pl <= PRODUCT_LEN && vl <= VERSION_LEN && dl < LIMIT && 19 + pl + vl + dl <= n
    ensures ok ==> Parse(buf[..n]) == ParseData(buf[..n], pl, vl, dl)
  {
    hide GetBe32, MagicOk;
    ok, pl, vl, dl := false, 0, 0, 0;
    ghost var b := buf[..n];
    if n < MAGIC_LEN {
      return;
    }
    assert b[..MAGIC_LEN] == buf[..MAGIC_LEN];
    if !MagicOk(buf[..MAGIC_LEN]) || n < 11 {
      return;
    }
    pl := Get(buf, n, 7);
    if pl > PRODUCT_LEN || n < 15 + pl {
      return;
    }
    vl := Get(buf, n, 11 + pl);
    if vl > VERSION_LEN || n < 19 + pl + vl {
      return;
    }
    dl := Get(buf, n, 15 + pl + vl);
    ok := n >= 19 + pl + vl + dl;
  }

  method Get(buf: array<Byte>, n: nat, off: nat) returns (v: nat)
    requires off + 4 <= n <= buf.Length
    ensures v == GetBe32(buf[..n][off..off + 4])
  {
    assert buf[off..off + 4] == buf[..n][off..off + 4];
    v := GetBe32(buf[off..off + 4]);
  }

  /** A field copied into a cleared array of fixed size. */
  method CopyField(buf: array<Byte>, off: nat, len: nat, size: nat) returns (a: array<Byte>)
    requires off + len <= buf.Length && len <= size && size > 0
    ensures fresh(a) && a.Length == size && a[..len] == buf[off..off + len] && a[0] == First(buf[off..off + len])
  {
    a := new Byte[size](i => 0);
    forall i | 0 <= i < len {
      a[i] := buf[off + i];
    }
  }

  lemma Within(s: Bytes, n: nat, i: nat, j: nat)
    requires i <= j <= n <= |s|
    ensures s[..n][i..j] == s[i..j]
  {
  }

  /** `decrypt_buf`: the data is decrypted to the start of the buffer it is read from. */
  method DecryptBuf(key: Bytes, longstate: bool, buf: array<Byte>, n: nat) returns (out: Option<Plain>)
    requires |key| <= MAX_KEYLEN && n <= buf.Length
    modifies buf
    ensures out == Opened(old(buf[..n]), key, longstate)
    ensures out.Some? ==> |out.value.data| <= n && buf[..|out.value.data|] == out.value.data
  {
    hide Crypt, Csum, GetBe32, Parse, First;
    ghost var b := buf[..n];
    var ok, pl, vl, dl := ReadLengths(buf, n);
    if !ok {
      return None;
    }
    var q, r := 15 + pl, 19 + pl + vl;
    var magic, seed := buf[..MAGIC_LEN], buf[6];
    var product := CopyField(buf, 11, pl, PRODUCT_LEN);
    var version := CopyField(buf, q, vl, VERSION_LEN);
    ghost var cp, cv := product[..pl], version[..vl];
    Within(buf[..], n, 11, 11 + pl);
    Within(buf[..], n, q, q + vl);
    Within(buf[..], n, 0, MAGIC_LEN);
    assert cp == b[11..11 + pl];
    assert cv == b[q..q + vl];
    ok := DecryptData(version[0], key, longstate, buf, n, r, dl);
    if !ok {
      return None;
    }
    CryptField(product[0], key, version, vl, longstate);
    CryptField(seed, key, product, pl, longstate);
    out := Some(Plain(magic, seed, product[..pl], version[..vl], buf[..dl]));
  }

  /** The data moves to the start of the buffer, which does not reach the checksum behind it. */
  method DecryptData(seed: Byte, key: Bytes, longstate: bool, buf: array<Byte>, n: nat, r: nat,
                     dl: nat) returns (ok: bool)
    requires |key| <= MAX_KEYLEN && r + dl <= n <= buf.Length && dl < LIMIT
    modifies buf
    ensures var b := old(buf[..n]);
            var data := Crypt(seed, key, b[r..r + dl], longstate);
            && (ok <==> r + dl + 4 <= n && Csum(data) == GetBe32(b[r + dl..r + dl + 4]))
            && (ok ==> buf[..dl] == data)
  {
    hide Crypt, Csum, GetBe32;
    ghost var b := buf[..n];
    assert buf[r..r + dl] == b[r..r + dl];
    BcryptBuf(seed, key, buf, r, buf, 0, dl, longstate);
    if n < r + dl + 4 {
      return false;
    }
    assert buf[0..0 + dl] == buf[..dl];
    assert buf[..n][r + dl..r + dl + 4] == b[r + dl..r + dl + 4];
    var csum := Get(buf, n, r + dl);
    var c := BuffaloCsum(buf, dl);
    ok := c == csum;
  }

  method CryptField(seed: Byte, key: Bytes, a: array<Byte>, len: nat, longstate: bool)
    requires len <= a.Length && |key| <= MAX_KEYLEN
    modifies a
    ensures a[..len] == Crypt(seed, key, old(a[..len]), longstate)
  {
    hide Crypt;
    assert a[0..0 + len] == a[..len];
    BcryptBuf(seed, key, a, 0, a, 0, len, longstate);
    assert a[0..0 + len] == a[..len];
  }

  /** Encrypting a buffer and decrypting it again, key and state mode being the same. */
  method EncryptDecrypt(p: Param, buf: array<Byte>, n: nat) returns (out: Option<Plain>)
    requires Fits(p) && MagicOk(p.magic) && n < LIMIT && HeaderLen(p) + n + 4 <= buf.Length
    modifies buf
    ensures var data := old(buf[HeaderLen(p)..HeaderLen(p) + n]);
            if p.csum == Csum(data) then
              out == Some(Plain(p.magic, p.seed, p.product + [0], p.version + [0], data)) && buf[..n] == data
            else out == None
  {
    hide Opened, Encoded, Csum;
    ghost var data := buf[HeaderLen(p)..HeaderLen(p) + n];
    EncryptBuf(p, buf, n);
    ghost var tail := buf[HeaderLen(p) + n + 4..];
    assert buf[..buf.Length] == Encoded(p, data) + tail;
    RoundTrip(p, data, tail);
    out := DecryptBuf(p.key, p.longstate, buf, buf.Length);
  }
}
