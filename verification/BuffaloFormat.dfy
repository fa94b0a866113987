/** The Buffalo container byte by byte. */
module BuffaloFormat {
  import opened Options
  import opened Words
  import opened BuffaloCipher
  import opened BuffaloContainer
  import Crc

  /** Four bytes from place `i` on as a number, the first the most significant. */
  function Number(b: Bytes, i: nat): nat
    requires i + 4 <= |b|
  {
    b[i] as int * 0x1000000 + b[i + 1] as int * 0x10000 + b[i + 2] as int * 0x100 + b[i + 3] as int
  }

  lemma NumberGet(b: Bytes, i: nat)
    requires i + 4 <= |b|
    ensures GetBe32(b[i..i + 4]) == Number(b, i)
  {
  }

  lemma NumberPut(v: nat)
    requires v < LIMIT
    ensures Number(Be32(v), 0) == v
  {
    GetPut(v);
    NumberGet(Be32(v), 0);
    assert Be32(v)[0..4] == Be32(v);
  }

  const START: Bytes := [115, 116, 97, 114, 116, 0]
  const ASAR1: Bytes := [97, 115, 97, 114, 49, 0]

  /** The fields of a container, if they all fit: magic, product length of at most 32, version length of at most 8,
      data length, and the room that each of them asks for. */
  ghost predicate Fields(b: Bytes, pl: nat, vl: nat, dl: nat) {
    && |b| >= 23 + pl + vl + dl && (b[..6] == START || b[..6] == ASAR1)
    && pl <= 32 && vl <= 8
    && Number(b, 7) == pl && Number(b, 11 + pl) == vl && Number(b, 15 + pl + vl) == dl
  }

  /** The checks of `decrypt_buf` let exactly those through, and take the fields from where they stand. */
  lemma ParseExact(b: Bytes, pl: nat, vl: nat, dl: nat)
    ensures Fields(b, pl, vl, dl) ==>
              Parse(b) == Some(Parsed(b[..6], b[6], b[11..11 + pl], b[15 + pl..15 + pl + vl],
                                      b[19 + pl + vl..19 + pl + vl + dl], Number(b, 19 + pl + vl + dl)))
    ensures Parse(b).Some? ==> exists x, y, z :: Fields(b, x, y, z)
  {
    hide GetBe32;
    if Fields(b, pl, vl, dl) {
      NumberGet(b, 7);
      NumberGet(b, 11 + pl);
      NumberGet(b, 15 + pl + vl);
      NumberGet(b, 19 + pl + vl + dl);
    }
    if Parse(b).Some? { ParseFields(b); }
  }

  lemma ParseFields(b: Bytes)
    requires Parse(b).Some?
    ensures exists x, y, z :: Fields(b, x, y, z)
  {
    hide GetBe32, Number;
    NumberGet(b, 7);
    var x := Number(b, 7);
    NumberGet(b, 11 + x);
    var y := Number(b, 11 + x);
    NumberGet(b, 15 + x + y);
    var z := Number(b, 15 + x + y);
    assert Fields(b, x, y, z);
  }

  /** What `encrypt_buf` writes: each part keyed by the first byte written of the part before it. */
  lemma EncodedBytes(p: Param, data: Bytes)
    requires Fits(p) && |data| < LIMIT && MagicOk(p.magic)
    ensures var b, pl, vl, dl := Encoded(p, data), |p.product| + 1, |p.version| + 1, |data|;
            && Fields(b, pl, vl, dl) && |b| == 23 + pl + vl + dl && b[..6] == p.magic && b[6] == p.seed
            && b[11..11 + pl] == Crypt(p.seed, p.key, p.product + [0], p.longstate)
            && b[15 + pl..15 + pl + vl] == Crypt(b[11], p.key, p.version + [0], p.longstate)
            && b[19 + pl + vl..19 + pl + vl + dl] == Crypt(b[15 + pl], p.key, data, p.longstate)
            && Number(b, 19 + pl + vl + dl) == p.csum
  {
    hide Crypt, Parse, Number, CProduct, CVersion, CData, Be32;
    var b, pl, vl, dl := Encoded(p, data), |p.product| + 1, |p.version| + 1, |data|;
    ParseLayout(p, data, []);
    ParseFields(b);
    var x, y, z :| Fields(b, x, y, z);
    ParseExact(b, x, y, z);
    Lengths(p, data);
    Parts(p, data);
    assert x == pl && y == vl && z == dl;
    assert b[11] == b[11..11 + pl][0] && b[15 + pl] == b[15 + pl..15 + pl + vl][0];
  }

  lemma Lengths(p: Param, data: Bytes)
    requires Fits(p) && |data| < LIMIT
    ensures |Encoded(p, data)| == 25 + |p.product| + |p.version| + |data|
    ensures |CProduct(p)| == |p.product| + 1 && |CVersion(p)| == |p.version| + 1 && |CData(p, data)| == |data|
  {
    hide Crypt, CProduct, CVersion, CData, Be32;
  }

  lemma Parts(p: Param, data: Bytes)
    ensures CProduct(p) == Crypt(p.seed, p.key, p.product + [0], p.longstate)
    ensures CVersion(p) == Crypt(CProduct(p)[0], p.key, p.version + [0], p.longstate)
    ensures CData(p, data) == Crypt(CVersion(p)[0], p.key, data, p.longstate)
  {
  }

  /** What `decrypt_buf` returns of a container whose fields fit: nothing unless the checksum is right. */
  lemma OpenedBytes(b: Bytes, key: Bytes, longstate: bool, pl: nat, vl: nat, dl: nat)
    requires Fields(b, pl, vl, dl)
    ensures var cp, cv := b[11..11 + pl], b[15 + pl..15 + pl + vl];
            var data := Crypt(if vl == 0 then 0 else b[15 + pl], key, b[19 + pl + vl..19 + pl + vl + dl], longstate);
            Opened(b, key, longstate) ==
              if Csum(data) != Number(b, 19 + pl + vl + dl) then None
              else Some(Plain(b[..6], b[6], Crypt(b[6], key, cp, longstate),
                              Crypt(if pl == 0 then 0 else b[11], key, cv, longstate), data))
  {
    hide Crypt, Parse, Number, Csum;
    ParseExact(b, pl, vl, dl);
  }

  lemma Rejected(b: Bytes, key: Bytes, longstate: bool)
    requires forall x, y, z :: !Fields(b, x, y, z)
    ensures Opened(b, key, longstate) == None
  {
    hide Parse, Fields;
    ParseExact(b, 0, 0, 0);
  }

  /* ---------- the checksum ---------- */

  /** One zero byte, and one byte with its sign bit set: the register starts from the length, and a byte above 127
      reaches it as a negative number. */
  lemma KnownChecksums()
    ensures Csum([]) == 0 && Csum([0]) == 0x77073096 && Csum([0x80]) == 0x9a404c49
  {
    hide Crc.Shifts;
    assert Fold(CsumByte, 1, [0]) == CsumByte(1, 0) by { assert Fold(CsumByte, 1, [0][..0]) == 1; }
    assert Fold(CsumByte, 1, [0x80]) == CsumByte(1, 0x80) by { assert Fold(CsumByte, 1, [0x80][..0]) == 1; }
    KnownShifts();
    Registers();
  }

  lemma Registers()
    ensures Crc.Xor(1, SignExtended(0)) == 1 && Crc.Xor(1, SignExtended(0x80)) == 0xffffff81
  {
  }

  lemma KnownShifts()
    ensures Crc.Shifts(1, 8) == 0x77073096 && Crc.Shifts(0xffffff81, 8) == 0x9a404c49
  {
    var s: seq<bv32> :=
      [0x1, 0xedb88320, 0x76dc4190, 0x3b6e20c8, 0x1db71064, 0x0edb8832, 0x076dc419, 0xee0e612c, 0x77073096];
    var t: seq<bv32> := [0xffffff81, 0x92477ce0, 0x4923be70, 0x2491df38, 0x1248ef9c, 0x092477ce, 0x04923be7, 0xeff19ed3,
                         0x9a404c49];
    Crc.IterChain(Crc.Shift, s, 8);
    Crc.IterChain(Crc.Shift, t, 8);
  }
}
