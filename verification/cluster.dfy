/** Redis Cluster key hashing and shard lookup (`redisx-cluster.c`): the CRC-16/XMODEM
    checksum by table lookup, the hash-tag rule, the mask to 16384 slots, and the search for
    the shard serving a slot. */
module Cluster {
  import opened CStrings

  /** HASH_MASK: a key's slot is the low 14 bits of its checksum. */
  const HASH_MASK: bv16 := 0x3FFF
  const SLOTS: int := 16384

  /** `crc_tab`, the table of the table-driven CRC-16, one constant per line of eight entries
      as the source lists them. */
  const CRC_ROW00: seq<bv16> := [0x0000, 0x1021, 0x2042, 0x3063, 0x4084, 0x50a5, 0x60c6, 0x70e7]
  const CRC_ROW01: seq<bv16> := [0x8108, 0x9129, 0xa14a, 0xb16b, 0xc18c, 0xd1ad, 0xe1ce, 0xf1ef]
  const CRC_ROW02: seq<bv16> := [0x1231, 0x0210, 0x3273, 0x2252, 0x52b5, 0x4294, 0x72f7, 0x62d6]
  const CRC_ROW03: seq<bv16> := [0x9339, 0x8318, 0xb37b, 0xa35a, 0xd3bd, 0xc39c, 0xf3ff, 0xe3de]
  const CRC_ROW04: seq<bv16> := [0x2462, 0x3443, 0x0420, 0x1401, 0x64e6, 0x74c7, 0x44a4, 0x5485]
  const CRC_ROW05: seq<bv16> := [0xa56a, 0xb54b, 0x8528, 0x9509, 0xe5ee, 0xf5cf, 0xc5ac, 0xd58d]
  const CRC_ROW06: seq<bv16> := [0x3653, 0x2672, 0x1611, 0x0630, 0x76d7, 0x66f6, 0x5695, 0x46b4]
  const CRC_ROW07: seq<bv16> := [0xb75b, 0xa77a, 0x9719, 0x8738, 0xf7df, 0xe7fe, 0xd79d, 0xc7bc]
  const CRC_ROW08: seq<bv16> := [0x48c4, 0x58e5, 0x6886, 0x78a7, 0x0840, 0x1861, 0x2802, 0x3823]
  const CRC_ROW09: seq<bv16> := [0xc9cc, 0xd9ed, 0xe98e, 0xf9af, 0x8948, 0x9969, 0xa90a, 0xb92b]
  const CRC_ROW10: seq<bv16> := [0x5af5, 0x4ad4, 0x7ab7, 0x6a96, 0x1a71, 0x0a50, 0x3a33, 0x2a12]
  const CRC_ROW11: seq<bv16> := [0xdbfd, 0xcbdc, 0xfbbf, 0xeb9e, 0x9b79, 0x8b58, 0xbb3b, 0xab1a]
  const CRC_ROW12: seq<bv16> := [0x6ca6, 0x7c87, 0x4ce4, 0x5cc5, 0x2c22, 0x3c03, 0x0c60, 0x1c41]
  const CRC_ROW13: seq<bv16> := [0xedae, 0xfd8f, 0xcdec, 0xddcd, 0xad2a, 0xbd0b, 0x8d68, 0x9d49]
  const CRC_ROW14: seq<bv16> := [0x7e97, 0x6eb6, 0x5ed5, 0x4ef4, 0x3e13, 0x2e32, 0x1e51, 0x0e70]
  const CRC_ROW15: seq<bv16> := [0xff9f, 0xefbe, 0xdfdd, 0xcffc, 0xbf1b, 0xaf3a, 0x9f59, 0x8f78]
  const CRC_ROW16: seq<bv16> := [0x9188, 0x81a9, 0xb1ca, 0xa1eb, 0xd10c, 0xc12d, 0xf14e, 0xe16f]
  const CRC_ROW17: seq<bv16> := [0x1080, 0x00a1, 0x30c2, 0x20e3, 0x5004, 0x4025, 0x7046, 0x6067]
  const CRC_ROW18: seq<bv16> := [0x83b9, 0x9398, 0xa3fb, 0xb3da, 0xc33d, 0xd31c, 0xe37f, 0xf35e]
  const CRC_ROW19: seq<bv16> := [0x02b1, 0x1290, 0x22f3, 0x32d2, 0x4235, 0x5214, 0x6277, 0x7256]
  const CRC_ROW20: seq<bv16> := [0xb5ea, 0xa5cb, 0x95a8, 0x8589, 0xf56e, 0xe54f, 0xd52c, 0xc50d]
  const CRC_ROW21: seq<bv16> := [0x34e2, 0x24c3, 0x14a0, 0x0481, 0x7466, 0x6447, 0x5424, 0x4405]
  const CRC_ROW22: seq<bv16> := [0xa7db, 0xb7fa, 0x8799, 0x97b8, 0xe75f, 0xf77e, 0xc71d, 0xd73c]
  const CRC_ROW23: seq<bv16> := [0x26d3, 0x36f2, 0x0691, 0x16b0, 0x6657, 0x7676, 0x4615, 0x5634]
  const CRC_ROW24: seq<bv16> := [0xd94c, 0xc96d, 0xf90e, 0xe92f, 0x99c8, 0x89e9, 0xb98a, 0xa9ab]
  const CRC_ROW25: seq<bv16> := [0x5844, 0x4865, 0x7806, 0x6827, 0x18c0, 0x08e1, 0x3882, 0x28a3]
  const CRC_ROW26: seq<bv16> := [0xcb7d, 0xdb5c, 0xeb3f, 0xfb1e, 0x8bf9, 0x9bd8, 0xabbb, 0xbb9a]
  const CRC_ROW27: seq<bv16> := [0x4a75, 0x5a54, 0x6a37, 0x7a16, 0x0af1, 0x1ad0, 0x2ab3, 0x3a92]
  const CRC_ROW28: seq<bv16> := [0xfd2e, 0xed0f, 0xdd6c, 0xcd4d, 0xbdaa, 0xad8b, 0x9de8, 0x8dc9]
  const CRC_ROW29: seq<bv16> := [0x7c26, 0x6c07, 0x5c64, 0x4c45, 0x3ca2, 0x2c83, 0x1ce0, 0x0cc1]
  const CRC_ROW30: seq<bv16> := [0xef1f, 0xff3e, 0xcf5d, 0xdf7c, 0xaf9b, 0xbfba, 0x8fd9, 0x9ff8]
  const CRC_ROW31: seq<bv16> := [0x6e17, 0x7e36, 0x4e55, 0x5e74, 0x2e93, 0x3eb2, 0x0ed1, 0x1ef0]

  /** `crc_tab[k]`: row k / 8, column k % 8. */
  function CrcTab(k: bv16): bv16
    requires k < 256
  {
    if k < 128 then
      if k < 64 then
        if k < 32 then
          if k < 16 then
            if k < 8 then
              CRC_ROW00[(k & 7) as int]
            else
              CRC_ROW01[(k & 7) as int]
          else
            if k < 24 then
              CRC_ROW02[(k & 7) as int]
            else
              CRC_ROW03[(k & 7) as int]
        else
          if k < 48 then
            if k < 40 then
              CRC_ROW04[(k & 7) as int]
            else
              CRC_ROW05[(k & 7) as int]
          else
            if k < 56 then
              CRC_ROW06[(k & 7) as int]
            else
              CRC_ROW07[(k & 7) as int]
      else
        if k < 96 then
          if k < 80 then
            if k < 72 then
              CRC_ROW08[(k & 7) as int]
            else
              CRC_ROW09[(k & 7) as int]
          else
            if k < 88 then
              CRC_ROW10[(k & 7) as int]
            else
              CRC_ROW11[(k & 7) as int]
        else
          if k < 112 then
            if k < 104 then
              CRC_ROW12[(k & 7) as int]
            else
              CRC_ROW13[(k & 7) as int]
          else
            if k < 120 then
              CRC_ROW14[(k & 7) as int]
            else
              CRC_ROW15[(k & 7) as int]
    else
      if k < 192 then
        if k < 160 then
          if k < 144 then
            if k < 136 then
              CRC_ROW16[(k & 7) as int]
            else
              CRC_ROW17[(k & 7) as int]
          else
            if k < 152 then
              CRC_ROW18[(k & 7) as int]
            else
              CRC_ROW19[(k & 7) as int]
        else
          if k < 176 then
            if k < 168 then
              CRC_ROW20[(k & 7) as int]
            else
              CRC_ROW21[(k & 7) as int]
          else
            if k < 184 then
              CRC_ROW22[(k & 7) as int]
            else
              CRC_ROW23[(k & 7) as int]
      else
        if k < 224 then
          if k < 208 then
            if k < 200 then
              CRC_ROW24[(k & 7) as int]
            else
              CRC_ROW25[(k & 7) as int]
          else
            if k < 216 then
              CRC_ROW26[(k & 7) as int]
            else
              CRC_ROW27[(k & 7) as int]
        else
          if k < 240 then
            if k < 232 then
              CRC_ROW28[(k & 7) as int]
            else
              CRC_ROW29[(k & 7) as int]
          else
            if k < 248 then
              CRC_ROW30[(k & 7) as int]
            else
              CRC_ROW31[(k & 7) as int]
  }

  /** `n` bits of the bitwise CRC-16 with polynomial 0x1021. Each bit shifts the register
      left and subtracts (xors) the polynomial when a set bit falls off the top;
      `0 - (c >> 15)` is all ones exactly when the top bit is set. */
  function Shifts(c: bv16, n: nat): bv16
    decreases n
  {
    if n == 0 then c else Shifts((c << 1) ^ ((0 - (c >> 15)) & 0x1021), n - 1)
  }

  /** What the table entry for byte `k` should be: its bitwise CRC from a zero register. */
  function TableEntry(k: bv16): bv16 {
    Shifts(k << 8, 8)
  }

  /** The textbook bitwise CRC-16/XMODEM step: the byte enters the top of the register, then
      eight shifts. */
  function BitwiseStep(crc: bv16, b: byte): bv16 {
    Shifts(crc ^ ((b as bv16) << 8), 8)
  }

  /** The table-driven step of `crc16`: the register shifted up by a byte, combined with the
      entry selected by the byte shifted out and the input byte. The C computes `crc << 8` as
      an int and stores the result back in a uint16_t, which keeps the low 16 bits, as bv16
      does. */
  function TableStep(crc: bv16, b: byte): bv16 {
    (crc << 8) ^ CrcTab(((crc >> 8) ^ (b as bv16)) & 0x00FF)
  }

  /** `crc16` over `s`, continuing from register `crc`: one table step per byte, in order. */
  function CrcFrom(crc: bv16, s: seq<byte>): bv16
    decreases |s|
  {
    if |s| == 0 then crc else CrcFrom(TableStep(crc, s[0]), s[1..])
  }

  /** `crc16(buf, len)`: the register starts at 0. */
  function Crc16(s: seq<byte>): bv16 {
    CrcFrom(0, s)
  }

  /** The bitwise reference: the same register, fed one byte at a time by BitwiseStep. */
  function BitwiseCrcFrom(crc: bv16, s: seq<byte>): bv16
    decreases |s|
  {
    if |s| == 0 then crc else BitwiseCrcFrom(BitwiseStep(crc, s[0]), s[1..])
  }

  lemma ShiftsUnfold(c: bv16, n: nat)
    requires n > 0
    ensures Shifts(c, n) == Shifts((c << 1) ^ ((0 - (c >> 15)) & 0x1021), n - 1)
  {
  }

  /** Eight shifts written out, for the solver to evaluate on table indices. */
  lemma EightShifts(c: bv16)
    ensures
      var c1 := (c << 1) ^ ((0 - (c >> 15)) & 0x1021);
      var c2 := (c1 << 1) ^ ((0 - (c1 >> 15)) & 0x1021);
      var c3 := (c2 << 1) ^ ((0 - (c2 >> 15)) & 0x1021);
      var c4 := (c3 << 1) ^ ((0 - (c3 >> 15)) & 0x1021);
      var c5 := (c4 << 1) ^ ((0 - (c4 >> 15)) & 0x1021);
      var c6 := (c5 << 1) ^ ((0 - (c5 >> 15)) & 0x1021);
      var c7 := (c6 << 1) ^ ((0 - (c6 >> 15)) & 0x1021);
      var c8 := (c7 << 1) ^ ((0 - (c7 >> 15)) & 0x1021);
      Shifts(c, 8) == c8
  {
    var c1 := (c << 1) ^ ((0 - (c >> 15)) & 0x1021);
    var c2 := (c1 << 1) ^ ((0 - (c1 >> 15)) & 0x1021);
    var c3 := (c2 << 1) ^ ((0 - (c2 >> 15)) & 0x1021);
    var c4 := (c3 << 1) ^ ((0 - (c3 >> 15)) & 0x1021);
    var c5 := (c4 << 1) ^ ((0 - (c4 >> 15)) & 0x1021);
    var c6 := (c5 << 1) ^ ((0 - (c5 >> 15)) & 0x1021);
    var c7 := (c6 << 1) ^ ((0 - (c6 >> 15)) & 0x1021);
    ShiftsUnfold(c, 8);
    ShiftsUnfold(c1, 7);
    ShiftsUnfold(c2, 6);
    ShiftsUnfold(c3, 5);
    ShiftsUnfold(c4, 4);
    ShiftsUnfold(c5, 3);
    ShiftsUnfold(c6, 2);
    ShiftsUnfold(c7, 1);
  }

  /** Entries 0 .. 63 of `crc_tab` against the bitwise definition. */
  lemma TableQuarter0()
    ensures forall k: bv16 :: 0 <= k < 64 ==> CrcTab(k) == TableEntry(k)
  {
    forall k: bv16 | 0 <= k < 64 ensures CrcTab(k) == TableEntry(k) {
      EightShifts(k << 8);
    }
  }

  /** Entries 64 .. 127 of `crc_tab` against the bitwise definition. */
  lemma TableQuarter1()
    ensures forall k: bv16 :: 64 <= k < 128 ==> CrcTab(k) == TableEntry(k)
  {
    forall k: bv16 | 64 <= k < 128 ensures CrcTab(k) == TableEntry(k) {
      EightShifts(k << 8);
    }
  }

  /** Entries 128 .. 191 of `crc_tab` against the bitwise definition. */
  lemma TableQuarter2()
    ensures forall k: bv16 :: 128 <= k < 192 ==> CrcTab(k) == TableEntry(k)
  {
    forall k: bv16 | 128 <= k < 192 ensures CrcTab(k) == TableEntry(k) {
      EightShifts(k << 8);
    }
  }

  /** Entries 192 .. 255 of `crc_tab` against the bitwise definition. */
  lemma TableQuarter3()
    ensures forall k: bv16 :: 192 <= k < 256 ==> CrcTab(k) == TableEntry(k)
  {
    forall k: bv16 | 192 <= k < 256 ensures CrcTab(k) == TableEntry(k) {
      EightShifts(k << 8);
    }
  }

  /** Every entry of `crc_tab` is the bitwise CRC-16 (polynomial 0x1021) of its index: the
      table is the CRC-16/XMODEM table. */
  lemma TableIsXmodem()
    ensures forall k: bv16 :: k < 256 ==> CrcTab(k) == TableEntry(k)
  {
    TableQuarter0();
    TableQuarter1();
    TableQuarter2();
    TableQuarter3();
  }

  /** The entry of `crc_tab` at a byte index. */
  lemma TableAt(k: bv16)
    requires k < 256
    ensures CrcTab(k) == TableEntry(k)
  {
    TableIsXmodem();
  }

  /** The table-driven step reads the bitwise CRC of the byte it selects. */
  lemma TableStepByEntry(crc: bv16, b: byte)
    ensures TableStep(crc, b) == (crc << 8) ^ TableEntry(((crc >> 8) ^ (b as bv16)) & 0x00FF)
  {
    TableAt(((crc >> 8) ^ (b as bv16)) & 0x00FF);
  }

  lemma CrcFromCons(crc: bv16, b: byte, s: seq<byte>)
    ensures CrcFrom(crc, [b] + s) == CrcFrom(TableStep(crc, b), s)
  {
    assert ([b] + s)[1..] == s;
  }

  /** The check value of CRC-16/XMODEM: the checksum of "123456789" is 0x31C3. */
  lemma CheckValue()
    ensures Crc16(Ascii("123456789")) == 0x31C3
  {
    var s := Ascii("123456789");
    assert s == [49, 50, 51, 52, 53, 54, 55, 56, 57];
    assert TableStep(0x0000, 49) == 0x2672;
    assert TableStep(0x2672, 50) == 0x20b5;
    assert TableStep(0x20b5, 51) == 0x9752;
    assert TableStep(0x9752, 52) == 0xd789;
    assert TableStep(0xd789, 53) == 0x546c;
    assert TableStep(0x546c, 54) == 0x20e4;
    assert TableStep(0x20e4, 55) == 0x86d6;
    assert TableStep(0x86d6, 56) == 0x9015;
    assert TableStep(0x9015, 57) == 0x31c3;
    CrcFromCons(0x0000, 49, [50, 51, 52, 53, 54, 55, 56, 57]);
    CrcFromCons(0x2672, 50, [51, 52, 53, 54, 55, 56, 57]);
    CrcFromCons(0x20b5, 51, [52, 53, 54, 55, 56, 57]);
    CrcFromCons(0x9752, 52, [53, 54, 55, 56, 57]);
    CrcFromCons(0xd789, 53, [54, 55, 56, 57]);
    CrcFromCons(0x546c, 54, [55, 56, 57]);
    CrcFromCons(0x20e4, 55, [56, 57]);
    CrcFromCons(0x86d6, 56, [57]);
    CrcFromCons(0x9015, 57, []);
  }

  lemma BitwiseCrcFromCons(crc: bv16, b: byte, s: seq<byte>)
    ensures BitwiseCrcFrom(crc, [b] + s) == BitwiseCrcFrom(BitwiseStep(crc, b), s)
  {
    assert ([b] + s)[1..] == s;
  }

  /** The bitwise reference reaches the same check value, 0x31C3, on "123456789", register
      for register with the table-driven steps of CheckValue. */
  lemma BitwiseCheckValue()
    ensures BitwiseCrcFrom(0, Ascii("123456789")) == 0x31C3
  {
    var s := Ascii("123456789");
    assert s == [49, 50, 51, 52, 53, 54, 55, 56, 57];
    assert BitwiseStep(0x0000, 49) == 0x2672;
    assert BitwiseStep(0x2672, 50) == 0x20b5;
    assert BitwiseStep(0x20b5, 51) == 0x9752;
    assert BitwiseStep(0x9752, 52) == 0xd789;
    assert BitwiseStep(0xd789, 53) == 0x546c;
    assert BitwiseStep(0x546c, 54) == 0x20e4;
    assert BitwiseStep(0x20e4, 55) == 0x86d6;
    assert BitwiseStep(0x86d6, 56) == 0x9015;
    assert BitwiseStep(0x9015, 57) == 0x31c3;
    BitwiseCrcFromCons(0x0000, 49, [50, 51, 52, 53, 54, 55, 56, 57]);
    BitwiseCrcFromCons(0x2672, 50, [51, 52, 53, 54, 55, 56, 57]);
    BitwiseCrcFromCons(0x20b5, 51, [52, 53, 54, 55, 56, 57]);
    BitwiseCrcFromCons(0x9752, 52, [53, 54, 55, 56, 57]);
    BitwiseCrcFromCons(0xd789, 53, [54, 55, 56, 57]);
    BitwiseCrcFromCons(0x546c, 54, [55, 56, 57]);
    BitwiseCrcFromCons(0x20e4, 55, [56, 57]);
    BitwiseCrcFromCons(0x86d6, 56, [57]);
    BitwiseCrcFromCons(0x9015, 57, []);
  }

  const OPEN_BRACE: byte := 123
  const CLOSE_BRACE: byte := 125

  /** `strchr(s + from, c)`: the first position at or after `from` that holds `c`. */
  function Find(s: seq<byte>, c: byte, from: nat): (r: Option<nat>)
    requires from <= |s|
    ensures r.Some? ==> from <= r.value < |s| && s[r.value] == c && c !in s[from..r.value]
    ensures r.None? ==> c !in s[from..]
    decreases |s| - from
  {
    if from == |s| then None
    else if s[from] == c then Some(from)
    else
      var r := Find(s, c, from + 1);
      assert r.Some? ==> s[from..r.value] == [s[from]] + s[from + 1..r.value];
      assert s[from..] == [s[from]] + s[from + 1..];
      r
  }

  /** The bytes `rCalcHash` checksums. After the first '{', the text up to the next '}' when
      that text is not empty; otherwise (no '{', no '}' after it, or "{}") the whole key.
      `key` is the string's characters, without the terminating NUL. */
  function HashedPart(key: seq<byte>): (part: seq<byte>)
  {
    match Find(key, OPEN_BRACE, 0)
    case None => key
    case Some(o) =>
      match Find(key, CLOSE_BRACE, o + 1)
      case Some(c) => if c > o + 1 then key[o + 1..c] else key
      case None => key
  }

  /** `rCalcHash`: the hash slot of a key. */
  function CalcHash(key: seq<byte>): (h: int)
    ensures 0 <= h < SLOTS
  {
    (Crc16(HashedPart(key)) & HASH_MASK) as int
  }

  /** Splitting a key at its first '{': `Find` sees the brace after `pre`. */
  lemma FindAfter(pre: seq<byte>, c: byte, rest: seq<byte>)
    requires c !in pre
    ensures Find(pre + [c] + rest, c, 0) == Some(|pre|)
  {
    var key := pre + [c] + rest;
    assert key[|pre|] == c;
    assert key[..|pre|] == pre;
  }

  /** A key's first '{', followed by a non-empty tag and a '}', selects the tag: only the tag
      is hashed, so every key with the same tag falls in the same slot as the tag itself. */
  lemma HashTagUsed(pre: seq<byte>, tag: seq<byte>, post: seq<byte>)
    requires OPEN_BRACE !in pre && CLOSE_BRACE !in tag && |tag| > 0
    ensures HashedPart(pre + [OPEN_BRACE] + tag + [CLOSE_BRACE] + post) == tag
    ensures CalcHash(pre + [OPEN_BRACE] + tag + [CLOSE_BRACE] + post) == CalcHash(tag)
  {
    var key := pre + [OPEN_BRACE] + tag + [CLOSE_BRACE] + post;
    var o := |pre|;
    assert key == pre + [OPEN_BRACE] + (tag + [CLOSE_BRACE] + post);
    FindAfter(pre, OPEN_BRACE, tag + [CLOSE_BRACE] + post);
    var c := o + 1 + |tag|;
    assert key[c] == CLOSE_BRACE;
    assert key[o + 1..c] == tag;
    assert key[o + 1..c] == tag;
    TagHashedWhole(tag);
  }

  /** A key with no '}' at all is hashed whole, whatever '{' it holds. */
  lemma TagHashedWhole(key: seq<byte>)
    requires CLOSE_BRACE !in key
    ensures HashedPart(key) == key
  {
  }

  /** A key without '{' is hashed whole. */
  lemma NoOpenBraceHashedWhole(key: seq<byte>)
    requires OPEN_BRACE !in key
    ensures HashedPart(key) == key
  {
  }

  /** An empty tag "{}" after the first '{' makes the whole key hashed. */
  lemma EmptyTagHashedWhole(pre: seq<byte>, post: seq<byte>)
    requires OPEN_BRACE !in pre
    ensures HashedPart(pre + [OPEN_BRACE, CLOSE_BRACE] + post) == pre + [OPEN_BRACE, CLOSE_BRACE] + post
  {
    var key := pre + [OPEN_BRACE, CLOSE_BRACE] + post;
    assert key == pre + [OPEN_BRACE] + ([CLOSE_BRACE] + post);
    FindAfter(pre, OPEN_BRACE, [CLOSE_BRACE] + post);
    assert key[|pre| + 1] == CLOSE_BRACE;
  }

  /** A first '{' with no '}' after it makes the whole key hashed. */
  lemma UnclosedTagHashedWhole(pre: seq<byte>, post: seq<byte>)
    requires OPEN_BRACE !in pre && CLOSE_BRACE !in post
    ensures HashedPart(pre + [OPEN_BRACE] + post) == pre + [OPEN_BRACE] + post
  {
    var key := pre + [OPEN_BRACE] + post;
    FindAfter(pre, OPEN_BRACE, post);
    assert key[|pre| + 1..] == post;
  }

  /** The first key of the library's hash test: "123456789" hashes to slot 0x31C3. */
  lemma HashOfCheckString()
    ensures CalcHash(Ascii("123456789")) == 0x31C3
  {
    NoOpenBraceHashedWhole(Ascii("123456789"));
    CheckValue();
  }

  /** The second key of the library's hash test: "{123456789}.blah" hashes like its tag,
      to slot 0x31C3. */
  lemma HashOfTaggedKey()
    ensures CalcHash(Ascii("{123456789}.blah")) == 0x31C3
  {
    var digits := Ascii("123456789");
    var tagged := Ascii("{123456789}.blah");
    assert tagged == [] + [OPEN_BRACE] + digits + [CLOSE_BRACE] + Ascii(".blah");
    HashTagUsed([], digits, Ascii(".blah"));
    HashOfCheckString();
  }

  /** RedisShard: the servers of a shard (their instance ids), and the inclusive slot range it
      serves. */
  datatype Shard = Shard(servers: seq<nat>, start: int, end: int)

  /** A RedisCluster handle; `shards` is None when its private part is missing. */
  datatype ClusterHandle = ClusterHandle(shards: Option<seq<Shard>>)

  predicate Serves(s: Shard, hash: int) {
    hash >= s.start && hash <= s.end
  }

  /** Server `m` of shard `i` is one `redisxClusterGetShard` may return for `hash`: its shard
      serves the slot and the server is connected or connects. */
  predicate Candidate(shards: seq<Shard>, hash: int, usable: nat -> bool, i: int, m: int) {
    0 <= i < |shards| && 0 <= m < |shards[i].servers| && Serves(shards[i], hash)
    && usable(shards[i].servers[m])
  }

  /** (i, m) comes no later than (j, k) in the search order: shards in array order, the
      servers of a shard in order. */
  predicate NoLater(i: int, m: int, j: int, k: int) {
    i < j || (i == j && m <= k)
  }

  /** The search loop of `redisxClusterGetShard`, from shard `i`, server `m`. */
  function Search(shards: seq<Shard>, hash: int, usable: nat -> bool, i: nat, m: nat): (r: Option<(nat, nat)>)
    requires i <= |shards| && (i < |shards| ==> m <= |shards[i].servers|)
    decreases |shards| - i, if i < |shards| then |shards[i].servers| - m else 0
  {
    if i == |shards| then None
    else if !Serves(shards[i], hash) || m == |shards[i].servers| then
      Search(shards, hash, usable, i + 1, 0)
    else if usable(shards[i].servers[m]) then Some((i, m))
    else Search(shards, hash, usable, i, m + 1)
  }

  /** The search returns the first candidate at or after (i, m) in search order, and nothing
      exactly when there is none. */
  lemma {:induction false} SearchFindsFirst(shards: seq<Shard>, hash: int, usable: nat -> bool, i: nat, m: nat)
    requires i <= |shards| && (i < |shards| ==> m <= |shards[i].servers|)
    ensures var r := Search(shards, hash, usable, i, m);
      && (r.None? <==> forall j, k :: Candidate(shards, hash, usable, j, k) ==> !NoLater(i, m, j, k))
      && (r.Some? ==> Candidate(shards, hash, usable, r.value.0, r.value.1)
                      && NoLater(i, m, r.value.0, r.value.1)
                      && forall j, k :: Candidate(shards, hash, usable, j, k) && NoLater(i, m, j, k)
                                        ==> NoLater(r.value.0, r.value.1, j, k))
    decreases |shards| - i, if i < |shards| then |shards[i].servers| - m else 0
  {
    if i == |shards| {
    } else if !Serves(shards[i], hash) || m == |shards[i].servers| {
      SearchFindsFirst(shards, hash, usable, i + 1, 0);
    } else if usable(shards[i].servers[m]) {
      assert Candidate(shards, hash, usable, i, m);
    } else {
      SearchFindsFirst(shards, hash, usable, i, m + 1);
    }
  }

  /** `redisxClusterGetShard`: NULL for a NULL cluster, a NULL or empty key or a cluster
      without its private part; otherwise the first usable server of the first shard serving
      the slot of the key's characters before their NUL, searched in array order, or NULL when
      there is none. Whether a server is usable (connected already, or `redisxConnect`
      succeeds) is the parameter `usable`. */
  function GetShard(cluster: Option<ClusterHandle>, key: Option<seq<byte>>, usable: nat -> bool): (r: Option<nat>)
    ensures (cluster.None? || key.None? || StrLen(key.value) == 0 || cluster.value.shards.None?) ==> r.None?
    ensures r.Some? ==> exists i, m :: Candidate(cluster.value.shards.value, CalcHash(CStr(key.value)), usable, i, m)
                                       && r.value == cluster.value.shards.value[i].servers[m]
  {
    if cluster.None? || key.None? || StrLen(key.value) == 0 || cluster.value.shards.None? then None
    else
      var shards := cluster.value.shards.value;
      var h := CalcHash(CStr(key.value));
      var s := Search(shards, h, usable, 0, 0);
      SearchFindsFirst(shards, h, usable, 0, 0);
      if s.None? then None else Some(shards[s.value.0].servers[s.value.1])
  }

  /** The search from the first server finds nothing exactly when there is no candidate, and
      otherwise the candidate no other one precedes. */
  lemma SearchFromStart(shards: seq<Shard>, hash: int, usable: nat -> bool)
    ensures var s := Search(shards, hash, usable, 0, 0);
      && (s.None? <==> forall i, m :: !Candidate(shards, hash, usable, i, m))
      && (s.Some? ==> Candidate(shards, hash, usable, s.value.0, s.value.1)
                      && forall j, k :: Candidate(shards, hash, usable, j, k) ==> NoLater(s.value.0, s.value.1, j, k))
  {
    SearchFindsFirst(shards, hash, usable, 0, 0);
    forall i, m | Candidate(shards, hash, usable, i, m) ensures NoLater(0, 0, i, m) {
    }
  }

  /** The server `redisxClusterGetShard` returns is the one at the first candidate position,
      and there is none exactly when no shard serving the slot has a usable server. */
  lemma GetShardIsFirstCandidate(shards: seq<Shard>, key: seq<byte>, usable: nat -> bool)
    requires StrLen(key) > 0
    ensures var r := GetShard(Some(ClusterHandle(Some(shards))), Some(key), usable);
      && (r.None? <==> forall i, m :: !Candidate(shards, CalcHash(CStr(key)), usable, i, m))
      && (r.Some? ==> exists i, m :: Candidate(shards, CalcHash(CStr(key)), usable, i, m)
                                     && r.value == shards[i].servers[m]
                                     && forall j, k :: Candidate(shards, CalcHash(CStr(key)), usable, j, k)
                                                       ==> NoLater(i, m, j, k))
  {
    SearchFromStart(shards, CalcHash(CStr(key)), usable);
    var s := Search(shards, CalcHash(CStr(key)), usable, 0, 0);
    var r := GetShard(Some(ClusterHandle(Some(shards))), Some(key), usable);
    assert r.None? <==> s.None?;
    assert s.None? <==> forall i, m :: !Candidate(shards, CalcHash(CStr(key)), usable, i, m);
    assert r.None? <==> forall i, m :: !Candidate(shards, CalcHash(CStr(key)), usable, i, m);
    if s.Some? {
      var (i, m) := s.value;
      assert Candidate(shards, CalcHash(CStr(key)), usable, i, m);
    }
  }
}
