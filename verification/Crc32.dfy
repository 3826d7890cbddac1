/** The CRC-32 of ngx_crc32.h: two table-driven loops against the bitwise definition of section 8 of RFC 1952. */
module Crc32 {

  const TABLE16: seq<bv32> := [
    0x00000000, 0x1db71064, 0x3b6e20c8, 0x26d930ac, 0x76dc4190, 0x6b6b51f4, 0x4db26158, 0x5005713c,
    0xedb88320, 0xf00f9344, 0xd6d6a3e8, 0xcb61b38c, 0x9b64c2b0, 0x86d3d2d4, 0xa00ae278, 0xbdbdf21c
  ]

  /** Sixteen rows of sixteen entries. */
  const TABLE256: seq<seq<bv32>> := [
    [0x00000000, 0x77073096, 0xee0e612c, 0x990951ba, 0x076dc419, 0x706af48f, 0xe963a535, 0x9e6495a3,
     0x0edb8832, 0x79dcb8a4, 0xe0d5e91e, 0x97d2d988, 0x09b64c2b, 0x7eb17cbd, 0xe7b82d07, 0x90bf1d91],
    [0x1db71064, 0x6ab020f2, 0xf3b97148, 0x84be41de, 0x1adad47d, 0x6ddde4eb, 0xf4d4b551, 0x83d385c7,
     0x136c9856, 0x646ba8c0, 0xfd62f97a, 0x8a65c9ec, 0x14015c4f, 0x63066cd9, 0xfa0f3d63, 0x8d080df5],
    [0x3b6e20c8, 0x4c69105e, 0xd56041e4, 0xa2677172, 0x3c03e4d1, 0x4b04d447, 0xd20d85fd, 0xa50ab56b,
     0x35b5a8fa, 0x42b2986c, 0xdbbbc9d6, 0xacbcf940, 0x32d86ce3, 0x45df5c75, 0xdcd60dcf, 0xabd13d59],
    [0x26d930ac, 0x51de003a, 0xc8d75180, 0xbfd06116, 0x21b4f4b5, 0x56b3c423, 0xcfba9599, 0xb8bda50f,
     0x2802b89e, 0x5f058808, 0xc60cd9b2, 0xb10be924, 0x2f6f7c87, 0x58684c11, 0xc1611dab, 0xb6662d3d],
    [0x76dc4190, 0x01db7106, 0x98d220bc, 0xefd5102a, 0x71b18589, 0x06b6b51f, 0x9fbfe4a5, 0xe8b8d433,
     0x7807c9a2, 0x0f00f934, 0x9609a88e, 0xe10e9818, 0x7f6a0dbb, 0x086d3d2d, 0x91646c97, 0xe6635c01],
    [0x6b6b51f4, 0x1c6c6162, 0x856530d8, 0xf262004e, 0x6c0695ed, 0x1b01a57b, 0x8208f4c1, 0xf50fc457,
     0x65b0d9c6, 0x12b7e950, 0x8bbeb8ea, 0xfcb9887c, 0x62dd1ddf, 0x15da2d49, 0x8cd37cf3, 0xfbd44c65],
    [0x4db26158, 0x3ab551ce, 0xa3bc0074, 0xd4bb30e2, 0x4adfa541, 0x3dd895d7, 0xa4d1c46d, 0xd3d6f4fb,
     0x4369e96a, 0x346ed9fc, 0xad678846, 0xda60b8d0, 0x44042d73, 0x33031de5, 0xaa0a4c5f, 0xdd0d7cc9],
    [0x5005713c, 0x270241aa, 0xbe0b1010, 0xc90c2086, 0x5768b525, 0x206f85b3, 0xb966d409, 0xce61e49f,
     0x5edef90e, 0x29d9c998, 0xb0d09822, 0xc7d7a8b4, 0x59b33d17, 0x2eb40d81, 0xb7bd5c3b, 0xc0ba6cad],
    [0xedb88320, 0x9abfb3b6, 0x03b6e20c, 0x74b1d29a, 0xead54739, 0x9dd277af, 0x04db2615, 0x73dc1683,
     0xe3630b12, 0x94643b84, 0x0d6d6a3e, 0x7a6a5aa8, 0xe40ecf0b, 0x9309ff9d, 0x0a00ae27, 0x7d079eb1],
    [0xf00f9344, 0x8708a3d2, 0x1e01f268, 0x6906c2fe, 0xf762575d, 0x806567cb, 0x196c3671, 0x6e6b06e7,
     0xfed41b76, 0x89d32be0, 0x10da7a5a, 0x67dd4acc, 0xf9b9df6f, 0x8ebeeff9, 0x17b7be43, 0x60b08ed5],
    [0xd6d6a3e8, 0xa1d1937e, 0x38d8c2c4, 0x4fdff252, 0xd1bb67f1, 0xa6bc5767, 0x3fb506dd, 0x48b2364b,
     0xd80d2bda, 0xaf0a1b4c, 0x36034af6, 0x41047a60, 0xdf60efc3, 0xa867df55, 0x316e8eef, 0x4669be79],
    [0xcb61b38c, 0xbc66831a, 0x256fd2a0, 0x5268e236, 0xcc0c7795, 0xbb0b4703, 0x220216b9, 0x5505262f,
     0xc5ba3bbe, 0xb2bd0b28, 0x2bb45a92, 0x5cb36a04, 0xc2d7ffa7, 0xb5d0cf31, 0x2cd99e8b, 0x5bdeae1d],
    [0x9b64c2b0, 0xec63f226, 0x756aa39c, 0x026d930a, 0x9c0906a9, 0xeb0e363f, 0x72076785, 0x05005713,
     0x95bf4a82, 0xe2b87a14, 0x7bb12bae, 0x0cb61b38, 0x92d28e9b, 0xe5d5be0d, 0x7cdcefb7, 0x0bdbdf21],
    [0x86d3d2d4, 0xf1d4e242, 0x68ddb3f8, 0x1fda836e, 0x81be16cd, 0xf6b9265b, 0x6fb077e1, 0x18b74777,
     0x88085ae6, 0xff0f6a70, 0x66063bca, 0x11010b5c, 0x8f659eff, 0xf862ae69, 0x616bffd3, 0x166ccf45],
    [0xa00ae278, 0xd70dd2ee, 0x4e048354, 0x3903b3c2, 0xa7672661, 0xd06016f7, 0x4969474d, 0x3e6e77db,
     0xaed16a4a, 0xd9d65adc, 0x40df0b66, 0x37d83bf0, 0xa9bcae53, 0xdebb9ec5, 0x47b2cf7f, 0x30b5ffe9],
    [0xbdbdf21c, 0xcabac28a, 0x53b39330, 0x24b4a3a6, 0xbad03605, 0xcdd70693, 0x54de5729, 0x23d967bf,
     0xb3667a2e, 0xc4614ab8, 0x5d681b02, 0x2a6f2b94, 0xb40bbe37, 0xc30c8ea1, 0x5a05df1b, 0x2d02ef8d]
  ]

  // Names for the word operations, so that proofs can leave the bits alone.

  function Xor(c: bv32, d: bv32): bv32 { c ^ d }
  function Wide(b: bv8): bv32 { b as bv32 }
  function LowNibble(b: bv8): bv32 { (b & 0xf) as bv32 }
  function HighNibble(b: bv8): bv32 { (b >> 4) as bv32 }
  predicate Odd(c: bv32) { c & 1 == 1 }
  function Half(c: bv32): bv32 { c >> 1 }
  function Up1(w: bv32): bv32 { w << 1 }
  function Up4(w: bv32): bv32 { w << 4 }
  function Up8(w: bv32): bv32 { w << 8 }
  function Down4(w: bv32): bv32 { w >> 4 }
  function Down8(w: bv32): bv32 { w >> 8 }
  predicate Below31(w: bv32) { w < 0x80000000 }
  predicate Below28(w: bv32) { w < 0x10000000 }
  predicate Below24(w: bv32) { w < 0x1000000 }

  // The definition: the bits of each byte, lowest first, divided by the reflected polynomial.

  const POLYNOMIAL: bv32 := 0xedb88320

  function Shift(c: bv32): bv32 {
    if c & 1 == 1 then (c >> 1) ^ POLYNOMIAL else c >> 1
  }

  function Nibble(c: bv32): bv32 {
    Shift(Shift(Shift(Shift(c))))
  }

  function Feed(c: bv32, b: bv8): bv32 {
    Nibble(Nibble(Xor(c, Wide(b))))
  }

  function Register(c: bv32, s: seq<bv8>): bv32
    decreases |s|
  {
    if s == [] then c else Register(Feed(c, s[0]), s[1..])
  }

  function Crc(s: seq<bv8>): bv32 {
    Xor(Register(0xffffffff, s), 0xffffffff)
  }

  // What the two loops do to the register for one byte.

  function Entry16(i: bv32): bv32 {
    assert i & 0xf < 16;
    TABLE16[(i & 0xf) as int]
  }

  function Entry256(i: bv32): bv32 {
    assert (i >> 4) & 0xf < 16 && i & 0xf < 16;
    TABLE256[((i >> 4) & 0xf) as int][(i & 0xf) as int]
  }

  function ByNibbles(crc: bv32, c: bv8): bv32 {
    var d := Xor(Entry16(Xor(crc, LowNibble(c))), Down4(crc));
    Xor(Entry16(Xor(d, HighNibble(c))), Down4(d))
  }

  function ByByte(crc: bv32, c: bv8): bv32 {
    Xor(Entry256(Xor(crc, Wide(c))), Down8(crc))
  }

  lemma ShiftUnfolds(c: bv32)
    ensures Shift(c) == if Odd(c) then Xor(Half(c), POLYNOMIAL) else Half(c)
  {
  }

  lemma OddXor(c: bv32, w: bv32)
    ensures Odd(Xor(c, Up1(w))) == Odd(c)
  {
  }

  lemma HalfXor(c: bv32, w: bv32)
    requires Below31(w)
    ensures Half(Xor(c, Up1(w))) == Xor(Half(c), w)
  {
  }

  lemma XorLaws(c: bv32, d: bv32, e: bv32)
    ensures Xor(c, Xor(d, e)) == Xor(Xor(c, d), e)
    ensures Xor(c, Xor(c, d)) == d
  {
  }

  lemma XorCommutes(c: bv32, d: bv32)
    ensures Xor(c, d) == Xor(d, c)
  {
  }

  lemma XorSwap(c: bv32, d: bv32, e: bv32)
    ensures Xor(Xor(c, d), e) == Xor(Xor(c, e), d)
  {
    hide *;
    XorLaws(c, d, e);
    XorCommutes(d, e);
    XorLaws(c, e, d);
  }

  lemma ShiftXor(c: bv32, w: bv32)
    requires Below31(w)
    ensures Shift(Xor(c, Up1(w))) == Xor(Shift(c), w)
  {
    hide *;
    ShiftUnfolds(c);
    ShiftUnfolds(Xor(c, Up1(w)));
    OddXor(c, w);
    HalfXor(c, w);
    XorSwap(Half(c), w, POLYNOMIAL);
  }

  lemma Ups(w: bv32)
    ensures Up4(w) == Up1(Up1(Up1(Up1(w)))) && Up8(w) == Up4(Up4(w))
    ensures Below28(w) ==> Below31(w) && Below31(Up1(w)) && Below31(Up1(Up1(w))) && Below31(Up1(Up1(Up1(w))))
    ensures Below24(w) ==> Below28(w) && Below28(Up4(w))
  {
  }

  /** The bits not yet shifted out only take part by exclusive or. */
  lemma NibbleXor(c: bv32, w: bv32)
    requires Below28(w)
    ensures Nibble(Xor(c, Up4(w))) == Xor(Nibble(c), w)
  {
    hide Shift, Xor, Up1, Up4, Up8, Below24, Below28, Below31;
    Ups(w);
    ShiftXor(c, Up1(Up1(Up1(w))));
    ShiftXor(Shift(c), Up1(Up1(w)));
    ShiftXor(Shift(Shift(c)), Up1(w));
    ShiftXor(Shift(Shift(Shift(c))), w);
  }

  lemma ByteXor(c: bv32, w: bv32)
    requires Below24(w)
    ensures Nibble(Nibble(Xor(c, Up8(w)))) == Xor(Nibble(Nibble(c)), w)
  {
    hide *;
    Ups(w);
    NibbleXor(c, Up4(w));
    NibbleXor(Nibble(c), w);
  }

  // The tables hold the definition's value for every index.

  lemma Table16(i: bv32)
    requires i < 16
    ensures |TABLE16| == 16 && TABLE16[i as int] == Nibble(i)
  {
  }

  lemma Rows0(i: bv32)
    requires i < 16
    ensures TABLE256[0][i as int] == Nibble(Nibble(0x00 | i))
    ensures TABLE256[1][i as int] == Nibble(Nibble(0x10 | i))
  {
  }

  lemma Rows2(i: bv32)
    requires i < 16
    ensures TABLE256[2][i as int] == Nibble(Nibble(0x20 | i))
    ensures TABLE256[3][i as int] == Nibble(Nibble(0x30 | i))
  {
  }

  lemma Rows4(i: bv32)
    requires i < 16
    ensures TABLE256[4][i as int] == Nibble(Nibble(0x40 | i))
    ensures TABLE256[5][i as int] == Nibble(Nibble(0x50 | i))
  {
  }

  lemma Rows6(i: bv32)
    requires i < 16
    ensures TABLE256[6][i as int] == Nibble(Nibble(0x60 | i))
    ensures TABLE256[7][i as int] == Nibble(Nibble(0x70 | i))
  {
  }

  lemma Rows8(i: bv32)
    requires i < 16
    ensures TABLE256[8][i as int] == Nibble(Nibble(0x80 | i))
    ensures TABLE256[9][i as int] == Nibble(Nibble(0x90 | i))
  {
  }

  lemma Rows10(i: bv32)
    requires i < 16
    ensures TABLE256[10][i as int] == Nibble(Nibble(0xa0 | i))
    ensures TABLE256[11][i as int] == Nibble(Nibble(0xb0 | i))
  {
  }

  lemma Rows12(i: bv32)
    requires i < 16
    ensures TABLE256[12][i as int] == Nibble(Nibble(0xc0 | i))
    ensures TABLE256[13][i as int] == Nibble(Nibble(0xd0 | i))
  {
  }

  lemma Rows14(i: bv32)
    requires i < 16
    ensures TABLE256[14][i as int] == Nibble(Nibble(0xe0 | i))
    ensures TABLE256[15][i as int] == Nibble(Nibble(0xf0 | i))
  {
  }

  lemma Table256(i: bv32)
    requires i < 256
    ensures Entry256(i) == Nibble(Nibble(i))
  {
    hide Nibble;
    assert i == ((i >> 4) << 4) | (i & 0xf) && (i >> 4) & 0xf == i >> 4 && i & 0xf < 16 && i >> 4 < 16;
    var r, l := (i >> 4) as int, i & 0xf;
    if r < 2 { Rows0(l); } else if r < 4 { Rows2(l); } else if r < 6 { Rows4(l); } else if r < 8 { Rows6(l); }
    else if r < 10 { Rows8(l); } else if r < 12 { Rows10(l); } else if r < 14 { Rows12(l); } else { Rows14(l); }
  }

  lemma Split4(c: bv32)
    ensures c == Xor(c & 0xf, Up4(Down4(c))) && Below28(Down4(c)) && c & 0xf < 16
  {
  }

  lemma Split8(c: bv32)
    ensures c == Xor(c & 0xff, Up8(Down8(c))) && Below24(Down8(c)) && c & 0xff < 256
    ensures Entry256(c) == Entry256(c & 0xff)
  {
    assert (c >> 4) & 0xf == ((c & 0xff) >> 4) & 0xf && c & 0xf == (c & 0xff) & 0xf;
  }

  lemma NibbleByTable(c: bv32)
    ensures Nibble(c) == Xor(Entry16(c), Down4(c))
  {
    hide Nibble, Xor, Up4, Down4, Below28;
    Split4(c);
    NibbleXor(c & 0xf, Down4(c));
    Table16(c & 0xf);
  }

  lemma ByteByTable(c: bv32)
    ensures Nibble(Nibble(c)) == Xor(Entry256(c), Down8(c))
  {
    hide *;
    Split8(c);
    ByteXor(c & 0xff, Down8(c));
    Table256(c & 0xff);
  }

  lemma Down8Xor(c: bv32, b: bv8)
    ensures Down8(Xor(c, Wide(b))) == Down8(c)
  {
  }

  /** One byte by the 256-entry table. */
  lemma ByByteIsFeed(c: bv32, b: bv8)
    ensures ByByte(c, b) == Feed(c, b)
  {
    hide Nibble, Xor, Wide, Down8, Entry256;
    ByteByTable(Xor(c, Wide(b)));
    Down8Xor(c, b);
  }

  lemma LowBits(c: bv32, b: bv8)
    ensures Entry16(Xor(c, LowNibble(b))) == Entry16(Xor(c, Wide(b)))
  {
    assert Xor(c, LowNibble(b)) & 0xf == Xor(c, Wide(b)) & 0xf;
  }

  lemma HighBits(c: bv32, b: bv8)
    ensures Down4(Xor(c, Wide(b))) == Xor(Down4(c), HighNibble(b))
    ensures Down4(Xor(c, HighNibble(b))) == Down4(c)
  {
  }

  /** One byte as two nibbles, low one first, by the 16-entry table. */
  lemma ByNibblesIsFeed(c: bv32, b: bv8)
    ensures ByNibbles(c, b) == Feed(c, b)
  {
    hide Nibble, Xor, Down4, Entry16, Wide, LowNibble, HighNibble;
    var x, h := Xor(c, Wide(b)), HighNibble(b);
    var d := Xor(Entry16(x), Down4(c));
    LowBits(c, b);
    HighBits(c, b);
    HighBits(d, b);
    NibbleByTable(x);
    XorLaws(Entry16(x), Down4(c), h);
    NibbleByTable(Xor(d, h));
  }

  // The loops.

  method Short(p: seq<bv8>) returns (crc: bv32)
    ensures crc == Crc(p)
  {
    hide ByNibbles, Feed;
    crc := 0xffffffff;
    var i := 0;
    while i < |p|
      invariant 0 <= i <= |p| && Register(crc, p[i..]) == Register(0xffffffff, p)
    {
      ByNibblesIsFeed(crc, p[i]);
      crc := ByNibbles(crc, p[i]);
      i := i + 1;
    }
    crc := Xor(crc, 0xffffffff);
  }

  method Long(p: seq<bv8>) returns (crc: bv32)
    ensures crc == Crc(p)
  {
    hide ByByte, Feed;
    crc := 0xffffffff;
    var i := 0;
    while i < |p|
      invariant 0 <= i <= |p| && Register(crc, p[i..]) == Register(0xffffffff, p)
    {
      ByByteIsFeed(crc, p[i]);
      crc := ByByte(crc, p[i]);
      i := i + 1;
    }
    crc := Xor(crc, 0xffffffff);
  }

  method Update(crc: bv32, p: seq<bv8>) returns (c: bv32)
    ensures c == Register(crc, p)
  {
    hide ByByte, Feed;
    c := crc;
    var i := 0;
    while i < |p|
      invariant 0 <= i <= |p| && Register(c, p[i..]) == Register(crc, p)
    {
      ByByteIsFeed(c, p[i]);
      c := ByByte(c, p[i]);
      i := i + 1;
    }
  }

  /** Updating with two pieces is one pass over both. */
  lemma {:induction false} RegisterConcat(c: bv32, s: seq<bv8>, t: seq<bv8>)
    ensures Register(c, s + t) == Register(Register(c, s), t)
    decreases |s|
  {
    hide Feed;
    if s == [] {
      assert s + t == t;
    } else {
      assert (s + t)[1..] == s[1..] + t;
      RegisterConcat(Feed(c, s[0]), s[1..], t);
    }
  }

  // What the code is for: damage within four adjacent bytes always changes the value.

  lemma ShiftInjective(c: bv32, d: bv32)
    requires Shift(c) == Shift(d)
    ensures c == d
  {
  }

  lemma NibbleInjective(c: bv32, d: bv32)
    requires Nibble(c) == Nibble(d)
    ensures c == d
  {
    hide Shift;
    ShiftInjective(Shift(Shift(Shift(c))), Shift(Shift(Shift(d))));
    ShiftInjective(Shift(Shift(c)), Shift(Shift(d)));
    ShiftInjective(Shift(c), Shift(d));
    ShiftInjective(c, d);
  }

  lemma FeedInjective(c: bv32, d: bv32, b: bv8)
    requires Feed(c, b) == Feed(d, b)
    ensures c == d
  {
    hide Nibble, Xor, Wide;
    var e := Wide(b);
    NibbleInjective(Nibble(Xor(c, e)), Nibble(Xor(d, e)));
    NibbleInjective(Xor(c, e), Xor(d, e));
    XorCancels(c, d, e);
  }

  lemma XorCancels(c: bv32, d: bv32, e: bv32)
    requires Xor(c, e) == Xor(d, e)
    ensures c == d
  {
  }

  lemma {:induction false} RegisterInjective(c: bv32, d: bv32, s: seq<bv8>)
    requires Register(c, s) == Register(d, s)
    ensures c == d
    decreases |s|
  {
    hide Feed;
    if s != [] {
      RegisterInjective(Feed(c, s[0]), Feed(d, s[0]), s[1..]);
      FeedInjective(c, d, s[0]);
    }
  }

  function Word(s: seq<bv8>): bv32
    requires |s| <= 4
  {
    if s == [] then 0 else Xor(Wide(s[0]), Up8(Word(s[1..])))
  }

  function Zeros(n: nat): seq<bv8> {
    seq(n, _ => 0)
  }

  lemma WordBound(s: seq<bv8>)
    requires |s| <= 3
    ensures Below24(Word(s))
  {
    if |s| > 1 {
      var t := s[1..];
      assert Word(t) == Xor(Wide(t[0]), Up8(Word(t[1..])));
      if |t| > 1 {
        assert Word(t[1..]) == Xor(Wide(t[1]), Up8(0)) by {
          assert t[1..][1..] == [];
        }
      }
    }
  }

  lemma {:induction false} RegisterWord(c: bv32, s: seq<bv8>)
    requires |s| <= 4
    ensures Register(c, s) == Register(Xor(c, Word(s)), Zeros(|s|))
    decreases |s|
  {
    hide Nibble, Xor, Up8, Below24, Wide;
    if s == [] {
      XorZero(c);
    } else {
      var b, w := Wide(s[0]), Word(s[1..]);
      WordBound(s[1..]);
      RegisterWord(Feed(c, s[0]), s[1..]);
      assert Zeros(|s|)[0] == 0 && Zeros(|s|)[1..] == Zeros(|s| - 1);
      XorLaws(c, b, Up8(w));
      XorZero(Xor(c, Word(s)));
      ByteXor(Xor(c, b), w);
    }
  }

  lemma XorZero(c: bv32)
    ensures Xor(c, 0) == c && Wide(0) == 0
  {
  }

  lemma {:induction false} WordInjective(s: seq<bv8>, t: seq<bv8>)
    requires |s| == |t| <= 4 && Word(s) == Word(t)
    ensures s == t
  {
    hide Xor, Up8, Below24, Wide;
    if s != [] {
      WordBound(s[1..]);
      WordBound(t[1..]);
      WordStep(s[0], Word(s[1..]), t[0], Word(t[1..]));
      WordInjective(s[1..], t[1..]);
      assert s == [s[0]] + s[1..] && t == [t[0]] + t[1..];
    }
  }

  lemma WordStep(b: bv8, w: bv32, c: bv8, v: bv32)
    requires Below24(w) && Below24(v) && Xor(Wide(b), Up8(w)) == Xor(Wide(c), Up8(v))
    ensures b == c && w == v
  {
  }

  /** Two texts that differ only within four adjacent bytes have the same value only if they are the same. */
  lemma DetectsBurst(a: seq<bv8>, u: seq<bv8>, v: seq<bv8>, z: seq<bv8>)
    requires |u| == |v| <= 4
    ensures Crc(a + u + z) == Crc(a + v + z) <==> u == v
  {
    hide Register, Word, Xor;
    if Crc(a + u + z) == Crc(a + v + z) {
      var c := Register(0xffffffff, a);
      CrcRegister(a, u, z);
      CrcRegister(a, v, z);
      XorCancels(Register(Register(c, u), z), Register(Register(c, v), z), 0xffffffff);
      RegisterInjective(Register(c, u), Register(c, v), z);
      RegisterWord(c, u);
      RegisterWord(c, v);
      RegisterInjective(Xor(c, Word(u)), Xor(c, Word(v)), Zeros(|u|));
      XorLaws(c, Word(u), 0);
      XorLaws(c, Word(v), 0);
      WordInjective(u, v);
    }
  }

  lemma CrcRegister(a: seq<bv8>, u: seq<bv8>, z: seq<bv8>)
    ensures Crc(a + u + z) == Xor(Register(Register(Register(0xffffffff, a), u), z), 0xffffffff)
  {
    hide Register, Xor;
    RegisterConcat(0xffffffff, a + u, z);
    RegisterConcat(0xffffffff, a, u);
  }
}
