/** IPv6 addresses as text: ngx_inet6_ntop writes them and ngx_inet6_addr reads them. */
module Inet6 {
  import opened Wrappers

  /** An address is 16 bytes. */
  predicate Address(p: seq<nat>) {
    |p| == 16 && forall i :: 0 <= i < 16 ==> p[i] < 256
  }

  function WordAt(p: seq<nat>, k: nat): (w: nat)
    requires Address(p) && k < 8
    ensures w < 0x10000
  {
    p[2 * k] * 256 + p[2 * k + 1]
  }

  // Numbers as text.

  function Digit(d: nat): char
    requires d < 16
  {
    if d < 10 then '0' + d as char else 'a' + (d - 10) as char
  }

  /** The number of a hexadecimal digit, in upper or lower case. */
  function HexValue(c: char): Option<nat> {
    if '0' <= c <= '9' then Some(c as nat - '0' as nat)
    else if 'a' <= c <= 'f' then Some(c as nat - 'a' as nat + 10)
    else if 'A' <= c <= 'F' then Some(c as nat - 'A' as nat + 10)
    else None
  }

  const LOWER := "0123456789abcdef"

  const UPPER := "0123456789ABCDEF"

  lemma Sixteen(k: nat)
    requires k < 16
    ensures |LOWER| == |UPPER| == 16
    ensures LOWER[k] as nat == if k < 10 then '0' as nat + k else 'a' as nat + (k - 10)
    ensures UPPER[k] as nat == if k < 10 then '0' as nat + k else 'A' as nat + (k - 10)
  {
  }

  /** The digits, in either case, and nothing else have a value: their place among the sixteen. Numbers are written
      with the small ones. */
  lemma HexValueIs(c: char, k: nat)
    requires k < 16
    ensures HexValue(c) == Some(k) <==> c == LOWER[k] || c == UPPER[k]
    ensures HexValue(c).Some? ==> HexValue(c).value < 16
    ensures Digit(k) == LOWER[k]
  {
    hide LOWER, UPPER;
    Sixteen(k);
  }

  /** Format %xd. */
  function Hex(w: nat): string
    requires w < 0x10000
  {
    if w < 0x10 then [Digit(w)]
    else if w < 0x100 then [Digit(w / 0x10), Digit(w % 0x10)]
    else if w < 0x1000 then [Digit(w / 0x100), Digit(w / 0x10 % 0x10), Digit(w % 0x10)]
    else [Digit(w / 0x1000), Digit(w / 0x100 % 0x10), Digit(w / 0x10 % 0x10), Digit(w % 0x10)]
  }

  /** Format %ud, for a byte. */
  function Dec(b: nat): string
    requires b < 256
  {
    if b < 10 then [Digit(b)]
    else if b < 100 then [Digit(b / 10), Digit(b % 10)]
    else [Digit(b / 100), Digit(b / 10 % 10), Digit(b % 10)]
  }

  lemma DigitIs(d: nat)
    requires d < 16
    ensures HexValue(Digit(d)) == Some(d) && Digit(d) != ':' && Digit(d) != '.'
    ensures d < 10 <==> '0' <= Digit(d) <= '9'
    ensures d < 10 ==> Digit(d) as nat - '0' as nat == d
  {
  }

  // Dotted addresses.

  /** ngx_inet_addr behind its loop: the octets so far, the one being read, and the dots. */
  function Octets(s: string, addr: nat, octet: nat, dots: nat): Option<nat>
    decreases |s|
  {
    if s == "" then
      var value := (addr * 256 + octet) % 0x1_0000_0000;
      if dots == 3 && value != 0xffff_ffff then Some(value) else None
    else if '0' <= s[0] <= '9' then
      var o := octet * 10 + (s[0] as nat - '0' as nat);
      if o > 255 then None else Octets(s[1..], addr, o, dots)
    else if s[0] == '.' then Octets(s[1..], (addr * 256 + octet) % 0x1_0000_0000, 0, dots + 1)
    else None
  }

  /** ngx_inet_addr. What it gives for 255.255.255.255 is the value that stands for an error. */
  method InetAddr(text: string) returns (r: Option<nat>)
    ensures r == Octets(text, 0, 0, 0)
    ensures r.Some? <==> exists ps :: Quartet(ps) && text == Joined(ps)
    ensures forall ps :: Quartet(ps) && text == Joined(ps) ==> r == Some(Value(0, ps))
  {
    DottedAccepted(text);
    hide Quartet, Joined, Value;
    var addr: nat, octet: nat, n: nat, i: nat := 0, 0, 0, 0;
    assert text[0..] == text;
    while i < |text|
      invariant 0 <= i <= |text| && Octets(text[i..], addr, octet, n) == Octets(text, 0, 0, 0)
    {
      var c := text[i];
      assert text[i..][1..] == text[i + 1..];
      i := i + 1;
      if '0' <= c <= '9' {
        octet := octet * 10 + (c as nat - '0' as nat);
        if octet > 255 {
          return None;
        }
        continue;
      }
      if c == '.' {
        addr := (addr * 256 + octet) % 0x1_0000_0000;
        octet := 0;
        n := n + 1;
        continue;
      }
      return None;
    }
    if n == 3 {
      addr := (addr * 256 + octet) % 0x1_0000_0000;
      return if addr == 0xffff_ffff then None else Some(addr);
    }
    return None;
  }

  // Reading an address.

  /** The variables of the loop: the bytes written, where the zeros go, the text behind the last colon, and the
      hexadecimal digits and value of the word being read; n words are still to come. */
  datatype Reader = Reader(out: seq<nat>, zero: Option<nat>, tail: Option<string>, nibbles: nat, word: nat, n: nat)

  const START := Reader([], None, None, 0, 0, 8)

  function Push(out: seq<nat>, word: nat): (r: seq<nat>)
    ensures |r| == |out| + 2
  {
    out + [word / 256 % 256, word % 256]
  }

  function Zeros(n: nat): (r: seq<nat>)
    ensures |r| == n && forall i :: 0 <= i < n ==> r[i] == 0
  {
    seq(n, _ => 0)
  }

  predicate Reading(r: Reader) {
    0 < r.n <= 8 && |r.out| == 16 - 2 * r.n && (r.zero.Some? ==> r.zero.value <= |r.out|)
  }

  /** Behind the loop: the last word, and the zeros moved in. */
  function Finish(r: Reader): Option<seq<nat>>
    requires Reading(r)
  {
    if r.nibbles == 0 && r.zero.None? then None
    else
      var out, n := Push(r.out, r.word), r.n - 1;
      if n > 0 then
        if r.zero.Some? then Some(out[..r.zero.value] + Zeros(2 * n) + out[r.zero.value..]) else None
      else if r.zero.None? then Some(out) else None
  }

  /** The dotted rest stands for two words; the second one is left to the end. */
  function Dotted(r: Reader): Option<Reader> {
    if r.n < 2 || r.tail.None? then None
    else
      var v := Octets(r.tail.value, 0, 0, 0);
      if v.None? then None
      else
        var out := r.out + [v.value / 0x100_0000 % 256, v.value / 0x1_0000 % 256];
        Some(r.(out := out, word := v.value, n := r.n - 1))
  }

  function Parse(s: string, r: Reader): Option<seq<nat>>
    requires Reading(r)
    decreases |s|
  {
    if s == "" then Finish(r)
    else if s[0] == ':' then
      if r.nibbles > 0 then
        if r.n == 1 then None
        else Parse(s[1..], Reader(Push(r.out, r.word), r.zero, Some(s[1..]), 0, 0, r.n - 1))
      else if r.zero.None? then Parse(s[1..], r.(tail := Some(s[1..]), zero := Some(|r.out|)))
      else None
    else if s[0] == '.' && r.nibbles > 0 then
      var d := Dotted(r);
      if d.None? then None else Finish(d.value)
    else if r.nibbles == 4 || HexValue(s[0]).None? then None
    else Parse(s[1..], r.(nibbles := r.nibbles + 1, word := r.word * 16 + HexValue(s[0]).value))
  }

  /** What a text stands for; one leading colon is passed over. */
  function Read(text: string): Option<seq<nat>> {
    if text == "" then None else Parse(if text[0] == ':' then text[1..] else text, START)
  }

  /** ngx_inet6_addr: the bytes go into `addr`. */
  method Inet6Addr(text: string, addr: array<nat>) returns (ok: bool)
    requires addr.Length == 16
    modifies addr
    ensures ok == Read(text).Some? && (ok ==> addr[..] == Read(text).value)
    ensures ok <==> exists f :: Means(text, f)
    ensures forall f :: Means(text, f) ==> addr[..] == FormBytes(f)
  {
    Accepted(text);
    hide Parse, Octets, Finish, Means, FormBytes, Wellformed;
    if |text| == 0 {
      return false;
    }
    var i := if text[0] == ':' then 1 else 0;
    assert text[0..] == text;
    var r := START;
    ghost var all := Parse(text[i..], START);
    while i < |text|
      invariant 0 <= i <= |text| && Reading(r) && Parse(text[i..], r) == all == Read(text)
      invariant addr[..|r.out|] == r.out
    {
      var c := text[i];
      Unfold(text[i..], r);
      assert text[i..][1..] == text[i + 1..];
      i := i + 1;
      if c == ':' {
        if r.nibbles > 0 {
          addr[|r.out|], addr[|r.out| + 1] := r.word / 256 % 256, r.word % 256;
          if r.n == 1 {
            return false;
          }
          r := Reader(Push(r.out, r.word), r.zero, Some(text[i..]), 0, 0, r.n - 1);
          continue;
        }
        if r.zero.None? {
          r := r.(tail := Some(text[i..]), zero := Some(|r.out|));
          continue;
        }
        return false;
      }
      if c == '.' && r.nibbles > 0 {
        if r.n < 2 || r.tail.None? {
          return false;
        }
        var v := InetAddr(r.tail.value);
        if v.None? {
          return false;
        }
        var word := v.value;
        addr[|r.out|], addr[|r.out| + 1] := word / 0x100_0000 % 256, word / 0x1_0000 % 256;
        r := r.(out := r.out + [word / 0x100_0000 % 256, word / 0x1_0000 % 256], word := word, n := r.n - 1);
        ok := Last(r, addr);
        return;
      }
      if r.nibbles == 4 || HexValue(c).None? {
        return false;
      }
      r := r.(nibbles := r.nibbles + 1, word := r.word * 16 + HexValue(c).value);
    }
    Unfold(text[i..], r);
    ok := Last(r, addr);
  }

  lemma Unfold(s: string, r: Reader)
    requires Reading(r)
    ensures s == "" ==> Parse(s, r) == Finish(r)
    ensures s != "" && s[0] == ':' ==>
      Parse(s, r) ==
        if r.nibbles > 0 then
          if r.n == 1 then None
          else Parse(s[1..], Reader(Push(r.out, r.word), r.zero, Some(s[1..]), 0, 0, r.n - 1))
        else if r.zero.None? then Parse(s[1..], r.(tail := Some(s[1..]), zero := Some(|r.out|)))
        else None
    ensures s != "" && s[0] == '.' && r.nibbles > 0 ==>
      Parse(s, r) == if Dotted(r).None? then None else Finish(Dotted(r).value)
    ensures s != "" && s[0] != ':' && !(s[0] == '.' && r.nibbles > 0) ==>
      Parse(s, r) ==
        if r.nibbles == 4 || HexValue(s[0]).None? then None
        else Parse(s[1..], r.(nibbles := r.nibbles + 1, word := r.word * 16 + HexValue(s[0]).value))
  {
  }

  /** The part behind the loop: the last word is written, and the bytes behind the double colon move up. */
  method Last(r: Reader, addr: array<nat>) returns (ok: bool)
    requires Reading(r) && addr.Length == 16 && addr[..|r.out|] == r.out
    modifies addr
    ensures ok == Finish(r).Some?
    ensures ok ==> addr[..] == Finish(r).value
  {
    if r.nibbles == 0 && r.zero.None? {
      return false;
    }
    var len, n := |r.out| + 2, r.n - 1;
    addr[len - 2], addr[len - 1] := r.word / 256 % 256, r.word % 256;
    assert addr[..len] == Push(r.out, r.word);
    if n > 0 {
      if r.zero.Some? {
        MoveUp(addr, r.zero.value, len, 2 * n);
        return true;
      }
    } else if r.zero.None? {
      return true;
    }
    return false;
  }

  /** The bytes from `zero` up to `len` move up by n, backwards, and zeros go where they were. */
  method MoveUp(addr: array<nat>, zero: nat, len: nat, n: nat)
    requires zero <= len && len + n == addr.Length
    modifies addr
    ensures addr[..] == old(addr[..zero]) + Zeros(n) + old(addr[zero..len])
  {
    ghost var was := addr[..];
    var s, d := len, len + n;
    while s > zero
      invariant zero <= s <= len && d == s + n
      invariant addr[..s] == was[..s] && addr[d..] == was[s..len]
    {
      s, d := s - 1, d - 1;
      addr[d] := addr[s];
    }
    var i := zero;
    while i < zero + n
      invariant zero <= i <= zero + n
      invariant addr[..zero] == was[..zero] && addr[zero + n..] == was[zero..len]
      invariant forall k :: zero <= k < i ==> addr[k] == 0
    {
      addr[i] := 0;
      i := i + 1;
    }
    assert addr[..] == addr[..zero] + addr[zero..zero + n] + addr[zero + n..];
    assert addr[zero..zero + n] == Zeros(n);
  }

  // Writing an address.

  predicate ZeroWords(p: seq<nat>, i: nat, j: nat)
    requires Address(p) && j <= 8
  {
    forall k :: i <= k < j ==> WordAt(p, k) == 0
  }

  /** The run of zero words that is left out, if any: two words at least, none is longer, and none before as long. */
  ghost predicate IsRun(p: seq<nat>, zero: Option<nat>, max: nat)
    requires Address(p)
  {
    && (zero.Some? ==> max >= 2 && zero.value + max <= 8 && ZeroWords(p, zero.value, zero.value + max))
    && (zero.None? ==> max == 1)
    && (forall i, j :: 0 <= i < j <= 8 && ZeroWords(p, i, j) ==> j - i <= max)
    && (zero.Some? ==> forall i, j :: 0 <= i < zero.value && i < j <= 8 && ZeroWords(p, i, j) ==> j - i < max)
  }

  method FindRun(p: seq<nat>) returns (zero: Option<nat>, max: nat)
    requires Address(p)
    ensures IsRun(p, zero, max)
  {
    zero, max := None, 1;
    var last, n, i := 0, 0, 0;
    while i < 8
      invariant 0 <= i <= 8 && n <= i && ZeroWords(p, i - n, i) && (n > 0 ==> last == i - n)
      invariant n < i ==> WordAt(p, i - n - 1) != 0
      invariant zero.Some? ==> max >= 2 && zero.value + max <= 8 && ZeroWords(p, zero.value, zero.value + max)
      invariant zero.None? ==> max == 1
      invariant zero.Some? ==> zero.value + max <= i - n
      invariant forall a, b :: 0 <= a < b <= i - n && ZeroWords(p, a, b) ==> b - a <= max
      invariant zero.Some? ==>
          forall a, b :: 0 <= a < zero.value && a < b <= i - n && ZeroWords(p, a, b) ==> b - a < max
    {
      if p[2 * i] != 0 || p[2 * i + 1] != 0 {
        if max < n {
          zero, max := Some(last), n;
        }
        n := 0;
      } else {
        if n == 0 {
          last := i;
        }
        n := n + 1;
      }
      i := i + 1;
    }
    if max < n {
      zero, max := Some(last), n;
    }
  }

  /** The last four bytes are written as a dotted address: mapped and compatible addresses. */
  predicate Mixed(p: seq<nat>, zero: Option<nat>, max: nat)
    requires Address(p)
  {
    zero == Some(0)
    && ((max == 5 && p[10] == 0xff && p[11] == 0xff) || max == 6 || (max == 7 && p[14] != 0 && p[15] != 1))
  }

  /** The words i to j, each with a colon behind it but for the last word of all. */
  function Words(p: seq<nat>, i: nat, j: nat): string
    requires Address(p) && j <= 8
  {
    if i >= j then "" else Words(p, i, j - 1) + Hex(WordAt(p, j - 1)) + if j < 8 then ":" else ""
  }

  function Quad(p: seq<nat>): string
    requires Address(p)
  {
    Dec(p[12]) + "." + (Dec(p[13]) + "." + (Dec(p[14]) + "." + Dec(p[15])))
  }

  /** The text, with the run of zeros replaced. */
  function Text(p: seq<nat>, zero: Option<nat>, max: nat): string
    requires Address(p) && (zero.Some? ==> zero.value <= 8)
  {
    if zero.None? then Words(p, 0, 8)
    else
      (if zero == Some(0) then ":" else Words(p, 0, zero.value)) + ":"
      + if Mixed(p, zero, max) then Words(p, zero.value + max, 6) + Quad(p) else Words(p, zero.value + max, 8)
  }

  /** The text when the next word to be looked at is i. */
  function Done(p: seq<nat>, zero: Option<nat>, max: nat, i: nat): string
    requires Address(p) && i <= 8 && (zero.Some? ==> zero.value + max <= 8)
  {
    if zero.None? || i <= zero.value then (if zero == Some(0) then ":" else "") + Words(p, 0, i)
    else (if zero == Some(0) then ":" else Words(p, 0, zero.value)) + ":" + Words(p, zero.value + max, i)
  }

  lemma DoneNext(p: seq<nat>, zero: Option<nat>, max: nat, i: nat)
    requires Address(p) && i < 8 && (zero.Some? ==> zero.value + max <= 8 && max > 0)
    ensures zero.None? || i < zero.value || zero.value + max <= i ==>
      Done(p, zero, max, i + 1) == Done(p, zero, max, i) + Hex(WordAt(p, i)) + if i < 7 then ":" else ""
    ensures zero == Some(i) ==> Done(p, zero, max, i + max) == Done(p, zero, max, i) + ":"
  {
    hide Hex, Words;
    var h, c := Hex(WordAt(p, i)), if i < 7 then ":" else "";
    WordsNext(p, 0, i);
    if zero.None? || i < zero.value {
      Regroup(if zero == Some(0) then ":" else "", Words(p, 0, i), h, c);
      assert Done(p, zero, max, i + 1) == Done(p, zero, max, i) + h + c;
    } else if zero.value + max <= i {
      WordsNext(p, zero.value + max, i);
      Regroup((if zero == Some(0) then ":" else Words(p, 0, zero.value)) + ":", Words(p, zero.value + max, i), h, c);
      assert Done(p, zero, max, i + 1) == Done(p, zero, max, i) + h + c;
    } else if zero == Some(i) {
      NoWords(p, i + max);
      NoWords(p, 0);
      var lead := (if i == 0 then ":" else Words(p, 0, i)) + ":";
      assert lead + "" == lead;
      assert ":" + "" == ":" && "" + Words(p, 0, i) == Words(p, 0, i);
    }
  }

  lemma WordsNext(p: seq<nat>, i: nat, j: nat)
    requires Address(p) && i <= j < 8
    ensures Words(p, i, j + 1) == Words(p, i, j) + Hex(WordAt(p, j)) + if j < 7 then ":" else ""
  {
  }

  lemma NoWords(p: seq<nat>, i: nat)
    requires Address(p) && i <= 8
    ensures Words(p, i, i) == ""
  {
  }

  lemma Regroup(a: string, b: string, c: string, d: string)
    ensures a + (b + c + d) == a + b + c + d
  {
  }

  lemma DoneAll(p: seq<nat>, zero: Option<nat>, max: nat)
    requires Address(p) && (zero.Some? ==> zero.value + max <= 8 && max > 0)
    ensures !Mixed(p, zero, max) ==> Done(p, zero, max, 8) == Text(p, zero, max)
    ensures Mixed(p, zero, max) ==> Done(p, zero, max, if max > 6 then max else 6) + Quad(p) == Text(p, zero, max)
  {
    hide Quad;
    if Mixed(p, zero, max) {
      assert Words(p, max, if max > 6 then max else 6) == Words(p, max, 6);
    }
  }

  /** ngx_inet6_ntop, for a buffer that is large enough. */
  method Ntop(p: seq<nat>) returns (text: string, ghost zero: Option<nat>, ghost max: nat)
    requires Address(p)
    ensures IsRun(p, zero, max) && text == Text(p, zero, max)
  {
    hide Words, Hex, Dec, ZeroWords, Done, Text;
    var z, m := FindRun(p);
    zero, max := z, m;
    var n: nat := 8;
    text := "";
    if z == Some(0) {
      if (m == 5 && p[10] == 0xff && p[11] == 0xff) || m == 6 || (m == 7 && p[14] != 0 && p[15] != 1) {
        n := 6;
      }
      text := ":";
    }
    DoneNone(p, z, m);
    DoneAll(p, z, m);
    var i: nat := 0;
    while i < n
      invariant i <= 8 && text == Done(p, z, m, i)
      invariant i <= n || (Mixed(p, z, m) && i == m)
      invariant z.None? || i <= z.value || z.value + m <= i
      decreases 8 - i
    {
      DoneNext(p, z, m, i);
      if z == Some(i) {
        text := text + ":";
        i := i + m;
        continue;
      }
      text := text + Hex(WordAt(p, i));
      if i < 7 {
        text := text + ":";
      }
      i := i + 1;
    }
    if n == 6 {
      text := text + Quad(p);
    }
  }

  lemma DoneNone(p: seq<nat>, zero: Option<nat>, max: nat)
    requires Address(p) && (zero.Some? ==> zero.value + max <= 8 && max > 0)
    ensures Done(p, zero, max, 0) == if zero == Some(0) then ":" else ""
  {
  }

  // What is written fits.

  lemma {:induction false} WordsSize(p: seq<nat>, i: nat, j: nat)
    requires Address(p) && i <= j <= 8
    ensures |Words(p, i, j)| <= 5 * (j - i) - (if i < j == 8 then 1 else 0)
  {
    if i < j {
      WordsSize(p, i, j - 1);
      HexSize(WordAt(p, j - 1));
    }
  }

  /** No address takes more than 39 characters; the buffer that ngx_inet6_ntop asks for has 45. */
  lemma TextFits(p: seq<nat>, zero: Option<nat>, max: nat)
    requires Address(p) && IsRun(p, zero, max)
    ensures |Text(p, zero, max)| <= 39
  {
    hide Dec, IsRun;
    MixedWhen(p, zero, max);
    if zero.None? {
      WordsSize(p, 0, 8);
    } else {
      WordsSize(p, 0, zero.value);
      WordsSize(p, zero.value + max, 8);
      if Mixed(p, zero, max) {
        if max <= 6 {
          WordsSize(p, max, 6);
        }
        DecSize(p[12]);
        DecSize(p[13]);
        DecSize(p[14]);
        DecSize(p[15]);
      }
    }
  }

  // What is written is read.

  lemma ReadDigit(d: nat, rest: string, r: Reader)
    requires Reading(r) && d < 16 && r.nibbles < 4
    ensures Parse([Digit(d)] + rest, r) == Parse(rest, r.(nibbles := r.nibbles + 1, word := r.word * 16 + d))
  {
    hide *;
    DigitIs(d);
    ReadChar(Digit(d), rest, r, d);
  }

  lemma ReadChar(c: char, rest: string, r: Reader, v: nat)
    requires Reading(r) && r.nibbles < 4 && HexValue(c) == Some(v) && c != ':' && c != '.'
    ensures Parse([c] + rest, r) == Parse(rest, r.(nibbles := r.nibbles + 1, word := r.word * 16 + v))
  {
    hide Parse, HexValue;
    assert ([c] + rest)[1..] == rest;
    Unfold([c] + rest, r);
  }

  lemma HexSplits(w: nat)
    requires 0x10 <= w < 0x10000
    ensures Hex(w) == Hex(w / 0x10) + [Digit(w % 0x10)]
  {
    assert w / 0x10 / 0x10 == w / 0x100 && w / 0x10 / 0x100 == w / 0x1000;
  }

  lemma {:induction false} ReadHex(w: nat, rest: string, r: Reader)
    requires Reading(r) && w < 0x10000 && r.nibbles == 0 && r.word == 0
    ensures 0 < |Hex(w)| <= 4 && (w < 0x1000 ==> |Hex(w)| <= 3)
    ensures Parse(Hex(w) + rest, r) == Parse(rest, r.(nibbles := |Hex(w)|, word := w))
    decreases w
  {
    hide Parse, Digit;
    if w < 0x10 {
      ReadDigit(w, rest, r);
    } else {
      var d := [Digit(w % 0x10)];
      HexSplits(w);
      hide Hex;
      ReadHex(w / 0x10, d + rest, r);
      assert Hex(w) + rest == Hex(w / 0x10) + (d + rest);
      ReadDigit(w % 0x10, rest, r.(nibbles := |Hex(w / 0x10)|, word := w / 0x10));
      HexSize(w);
    }
  }

  lemma HexSize(w: nat)
    requires w < 0x10000
    ensures 0 < |Hex(w)| <= 4 && (w < 0x1000 ==> |Hex(w)| <= 3)
  {
  }

  lemma PushWord(out: seq<nat>, p: seq<nat>, i: nat, k: nat)
    requires Address(p) && i <= k < 8
    ensures Push(out + p[2 * i..2 * k], WordAt(p, k)) == out + p[2 * i..2 * (k + 1)]
  {
    assert p[2 * i..2 * (k + 1)] == p[2 * i..2 * k] + [p[2 * k], p[2 * k + 1]];
    assert WordAt(p, k) / 256 % 256 == p[2 * k] && WordAt(p, k) % 256 == p[2 * k + 1];
  }

  /** What the reader is after the words i to j. */
  function After(p: seq<nat>, i: nat, j: nat, rest: string, r: Reader): Reader
    requires Address(p) && i <= j <= 8 && j - i <= r.n
  {
    r.(out := r.out + p[2 * i..2 * j], n := r.n - (j - i), tail := if i < j then Some(rest) else r.tail)
  }

  lemma {:induction false} ReadWords(p: seq<nat>, i: nat, j: nat, rest: string, r: Reader)
    requires Address(p) && i <= j <= 7 && Reading(r) && r.nibbles == 0 && r.word == 0 && j - i < r.n
    ensures Reading(After(p, i, j, rest, r))
    ensures Parse(Words(p, i, j) + rest, r) == Parse(rest, After(p, i, j, rest, r))
    decreases j
  {
    hide Parse, Hex;
    if i == j {
      assert Words(p, i, j) + rest == rest && r.out + p[2 * i..2 * j] == r.out;
    } else {
      var w := WordAt(p, j - 1);
      var behind := Hex(w) + (":" + rest);
      assert Words(p, i, j) + rest == Words(p, i, j - 1) + behind;
      ReadWords(p, i, j - 1, behind, r);
      var a := After(p, i, j - 1, behind, r);
      ReadHex(w, ":" + rest, a);
      Unfold(":" + rest, a.(nibbles := |Hex(w)|, word := w));
      assert (":" + rest)[1..] == rest;
      PushWord(r.out, p, i, j - 1);
    }
  }

  /** The words up to the end. */
  lemma ReadLast(p: seq<nat>, i: nat, r: Reader)
    requires Address(p) && i < 8 && Reading(r) && r.nibbles == 0 && r.word == 0 && 8 - i <= r.n
    ensures Parse(Words(p, i, 8), r) ==
      var out, n := r.out + p[2 * i..], r.n - (8 - i);
      if n > 0 then
        if r.zero.Some? then Some(out[..r.zero.value] + Zeros(2 * n) + out[r.zero.value..]) else None
      else if r.zero.None? then Some(out) else None
  {
    hide Parse, Hex;
    var w := WordAt(p, 7);
    ReadWords(p, i, 7, Hex(w), r);
    var a := After(p, i, 7, Hex(w), r);
    assert Words(p, i, 8) == Words(p, i, 7) + Hex(w);
    assert Hex(w) + "" == Hex(w);
    ReadHex(w, "", a);
    Unfold("", a.(nibbles := |Hex(w)|, word := w));
    PushWord(r.out, p, i, 7);
    assert p[2 * i..16] == p[2 * i..];
  }

  // The dotted rest.

  lemma OctetDigit(d: nat, rest: string, addr: nat, octet: nat, dots: nat)
    requires d < 10 && octet * 10 + d < 256
    ensures Octets([Digit(d)] + rest, addr, octet, dots) == Octets(rest, addr, octet * 10 + d, dots)
  {
    DigitIs(d);
    assert ([Digit(d)] + rest)[1..] == rest;
  }

  lemma DecSplits(b: nat)
    requires 10 <= b < 256
    ensures Dec(b) == Dec(b / 10) + [Digit(b % 10)]
  {
    assert b / 10 / 10 == b / 100;
  }

  lemma DecSize(b: nat)
    requires b < 256
    ensures 0 < |Dec(b)| <= 3 && (b < 100 ==> |Dec(b)| <= 2)
  {
  }

  lemma {:induction false} OctetRead(b: nat, rest: string, addr: nat, dots: nat)
    requires b < 256
    ensures Octets(Dec(b) + rest, addr, 0, dots) == Octets(rest, addr, b, dots)
    decreases b
  {
    hide Octets, Digit;
    if b < 10 {
      OctetDigit(b, rest, addr, 0, dots);
    } else {
      var d := [Digit(b % 10)];
      DecSplits(b);
      hide Dec;
      OctetRead(b / 10, d + rest, addr, dots);
      assert Dec(b) + rest == Dec(b / 10) + (d + rest);
      OctetDigit(b % 10, rest, addr, b / 10, dots);
    }
  }

  lemma OctetDot(b: nat, rest: string, addr: nat, octet: nat, dots: nat)
    requires b < 256 && addr * 256 + octet < 0x1_0000_0000
    ensures Octets("." + (Dec(b) + rest), addr, octet, dots) == Octets(rest, addr * 256 + octet, b, dots + 1)
  {
    var s := "." + (Dec(b) + rest);
    assert s[1..] == Dec(b) + rest;
    OctetRead(b, rest, addr * 256 + octet, dots + 1);
  }

  function QuadValue(p: seq<nat>): nat
    requires Address(p)
  {
    ((p[12] * 256 + p[13]) * 256 + p[14]) * 256 + p[15]
  }

  lemma QuadRead(p: seq<nat>)
    requires Address(p)
    ensures Octets(Quad(p), 0, 0, 0) == if QuadValue(p) == 0xffff_ffff then None else Some(QuadValue(p))
  {
    hide Dec, Octets;
    var s3 := "." + (Dec(p[15]) + "");
    var s2 := "." + (Dec(p[14]) + s3);
    var s1 := "." + (Dec(p[13]) + s2);
    assert Dec(p[15]) + "" == Dec(p[15]);
    assert Quad(p) == Dec(p[12]) + s1;
    OctetRead(p[12], s1, 0, 0);
    OctetDot(p[13], s2, 0, p[12], 0);
    OctetDot(p[14], s3, p[12], p[13], 1);
    OctetDot(p[15], "", p[12] * 256 + p[13], p[14], 2);
    NoOctets((p[12] * 256 + p[13]) * 256 + p[14], p[15]);
  }

  /** The digits of the first octet pass for those of a word until the dot is met. */
  lemma {:induction false} ReadOctet(b: nat, rest: string, r: Reader) returns (w: nat)
    requires Reading(r) && b < 256 && r.nibbles == 0
    ensures Parse(Dec(b) + rest, r) == Parse(rest, r.(nibbles := |Dec(b)|, word := w))
    decreases b
  {
    hide Parse, Digit;
    if b < 10 {
      ReadDigit(b, rest, r);
      w := r.word * 16 + b;
    } else {
      var d := [Digit(b % 10)];
      DecSplits(b);
      DecSize(b / 10);
      hide Dec;
      w := ReadOctet(b / 10, d + rest, r);
      assert Dec(b) + rest == Dec(b / 10) + (d + rest);
      ReadDigit(b % 10, rest, r.(nibbles := |Dec(b / 10)|, word := w));
      w := w * 16 + b % 10;
    }
  }

  lemma QuadBytes(p: seq<nat>)
    requires Address(p)
    ensures var v := QuadValue(p);
      && v / 0x100_0000 % 256 == p[12] && v / 0x1_0000 % 256 == p[13] && v / 256 % 256 == p[14] && v % 256 == p[15]
    ensures QuadValue(p) == 0xffff_ffff <==> p[12] == p[13] == p[14] == p[15] == 255
  {
    var a, b, c, d := p[12], p[13], p[14], p[15];
    var x := a * 256 + b;
    var y := x * 256 + c;
    var v := y * 256 + d;
    Byte(a, b);
    Byte(x, c);
    Byte(y, d);
    assert v / 0x1_0000 == v / 256 / 256 && v / 0x100_0000 == v / 256 / 256 / 256;
    assert a == 255 && b == 255 && c == 255 && d == 255 ==> v == 0xffff_ffff;
    assert v == 0xffff_ffff ==> y == 0xff_ffff;
    assert y == 0xff_ffff ==> x == 0xffff;
  }

  lemma Byte(x: nat, d: nat)
    requires d < 256
    ensures (x * 256 + d) / 256 == x && (x * 256 + d) % 256 == d
  {
  }

  /** A dotted address read where two words are still to come and the zeros have their place. */
  lemma ReadQuad(p: seq<nat>, r: Reader)
    requires Address(p) && Reading(r) && r.n >= 3 && r.nibbles == 0 && r.zero.Some? && r.tail == Some(Quad(p))
    ensures Parse(Quad(p), r) ==
      if QuadValue(p) == 0xffff_ffff then None
      else
        var out := r.out + p[12..];
        Some(out[..r.zero.value] + Zeros(2 * (r.n - 2)) + out[r.zero.value..])
  {
    hide Parse, Dec, Octets;
    var rest := "." + (Dec(p[13]) + "." + (Dec(p[14]) + "." + Dec(p[15])));
    assert Quad(p) == Dec(p[12]) + rest;
    var w := ReadOctet(p[12], rest, r);
    DecSize(p[12]);
    var q := r.(nibbles := |Dec(p[12])|, word := w);
    Unfold(rest, q);
    QuadRead(p);
    QuadBytes(p);
    hide QuadValue;
    if QuadValue(p) != 0xffff_ffff {
      var d := Dotted(q).value;
      assert Push(d.out, d.word) == r.out + [p[12], p[13]] + [p[14], p[15]] == r.out + p[12..];
    }
  }

  // The round trip.

  /** Zero words are zero bytes. */
  lemma ZeroBytes(p: seq<nat>, i: nat, j: nat)
    requires Address(p) && i <= j <= 8 && ZeroWords(p, i, j)
    ensures p[2 * i..2 * j] == Zeros(2 * (j - i))
  {
    forall k | 2 * i <= k < 2 * j
      ensures p[k] == 0
    {
      assert WordAt(p, k / 2) == 0;
    }
  }

  /** The two addresses that are written with 255.255.255.255 at their end. */
  predicate Unreadable(p: seq<nat>)
    requires Address(p)
  {
    && p[..10] == Zeros(10) && (p[10] == p[11] == 0 || p[10] == p[11] == 255)
    && p[12] == p[13] == p[14] == p[15] == 255
  }

  lemma Spliced(p: seq<nat>, a: nat, b: nat, out: seq<nat>)
    requires |p| == 16 && a <= b <= 16 && p[a..b] == Zeros(b - a) && out == p[..a] + p[b..]
    ensures out[..a] + Zeros(b - a) + out[a..] == p
  {
    assert p == p[..a] + p[a..b] + p[b..];
  }

  lemma NoRunReads(p: seq<nat>)
    requires Address(p)
    ensures Read(Words(p, 0, 8)) == Some(p)
  {
    hide Parse;
    FirstIsDigit(p, 8);
    ReadLast(p, 0, START);
    assert [] + p[0..] == p;
  }

  lemma {:induction false} FirstIsDigit(p: seq<nat>, j: nat)
    requires Address(p) && 0 < j <= 8
    ensures Words(p, 0, j) != "" && Words(p, 0, j)[0] != ':'
  {
    if j > 1 {
      FirstIsDigit(p, j - 1);
    } else {
      FirstHex(WordAt(p, 0));
      assert Words(p, 0, 0) == "";
    }
  }

  lemma FirstHex(w: nat)
    requires w < 0x10000
    ensures Hex(w) != "" && Hex(w)[0] != ':'
  {
    if w >= 0x1000 { DigitIs(w / 0x1000); }
    else if w >= 0x100 { DigitIs(w / 0x100); }
    else if w >= 0x10 { DigitIs(w / 0x10); }
    else { DigitIs(w); }
  }

  /** What is read up to and with the colon that stands for the zeros. */
  function AtZeros(p: seq<nat>, z: nat, rest: string): Reader
    requires Address(p) && z < 8
  {
    Reader(p[..2 * z], Some(2 * z), Some(rest), 0, 0, 8 - z)
  }

  lemma ReadToZeros(p: seq<nat>, z: nat, rest: string)
    requires Address(p) && z < 8
    ensures Read((if z == 0 then ":" else Words(p, 0, z)) + ":" + rest) == Parse(rest, AtZeros(p, z, rest))
    ensures Reading(AtZeros(p, z, rest))
  {
    hide Parse, Words, WordAt;
    var text := (if z == 0 then ":" else Words(p, 0, z)) + ":" + rest;
    var behind := ":" + rest;
    assert behind[1..] == rest;
    var r := if z == 0 then START else After(p, 0, z, behind, START);
    if z == 0 {
      assert text[1..] == behind;
    } else {
      FirstIsDigit(p, z);
      assert text == Words(p, 0, z) + behind;
      ReadWords(p, 0, z, behind, START);
      assert [] + p[0..2 * z] == p[..2 * z];
    }
    Unfold(behind, r);
  }

  /** With zeros left out and no dotted rest. */
  lemma RunReads(p: seq<nat>, z: nat, max: nat)
    requires Address(p) && max >= 2 && z + max <= 8 && ZeroWords(p, z, z + max)
    ensures Read((if z == 0 then ":" else Words(p, 0, z)) + ":" + Words(p, z + max, 8)) == Some(p)
  {
    hide Parse, Words, Read;
    var rest := Words(p, z + max, 8);
    ReadToZeros(p, z, rest);
    ZeroBytes(p, z, z + max);
    if z + max < 8 {
      RunWithin(p, z, max, rest);
    } else {
      RunAtEnd(p, z, max, rest);
    }
  }

  lemma RunWithin(p: seq<nat>, z: nat, max: nat, rest: string)
    requires Address(p) && max >= 2 && z + max < 8 && p[2 * z..2 * (z + max)] == Zeros(2 * max)
    requires rest == Words(p, z + max, 8) && Reading(AtZeros(p, z, rest))
    ensures Parse(rest, AtZeros(p, z, rest)) == Some(p)
  {
    hide Parse, Words;
    ReadLast(p, z + max, AtZeros(p, z, rest));
    Spliced(p, 2 * z, 2 * (z + max), p[..2 * z] + p[2 * (z + max)..]);
  }

  lemma RunAtEnd(p: seq<nat>, z: nat, max: nat, rest: string)
    requires Address(p) && max >= 2 && z + max == 8 && p[2 * z..2 * (z + max)] == Zeros(2 * max)
    requires rest == Words(p, 8, 8) && Reading(AtZeros(p, z, rest))
    ensures Parse(rest, AtZeros(p, z, rest)) == Some(p)
  {
    hide Parse;
    Unfold(rest, AtZeros(p, z, rest));
    var out := p[..2 * z] + [0, 0];
    assert Push(p[..2 * z], 0) == out && out[2 * z..] == [0, 0];
    assert Zeros(2 * (max - 1)) + [0, 0] == Zeros(2 * max);
    assert out[..2 * z] + Zeros(2 * (max - 1)) + out[2 * z..] == p[..2 * z] + (Zeros(2 * (max - 1)) + [0, 0]);
    assert p == p[..2 * z] + p[2 * z..16];
  }

  /** With a dotted rest. */
  lemma MixedReads(p: seq<nat>, max: nat)
    requires Address(p) && 5 <= max <= 7 && ZeroWords(p, 0, max)
    ensures Read(":" + ":" + (Words(p, max, 6) + Quad(p))) == if QuadValue(p) == 0xffff_ffff then None else Some(p)
  {
    hide Parse, Quad, QuadValue;
    var rest := Words(p, max, 6) + Quad(p);
    ReadToZeros(p, 0, rest);
    var r := AtZeros(p, 0, rest);
    if max == 5 {
      ZeroBytes(p, 0, 5);
      ReadWords(p, 5, 6, Quad(p), r);
      ReadQuad(p, After(p, 5, 6, Quad(p), r));
      Spliced(p, 0, 10, p[10..12] + p[12..]);
      assert p[..0] + p[10..] == p[10..12] + p[12..];
      assert p[..0] + p[10..12] == p[10..12];
    } else {
      assert ZeroWords(p, 0, 6);
      ZeroBytes(p, 0, 6);
      assert rest == Quad(p);
      ReadQuad(p, r);
      Spliced(p, 0, 12, p[12..]);
      assert p[..0] + p[12..] == p[12..];
    }
  }

  /** Every address is read as it was written, but for exactly two. */
  lemma RoundTrip(p: seq<nat>, zero: Option<nat>, max: nat)
    requires Address(p) && IsRun(p, zero, max)
    ensures Read(Text(p, zero, max)) == if Unreadable(p) then None else Some(p)
  {
    MixedWhen(p, zero, max);
    hide Read, Words, Quad, QuadValue, Unreadable, IsRun;
    if zero.None? {
      NoRunReads(p);
    } else if Mixed(p, zero, max) {
      MixedReads(p, max);
    } else {
      RunReads(p, zero.value, max);
    }
  }

  lemma MixedWhen(p: seq<nat>, zero: Option<nat>, max: nat)
    requires Address(p) && IsRun(p, zero, max)
    ensures Unreadable(p) <==> Mixed(p, zero, max) && QuadValue(p) == 0xffff_ffff
    ensures zero.Some? ==> max >= 2 && zero.value + max <= 8 && ZeroWords(p, zero.value, zero.value + max)
  {
    QuadBytes(p);
    if Mixed(p, zero, max) && QuadValue(p) == 0xffff_ffff {
      assert WordAt(p, 0) == WordAt(p, 1) == WordAt(p, 2) == WordAt(p, 3) == WordAt(p, 4) == 0;
      assert max >= 6 ==> WordAt(p, 5) == 0;
      assert p[..10] == Zeros(10);
    }
    if Unreadable(p) {
      assert forall k :: 0 <= k < 10 ==> p[k] == p[..10][k] == 0;
      assert ZeroWords(p, 0, 5);
      assert WordAt(p, 6) == 0xffff && WordAt(p, 7) == 0xffff;
      assert p[10] == 0 ==> ZeroWords(p, 0, 6);
      assert p[10] == 255 ==> WordAt(p, 5) == 0xffff;
    }
  }

  // Which texts are accepted, and what they mean.

  /** The number that digits stand for. */
  function Number(s: string, base: nat): nat {
    if s == "" then 0
    else
      var v := HexValue(s[|s| - 1]);
      Number(s[..|s| - 1], base) * base + if v.Some? then v.value else 0
  }

  /** A part of a dotted address: digits, or none at all, for a number below 256. */
  predicate Octet(s: string) {
    (forall i | 0 <= i < |s| :: '0' <= s[i] <= '9') && Number(s, 10) <= 255
  }

  function Joined(ps: seq<string>): string
    requires ps != []
  {
    if |ps| == 1 then ps[0] else ps[0] + ("." + Joined(ps[1..]))
  }

  function Value(addr: nat, ps: seq<string>): nat
    decreases |ps|
  {
    if ps == [] then addr else Value(addr * 256 + Number(ps[0], 10), ps[1..])
  }

  /** Four octets with dots between them, but not all of them 255. */
  predicate Quartet(ps: seq<string>) {
    |ps| == 4 && (forall p :: p in ps ==> Octet(p)) && Value(0, ps) != 0xffff_ffff
  }

  lemma NumberAdd(s: string, c: char, base: nat)
    ensures Number(s + [c], base) == Number(s, base) * base + if HexValue(c).Some? then HexValue(c).value else 0
  {
    assert (s + [c])[..|s|] == s;
  }

  lemma {:induction false} OctetTaken(s: string, rest: string, addr: nat, dots: nat)
    requires Octet(s)
    ensures Octets(s + rest, addr, 0, dots) == Octets(rest, addr, Number(s, 10), dots)
    decreases |s|
  {
    hide Octets;
    if s == "" {
      assert s + rest == rest;
    } else {
      var t, c := s[..|s| - 1], s[|s| - 1];
      OctetTaken(t, [c] + rest, addr, dots);
      assert s + rest == t + ([c] + rest);
      OneDigit(c, rest, addr, Number(t, 10), dots);
    }
  }

  lemma OneDigit(c: char, rest: string, addr: nat, octet: nat, dots: nat)
    requires '0' <= c <= '9' && octet * 10 + HexValue(c).value < 256
    ensures Octets([c] + rest, addr, octet, dots) == Octets(rest, addr, octet * 10 + HexValue(c).value, dots)
  {
    assert ([c] + rest)[1..] == rest;
  }

  lemma OneDot(rest: string, addr: nat, octet: nat, dots: nat)
    requires addr * 256 + octet < 0x1_0000_0000
    ensures Octets("." + rest, addr, octet, dots) == Octets(rest, addr * 256 + octet, 0, dots + 1)
  {
    assert ("." + rest)[1..] == rest;
  }

  predicate Below(addr: nat, dots: nat) {
    addr < if dots == 0 then 1 else if dots == 1 then 0x100 else if dots == 2 then 0x1_0000 else 0x100_0000
  }

  lemma {:induction false} JoinedTaken(ps: seq<string>, addr: nat, dots: nat)
    requires dots <= 3 && |ps| == 4 - dots && (forall p :: p in ps ==> Octet(p)) && Below(addr, dots)
    ensures Octets(Joined(ps), addr, 0, dots) == if Value(addr, ps) == 0xffff_ffff then None else Some(Value(addr, ps))
    decreases |ps|
  {
    hide Octet, Octets, Number;
    var o := Number(ps[0], 10);
    assert Octet(ps[0]);
    SmallNumber(ps[0]);
    if dots == 3 {
      OctetTaken(ps[0], "", addr, dots);
      assert ps[0] + "" == ps[0] && ps[1..] == [];
      assert Value(addr, ps) == addr * 256 + o;
      NoOctets(addr, o);
    } else {
      hide Value;
      ValueNext(addr, ps);
      OctetTaken(ps[0], "." + Joined(ps[1..]), addr, dots);
      OneDot(Joined(ps[1..]), addr, o, dots);
      JoinedTaken(ps[1..], addr * 256 + o, dots + 1);
    }
  }

  lemma NoOctets(addr: nat, octet: nat)
    requires addr * 256 + octet < 0x1_0000_0000
    ensures Octets("", addr, octet, 3) == if addr * 256 + octet == 0xffff_ffff then None else Some(addr * 256 + octet)
  {
  }

  lemma ValueNext(addr: nat, ps: seq<string>)
    requires ps != []
    ensures Value(addr, ps) == Value(addr * 256 + Number(ps[0], 10), ps[1..])
  {
  }

  lemma SmallNumber(p: string)
    requires Octet(p)
    ensures Number(p, 10) <= 255
  {
  }

  /** A text that is accepted has such parts. */
  lemma {:induction false} JoinedOnly(s: string, addr: nat, octet: nat, dots: nat, cur: string)
    returns (ps: seq<string>)
    requires Octets(s, addr, octet, dots).Some? && Octet(cur) && Number(cur, 10) == octet
    ensures dots <= 3 && |ps| == 4 - dots && (forall p :: p in ps ==> Octet(p)) && Joined(ps) == cur + s
    decreases |s|
  {
    if s == "" {
      ps := [cur];
    } else {
      var rest := s[1..];
      assert s == [s[0]] + rest;
      if s[0] == '.' {
        var more := JoinedOnly(rest, (addr * 256 + octet) % 0x1_0000_0000, 0, dots + 1, "");
        ps := [cur] + more;
        assert ps[1..] == more && "" + rest == rest;
        assert "." + rest == s;
      } else {
        NumberAdd(cur, s[0], 10);
        ps := JoinedOnly(rest, addr, octet * 10 + HexValue(s[0]).value, dots, cur + [s[0]]);
        assert cur + [s[0]] + rest == cur + s;
      }
    }
  }

  /** The dotted texts that ngx_inet_addr accepts: four octets, any of which may be empty. */
  lemma DottedAccepted(text: string)
    ensures Octets(text, 0, 0, 0).Some? <==> exists ps :: Quartet(ps) && text == Joined(ps)
    ensures forall ps :: Quartet(ps) && text == Joined(ps) ==> Octets(text, 0, 0, 0) == Some(Value(0, ps))
  {
    hide Octets, Octet, Value;
    forall ps | Quartet(ps) && text == Joined(ps)
      ensures Octets(text, 0, 0, 0) == Some(Value(0, ps))
    {
      JoinedTaken(ps, 0, 0);
    }
    if Octets(text, 0, 0, 0).Some? {
      EmptyOctet();
      var ps := JoinedOnly(text, 0, 0, 0, "");
      assert "" + text == text;
      JoinedTaken(ps, 0, 0);
    }
  }

  lemma EmptyOctet()
    ensures Octet("") && Number("", 10) == 0
  {
  }

  predicate Digits(s: string) {
    forall i | 0 <= i < |s| :: HexValue(s[i]).Some?
  }

  predicate HexWord(s: string) {
    1 <= |s| <= 4 && Digits(s)
  }

  predicate HexWords(ws: seq<string>) {
    forall w :: w in ws ==> HexWord(w)
  }

  function Bytes(ws: seq<string>): (r: seq<nat>)
    ensures |r| == 2 * |ws|
  {
    if ws == [] then [] else Push([], Number(ws[0], 16)) + Bytes(ws[1..])
  }

  /** Words with a colon behind each. */
  function Colons(ws: seq<string>): string {
    if ws == [] then "" else ws[0] + (":" + Colons(ws[1..]))
  }

  /** What stands behind the last colon. */
  datatype Ending = Word(w: string) | Nothing | Dots(ps: seq<string>)

  /** Words, a second colon perhaps and more words, and an ending. */
  datatype Form = Form(head: seq<string>, gap: bool, more: seq<string>, last: Ending)

  function LastText(e: Ending): string
    requires e.Dots? ==> e.ps != []
  {
    match e
    case Word(w) => w
    case Nothing => ""
    case Dots(ps) => Joined(ps)
  }

  function LastBytes(e: Ending): seq<nat> {
    match e
    case Word(w) => Push([], Number(w, 16))
    case Nothing => [0, 0]
    case Dots(ps) => var v := Value(0, ps); [v / 0x100_0000 % 256, v / 0x1_0000 % 256, v / 256 % 256, v % 256]
  }

  /** The words that are written out, an empty ending counted as one. */
  function Count(f: Form): nat {
    |f.head| + |f.more| + if f.last.Dots? then 2 else 1
  }

  /** The grammar: with a double colon less than eight words, without it eight. Nothing may stand behind the last colon
      only if there is a double colon, and dots only behind an octet of at most four digits. */
  predicate Wellformed(f: Form) {
    && HexWords(f.head) && HexWords(f.more) && (!f.gap ==> f.more == [])
    && (if f.gap then Count(f) < 8 else Count(f) == 8)
    && match f.last
       case Word(w) => HexWord(w)
       case Nothing => f.gap
       case Dots(ps) => Quartet(ps) && 1 <= |ps[0]| <= 4
  }

  function Prefix(head: seq<string>, gap: bool, more: seq<string>): string {
    Colons(head) + if gap then ":" + Colons(more) else ""
  }

  function FormText(f: Form): string
    requires Wellformed(f)
  {
    Prefix(f.head, f.gap, f.more) + LastText(f.last)
  }

  function FormBytes(f: Form): seq<nat>
    requires Wellformed(f)
  {
    Bytes(f.head) + Zeros(16 - 2 * Count(f)) + (Bytes(f.more) + LastBytes(f.last))
  }

  /** The text has the form, with a colon in front of it or, where it does not begin with one, without. */
  predicate Means(text: string, f: Form) {
    Wellformed(f) && (text == ":" + FormText(f) || (text == FormText(f) && text != "" && text[0] != ':'))
  }

  // Texts of such a form are accepted.

  lemma {:induction false} DigitsTaken(s: string, rest: string, r: Reader)
    requires Reading(r) && r.nibbles == 0 && r.word == 0 && |s| <= 4 && Digits(s)
    ensures Parse(s + rest, r) == Parse(rest, r.(nibbles := |s|, word := Number(s, 16)))
    decreases |s|
  {
    hide Parse, HexValue;
    if s == "" {
      assert s + rest == rest;
    } else {
      var t, c := s[..|s| - 1], s[|s| - 1];
      assert HexValue(c).Some?;
      DigitsTaken(t, [c] + rest, r);
      assert s + rest == t + ([c] + rest);
      NotSigns(c);
      ReadChar(c, rest, r.(nibbles := |t|, word := Number(t, 16)), HexValue(c).value);
    }
  }

  lemma NotSigns(c: char)
    ensures HexValue(c).Some? ==> c != ':' && c != '.'
    ensures '0' <= c <= '9' ==> HexValue(c).Some?
  {
  }

  lemma NoColons(rest: string)
    ensures Colons([]) + rest == rest
  {
  }

  lemma ColonsFirst(ws: seq<string>, rest: string)
    requires ws != []
    ensures Colons(ws) + rest == ws[0] + (":" + (Colons(ws[1..]) + rest))
  {
  }

  lemma BytesOne(w: string)
    ensures Bytes([w]) == Push([], Number(w, 16))
  {
    hide Number, Push;
    BytesUnfold([w]);
    NoBytes();
    assert [w][1..] == [];
  }

  lemma BytesUnfold(ws: seq<string>)
    requires ws != []
    ensures Bytes(ws) == Push([], Number(ws[0], 16)) + Bytes(ws[1..])
  {
    hide Number, Push;
  }

  lemma BytesFirst(out: seq<nat>, ws: seq<string>)
    requires ws != []
    ensures out + Bytes(ws) == (out + Bytes([ws[0]])) + Bytes(ws[1..])
    ensures Bytes([ws[0]]) == Push([], Number(ws[0], 16))
  {
    hide Number, Push, Bytes;
    BytesOne(ws[0]);
    BytesUnfold(ws);
  }

  /** The reader behind words with colons. */
  function Passed(ws: seq<string>, rest: string, r: Reader): Reader
    requires |ws| < r.n
  {
    r.(out := r.out + Bytes(ws), n := r.n - |ws|, tail := if ws == [] then r.tail else Some(rest))
  }

  lemma {:induction false} ColonsTaken(ws: seq<string>, rest: string, r: Reader)
    requires HexWords(ws) && |ws| < r.n && Reading(r) && r.nibbles == 0 && r.word == 0
    ensures Reading(Passed(ws, rest, r)) && Parse(Colons(ws) + rest, r) == Parse(rest, Passed(ws, rest, r))
    decreases |ws|
  {
    hide Parse, Number, HexWord, Bytes, Colons;
    NoColons(rest);
    if ws == [] {
      NoBytes();
      assert r.out + [] == r.out;
    } else {
      var w, behind := ws[0], Colons(ws[1..]) + rest;
      ColonsFirst(ws, rest);
      WordTaken(w, behind, r);
      var q := Passed([w], behind, r);
      ColonsTaken(ws[1..], rest, q);
      BytesFirst(r.out, ws);
      assert ws[1..] == [] ==> behind == rest;
    }
  }

  lemma WordTaken(w: string, rest: string, r: Reader)
    requires HexWord(w) && 1 < r.n && Reading(r) && r.nibbles == 0 && r.word == 0
    ensures Parse(w + (":" + rest), r) ==
      Parse(rest, Reader(r.out + Push([], Number(w, 16)), r.zero, Some(rest), 0, 0, r.n - 1))
  {
    hide Parse, Number, HexValue;
    DigitsTaken(w, ":" + rest, r);
    var q := r.(nibbles := |w|, word := Number(w, 16));
    assert (":" + rest)[1..] == rest;
    Unfold(":" + rest, q);
    assert Push(q.out, q.word) == r.out + Push([], q.word);
  }

  lemma GapTaken(rest: string, r: Reader)
    requires Reading(r) && r.nibbles == 0 && r.zero == None
    ensures Parse(":" + rest, r) == Parse(rest, r.(tail := Some(rest), zero := Some(|r.out|)))
  {
    hide Parse;
    assert (":" + rest)[1..] == rest;
    Unfold(":" + rest, r);
  }

  /** The bytes with the zeros put in, if the numbers of words are right. */
  function Whole(r: Reader, last: seq<nat>, n: nat): Option<seq<nat>>
    requires Reading(r) && |last| == 2 * n && n <= r.n
  {
    var out := r.out + last;
    if r.zero.Some? then
      if n < r.n then Some(out[..r.zero.value] + Zeros(2 * (r.n - n)) + out[r.zero.value..]) else None
    else if n == r.n then Some(out) else None
  }

  lemma LastTaken(e: Ending, r: Reader)
    requires Reading(r) && r.nibbles == 0 && r.word == 0
    requires match e
      case Word(w) => HexWord(w)
      case Nothing => r.zero.Some?
      case Dots(ps) => Quartet(ps) && 1 <= |ps[0]| <= 4 && 2 <= r.n && r.tail == Some(Joined(ps))
    ensures Parse(LastText(e), r) == Whole(r, LastBytes(e), if e.Dots? then 2 else 1)
  {
    hide Parse, Number, Quartet;
    match e
    case Word(w) =>
      DigitsTaken(w, "", r);
      assert w + "" == w;
      Unfold("", r.(nibbles := |w|, word := Number(w, 16)));
      assert Push(r.out, Number(w, 16)) == r.out + LastBytes(e);
    case Nothing =>
      Unfold("", r);
      assert Push(r.out, 0) == r.out + LastBytes(e);
    case Dots(ps) =>
      DotsTaken(ps, r);
  }

  lemma DotsTaken(ps: seq<string>, r: Reader)
    requires Reading(r) && r.nibbles == 0 && r.word == 0 && 2 <= r.n
    requires Quartet(ps) && 1 <= |ps[0]| <= 4 && r.tail == Some(Joined(ps))
    ensures Parse(Joined(ps), r) == Whole(r, LastBytes(Dots(ps)), 2)
  {
    hide Parse, Number, Octets, Value, Octet;
    var first, rest := ps[0], "." + Joined(ps[1..]);
    DecimalIsHex(first);
    DigitsTaken(first, rest, r);
    var q := r.(nibbles := |first|, word := Number(first, 16));
    Unfold(rest, q);
    DottedAccepted(Joined(ps));
    var v := Value(0, ps);
    var out := r.out + [v / 0x100_0000 % 256, v / 0x1_0000 % 256];
    var d := q.(out := out, word := v, n := r.n - 1);
    assert Dotted(q) == Some(d);
    assert Push(d.out, v) == r.out + LastBytes(Dots(ps));
  }

  lemma DecimalIsHex(s: string)
    requires Octet(s)
    ensures Digits(s)
  {
    forall i | 0 <= i < |s|
      ensures HexValue(s[i]).Some?
    {
      NotSigns(s[i]);
    }
  }

  lemma FormTaken(f: Form)
    requires Wellformed(f)
    ensures Parse(FormText(f), START) == Some(FormBytes(f))
  {
    hide Parse, HexWords, LastBytes, Bytes, Octet, Value, HexWord;
    assert [] + Bytes(f.head) == Bytes(f.head);
    if f.gap {
      var rest := Colons(f.more) + LastText(f.last);
      assert FormText(f) == Colons(f.head) + (":" + rest);
      ColonsTaken(f.head, ":" + rest, START);
      GapFormTaken(f, Passed(f.head, ":" + rest, START));
    } else {
      var last := LastText(f.last);
      assert FormText(f) == Colons(f.head) + last;
      ColonsTaken(f.head, last, START);
      LastTaken(f.last, Passed(f.head, last, START));
      NoBytes();
      assert Bytes(f.head) + Zeros(0) + ([] + LastBytes(f.last)) == Bytes(f.head) + LastBytes(f.last);
    }
  }

  lemma GapFormTaken(f: Form, r: Reader)
    requires Wellformed(f) && f.gap && Reading(r) && r.nibbles == 0 && r.word == 0 && r.zero == None
    requires r.out == Bytes(f.head) && r.n == 8 - |f.head|
    ensures Parse(":" + (Colons(f.more) + LastText(f.last)), r) == Some(FormBytes(f))
  {
    hide Parse, HexWords, LastBytes, Bytes, Octet, Value, HexWord;
    var last, z := LastText(f.last), |r.out|;
    GapTaken(Colons(f.more) + last, r);
    var q := r.(tail := Some(Colons(f.more) + last), zero := Some(z));
    ColonsTaken(f.more, last, q);
    assert f.more == [] ==> Colons(f.more) + last == last;
    var t := Passed(f.more, last, q);
    LastTaken(f.last, t);
    var out := t.out + LastBytes(f.last);
    assert out[..z] == Bytes(f.head) && out[z..] == Bytes(f.more) + LastBytes(f.last);
  }

  lemma NoBytes()
    ensures Bytes([]) == []
  {
  }

  // No other text is.

  lemma {:induction false} BytesAdd(ws: seq<string>, w: string)
    ensures Bytes(ws + [w]) == Bytes(ws) + Push([], Number(w, 16))
    ensures Colons(ws + [w]) == Colons(ws) + (w + ":")
  {
    hide Number;
    if ws == [] {
      assert [] + [w] == [w] && [w][1..] == [];
    } else {
      BytesAdd(ws[1..], w);
      assert (ws + [w])[1..] == ws[1..] + [w];
    }
  }

  /** The reader behind words, a second colon perhaps, and the digits of the next word. */
  function ReaderAt(head: seq<string>, gap: bool, more: seq<string>, cur: string, s: string): (r: Reader)
    requires |head| + |more| < 8
    ensures Reading(r)
  {
    Reader(Bytes(head) + Bytes(more), if gap then Some(2 * |head|) else None,
           if head != [] || gap then Some(cur + s) else None, |cur|, Number(cur, 16), 8 - |head| - |more|)
  }

  predicate Sofar(head: seq<string>, gap: bool, more: seq<string>, cur: string) {
    HexWords(head) && HexWords(more) && (!gap ==> more == []) && |head| + |more| < 8 && |cur| <= 4 && Digits(cur)
  }

  /** A colon ends a word. */
  lemma WordEnds(rest: string, head: seq<string>, gap: bool, more: seq<string>, cur: string)
    requires Sofar(head, gap, more, cur) && cur != ""
    requires Parse(":" + rest, ReaderAt(head, gap, more, cur, ":" + rest)).Some?
    ensures var h, m := if gap then head else head + [cur], if gap then more + [cur] else more;
      && Sofar(h, gap, m, "") && Parse(rest, ReaderAt(h, gap, m, "", rest)).Some?
      && Prefix(h, gap, m) + rest == Prefix(head, gap, more) + (cur + (":" + rest))
  {
    hide Parse, Number, Bytes, HexValue, Colons, Prefix;
    PrefixAdd(rest, head, gap, more, cur);
    var r := ReaderAt(head, gap, more, cur, ":" + rest);
    assert (":" + rest)[1..] == rest && "" + rest == rest;
    Unfold(":" + rest, r);
    NoNumber();
    if gap {
      BytesAdd(more, cur);
      assert Push(r.out, r.word) == Bytes(head) + Bytes(more + [cur]);
    } else {
      BytesAdd(head, cur);
      NoBytes();
      assert Push(r.out, r.word) == Bytes(head + [cur]) + Bytes(more);
    }
  }

  lemma NoNumber()
    ensures Number("", 16) == 0
  {
  }

  lemma PrefixAdd(rest: string, head: seq<string>, gap: bool, more: seq<string>, cur: string)
    requires !gap ==> more == []
    ensures var h, m := if gap then head else head + [cur], if gap then more + [cur] else more;
      Prefix(h, gap, m) + rest == Prefix(head, gap, more) + (cur + (":" + rest))
  {
    hide Number, Bytes;
    BytesAdd(if gap then more else head, cur);
  }

  /** A second colon. */
  lemma GapBegins(rest: string, head: seq<string>, gap: bool, more: seq<string>)
    requires Sofar(head, gap, more, "") && Parse(":" + rest, ReaderAt(head, gap, more, "", ":" + rest)).Some?
    ensures !gap && Sofar(head, true, [], "") && Parse(rest, ReaderAt(head, true, [], "", rest)).Some?
    ensures Prefix(head, true, []) + rest == Prefix(head, gap, more) + (":" + rest)
  {
    hide Parse, Number, Bytes;
    assert (":" + rest)[1..] == rest && "" + rest == rest;
    Unfold(":" + rest, ReaderAt(head, gap, more, "", ":" + rest));
    NoBytes();
  }

  /** A dot behind digits. */
  lemma DotsEnd(s: string, head: seq<string>, gap: bool, more: seq<string>, cur: string) returns (f: Form)
    requires Sofar(head, gap, more, cur) && cur != "" && s != "" && s[0] == '.'
    requires Parse(s, ReaderAt(head, gap, more, cur, s)).Some?
    ensures Wellformed(f) && FormText(f) == Prefix(head, gap, more) + (cur + s)
  {
    hide Parse, Number, Octets, Value, Octet, Bytes;
    Unfold(s, ReaderAt(head, gap, more, cur, s));
    DottedAccepted(cur + s);
    var ps :| Quartet(ps) && cur + s == Joined(ps);
    FirstOctet(ps, cur, s);
    f := Form(head, gap, more, Dots(ps));
  }

  lemma FirstOctet(ps: seq<string>, cur: string, s: string)
    requires Quartet(ps) && cur + s == Joined(ps) && Digits(cur) && s != "" && s[0] == '.'
    ensures ps[0] == cur
  {
    hide Value, Number;
    var p, t := ps[0], Joined(ps);
    assert Octet(p) && t == p + ("." + Joined(ps[1..]));
    assert t[|cur|] == '.' && t[|p|] == '.';
    assert forall i | 0 <= i < |cur| :: HexValue(t[i]).Some? by {
      assert forall i | 0 <= i < |cur| :: t[i] == cur[i];
    }
    assert forall i | 0 <= i < |p| :: t[i] == p[i];
    assert cur == t[..|cur|] && p == t[..|p|];
  }

  /** A text that is accepted has a form. */
  lemma {:induction false} FormOnly(s: string, head: seq<string>, gap: bool, more: seq<string>, cur: string)
    returns (f: Form)
    requires Sofar(head, gap, more, cur) && Parse(s, ReaderAt(head, gap, more, cur, s)).Some?
    ensures Wellformed(f) && FormText(f) == Prefix(head, gap, more) + (cur + s)
    decreases |s|
  {
    hide Parse, Number, Octets, Octet, Value, Bytes, Prefix;
    var r := ReaderAt(head, gap, more, cur, s);
    if s == "" {
      Unfold(s, r);
      f := Form(head, gap, more, if cur == "" then Nothing else Word(cur));
      assert cur + s == cur;
    } else {
      var c, rest := s[0], s[1..];
      assert s == [c] + rest;
      if c == ':' && cur != "" {
        WordEnds(rest, head, gap, more, cur);
        f := FormOnly(rest, if gap then head else head + [cur], gap, if gap then more + [cur] else more, "");
        assert "" + rest == rest;
      } else if c == ':' {
        GapBegins(rest, head, gap, more);
        f := FormOnly(rest, head, true, [], "");
        assert "" + rest == rest && "" + s == s;
      } else if c == '.' && cur != "" {
        f := DotsEnd(s, head, gap, more, cur);
      } else {
        Unfold(s, r);
        NumberAdd(cur, c, 16);
        assert cur + [c] + rest == cur + s;
        f := FormOnly(rest, head, gap, more, cur + [c]);
      }
    }
  }

  /** The texts that ngx_inet6_addr accepts, and the bytes it gives for them. */
  lemma Accepted(text: string)
    ensures Read(text).Some? <==> exists f :: Means(text, f)
    ensures forall f :: Means(text, f) ==> Read(text) == Some(FormBytes(f))
  {
    hide Parse, Wellformed, FormText, FormBytes;
    forall f | Means(text, f)
      ensures Read(text) == Some(FormBytes(f))
    {
      FormTaken(f);
      assert (":" + FormText(f))[1..] == FormText(f);
    }
    if Read(text).Some? {
      var body := if text[0] == ':' then text[1..] else text;
      BodyOnly(body);
      var f :| Wellformed(f) && FormText(f) == body;
      assert text[0] == ':' ==> text == ":" + body;
      assert Means(text, f);
    }
  }

  lemma BodyOnly(body: string)
    requires Parse(body, START).Some?
    ensures exists f :: Wellformed(f) && FormText(f) == body
  {
    hide Parse;
    assert ReaderAt([], false, [], "", body) == START;
    var f := FormOnly(body, [], false, [], "");
    assert Prefix([], false, []) + ("" + body) == body;
  }

  /** Seven words and a double colon behind them are refused, since what stands behind it counts as a word. */
  lemma SevenAndGap(ws: seq<string>)
    requires HexWords(ws) && |ws| == 7
    ensures Read(Colons(ws) + ":") == None
  {
    hide Parse, HexWord, Number;
    WordFirst(ws);
    ColonsTaken(ws, ":", START);
    var r := Passed(ws, ":", START);
    assert ":"[1..] == "" && (Colons(ws) + ":")[0] == Colons(ws)[0];
    Unfold(":", r);
    Unfold("", r.(tail := Some(""), zero := Some(|r.out|)));
  }

  lemma WordFirst(ws: seq<string>)
    requires HexWords(ws) && ws != []
    ensures Colons(ws) != "" && Colons(ws)[0] != ':'
  {
    assert HexWord(ws[0]);
    NotSigns(ws[0][0]);
  }

  // How numbers and addresses are written.

  predicate LowerHex(s: string) {
    forall i | 0 <= i < |s| :: '0' <= s[i] <= '9' || 'a' <= s[i] <= 'f'
  }

  predicate Decimal(s: string) {
    forall i | 0 <= i < |s| :: '0' <= s[i] <= '9'
  }

  /** A word is written in lower-case hexadecimal digits without leading zeros. */
  lemma {:induction false} HexIs(w: nat)
    requires w < 0x10000
    ensures LowerHex(Hex(w)) && Number(Hex(w), 16) == w && Hex(w) != "" && (Hex(w)[0] == '0' ==> w == 0)
    decreases w
  {
    hide Hex, Number;
    DigitIs(w % 0x10);
    if w < 0x10 {
      assert Hex(w) == "" + [Digit(w)] by {
        HexOfDigit(w);
      }
      NoNumber();
      NumberAdd("", Digit(w), 16);
    } else {
      HexIs(w / 0x10);
      HexSplits(w);
      NumberAdd(Hex(w / 0x10), Digit(w % 0x10), 16);
    }
  }

  lemma HexOfDigit(w: nat)
    requires w < 0x10
    ensures Hex(w) == [Digit(w)]
  {
  }

  /** A byte is written in decimal digits without leading zeros. */
  lemma {:induction false} DecIs(b: nat)
    requires b < 256
    ensures Decimal(Dec(b)) && Number(Dec(b), 10) == b && Dec(b) != "" && (Dec(b)[0] == '0' ==> b == 0)
    decreases b
  {
    hide Dec, Number;
    DigitIs(b % 10);
    if b < 10 {
      assert Dec(b) == "" + [Digit(b)] by {
        DecOfDigit(b);
      }
      assert Number("", 10) == 0 by {
        EmptyNumber();
      }
      NumberAdd("", Digit(b), 10);
    } else {
      DecIs(b / 10);
      DecSplits(b);
      NumberAdd(Dec(b / 10), Digit(b % 10), 10);
    }
  }

  lemma DecOfDigit(b: nat)
    requires b < 10
    ensures Dec(b) == [Digit(b)]
  {
  }

  lemma EmptyNumber()
    ensures Number("", 10) == 0
  {
  }

  /** A mapped address is written "::ffff:" and its last four bytes in decimal, with dots. */
  lemma MappedText(p: seq<nat>, zero: Option<nat>, max: nat)
    requires Address(p) && IsRun(p, zero, max) && ZeroWords(p, 0, 5) && WordAt(p, 5) == 0xffff
    ensures Text(p, zero, max) == "::ffff:" + Quad(p)
  {
    hide Quad;
    MappedRun(p, zero, max);
    hide IsRun;
    assert Words(p, 5, 6) == Words(p, 5, 5) + Hex(0xffff) + ":";
    assert Words(p, 5, 6) == "ffff:";
  }

  lemma MappedRun(p: seq<nat>, zero: Option<nat>, max: nat)
    requires Address(p) && IsRun(p, zero, max) && ZeroWords(p, 0, 5) && WordAt(p, 5) == 0xffff
    ensures zero == Some(0) && max == 5 && p[10] == 0xff && p[11] == 0xff
  {
  }

  lemma {:induction false} WordsUndotted(p: seq<nat>, i: nat, j: nat)
    requires Address(p) && j <= 8
    ensures '.' !in Words(p, i, j)
  {
    hide Hex;
    if i < j {
      WordsUndotted(p, i, j - 1);
      HexIs(WordAt(p, j - 1));
    }
  }

  /** Octets with dots are written exactly for mapped addresses, and for those whose first six words are zero, with
      another word behind them that is not, or two last bytes that are not 0 and not 1. */
  lemma DottedWhen(p: seq<nat>, zero: Option<nat>, max: nat)
    requires Address(p) && IsRun(p, zero, max)
    ensures '.' in Text(p, zero, max) <==>
      && ZeroWords(p, 0, 5)
      && (|| WordAt(p, 5) == 0xffff
          || (WordAt(p, 5) == 0 && (WordAt(p, 6) != 0 || (p[14] != 0 && p[15] != 1))))
  {
    hide Words, Quad;
    MixedIff(p, zero, max);
    if zero.None? {
      WordsUndotted(p, 0, 8);
    } else {
      WordsUndotted(p, 0, zero.value);
      WordsUndotted(p, zero.value + max, 8);
      WordsUndotted(p, zero.value + max, 6);
      QuadDotted(p);
    }
  }

  lemma QuadDotted(p: seq<nat>)
    requires Address(p)
    ensures '.' in Quad(p)
  {
    hide Dec;
    assert Quad(p)[|Dec(p[12])|] == '.';
  }

  lemma MixedIff(p: seq<nat>, zero: Option<nat>, max: nat)
    requires Address(p) && IsRun(p, zero, max)
    ensures zero.Some? && Mixed(p, zero, max) <==>
      && ZeroWords(p, 0, 5)
      && (|| WordAt(p, 5) == 0xffff
          || (WordAt(p, 5) == 0 && (WordAt(p, 6) != 0 || (p[14] != 0 && p[15] != 1))))
  {
    if ZeroWords(p, 0, 5) {
      assert zero == Some(0) by {
        FirstRun(p, zero, max);
      }
      assert WordAt(p, 5) == 0 ==> ZeroWords(p, 0, 6);
      assert WordAt(p, 5) == 0 && WordAt(p, 6) == 0 ==> ZeroWords(p, 0, 7);
      assert WordAt(p, 5) == 0 && WordAt(p, 6) == 0 && WordAt(p, 7) == 0 ==> ZeroWords(p, 0, 8);
    }
  }

  lemma FirstRun(p: seq<nat>, zero: Option<nat>, max: nat)
    requires Address(p) && IsRun(p, zero, max) && ZeroWords(p, 0, 5)
    ensures zero == Some(0) && max >= 5
  {
    assert max >= 5;
    if zero.value > 0 {
      assert zero.value + max <= 8;
      assert ZeroWords(p, 0, zero.value + max);
    }
  }

  /** What is written is read, but for the two addresses. */
  method WriteAndRead(p: seq<nat>) returns (text: string, ok: bool, addr: array<nat>)
    requires Address(p)
    ensures fresh(addr) && ok == !Unreadable(p) && (ok ==> addr[..] == p)
  {
    ghost var zero, max;
    text, zero, max := Ntop(p);
    addr := new nat[16];
    ok := Inet6Addr(text, addr);
    RoundTrip(p, zero, max);
  }
}
