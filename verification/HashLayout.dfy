/** The exact-match hash of ngx_hash.c: elements packed into cache-line buckets, and the aligned walk over them. */
module HashLayout {
  import opened Wrappers

  /** A name to be hashed; a name that is not live has lost its data pointer and is passed over. */
  datatype Key = Key(name: string, live: bool, hash: nat, value: nat)

  /** What a bucket is to hold. */
  datatype Elt = Elt(value: nat, name: string)

  /** One byte of memory: part of a pointer, part of a u_short, a letter, or not written yet. */
  datatype Byte = Pointer(v: nat, i: nat) | Short(n: nat, j: nat) | Letter(c: char) | Raw

  function Lower(c: char): char {
    if 'A' <= c <= 'Z' then c - 'A' + 'a' else c
  }

  function Lowered(s: string): string {
    seq(|s|, i requires 0 <= i < |s| => Lower(s[i]))
  }

  const CAPITALS := "ABCDEFGHIJKLMNOPQRSTUVWXYZ"

  const SMALL := "abcdefghijklmnopqrstuvwxyz"

  lemma Letters(k: nat)
    requires k < 26
    ensures |CAPITALS| == |SMALL| == 26
    ensures CAPITALS[k] as nat == 'A' as nat + k && SMALL[k] as nat == 'a' as nat + k
  {
  }

  /** Capital letters, and they alone, become the small ones. */
  lemma LoweredIs(s: string, i: nat)
    requires i < |s|
    ensures |Lowered(s)| == |s|
    ensures forall k | 0 <= k < 26 && s[i] == CAPITALS[k] :: Lowered(s)[i] == SMALL[k]
    ensures s[i] !in CAPITALS ==> Lowered(s)[i] == s[i]
  {
    hide CAPITALS, SMALL;
    Letters(0);
    forall k | 0 <= k < 26
      ensures Lower(CAPITALS[k]) == SMALL[k]
    {
      Letters(k);
    }
    if 'A' <= s[i] <= 'Z' {
      Letters((s[i] - 'A') as nat);
      assert CAPITALS[(s[i] - 'A') as nat] == s[i];
    }
  }

  function Align(n: nat, a: nat): (r: nat)
    requires a > 0
  {
    n + a - 1 - (n + a - 1) % a
  }

  /** NGX_HASH_ELT_SIZE: a pointer, a length and the name, up to a multiple of the pointer size. */
  function EltSize(len: nat): nat {
    8 + Align(len + 2, 8)
  }

  function U16(n: nat): nat {
    n % 0x10000
  }

  predicate In(k: Key, size: nat, b: nat)
    requires size > 0
  {
    k.live && k.hash % size == b
  }

  /** The elements of bucket `b`, in the order of the names. */
  function Bucket(names: seq<Key>, size: nat, b: nat): seq<Elt>
    requires size > 0
  {
    if names == [] then []
    else
      var k := names[|names| - 1];
      Bucket(names[..|names| - 1], size, b) + if In(k, size, b) then [Elt(k.value, Lowered(k.name))] else []
  }

  function Total(es: seq<Elt>): nat {
    if es == [] then 0 else Total(es[..|es| - 1]) + EltSize(|es[|es| - 1].name|)
  }

  function BucketTotal(names: seq<Key>, size: nat, b: nat): nat
    requires size > 0
  {
    Total(Bucket(names, size, b))
  }

  ghost predicate Fits(names: seq<Key>, size: nat, limit: nat)
    requires size > 0
  {
    forall b :: 0 <= b < size ==> BucketTotal(names, size, b) <= limit
  }

  /** `test` holds the bytes taken so far in each bucket, over a first `base`. */
  ghost predicate Counts(test: seq<nat>, names: seq<Key>, size: nat, base: nat)
    requires size > 0
  {
    |test| == size && forall b :: 0 <= b < size ==> test[b] == base + BucketTotal(names, size, b)
  }

  lemma AlignIs(n: nat, a: nat)
    requires a > 0 && a % 8 == 0
    ensures n <= Align(n, a) < n + a && Align(n, a) % 8 == 0
  {
    var x := n + a - 1;
    var q, e := x / a, a / 8;
    assert x - x % a == q * a;
    assert a == 8 * e;
    assert q * (8 * e) == 8 * (q * e);
  }

  lemma EltSizeIs(len: nat)
    ensures EltSize(len) % 8 == 0 && 10 + len <= EltSize(len) < 18 + len
  {
    AlignIs(len + 2, 8);
  }

  lemma TotalAppend(es: seq<Elt>, e: Elt)
    ensures Total(es + [e]) == Total(es) + EltSize(|e.name|)
  {
    assert (es + [e])[..|es|] == es;
  }

  lemma {:induction false} TotalMultiple(es: seq<Elt>)
    ensures Total(es) % 8 == 0 && (es != [] ==> Total(es) > 0)
  {
    hide EltSize;
    if es != [] {
      TotalMultiple(es[..|es| - 1]);
      EltSizeIs(|es[|es| - 1].name|);
      SumMultiple(Total(es[..|es| - 1]), EltSize(|es[|es| - 1].name|));
    }
  }

  /** One more name puts one more element into its own bucket. */
  lemma BucketNext(names: seq<Key>, n: nat, size: nat, b: nat)
    requires size > 0 && n < |names|
    ensures Bucket(names[..n + 1], size, b) == Bucket(names[..n], size, b)
      + if In(names[n], size, b) then [Elt(names[n].value, Lowered(names[n].name))] else []
    ensures BucketTotal(names[..n + 1], size, b) == BucketTotal(names[..n], size, b)
      + if In(names[n], size, b) then EltSize(|names[n].name|) else 0
  {
    assert names[..n + 1][..n] == names[..n] && names[..n + 1][n] == names[n];
    assert Bucket(names[..n], size, b) + [] == Bucket(names[..n], size, b);
    TotalAppend(Bucket(names[..n], size, b), Elt(names[n].value, Lowered(names[n].name)));
  }

  lemma {:induction false} BucketGrows(names: seq<Key>, n: nat, size: nat, b: nat)
    requires size > 0 && n <= |names|
    ensures Bucket(names[..n], size, b) <= Bucket(names, size, b)
    ensures BucketTotal(names[..n], size, b) <= BucketTotal(names, size, b)
    decreases |names| - n
  {
    if n == |names| {
      assert names[..n] == names;
    } else {
      BucketGrows(names, n + 1, size, b);
      BucketNext(names, n, size, b);
    }
  }

  lemma CountsNext(test: seq<nat>, names: seq<Key>, n: nat, size: nat, base: nat)
    requires size > 0 && n < |names| && Counts(test, names[..n], size, base)
    ensures !names[n].live ==> Counts(test, names[..n + 1], size, base)
    ensures names[n].live ==>
      var b := names[n].hash % size;
      Counts(test[b := test[b] + EltSize(|names[n].name|)], names[..n + 1], size, base)
  {
    hide BucketTotal;
    var ns := names[..n + 1];
    forall b | 0 <= b < size
      ensures BucketTotal(ns, size, b) == BucketTotal(names[..n], size, b)
        + if In(names[n], size, b) then EltSize(|names[n].name|) else 0
    {
      BucketNext(names, n, size, b);
    }
  }

  // Choosing the number of buckets.

  predicate EachFits(names: seq<Key>, bucketSize: nat) {
    forall n :: 0 <= n < |names| ==> EltSize(|names[n].name|) + 8 <= bucketSize
  }

  function Zeros(n: nat): (r: seq<nat>)
    ensures |r| == n && forall i :: 0 <= i < n ==> r[i] == 0
  {
    seq(n, _ => 0)
  }

  /** Does every bucket of a table of `size` buckets stay within `limit` bytes? */
  method TestSize(names: seq<Key>, size: nat, limit: nat) returns (ok: bool)
    requires size > 0 && limit <= 0x7ff8 && EachFits(names, limit + 8)
    ensures ok <==> Fits(names, size, limit)
  {
    hide Bucket, BucketTotal, EltSize, Zeros;
    var test: seq<nat> := Zeros(size);
    CountsNone(test, size);
    assert names[..0] == [];
    var n := 0;
    while n < |names|
      invariant 0 <= n <= |names|
      invariant Counts(test, names[..n], size, 0) && Fits(names[..n], size, limit)
    {
      CountsNext(test, names, n, size, 0);
      if names[n].live {
        var key := names[n].hash % size;
        assert test[key] == BucketTotal(names[..n], size, key) <= limit;
        test := test[key := U16(test[key] + EltSize(|names[n].name|))];
        if test[key] > U16(limit) {
          BucketGrows(names, n + 1, size, key);
          assert test[key] == BucketTotal(names[..n + 1], size, key);
          return false;
        }
      }
      FitsNext(test, names, n, size, limit);
      n := n + 1;
    }
    assert names[..n] == names;
    return true;
  }

  lemma CountsNone(test: seq<nat>, size: nat)
    requires size > 0 && test == Zeros(size)
    ensures Counts(test, [], size, 0) && forall limit :: Fits([], size, limit)
  {
  }

  lemma FitsNext(test: seq<nat>, names: seq<Key>, n: nat, size: nat, limit: nat)
    requires size > 0 && n < |names| && Fits(names[..n], size, limit) && Counts(test, names[..n + 1], size, 0)
    requires names[n].live ==> test[names[n].hash % size] <= limit
    ensures Fits(names[..n + 1], size, limit)
  {
    hide BucketTotal;
    var ns := names[..n + 1];
    forall b | 0 <= b < size
      ensures BucketTotal(ns, size, b) <= limit
    {
      BucketNext(names, n, size, b);
    }
  }

  /** Where the search for a size begins. */
  function Start(nelts: nat, maxSize: nat, bucketSize: nat): (r: nat)
    requires bucketSize >= 24
    ensures r > 0
  {
    var start := nelts / ((bucketSize - 8) / 16);
    if maxSize > 10000 && nelts > 0 && maxSize / nelts < 100 then maxSize - 1000
    else if start > 0 then start
    else 1
  }

  ghost predicate NoneFits(names: seq<Key>, lo: nat, hi: nat, limit: nat) {
    forall s: nat :: 0 < s && lo <= s < hi ==> !Fits(names, s, limit)
  }

  function LiveCount(names: seq<Key>): nat {
    if names == [] then 0
    else LiveCount(names[..|names| - 1]) + if names[|names| - 1].live then 1 else 0
  }

  /** The elements in the first n buckets. */
  function Held(names: seq<Key>, size: nat, n: nat): nat
    requires size > 0
  {
    if n == 0 then 0 else Held(names, size, n - 1) + |Bucket(names, size, n - 1)|
  }

  lemma {:induction false} HeldNext(names: seq<Key>, size: nat, n: nat)
    requires size > 0 && names != []
    ensures var k := names[|names| - 1];
      Held(names, size, n) == Held(names[..|names| - 1], size, n) + if k.live && k.hash % size < n then 1 else 0
  {
    if n > 0 {
      HeldNext(names, size, n - 1);
    }
  }

  /** Every name that is live lies in one bucket. */
  lemma {:induction false} AllHeld(names: seq<Key>, size: nat)
    requires size > 0
    ensures Held(names, size, size) == LiveCount(names)
  {
    if names == [] {
      NoneHeld(size, size);
    } else {
      AllHeld(names[..|names| - 1], size);
      HeldNext(names, size, size);
    }
  }

  lemma {:induction false} NoneHeld(size: nat, n: nat)
    requires size > 0
    ensures Held([], size, n) == 0
  {
    if n > 0 {
      NoneHeld(size, n - 1);
    }
  }

  lemma {:induction false} TotalLeast(es: seq<Elt>)
    ensures Total(es) >= 16 * |es|
  {
    hide EltSize;
    if es != [] {
      TotalLeast(es[..|es| - 1]);
      EltSizeLeast(|es[|es| - 1].name|);
    }
  }

  lemma {:induction false} HeldAtMost(names: seq<Key>, size: nat, limit: nat, n: nat)
    requires size > 0 && n <= size && Fits(names, size, limit)
    ensures Held(names, size, n) <= n * (limit / 16)
  {
    hide Bucket, Total;
    if n > 0 {
      HeldAtMost(names, size, limit, n - 1);
      TotalLeast(Bucket(names, size, n - 1));
      assert BucketTotal(names, size, n - 1) <= limit;
      assert n * (limit / 16) == (n - 1) * (limit / 16) + limit / 16;
    }
  }

  /** No size fits that has fewer buckets than the live names need. */
  lemma FitsNeeds(names: seq<Key>, size: nat, limit: nat)
    requires size > 0 && Fits(names, size, limit)
    ensures LiveCount(names) <= size * (limit / 16)
  {
    AllHeld(names, size);
    HeldAtMost(names, size, limit, size);
  }

  predicate AllLive(names: seq<Key>) {
    forall n :: 0 <= n < |names| ==> names[n].live
  }

  lemma {:induction false} LiveAll(names: seq<Key>)
    requires AllLive(names)
    ensures LiveCount(names) == |names|
  {
    if names != [] {
      LiveAll(names[..|names| - 1]);
    }
  }

  /** The search leaves no size out: with live names only, a size that fits is before the first one looked at exactly
      if there are more than a hundredth as many names as sizes, more than 10000 sizes, and it is not one of the last
      1001 of them. */
  lemma FittingIsReached(names: seq<Key>, size: nat, maxSize: nat, bucketSize: nat)
    requires bucketSize >= 24 && AllLive(names) && size > 0 && Fits(names, size, bucketSize - 8)
    ensures size < Start(|names|, maxSize, bucketSize) <==>
      maxSize > 10000 && maxSize < 100 * |names| && size + 1000 < maxSize
  {
    LiveAll(names);
    FitsNeeds(names, size, bucketSize - 8);
    AtMost(|names|, size, (bucketSize - 8) / 16);
    if names != [] {
      LessThanTimes(maxSize, |names|);
    }
  }

  lemma LessThanTimes(a: nat, n: nat)
    requires n > 0
    ensures a / n < 100 <==> a < 100 * n
  {
    var q := a / n;
    assert a == q * n + a % n;
    if q < 100 {
      assert q * n <= 99 * n;
    } else {
      assert q * n >= 100 * n;
    }
  }

  lemma AtMost(n: nat, size: nat, each: nat)
    requires each > 0 && n <= size * each
    ensures n / each <= size
  {
    var d := n / each - size;
    assert d * each == n / each * each - size * each <= 0;
  }

  /** With names that are no longer live the search may begin behind the only size that fits, and find none. */
  lemma DeadNamesShift()
    ensures var names := [Key("", false, 0, 0), Key("", false, 0, 0)];
      Start(|names|, 1, 24) == 2 && Fits(names, 1, 16)
  {
    var names := [Key("", false, 0, 0), Key("", false, 0, 0)];
    assert names[..1] == [names[0]] && names[..1][..0] == [];
    assert Bucket(names, 1, 0) == [];
  }

  /** The first size from `start` on whose buckets all fit. */
  method FindSize(names: seq<Key>, maxSize: nat, bucketSize: nat) returns (found: bool, size: nat)
    requires 24 <= bucketSize <= 0x8000 && EachFits(names, bucketSize)
    ensures var start := Start(|names|, maxSize, bucketSize);
      && (found ==> start <= size <= maxSize && Fits(names, size, bucketSize - 8))
      && NoneFits(names, start, if found then size else maxSize + 1, bucketSize - 8)
  {
    size := Start(|names|, maxSize, bucketSize);
    ghost var start := size;
    while size <= maxSize
      invariant start <= size && NoneFits(names, start, size, bucketSize - 8)
    {
      found := TestSize(names, size, bucketSize - 8);
      if found { return; }
      size := size + 1;
    }
    found := false;
  }

  // Memory.

  function PointerBytes(v: nat): (r: seq<Byte>)
    ensures |r| == 8 && forall i :: 0 <= i < 8 ==> r[i] == Pointer(v, i)
  {
    seq(8, i requires 0 <= i < 8 => Pointer(v, i))
  }

  function ShortBytes(n: nat): (r: seq<Byte>)
    ensures |r| == 2
  {
    [Short(n, 0), Short(n, 1)]
  }

  function LetterBytes(s: string): (r: seq<Byte>)
    ensures |r| == |s| && forall i :: 0 <= i < |s| ==> r[i] == Letter(s[i])
  {
    seq(|s|, i requires 0 <= i < |s| => Letter(s[i]))
  }

  function Write(m: seq<Byte>, o: nat, bytes: seq<Byte>): (r: seq<Byte>)
    requires o + |bytes| <= |m|
    ensures |r| == |m|
  {
    m[..o] + bytes + m[o + |bytes|..]
  }

  predicate At(m: seq<Byte>, o: nat, bytes: seq<Byte>) {
    o + |bytes| <= |m| && m[o..o + |bytes|] == bytes
  }

  predicate PointerAt(m: seq<Byte>, o: nat, v: nat) {
    o % 8 == 0 && At(m, o, PointerBytes(v))
  }

  /** An element: its value, the length of its name, the name. */
  predicate EltAt(m: seq<Byte>, o: nat, e: Elt) {
    PointerAt(m, o, e.value) && At(m, o + 8, ShortBytes(|e.name|)) && At(m, o + 10, LetterBytes(e.name))
  }

  /** Elements one after the other from `o`. */
  predicate Holds(m: seq<Byte>, o: nat, es: seq<Elt>) {
    es == [] || (Holds(m, o, es[..|es| - 1]) && EltAt(m, o + Total(es[..|es| - 1]), es[|es| - 1]))
  }

  /** Memory other than `lo..hi` is as it was. */
  predicate SameOutside(m: seq<Byte>, m': seq<Byte>, lo: nat, hi: nat) {
    |m| == |m'| && forall i :: 0 <= i < |m| && (i < lo || hi <= i) ==> m'[i] == m[i]
  }

  lemma WriteAt(m: seq<Byte>, o: nat, bytes: seq<Byte>)
    requires o + |bytes| <= |m|
    ensures At(Write(m, o, bytes), o, bytes) && SameOutside(m, Write(m, o, bytes), o, o + |bytes|)
  {
  }

  lemma AtKept(m: seq<Byte>, m': seq<Byte>, lo: nat, hi: nat, o: nat, bytes: seq<Byte>)
    requires SameOutside(m, m', lo, hi) && At(m, o, bytes) && (o + |bytes| <= lo || hi <= o)
    ensures At(m', o, bytes)
  {
    assert m'[o..o + |bytes|] == m[o..o + |bytes|];
  }

  lemma EltKept(m: seq<Byte>, m': seq<Byte>, lo: nat, hi: nat, o: nat, e: Elt)
    requires SameOutside(m, m', lo, hi) && EltAt(m, o, e) && (o + EltSize(|e.name|) <= lo || hi <= o)
    ensures EltAt(m', o, e)
  {
    hide At, SameOutside, EltSize;
    EltSizeIs(|e.name|);
    AtKept(m, m', lo, hi, o, PointerBytes(e.value));
    AtKept(m, m', lo, hi, o + 8, ShortBytes(|e.name|));
    AtKept(m, m', lo, hi, o + 10, LetterBytes(e.name));
  }

  lemma {:induction false} HoldsKept(m: seq<Byte>, m': seq<Byte>, lo: nat, hi: nat, o: nat, es: seq<Elt>)
    requires SameOutside(m, m', lo, hi) && Holds(m, o, es) && (o + Total(es) <= lo || hi <= o)
    ensures Holds(m', o, es)
  {
    hide EltAt, SameOutside, EltSize;
    if es != [] {
      var front := es[..|es| - 1];
      HoldsKept(m, m', lo, hi, o, front);
      EltKept(m, m', lo, hi, o + Total(front), es[|es| - 1]);
    }
  }

  /** The element with index j lies after the first j. */
  lemma {:induction false} HoldsAt(m: seq<Byte>, o: nat, es: seq<Elt>, j: nat)
    requires Holds(m, o, es) && j < |es|
    ensures EltAt(m, o + Total(es[..j]), es[j])
  {
    hide EltAt, EltSize;
    var front := es[..|es| - 1];
    if j < |front| {
      HoldsAt(m, o, front, j);
      assert front[..j] == es[..j];
    }
  }

  // Where the buckets lie.

  /** The bytes set aside for a bucket: its elements and a terminating pointer, up to whole cache lines. */
  function Cap(names: seq<Key>, size: nat, b: nat, line: nat): nat
    requires size > 0 && line > 0
  {
    if BucketTotal(names, size, b) == 0 then 0 else Align(8 + BucketTotal(names, size, b), line)
  }

  function StartOf(names: seq<Key>, size: nat, b: nat, line: nat): nat
    requires size > 0 && line > 0
  {
    if b == 0 then 0 else StartOf(names, size, b - 1, line) + Cap(names, size, b - 1, line)
  }

  predicate Line(line: nat) {
    0 < line <= 0x4000 && line % 8 == 0
  }

  lemma CapHolds(names: seq<Key>, size: nat, b: nat, line: nat)
    requires size > 0 && Line(line)
    ensures Cap(names, size, b, line) % 8 == 0
    ensures BucketTotal(names, size, b) > 0 ==>
      8 + BucketTotal(names, size, b) <= Cap(names, size, b, line) < 8 + BucketTotal(names, size, b) + line
  {
    AlignIs(8 + BucketTotal(names, size, b), line);
  }

  lemma {:induction false} StartMultiple(names: seq<Key>, size: nat, b: nat, line: nat)
    requires size > 0 && Line(line)
    ensures StartOf(names, size, b, line) % 8 == 0
  {
    hide Cap;
    if b > 0 {
      StartMultiple(names, size, b - 1, line);
      CapHolds(names, size, b - 1, line);
    }
  }

  /** Buckets do not overlap. */
  lemma {:induction false} Apart(names: seq<Key>, size: nat, a: nat, b: nat, line: nat)
    requires size > 0 && line > 0 && a < b
    ensures StartOf(names, size, a, line) + Cap(names, size, a, line) <= StartOf(names, size, b, line)
  {
    if a < b - 1 {
      Apart(names, size, a, b - 1, line);
    }
  }

  /** A name's element, and a terminator after it, lie within its own bucket. */
  lemma Inside(names: seq<Key>, n: nat, size: nat, line: nat)
    requires size > 0 && Line(line) && n < |names| && names[n].live
    ensures var b := names[n].hash % size;
      BucketTotal(names[..n], size, b) + EltSize(|names[n].name|) + 8 <= Cap(names, size, b, line)
  {
    var b := names[n].hash % size;
    BucketNext(names, n, size, b);
    BucketGrows(names, n + 1, size, b);
    CapHolds(names, size, b, line);
  }

  // Filling the memory.

  function PutElt(m: seq<Byte>, o: nat, e: Elt): (r: seq<Byte>)
    requires o + 10 + |e.name| <= |m|
    ensures |r| == |m|
  {
    var a := Write(m, o, PointerBytes(e.value));
    var b := Write(a, o + 8, ShortBytes(|e.name|));
    Write(b, o + 10, LetterBytes(e.name))
  }

  lemma PutEltAt(m: seq<Byte>, o: nat, e: Elt)
    requires o % 8 == 0 && o + 10 + |e.name| <= |m|
    ensures EltAt(PutElt(m, o, e), o, e) && SameOutside(m, PutElt(m, o, e), o, o + 10 + |e.name|)
  {
    hide At, Write;
    var a := Write(m, o, PointerBytes(e.value));
    var b := Write(a, o + 8, ShortBytes(|e.name|));
    var c := Write(b, o + 10, LetterBytes(e.name));
    WriteAt(m, o, PointerBytes(e.value));
    WriteAt(a, o + 8, ShortBytes(|e.name|));
    WriteAt(b, o + 10, LetterBytes(e.name));
    AtKept(a, b, o + 8, o + 10, o, PointerBytes(e.value));
    AtKept(b, c, o + 10, o + 10 + |e.name|, o, PointerBytes(e.value));
    AtKept(b, c, o + 10, o + 10 + |e.name|, o + 8, ShortBytes(|e.name|));
  }

  /** The elements of the first `n` names are in place. */
  ghost predicate Placed(m: seq<Byte>, names: seq<Key>, n: nat, size: nat, line: nat)
    requires size > 0 && line > 0 && n <= |names|
  {
    && |m| == StartOf(names, size, size, line)
    && forall b: nat :: b < size ==> Holds(m, StartOf(names, size, b, line), Bucket(names[..n], size, b))
  }

  lemma HoldsAppend(m: seq<Byte>, o: nat, es: seq<Elt>, e: Elt)
    requires Holds(m, o, es) && EltAt(m, o + Total(es), e)
    ensures Holds(m, o, es + [e])
  {
    hide EltAt;
    assert (es + [e])[..|es|] == es;
  }

  function EltOf(k: Key): Elt {
    Elt(k.value, Lowered(k.name))
  }

  lemma PlacedBucket(m: seq<Byte>, m': seq<Byte>, names: seq<Key>, n: nat, size: nat, line: nat, b: nat)
    requires size > 0 && Line(line) && n < |names| && b < size && Placed(m, names, n, size, line) && names[n].live
    requires var d := names[n].hash % size;
      var o := StartOf(names, size, d, line) + BucketTotal(names[..n], size, d);
      EltAt(m', o, EltOf(names[n])) && SameOutside(m, m', o, o + 10 + |names[n].name|)
    ensures Holds(m', StartOf(names, size, b, line), Bucket(names[..n + 1], size, b))
  {
    hide Holds, EltAt, SameOutside, StartOf, Cap, EltSize;
    var d := names[n].hash % size;
    var o := StartOf(names, size, d, line) + BucketTotal(names[..n], size, d);
    Inside(names, n, size, line);
    EltSizeIs(|names[n].name|);
    BucketNext(names, n, size, b);
    BucketGrows(names, n, size, b);
    CapHolds(names, size, b, line);
    if b < d { Apart(names, size, b, d, line); }
    if d < b { Apart(names, size, d, b, line); }
    HoldsKept(m, m', o, o + 10 + |names[n].name|, StartOf(names, size, b, line), Bucket(names[..n], size, b));
    if b == d {
      HoldsAppend(m', StartOf(names, size, b, line), Bucket(names[..n], size, b), EltOf(names[n]));
    } else {
      assert Bucket(names[..n], size, b) + [] == Bucket(names[..n], size, b);
    }
  }

  /** What the size table holds once sizes are known: only the terminator, or whole cache lines. */
  function Slot(names: seq<Key>, size: nat, b: nat, line: nat): nat
    requires size > 0 && line > 0
  {
    if BucketTotal(names, size, b) == 0 then 8 else Cap(names, size, b, line)
  }

  ghost predicate Slots(test: seq<nat>, names: seq<Key>, size: nat, line: nat, n: nat)
    requires size > 0 && line > 0
  {
    && |test| == size
    && (forall b: nat :: b < n && b < size ==> test[b] == Slot(names, size, b, line))
    && (forall b: nat :: n <= b < size ==> test[b] == 8 + BucketTotal(names, size, b))
  }

  predicate Small(limit: nat, line: nat) {
    8 + limit + line <= 0x10000
  }

  method CountSizes(names: seq<Key>, size: nat, line: nat, ghost limit: nat) returns (test: seq<nat>)
    requires size > 0 && Line(line) && Fits(names, size, limit) && Small(limit, line)
    ensures Counts(test, names, size, 8)
  {
    hide Bucket, BucketTotal, EltSize;
    test := seq(size, _ => 8);
    assert names[..0] == [];
    CountsEights(test, size);
    var n := 0;
    while n < |names|
      invariant 0 <= n <= |names| && Counts(test, names[..n], size, 8)
    {
      CountsNext(test, names, n, size, 8);
      if names[n].live {
        var key := names[n].hash % size;
        BucketGrows(names, n + 1, size, key);
        test := test[key := U16(test[key] + EltSize(|names[n].name|))];
      }
      n := n + 1;
    }
    assert names[..n] == names;
  }

  lemma CountsEights(test: seq<nat>, size: nat)
    requires size > 0 && |test| == size && forall b :: 0 <= b < size ==> test[b] == 8
    ensures Counts(test, [], size, 8)
  {
  }

  method Sizes(names: seq<Key>, size: nat, line: nat, ghost limit: nat) returns (test: seq<nat>, len: nat)
    requires size > 0 && Line(line) && Fits(names, size, limit) && Small(limit, line)
    ensures Slots(test, names, size, line, size) && len == StartOf(names, size, size, line)
  {
    hide Bucket, BucketTotal, EltSize, Cap;
    test := CountSizes(names, size, line, limit);
    len := 0;
    var i := 0;
    while i < size
      invariant 0 <= i <= size && Slots(test, names, size, line, i) && len == StartOf(names, size, i, line)
    {
      SlotNext(names, size, i, line, limit);
      if test[i] != 8 {
        test := test[i := U16(Align(test[i], line))];
        len := len + test[i];
      }
      i := i + 1;
    }
  }

  lemma SlotNext(names: seq<Key>, size: nat, i: nat, line: nat, limit: nat)
    requires size > 0 && Line(line) && Fits(names, size, limit) && Small(limit, line) && i < size
    ensures BucketTotal(names, size, i) == 0 ==> Slot(names, size, i, line) == 8 && Cap(names, size, i, line) == 0
    ensures BucketTotal(names, size, i) > 0 ==>
      && U16(Align(8 + BucketTotal(names, size, i), line)) == Cap(names, size, i, line) == Slot(names, size, i, line)
      && Slot(names, size, i, line) != 8
  {
    hide BucketTotal;
    CapHolds(names, size, i, line);
  }

  /** Where a bucket begins, if it has any elements. */
  function BucketAt(names: seq<Key>, size: nat, b: nat, line: nat): Option<nat>
    requires size > 0 && line > 0
  {
    if BucketTotal(names, size, b) == 0 then None else Some(StartOf(names, size, b, line))
  }

  ghost predicate Starts(buckets: seq<Option<nat>>, names: seq<Key>, size: nat, line: nat, n: nat)
    requires size > 0 && line > 0
  {
    |buckets| == size && forall b: nat :: b < n && b < size ==> buckets[b] == BucketAt(names, size, b, line)
  }

  method Buckets(names: seq<Key>, size: nat, line: nat, test: seq<nat>, ghost limit: nat)
    returns (buckets: seq<Option<nat>>)
    requires size > 0 && Line(line) && Fits(names, size, limit) && Small(limit, line)
    requires Slots(test, names, size, line, size)
    ensures Starts(buckets, names, size, line, size)
  {
    hide Bucket, BucketTotal, EltSize, Cap, Slot;
    buckets := seq(size, _ => None);
    var elts := 0;
    var i := 0;
    while i < size
      invariant 0 <= i <= size && elts == StartOf(names, size, i, line) && |buckets| == size
      invariant Starts(buckets, names, size, line, i)
      invariant forall b :: i <= b < size ==> buckets[b] == None
    {
      SlotNext(names, size, i, line, limit);
      if test[i] != 8 {
        buckets := buckets[i := Some(elts)];
        elts := elts + test[i];
      }
      i := i + 1;
    }
  }

  method PutElts(names: seq<Key>, size: nat, line: nat, buckets: seq<Option<nat>>, mem: seq<Byte>, ghost limit: nat)
    returns (m: seq<Byte>, test: seq<nat>)
    requires size > 0 && Line(line) && Fits(names, size, limit) && Small(limit, line)
    requires Starts(buckets, names, size, line, size) && |mem| == StartOf(names, size, size, line)
    ensures Placed(m, names, |names|, size, line) && Counts(test, names, size, 0)
  {
    hide Bucket, Fits, Starts, StartOf, Placed, Counts, Zeros;
    m, test := mem, Zeros(size);
    PlacedNone(m, test, names, size, line);
    var n := 0;
    while n < |names|
      invariant 0 <= n <= |names|
      invariant Counts(test, names[..n], size, 0) && Placed(m, names, n, size, line)
    {
      m, test := PutName(names, n, size, line, buckets, m, test, limit);
      n := n + 1;
    }
    assert names[..n] == names;
  }

  lemma PlacedNone(m: seq<Byte>, test: seq<nat>, names: seq<Key>, size: nat, line: nat)
    requires size > 0 && line > 0 && |m| == StartOf(names, size, size, line) && test == Zeros(size)
    ensures Counts(test, names[..0], size, 0) && Placed(m, names, 0, size, line)
  {
    hide StartOf;
    assert names[..0] == [];
    CountsNone(test, size);
  }

  lemma PlacedSkip(m: seq<Byte>, names: seq<Key>, n: nat, size: nat, line: nat)
    requires size > 0 && line > 0 && n < |names| && !names[n].live && Placed(m, names, n, size, line)
    ensures Placed(m, names, n + 1, size, line)
  {
    hide StartOf, Holds;
    forall b: nat | b < size
      ensures Bucket(names[..n + 1], size, b) == Bucket(names[..n], size, b)
    {
      BucketNext(names, n, size, b);
      assert Bucket(names[..n], size, b) + [] == Bucket(names[..n], size, b);
    }
  }

  lemma PutNameRoom(names: seq<Key>, n: nat, size: nat, line: nat, m: seq<Byte>, limit: nat)
    requires size > 0 && Line(line) && Fits(names, size, limit) && Small(limit, line)
    requires n < |names| && names[n].live && Placed(m, names, n, size, line)
    ensures var b := names[n].hash % size;
      var t := BucketTotal(names[..n], size, b);
      && BucketTotal(names, size, b) > 0
      && (StartOf(names, size, b, line) + t) % 8 == 0
      && StartOf(names, size, b, line) + t + 10 + |names[n].name| <= |m|
      && t + EltSize(|names[n].name|) < 0x10000
      && |Lowered(names[n].name)| == |names[n].name|
  {
    hide Bucket, EltSize, Holds, Cap, Lowered, StartOf;
    var b := names[n].hash % size;
    Inside(names, n, size, line);
    CapHolds(names, size, b, line);
    EltSizeIs(|names[n].name|);
    Apart(names, size, b, size, line);
    StartMultiple(names, size, b, line);
    TotalMultiple(Bucket(names[..n], size, b));
    CapZero(names, size, b, line);
    LoweredLength(names[n].name);
    SumMultiple(StartOf(names, size, b, line), BucketTotal(names[..n], size, b));
  }

  lemma SumMultiple(a: nat, b: nat)
    requires a % 8 == 0 && b % 8 == 0
    ensures (a + b) % 8 == 0
  {
  }

  lemma CapZero(names: seq<Key>, size: nat, b: nat, line: nat)
    requires size > 0 && line > 0
    ensures BucketTotal(names, size, b) == 0 ==> Cap(names, size, b, line) == 0
  {
  }

  lemma LoweredLength(s: string)
    ensures |Lowered(s)| == |s|
  {
  }

  lemma PlacedNext(m: seq<Byte>, m': seq<Byte>, names: seq<Key>, n: nat, size: nat, line: nat)
    requires size > 0 && Line(line) && n < |names| && Placed(m, names, n, size, line) && names[n].live
    requires |m'| == |m|
    requires var d := names[n].hash % size;
      var o := StartOf(names, size, d, line) + BucketTotal(names[..n], size, d);
      EltAt(m', o, EltOf(names[n])) && SameOutside(m, m', o, o + 10 + |names[n].name|)
    ensures Placed(m', names, n + 1, size, line)
  {
    hide StartOf, Holds, EltAt, SameOutside, BucketTotal;
    var ns := names[..n + 1];
    forall b: nat | b < size
      ensures Holds(m', StartOf(names, size, b, line), Bucket(ns, size, b))
    {
      PlacedBucket(m, m', names, n, size, line, b) by { assert Placed(m, names, n, size, line); }
    }
  }

  /** The loop body: one name's element, after those already in its bucket. */
  method PutName(names: seq<Key>, n: nat, size: nat, line: nat, buckets: seq<Option<nat>>, mem: seq<Byte>,
      counts: seq<nat>, ghost limit: nat)
    returns (m: seq<Byte>, test: seq<nat>)
    requires size > 0 && Line(line) && Fits(names, size, limit) && Small(limit, line) && n < |names|
    requires Starts(buckets, names, size, line, size)
    requires Counts(counts, names[..n], size, 0) && Placed(mem, names, n, size, line)
    ensures Counts(test, names[..n + 1], size, 0) && Placed(m, names, n + 1, size, line)
  {
    hide Bucket, BucketTotal, EltSize, Cap, StartOf, PutElt, Holds, EltAt, SameOutside, Lowered, Placed;
    m, test := mem, counts;
    CountsNext(test, names, n, size, 0);
    if !names[n].live {
      PlacedSkip(mem, names, n, size, line);
    } else {
      var key := names[n].hash % size;
      PutNameRoom(names, n, size, line, mem, limit);
      var elt := buckets[key].value + test[key];
      m := PutElt(m, elt, Elt(names[n].value, Lowered(names[n].name)));
      PutEltAt(mem, elt, EltOf(names[n]));
      test := test[key := U16(test[key] + EltSize(|names[n].name|))];
      PlacedNext(mem, m, names, n, size, line);
    }
  }

  /** A value of NULL ends each of the first `n` buckets that are in use. */
  ghost predicate Ended(m: seq<Byte>, names: seq<Key>, n: nat, size: nat, line: nat)
    requires size > 0 && line > 0
  {
    forall b: nat :: b < n && BucketTotal(names, size, b) > 0 ==>
      PointerAt(m, StartOf(names, size, b, line) + BucketTotal(names, size, b), 0)
  }

  method PutEnds(names: seq<Key>, size: nat, line: nat, buckets: seq<Option<nat>>, mem: seq<Byte>, test: seq<nat>)
    returns (m: seq<Byte>)
    requires size > 0 && Line(line) && Counts(test, names, size, 0) && Placed(mem, names, |names|, size, line)
    requires Starts(buckets, names, size, line, size)
    ensures Placed(m, names, |names|, size, line) && Ended(m, names, size, size, line)
  {
    hide Bucket, BucketTotal, EltSize, Cap, StartOf, Write, Holds, PointerAt, SameOutside, Placed, Ended;
    m := mem;
    EndedNone(m, names, size, line);
    var i := 0;
    while i < size
      invariant 0 <= i <= size && Placed(m, names, |names|, size, line) && Ended(m, names, i, size, line)
    {
      EndRoom(m, names, i, size, line);
      var was := m;
      if buckets[i].Some? {
        var elt := buckets[i].value + test[i];
        m := Write(m, elt, PointerBytes(0));
        WriteAt(was, elt, PointerBytes(0));
        EndedKept(was, m, names, i, size, line);
      } else {
        EndedSkip(m, names, i, size, line);
      }
      i := i + 1;
    }
  }

  lemma EndedNone(m: seq<Byte>, names: seq<Key>, size: nat, line: nat)
    requires size > 0 && line > 0
    ensures Ended(m, names, 0, size, line)
  {
  }

  lemma EndedSkip(m: seq<Byte>, names: seq<Key>, i: nat, size: nat, line: nat)
    requires size > 0 && line > 0 && Ended(m, names, i, size, line) && BucketTotal(names, size, i) == 0
    ensures Ended(m, names, i + 1, size, line)
  {
    hide BucketTotal, StartOf, PointerAt;
  }

  lemma EndRoom(m: seq<Byte>, names: seq<Key>, i: nat, size: nat, line: nat)
    requires size > 0 && Line(line) && i < size && Placed(m, names, |names|, size, line)
    ensures BucketTotal(names, size, i) > 0 ==>
      var o := StartOf(names, size, i, line) + BucketTotal(names, size, i);
      o + 8 <= |m| && o % 8 == 0
  {
    hide Bucket, Holds, Cap;
    CapHolds(names, size, i, line);
    Apart(names, size, i, size, line);
    StartMultiple(names, size, i, line);
    TotalMultiple(Bucket(names, size, i));
  }

  lemma EndedKept(m: seq<Byte>, m': seq<Byte>, names: seq<Key>, i: nat, size: nat, line: nat)
    requires size > 0 && Line(line) && i < size && Placed(m, names, |names|, size, line)
    requires Ended(m, names, i, size, line) && BucketTotal(names, size, i) > 0 && |m'| == |m|
    requires var o := StartOf(names, size, i, line) + BucketTotal(names, size, i);
      At(m', o, PointerBytes(0)) && SameOutside(m, m', o, o + 8)
    ensures Placed(m', names, |names|, size, line) && Ended(m', names, i + 1, size, line)
  {
    hide Bucket, Cap, StartOf, Holds, SameOutside, At;
    var o := StartOf(names, size, i, line) + BucketTotal(names, size, i);
    assert names[..|names|] == names;
    EndRoom(m, names, i, size, line);
    forall b: nat | b < size
      ensures Holds(m', StartOf(names, size, b, line), Bucket(names[..|names|], size, b))
    {
      EndApart(names, size, i, b, line);
      HoldsKept(m, m', o, o + 8, StartOf(names, size, b, line), Bucket(names, size, b));
    }
    forall b: nat | b < i + 1 && BucketTotal(names, size, b) > 0
      ensures PointerAt(m', StartOf(names, size, b, line) + BucketTotal(names, size, b), 0)
    {
      if b < i {
        EndApart(names, size, i, b, line);
        AtKept(m, m', o, o + 8, StartOf(names, size, b, line) + BucketTotal(names, size, b), PointerBytes(0));
      }
    }
  }

  /** The terminator of bucket `i` lies outside the elements of every bucket `b`, and off its terminator. */
  lemma EndApart(names: seq<Key>, size: nat, i: nat, b: nat, line: nat)
    requires size > 0 && Line(line) && BucketTotal(names, size, i) > 0
    ensures var o := StartOf(names, size, i, line) + BucketTotal(names, size, i);
      var e := StartOf(names, size, b, line) + Total(Bucket(names, size, b));
      && (e <= o || o + 8 <= StartOf(names, size, b, line))
      && (b < i && BucketTotal(names, size, b) > 0 ==> e + 8 <= o)
  {
    hide Bucket, Cap, StartOf;
    CapHolds(names, size, i, line);
    CapHolds(names, size, b, line);
    if b < i { Apart(names, size, b, i, line); }
    if i < b { Apart(names, size, i, b, line); }
  }

  // The whole table.

  datatype Built = Refused | NotOptimal | Hash(size: nat, buckets: seq<Option<nat>>, elts: seq<Byte>)

  /** Every bucket holds its elements and a terminator, apart from all others. */
  ghost predicate LaidOut(h: Built, names: seq<Key>, line: nat) {
    && h.Hash? && h.size > 0 && Line(line)
    && Starts(h.buckets, names, h.size, line, h.size)
    && Placed(h.elts, names, |names|, h.size, line)
    && Ended(h.elts, names, h.size, h.size, line)
  }

  /** The table of `size` buckets, for a size whose totals fit a u_short. */
  method Lay(names: seq<Key>, size: nat, line: nat, ghost limit: nat) returns (h: Built)
    requires size > 0 && Line(line) && Fits(names, size, limit) && Small(limit, line)
    ensures LaidOut(h, names, line) && h.Hash? && h.size == size
  {
    hide Fits, Slots, Starts, StartOf, Placed, Ended, Counts;
    var test, len := Sizes(names, size, line, limit);
    var buckets := Buckets(names, size, line, test, limit);
    var elts: seq<Byte> := seq(len, _ => Raw);
    elts, test := PutElts(names, size, line, buckets, elts, limit);
    elts := PutEnds(names, size, line, buckets, elts, test);
    h := Hash(size, buckets, elts);
  }

  /** ngx_hash_init, up to the fallback for names that fit no size. */
  method Init(names: seq<Key>, maxSize: nat, bucketSize: nat, line: nat) returns (h: Built)
    requires bucketSize <= 0x8000 && Line(line) && (names == [] ==> bucketSize >= 24)
    ensures h.Refused? <==> maxSize == 0 || !EachFits(names, bucketSize)
    ensures !h.Refused? ==> bucketSize >= 24
    ensures h.NotOptimal? ==> NoneFits(names, Start(|names|, maxSize, bucketSize), maxSize + 1, bucketSize - 8)
    ensures h.Hash? ==>
      && LaidOut(h, names, line)
      && Start(|names|, maxSize, bucketSize) <= h.size <= maxSize && Fits(names, h.size, bucketSize - 8)
      && NoneFits(names, Start(|names|, maxSize, bucketSize), h.size, bucketSize - 8)
  {
    hide Fits, LaidOut, NoneFits, EltSize, Start;
    if maxSize == 0 { return Refused; }
    var n := 0;
    while n < |names|
      invariant 0 <= n <= |names| && EachFits(names[..n], bucketSize)
    {
      if bucketSize < EltSize(|names[n].name|) + 8 {
        assert !EachFits(names, bucketSize);
        return Refused;
      }
      n := n + 1;
    }
    assert names[..n] == names;
    if names != [] { EltSizeLeast(|names[0].name|); }
    var found, size := FindSize(names, maxSize, bucketSize);
    if !found { return NotOptimal; }
    h := Lay(names, size, line, bucketSize - 8);
  }

  lemma EltSizeLeast(len: nat)
    ensures EltSize(len) >= 16
  {
    EltSizeIs(len);
  }

  // Looking a name up.

  /** The value of the first element with the name, or NULL. */
  function Lookup(es: seq<Elt>, name: string): nat {
    if es == [] then 0 else if es[0].name == name then es[0].value else Lookup(es[1..], name)
  }

  predicate HaveValues(names: seq<Key>) {
    forall n :: 0 <= n < |names| && names[n].live ==> names[n].value != 0
  }

  lemma {:induction false} BucketValues(names: seq<Key>, size: nat, b: nat)
    requires size > 0 && HaveValues(names)
    ensures forall j :: 0 <= j < |Bucket(names, size, b)| ==> Bucket(names, size, b)[j].value != 0
  {
    if names != [] {
      BucketValues(names[..|names| - 1], size, b);
    }
  }

  /** The walk: from element to element by aligned steps, until a NULL value. */
  lemma WalkEnds(es: seq<Elt>, name: string)
    ensures Total(es[..0]) == 0 && Lookup(es[0..], name) == Lookup(es, name) && Lookup(es[|es|..], name) == 0
    ensures es == [] ==> Lookup(es, name) == 0
  {
    assert es[0..] == es;
  }

  /** From one element to the next. */
  lemma WalkStep(elt: nat, es: seq<Elt>, j: nat, start: nat, name: string)
    requires j < |es| && elt % 8 == 0 && elt == start + Total(es[..j])
    ensures Align(elt + 10 + |es[j].name|, 8) == start + Total(es[..j + 1])
    ensures es[j].name != name ==> Lookup(es[j..], name) == Lookup(es[j + 1..], name)
    ensures es[j].name == name ==> Lookup(es[j..], name) == es[j].value
  {
    hide Total, Align, EltSize;
    WalkNext(elt, es, j);
    assert es[j..][1..] == es[j + 1..];
  }

  method Find(h: Built, key: nat, name: string, ghost names: seq<Key>, ghost line: nat) returns (value: nat)
    requires LaidOut(h, names, line) && HaveValues(names)
    ensures value == Lookup(Bucket(names, h.size, key % h.size), name)
  {
    hide Bucket, EltSize, StartOf, Holds, Placed, Total, Align, Lookup;
    var b := key % h.size;
    ghost var es := Bucket(names, h.size, b);
    BucketValues(names, h.size, b);
    TotalMultiple(es);
    WalkEnds(es, name);
    if h.buckets[b].None? { return 0; }
    assert names[..|names|] == names;
    var elt := h.buckets[b].value;
    WalkStart(h, names, line, b);
    ghost var j := 0;
    while true
      invariant 0 <= j <= |es| && elt == StartOf(names, h.size, b, line) + Total(es[..j])
      invariant Lookup(es[j..], name) == Lookup(es, name)
      decreases |es| - j
    {
      WalkAt(h, names, line, b, j);
      if h.elts[elt].v == 0 { return 0; }
      var len := h.elts[elt + 8].n;
      WalkStep(elt, es, j, StartOf(names, h.size, b, line), name);
      if len == |name| {
        var same := SameName(h.elts, elt + 10, name, es[j].name);
        if same { return h.elts[elt].v; }
      }
      elt := Align(elt + 10 + len, 8);
      j := j + 1;
    }
  }

  method SameName(m: seq<Byte>, o: nat, name: string, ghost stored: string) returns (same: bool)
    requires At(m, o, LetterBytes(stored)) && |stored| == |name|
    ensures same <==> stored == name
  {
    var i := 0;
    while i < |name|
      invariant 0 <= i <= |name| && forall k :: 0 <= k < i ==> name[k] == stored[k]
    {
      assert m[o + i] == m[o..o + |name|][i] == Letter(stored[i]);
      if name[i] != m[o + i].c { return false; }
      i := i + 1;
    }
    return true;
  }

  lemma WalkStart(h: Built, names: seq<Key>, line: nat, b: nat)
    requires LaidOut(h, names, line) && b < h.size && h.buckets[b].Some?
    ensures h.buckets[b] == Some(StartOf(names, h.size, b, line)) && BucketTotal(names, h.size, b) > 0
  {
    hide StartOf, Placed, Ended;
  }

  /** What the walk finds at `o` after the first `j` elements: the next one, or the end. */
  predicate StandsAt(m: seq<Byte>, o: nat, es: seq<Elt>, j: nat)
    requires j <= |es|
  {
    && o % 8 == 0 && o + 8 <= |m| && m[o].Pointer?
    && if j == |es| then m[o].v == 0
       else EltAt(m, o, es[j]) && m[o].v == es[j].value && o + 8 < |m| && m[o + 8] == Short(|es[j].name|, 0)
  }

  lemma WalkAt(h: Built, names: seq<Key>, line: nat, b: nat, j: nat)
    requires LaidOut(h, names, line) && b < h.size && BucketTotal(names, h.size, b) > 0
    requires j <= |Bucket(names, h.size, b)|
    ensures StandsAt(h.elts, StartOf(names, h.size, b, line) + Total(Bucket(names, h.size, b)[..j]),
                     Bucket(names, h.size, b), j)
  {
    hide Bucket, StartOf, Holds, EltSize;
    var es := Bucket(names, h.size, b);
    var o := StartOf(names, h.size, b, line) + Total(es[..j]);
    assert names[..|names|] == names;
    if j < |es| {
      HoldsAt(h.elts, StartOf(names, h.size, b, line), es, j);
      assert h.elts[o] == h.elts[o..o + 8][0] && h.elts[o + 8] == h.elts[o + 8..o + 10][0];
    } else {
      assert es[..j] == es;
      assert h.elts[o] == h.elts[o..o + 8][0];
    }
  }

  lemma WalkNext(elt: nat, es: seq<Elt>, j: nat)
    requires j < |es| && elt % 8 == 0
    ensures Align(elt + 10 + |es[j].name|, 8) == elt + EltSize(|es[j].name|)
    ensures Total(es[..j + 1]) == Total(es[..j]) + EltSize(|es[j].name|)
  {
    hide EltSize;
    assert es[..j + 1] == es[..j] + [es[j]];
    TotalAppend(es[..j], es[j]);
    AlignStep(elt, |es[j].name|);
  }

  lemma AlignStep(o: nat, len: nat)
    requires o % 8 == 0
    ensures Align(o + 10 + len, 8) == o + EltSize(len)
  {
  }

  // Lookup agrees with the list of names.

  ghost predicate Distinct(names: seq<Key>) {
    forall i, j :: 0 <= i < j < |names| && names[i].live && names[j].live ==>
      Lowered(names[i].name) != Lowered(names[j].name)
  }

  predicate Hashed(names: seq<Key>, hash: string -> nat) {
    forall i :: 0 <= i < |names| && names[i].live ==> names[i].hash == hash(Lowered(names[i].name))
  }

  ghost predicate Stored(names: seq<Key>, name: string, value: nat) {
    exists i :: 0 <= i < |names| && names[i].live && Lowered(names[i].name) == name && names[i].value == value
  }

  lemma {:induction false} LookupIs(es: seq<Elt>, name: string)
    ensures Elt(Lookup(es, name), name) in es || (Lookup(es, name) == 0 && forall e :: e in es ==> e.name != name)
  {
    if es != [] {
      LookupIs(es[1..], name);
    }
  }

  lemma {:induction false} BucketHas(names: seq<Key>, size: nat, b: nat, e: Elt)
    requires size > 0
    ensures e in Bucket(names, size, b) <==> exists i ::
      0 <= i < |names| && In(names[i], size, b) && e == EltOf(names[i])
  {
    if names != [] {
      var front, k := names[..|names| - 1], names[|names| - 1];
      BucketHas(front, size, b, e);
      assert forall i :: 0 <= i < |front| ==> front[i] == names[i];
    }
  }

  /** A name is found with a value exactly when it is in the list with that value. */
  lemma FindsExactly(names: seq<Key>, size: nat, hash: string -> nat, name: string, value: nat)
    requires size > 0 && HaveValues(names) && Distinct(names) && Hashed(names, hash) && value != 0
    ensures Lookup(Bucket(names, size, hash(name) % size), name) == value <==> Stored(names, name, value)
  {
    hide Bucket, Lookup, Lowered;
    var b := hash(name) % size;
    var es := Bucket(names, size, b);
    var r := Lookup(es, name);
    LookupIs(es, name);
    BucketHas(names, size, b, Elt(r, name));
    if Stored(names, name, value) {
      var i :| 0 <= i < |names| && names[i].live && Lowered(names[i].name) == name && names[i].value == value;
      BucketHas(names, size, b, EltOf(names[i]));
      assert In(names[i], size, b);
    }
  }
}