/** The output chain: buffers on their way to a connection, copied into a bounded number of temporary buffers where
    the connection cannot take them as they are. */
module OutputChain {
  import opened Wrappers

  /** What is sent: a character, or the flags of a buffer behind its last character. */
  datatype Item = Data(ch: char) | Mark(flush: bool, last: bool, inChain: bool)

  datatype Code = Ok | Again | Error

  class Buf {
    const data: array<char>
    const temporary: bool
    const memory: bool
    const mmap: bool
    const sync: bool
    const tag: nat
    var pos: int
    var last: int
    var flush: bool
    var lastBuf: bool
    var lastInChain: bool

    constructor (data: array<char>, temporary: bool, memory: bool, mmap: bool, sync: bool, tag: nat)
      ensures this.data == data && this.temporary == temporary && this.memory == memory && this.mmap == mmap
      ensures this.sync == sync && this.tag == tag && pos == 0 && last == 0
      ensures !flush && !lastBuf && !lastInChain
    {
      this.data, this.temporary, this.memory, this.mmap := data, temporary, memory, mmap;
      this.sync, this.tag := sync, tag;
      pos, last, flush, lastBuf, lastInChain := 0, 0, false, false, false;
    }

    predicate InMemory() {
      temporary || memory || mmap
    }

    predicate ReadOnly() {
      memory || mmap
    }

    predicate Special()
      reads this
    {
      (flush || lastBuf || sync) && !InMemory()
    }

    function Size(): int
      reads this
    {
      if InMemory() then last - pos else 0
    }

    /** Its bytes lie within its memory. */
    ghost predicate Sane()
      reads this
    {
      Size() > 0 ==> 0 <= pos && last <= data.Length
    }

    ghost predicate Carries()
      reads this
    {
      Sane() && (Special() || Size() > 0)
    }

    ghost predicate Marked()
      reads `flush, `lastBuf, `lastInChain
    {
      flush || lastBuf || lastInChain
    }

    predicate SameFlags(that: Buf)
      reads this, that
    {
      flush == that.flush && lastBuf == that.lastBuf && lastInChain == that.lastInChain
    }

    ghost function Flags(): seq<Item>
      reads this
    {
      if flush || lastBuf || lastInChain then [Mark(flush, lastBuf, lastInChain)] else []
    }

    /** What it stands for. A buffer that is neither special nor has bytes is passed over, whatever its flags. */
    ghost function Items(): seq<Item>
      reads this, data
    {
      if temporary || memory || mmap then if pos < last && Sane() then Datas(data[pos..last]) + Flags() else []
      else if flush || lastBuf || sync then Flags()
      else []
    }

    ghost function Taken(bytes: nat): seq<Item>
      requires Sane() && bytes <= Size() && Size() > 0
      reads this, data
    {
      if bytes == Size() then Items() else Datas(data[pos..pos + bytes])
    }
  }

  ghost function Datas(s: seq<char>): seq<Item> {
    seq(|s|, i requires 0 <= i < |s| => Data(s[i]))
  }

  ghost function Text(items: seq<Item>): string {
    if items == [] then "" else Char(items[0]) + Text(items[1..])
  }

  ghost function Char(item: Item): string {
    if item.Data? then [item.ch] else ""
  }

  ghost function Stream(bs: seq<Buf>): seq<Item>
    reads bs, set b | b in bs :: b.data
  {
    if bs == [] then [] else bs[0].Items() + Stream(bs[1..])
  }

  ghost predicate Distinct(bs: seq<Buf>) {
    forall i, j :: 0 <= i < j < |bs| ==> bs[i] != bs[j]
  }

  lemma {:induction false} TextAppend(a: seq<Item>, b: seq<Item>)
    ensures Text(a + b) == Text(a) + Text(b)
  {
    hide Char;
    if a == [] {
      assert a + b == b;
    } else {
      TextAppend(a[1..], b);
      assert (a + b)[0] == a[0] && (a + b)[1..] == a[1..] + b;
      Associate(Char(a[0]), Text(a[1..]), Text(b));
    }
  }

  lemma {:induction false} StreamAppend(a: seq<Buf>, b: seq<Buf>)
    ensures Stream(a + b) == Stream(a) + Stream(b)
  {
    hide Buf.Items;
    if a == [] {
      assert a + b == b;
    } else {
      StreamAppend(a[1..], b);
      assert (a + b)[0] == a[0] && (a + b)[1..] == a[1..] + b;
      Associate(a[0].Items(), Stream(a[1..]), Stream(b));
    }
  }

  lemma Associate<T>(a: seq<T>, b: seq<T>, c: seq<T>)
    ensures (a + b) + c == a + (b + c)
  {
  }

  lemma NoStream()
    ensures Stream([]) == []
  {
  }

  lemma StreamLast(a: seq<Buf>, b: Buf)
    ensures Stream(a + [b]) == Stream(a) + b.Items()
  {
    StreamAppend(a, [b]);
    assert Stream([b]) == b.Items() + Stream([]);
  }

  /** Items of a buffer are its first bytes and then those of the buffer without them. */
  twostate lemma Advanced(b: Buf, new bytes: nat)
    requires old(b.Sane()) && bytes <= old(b.Size()) && old(b.Size()) > 0
    requires b.pos == old(b.pos) + bytes && b.last == old(b.last) && b.data[..] == old(b.data[..])
    requires b.Flags() == old(b.Flags()) && !b.Special()
    ensures old(b.Items()) == old(b.Taken(bytes)) + b.Items()
  {
    if bytes < old(b.Size()) {
      Split(b.data[old(b.pos)..b.last], bytes);
      assert b.data[old(b.pos)..b.last][bytes..] == b.data[b.pos..b.last];
    }
  }

  lemma StreamOne(bs: seq<Buf>)
    requires |bs| <= 1
    ensures Stream([]) == [] && (bs == [] || Stream(bs) == bs[0].Items())
  {
  }

  twostate predicate Same(bs: seq<Buf>)
    reads bs, set b | b in bs :: b.data
  {
    forall b :: b in bs ==> unchanged(b) && unchanged(b.data)
  }

  ghost function Arrays(bs: seq<Buf>): set<array<char>> {
    set b | b in bs :: b.data
  }

  /** Buffers that stand for nothing. */
  ghost function Hollow(bs: seq<Buf>): set<Buf>
    reads bs
  {
    set b | b in bs && if b.temporary || b.memory || b.mmap then b.pos == b.last else !b.flush && !b.lastBuf && !b.sync
  }

  /** Some buffer has bytes. */
  ghost predicate Any(bs: seq<Buf>)
    reads bs
  {
    exists b :: b in bs && b.Size() > 0
  }

  ghost predicate Sized(bs: seq<Buf>)
    reads bs
  {
    forall b :: b in bs ==> b.Size() >= 0
  }

  /** The first buffer still has bytes. */
  ghost predicate Stuck(bs: seq<Buf>)
    reads bs
  {
    bs != [] ==> bs[0].Size() > 0
  }

  /** There are no bytes to send. */
  ghost predicate Idle(bs: seq<Buf>)
    reads bs
  {
    forall b :: b in bs ==> b.Size() == 0
  }

  /** No flags are on temporary buffers or on buffers to be copied. */
  ghost predicate Plain(temps: set<Buf>, bs: seq<Buf>, needInTemp: bool)
    reads temps`flush, temps`lastBuf, temps`lastInChain, bs`flush, bs`lastBuf, bs`lastInChain
  {
    && (forall t :: t in temps ==> !t.Marked())
    && (needInTemp ==> forall b :: b in bs && b.ReadOnly() ==> !b.Marked())
  }

  ghost predicate Carried(bs: seq<Buf>)
    reads bs
  {
    forall b :: b in bs ==> b.Carries()
  }

  twostate lemma StreamKept(bs: seq<Buf>)
    requires Same(bs)
    ensures Stream(bs) == old(Stream(bs))
  {
    if bs != [] {
      assert forall b :: b in bs[1..] ==> b in bs;
      StreamKept(bs[1..]);
      assert bs[0] in bs && bs[0].Items() == old(bs[0].Items());
    }
  }

  lemma StreamHead(bs: seq<Buf>)
    requires bs != []
    ensures Stream(bs) == bs[0].Items() + Stream(bs[1..])
  {
  }

  lemma Spent(b: Buf)
    requires b.Size() <= 0 && !b.Special()
    ensures b.Items() == []
  {
  }

  lemma {:induction false} TextDatas(s: string)
    ensures Text(Datas(s)) == s
  {
    if s != "" {
      assert Datas(s)[1..] == Datas(s[1..]);
      TextDatas(s[1..]);
    }
  }

  lemma TextFlags(b: Buf)
    ensures Text(b.Flags()) == ""
  {
    assert b.Flags() == [] || b.Flags()[1..] == [];
  }

  lemma TextSpecial(b: Buf)
    requires b.Special()
    ensures Text(b.Items()) == ""
  {
    TextFlags(b);
  }

  lemma TextTaken(b: Buf, bytes: nat)
    requires b.Sane() && 0 < b.Size() && bytes <= b.Size()
    ensures |Text(b.Taken(bytes))| == bytes
  {
    TextDatas(b.data[b.pos..b.last]);
    TextDatas(b.data[b.pos..b.pos + bytes]);
    TextFlags(b);
    TextAppend(Datas(b.data[b.pos..b.last]), b.Flags());
  }

  lemma Cancel(a: string, b: string, c: string)
    requires a + b == a + c
    ensures b == c
  {
    assert (a + b)[|a|..] == b && (a + c)[|a|..] == c;
  }

  lemma DatasSize(s: string)
    ensures |Datas(s)| == |s|
  {
  }

  lemma Split(s: string, n: nat)
    requires n <= |s|
    ensures Datas(s) == Datas(s[..n]) + Datas(s[n..])
  {
  }

  lemma Regroup(a: seq<Item>, b: seq<Item>, c: seq<Item>, d: seq<Item>)
    ensures a + ((b + c) + d) == (a + b) + (c + d)
  {
  }

  // The writer.

  /** What the connection answers: whether it holds bytes itself before and after the call, whether the call fails,
      and how many bytes it takes at most. */
  datatype Answer = Answer(before: bool, failed: bool, bytes: nat, after: bool)

  class Writer {
    const answers: nat -> Answer
    var calls: nat
    var out: seq<Buf>
    ghost var handed: seq<Item>
    ghost var sent: seq<Item>
    ghost var seen: set<Buf>

    constructor (answers: nat -> Answer)
      ensures Valid() && out == [] && handed == [] && sent == [] && seen == {}
      ensures this.answers == answers && calls == 0
    {
      this.answers, calls, out, handed, sent, seen := answers, 0, [], [], [], {};
    }

    /** What was handed over was sent or is still to be found in the buffers. */
    ghost predicate Valid()
      reads this, out, set b | b in out :: b.data
    {
      && Distinct(out)
      && Carried(out)
      && handed == sent + Stream(out)
    }

    /** The last call failed. */
    ghost predicate Broke()
      reads this
    {
      calls > 0 && answers(calls - 1).failed
    }

    /** After the last call there was something left to send, here or in the connection. */
    ghost predicate Holding()
      reads this
    {
      calls > 0 && (out != [] || answers(calls - 1).after)
    }

    /** Takes up to `bytes` bytes from the first buffer. */
    method Advance(bytes: nat)
      requires Valid() && out != [] && !out[0].Special() && bytes <= out[0].Size()
      modifies {out[0]}`pos, `sent
      ensures var b := out[0];
        && b.Sane() && b.Size() == old(b.Size()) - bytes
        && handed == sent + (b.Items() + Stream(out[1..]))
        && |Text(sent)| == |Text(old(sent))| + bytes
    {
      hide Stream, Buf.Items, Buf.Taken, Text;
      ghost var rest := out[1..];
      var b := out[0];
      StreamHead(out);
      assert b.Carries() && b !in rest;
      ghost var took := b.Taken(bytes);
      TextTaken(b, bytes);
      TextAppend(sent, took);
      b.pos := b.pos + bytes;
      Advanced(b, bytes);
      Regroup(sent, took, b.Items(), Stream(rest));
      sent := sent + took;
    }

    /** The first buffer is done with. */
    method Drop()
      requires Valid() && out != []
      modifies `out, `sent, {out[0]}`pos
      ensures Valid() && out == old(out[1..]) && old(out[0]).Size() == 0
      ensures |Text(sent)| == |Text(old(sent))| + old(out[0].Size())
    {
      hide Stream, Buf.Items, Text;
      var b := out[0];
      assert b !in out[1..] && b.Carries();
      if b.Special() {
        StreamHead(out);
        TextSpecial(b);
        TextAppend(sent, b.Items());
        sent := sent + b.Items();
      } else {
        Advance(b.Size());
        Spent(b);
      }
      out := out[1..];
    }

    /** ngx_chain_update_sent: all bytes are taken, or exactly as many as were sent. */
    method UpdateSent(bytes: nat) returns (ghost k: nat)
      requires Valid()
      modifies `out, `sent, (set b | b in out)`pos
      ensures Valid() && k <= |old(out)| && out == old(out)[k..]
      ensures forall b :: b in old(out) ==> b.Size() >= 0 && (b !in out ==> b.Size() == 0)
      ensures |Text(sent)| <= |Text(old(sent))| + bytes && (out != [] ==> |Text(sent)| == |Text(old(sent))| + bytes)
    {
      hide Stream, Buf.Items, Text, Distinct;
      var left := bytes;
      k := 0;
      ghost var was := out;
      while out != []
        invariant left >= 0 && |Text(sent)| + left == |Text(old(sent))| + bytes
        invariant Valid() && k <= |was| && out == was[k..]
        invariant forall b :: b in was ==> b.Size() >= 0 && (b !in out ==> b.Size() == 0)
        decreases |out|
      {
        var size := out[0].Size();
        if !out[0].Special() && left == 0 {
          return;
        }
        if !out[0].Special() && left < size {
          Advance(left);
          StreamHead(out);
          return;
        }
        left := left - size;
        Drop();
        k := k + 1;
      }
    }

    /** The new buffers go behind those waiting, up to the first one of negative size. */
    method Append(chain: seq<Buf>) returns (ok: bool, j: nat)
      requires Valid() && Distinct(chain) && forall b :: b in chain ==> b !in out && b.Sane()
      modifies `out, `handed
      ensures Valid() && j <= |chain| && handed == old(handed) + Stream(chain[..j])
      ensures forall b :: b in chain[..j] ==> b.Size() >= 0
      ensures ok == (j == |chain|) && (!ok ==> chain[j].Size() < 0)
      ensures forall b :: b in out ==> b in old(out) || b in chain[..j]
      ensures forall b :: b in old(out) || (b in chain[..j] && b.Size() > 0) ==> b in out
    {
      hide Stream, Buf.Items;
      j := 0;
      ghost var was, before := out, handed;
      NoStream();
      while j < |chain|
        invariant j <= |chain| && Valid() && handed == before + Stream(chain[..j])
        invariant forall b :: b in chain[..j] ==> b.Size() >= 0
        invariant forall b :: b in out ==> b in was || b in chain[..j]
        invariant forall b :: b in was || (b in chain[..j] && b.Size() > 0) ==> b in out
      {
        var b := chain[j];
        assert b !in out && chain[..j + 1] == chain[..j] + [b];
        StreamLast(chain[..j], b);
        if b.Size() == 0 && !b.Special() {
          Spent(b);
        } else if b.Size() < 0 {
          return false, j;
        } else {
          StreamLast(out, b);
          out := out + [b];
          handed := handed + b.Items();
        }
        j := j + 1;
      }
      return true, j;
    }

    /** Whether some buffer has bytes. */
    method Total() returns (size: nat)
      requires Valid()
      ensures forall b :: b in out ==> b.Size() >= 0
      ensures size == 0 <==> forall b :: b in out ==> b.Size() == 0
    {
      size := 0;
      var i := 0;
      while i < |out|
        invariant i <= |out| && (size == 0 <==> forall b :: b in out[..i] ==> b.Size() == 0)
      {
        assert out[i] in out;
        size := size + out[i].Size();
        i := i + 1;
      }
    }

    /** ngx_chain_writer */
    method Write(chain: seq<Buf>) returns (rc: Code, ghost j: nat)
      requires Valid() && Distinct(chain) && forall b :: b in chain ==> b !in out && b.Sane()
      modifies this, (set b | b in out + chain)`pos
      ensures Valid() && j <= |chain| && handed == old(handed) + old(Stream(chain[..j]))
      ensures j < |chain| ==> rc == Error && chain[j].Size() < 0
      ensures old(Sized(chain)) ==> j == |chain|
      ensures forall b :: b in out ==> b in old(out) || b in chain[..j]
      ensures forall b :: b in old(out) || b in chain[..j] ==> b.Size() >= 0 && (b !in out ==> b.Size() == 0)
      ensures forall b :: b in chain[j..] ==> b.pos == old(b.pos)
      ensures rc == Ok ==> forall b :: b in out ==> b.Size() == 0
      ensures var a, any := old(answers(calls)), old(Any(out) || Any(chain));
        && (rc == Error <==> j < |chain| || (a.failed && (any || a.before)))
        && (rc == Ok <==> j == |chain| && if any || a.before then !a.failed && out == [] && !a.after else true)
        && (rc == Again && out != [] ==> |Text(sent)| == |Text(old(sent))| + a.bytes)
      ensures calls == old(calls) + 1 && (rc == Again ==> Holding())
      ensures seen == old(seen) + set b | b in chain
    {
      hide Stream, Distinct, Text;
      var answer := answers(calls);
      calls := calls + 1;
      seen := seen + set b | b in chain;
      var ok, upTo;
      ok, upTo := Append(chain);
      j := upTo;
      if !ok {
        assert chain[j] in chain;
        return Error, j;
      }
      rc := WriteOut(answer);
    }

    /** What is there goes to the connection. */
    method WriteOut(answer: Answer) returns (rc: Code)
      requires Valid() && calls > 0 && answers(calls - 1) == answer
      modifies `out, `sent, (set b | b in out)`pos
      ensures Valid() && handed == old(handed)
      ensures forall b :: b in out ==> b in old(out)
      ensures forall b :: b in old(out) ==> b.Size() >= 0 && (b !in out ==> b.Size() == 0)
      ensures var any := old(Any(out));
        && (rc == Error <==> answer.failed && (any || answer.before))
        && (rc == Ok <==> if any || answer.before then !answer.failed && out == [] && !answer.after else true)
      ensures rc == Ok ==> forall b :: b in out ==> b.Size() == 0
      ensures rc == Again ==> Holding() && (out != [] ==> |Text(sent)| == |Text(old(sent))| + answer.bytes)
    {
      hide Stream, Distinct, Text;
      var size := Total();
      if size == 0 && !answer.before {
        return Ok;
      }
      if answer.failed {
        return Error;
      }
      ghost var k := UpdateSent(answer.bytes);
      rc := if out == [] && !answer.after then Ok else Again;
    }
  }

  // The chain.

  /** The items are those given but for `extra` marks more. */
  ghost predicate Agrees(items: seq<Item>, given: seq<Item>, extra: nat) {
    && Text(items) == Text(given)
    && |items| == |given| + extra
    && (extra == 0 ==> items == given)
  }

  /** A part goes out, with a mark more or none. */
  lemma AgreesStep(h: seq<Item>, o: seq<Item>, part: seq<Item>, stale: seq<Item>, s: seq<Item>, y: seq<Item>,
                   given: seq<Item>, extra: nat)
    requires stale == [] || exists f, l, c :: stale == [Mark(f, l, c)]
    requires Agrees(h + o + [] + ((part + s) + y), given, extra)
    ensures Agrees(h + (o + (part + stale)) + [] + (s + y), given, extra + |stale|)
  {
    hide Text;
    var a, b := h + o + part, s + y;
    FourParts(h, o, part, s, y);
    FiveParts(h, o, part, stale, b);
    StaleText(stale);
    TextAppend(a, b);
    TextAppend(a + stale, b);
    TextAppend(a, stale);
    if stale == [] {
      assert a + stale == a;
    }
  }

  lemma FourParts(h: seq<Item>, o: seq<Item>, part: seq<Item>, s: seq<Item>, y: seq<Item>)
    ensures h + o + [] + ((part + s) + y) == (h + o + part) + (s + y)
  {
  }

  lemma FiveParts(h: seq<Item>, o: seq<Item>, part: seq<Item>, stale: seq<Item>, b: seq<Item>)
    ensures h + (o + (part + stale)) + [] + b == ((h + o + part) + stale) + b
  {
  }

  lemma StaleText(stale: seq<Item>)
    requires stale == [] || exists f, l, c :: stale == [Mark(f, l, c)]
    ensures Text(stale) == ""
  {
    assert stale == [] || stale[1..] == [];
  }

  lemma AgreesMore(items: seq<Item>, more: seq<Item>, given: seq<Item>, extra: nat)
    requires Agrees(items, given, extra)
    ensures Agrees(items + more, given + more, extra)
  {
    TextAppend(items, more);
    TextAppend(given, more);
  }

  /** Where buffers are: given and waiting, on the way to the writer, free, with the writer, and in hand. */
  datatype Chains = Chains(waiting: seq<Buf>, out: seq<Buf>, free: seq<Buf>, busy: seq<Buf>, pending: seq<Buf>,
                           buf: Buf?, hollow: set<Buf>)

  /** A buffer has the tag exactly if it is a temporary one, and shares no memory with another temporary one. */
  ghost predicate Own(b: Buf, temps: set<Buf>, tag: nat) {
    && (b.tag == tag <==> b in temps)
    && forall t :: t in temps && t != b ==> t.data != b.data
  }

  ghost predicate Apart(c: Chains, temps: set<Buf>, tag: nat) {
    && Distinct(c.waiting) && Distinct(c.out) && Distinct(c.free) && Distinct(c.busy)
    && (forall b :: b in c.waiting ==>
      b !in c.out && b !in c.busy && b !in c.pending && b.tag != tag && Own(b, temps, tag))
    && (forall b :: b in c.out ==> b !in c.free && b !in c.busy && b !in c.pending && Own(b, temps, tag))
    && (forall b :: b in c.busy ==> b !in c.free && Own(b, temps, tag))
    && (forall b :: b in c.free ==> b in temps && b !in c.pending)
    && (forall b :: b in c.pending ==> Own(b, temps, tag))
    && (c.buf != null ==>
      c.buf in temps && c.buf !in c.out && c.buf !in c.free && c.buf !in c.busy && c.buf !in c.pending)
    && (forall t :: t in temps ==> t.temporary && !t.memory && !t.mmap && t.data.Length > 0 && Own(t, temps, tag))
  }

  ghost predicate Filled(c: Chains)
    reads c.waiting, c.out, c.free, c.busy, c.buf
  {
    && (forall b :: b in c.waiting ==> b.Sane() && (b.Size() != 0 || b.Special() || b in c.hollow))
    && Carried(c.out)
    && (forall b :: b in c.busy ==> b.Size() >= 0 && (b.Size() > 0 ==> b in c.pending))
    && (forall b :: b in c.free ==> b.pos == b.last == 0)
    && (c.buf != null ==> c.buf.pos == c.buf.last == 0)
  }

  /** What no buffer has changed stays. */
  twostate lemma AllKept(c: Chains)
    requires old(Filled(c)) && old(Carried(c.pending))
    requires Same(c.waiting) && Same(c.out) && Same(c.free) && Same(c.busy) && Same(c.pending)
    requires c.buf != null ==> unchanged(c.buf)
    ensures Filled(c) && Carried(c.pending)
    ensures Stream(c.out) == old(Stream(c.out)) && Stream(c.waiting) == old(Stream(c.waiting))
    ensures Stream(c.pending) == old(Stream(c.pending))
  {
    StreamKept(c.out);
    StreamKept(c.waiting);
    StreamKept(c.pending);
  }

  /** A new temporary buffer in hand. */
  lemma NewTemp(c: Chains, temps: set<Buf>, tag: nat, t: Buf)
    requires Apart(c, temps, tag) && Filled(c) && c.buf == null
    requires t.tag == tag && t.temporary && !t.memory && !t.mmap && t.data.Length > 0 && t.pos == t.last == 0
    requires t !in temps && t !in c.out && t !in c.busy && t !in c.pending
    requires forall u :: u in temps ==> u.data != t.data
    requires forall b :: b in c.waiting || b in c.out || b in c.busy || b in c.pending ==> b.data != t.data
    ensures Apart(c.(buf := t), temps + {t}, tag) && Filled(c.(buf := t))
  {
  }

  lemma FreeTaken(c: Chains, temps: set<Buf>, tag: nat)
    requires Apart(c, temps, tag) && Filled(c) && c.buf == null && c.free != []
    ensures var d := c.(free := c.free[1..], buf := c.free[0]); Apart(d, temps, tag) && Filled(d)
  {
  }

  /** What is left when the first buffer waiting and the one in hand are being used. */
  function Without(c: Chains): Chains
    requires c.waiting != []
  {
    c.(waiting := c.waiting[1..], buf := null)
  }

  lemma HeadTaken(c: Chains, temps: set<Buf>, tag: nat, asIs: bool)
    requires Apart(c, temps, tag) && c.waiting != [] && Filled(c) && (asIs ==> c.waiting[0].Carries())
    ensures var d := c.(waiting := c.waiting[1..], out := if asIs then c.out + [c.waiting[0]] else c.out);
      Apart(d, temps, tag) && Filled(d)
  {
    assert c.waiting == [c.waiting[0]] + c.waiting[1..];
  }

  lemma DistinctAppend(a: seq<Buf>, b: seq<Buf>)
    requires Distinct(a) && Distinct(b) && forall x :: x in b ==> x !in a
    ensures Distinct(a + b)
  {
    forall i, j | 0 <= i < j < |a + b| ensures (a + b)[i] != (a + b)[j] {
      assert i < |a| <= j ==> a[i] in a && b[j - |a|] in b;
    }
  }

  /** What went out is with the writer. */
  function AtWriter(c: Chains, pending: seq<Buf>, failed: bool): Chains {
    c.(out := [], busy := if failed then c.busy else c.busy + c.out, pending := pending)
  }

  lemma Handed(c: Chains, temps: set<Buf>, tag: nat, pending: seq<Buf>, failed: bool)
    requires Apart(c, temps, tag) && c.buf == null && forall b :: b in pending ==> b in c.pending || b in c.out
    ensures Apart(AtWriter(c, pending, failed), temps, tag)
  {
    DistinctAppend(c.busy, c.out);
  }

  /** The first busy buffer has been sent; a temporary one is free again. */
  function Released(c: Chains, mine: bool): Chains
    requires c.busy != []
  {
    c.(busy := c.busy[1..], free := if mine then [c.busy[0]] + c.free else c.free)
  }

  lemma ReleasedApart(c: Chains, temps: set<Buf>, tag: nat)
    requires Apart(c, temps, tag) && c.busy != [] && c.out == [] && c.buf == null
    requires c.busy[0].tag == tag ==> c.busy[0] !in c.pending
    ensures Apart(Released(c, c.busy[0].tag == tag), temps, tag)
  {
    assert c.busy == [c.busy[0]] + c.busy[1..];
  }

  ghost predicate Foreign(bs: seq<Buf>, temps: set<Buf>, tag: nat) {
    forall b :: b in bs ==> b.tag != tag && Own(b, temps, tag)
  }

  /** Buffers that are nowhere yet. */
  ghost predicate Strange(input: seq<Buf>, c: Chains, temps: set<Buf>, tag: nat)
    reads input
  {
    && Distinct(input) && Foreign(input, temps, tag)
    && forall b :: b in input ==>
      && b.Sane()
      && b !in c.waiting && b !in c.out && b !in c.busy && b !in c.pending
  }

  lemma Added(c: Chains, temps: set<Buf>, tag: nat, input: seq<Buf>)
    requires Apart(c, temps, tag) && Filled(c) && Strange(input, c, temps, tag)
    ensures var d := c.(waiting := c.waiting + input, hollow := c.hollow + Hollow(input));
      Apart(d, temps, tag) && Filled(d)
  {
    DistinctAppend(c.waiting, input);
  }

  lemma CopyTaken(c: Chains, temps: set<Buf>, tag: nat, whole: bool)
    requires Apart(c, temps, tag) && c.waiting != [] && Filled(Without(c)) && c.buf != null
    requires c.buf.Carries() && c.waiting[0].Sane() && (!whole ==> c.waiting[0].Size() > 0)
    ensures var d := c.(waiting := if whole then c.waiting[1..] else c.waiting, out := c.out + [c.buf], buf := null);
      Apart(d, temps, tag) && Filled(d)
  {
    assert c.waiting == [c.waiting[0]] + c.waiting[1..];
  }

  /** What is left of so many bytes when the buffer has been filled with them. */
  function Rest(size: int, b: Buf): int {
    if size > b.data.Length then size - b.data.Length else 0
  }

  /** The size of a new temporary buffer: a last buffer, or the rest of it, may get one of its own size. */
  function TempSize(size: nat, num: nat, b: Buf): (n: nat)
    requires size > 0 && b.Size() > 0
    reads b
    ensures 0 < n && (n != size ==> b.lastInChain && n == b.Size() && n < size + size / 4)
  {
    if b.lastInChain && (b.Size() < size || (num == 1 && b.Size() < size + size / 4)) then b.Size() else size
  }

  /** The buffers given, those of them that stood for nothing, those copied, those gone, and what went to the writer. */
  datatype Trace = Trace(inputs: set<Buf>, hollow: set<Buf>, copied: set<Buf>, gone: set<Buf>, seen: set<Buf>)

  /** Each buffer given is still waiting, on its way or with the writer itself, stood for nothing, or was copied, as
      only read-only ones are, and those only where they have to be; nothing read-only goes out then. Buffers are gone
      only after a failure. */
  ghost predicate Traced(waiting: seq<Buf>, out: seq<Buf>, t: Trace, needInTemp: bool) {
    && (needInTemp ==> forall b :: b in out ==> !b.memory && !b.mmap)
    && (needInTemp ==> forall b :: b in t.seen ==> !b.memory && !b.mmap)
    && (forall b :: b in t.copied ==> needInTemp && (b.memory || b.mmap))
    && (forall b :: b in t.inputs ==>
          b in waiting || b in out || b in t.seen || b in t.copied || b in t.hollow || b in t.gone)
  }

  lemma TracedCopy(waiting: seq<Buf>, out: seq<Buf>, t: Trace, need: bool, whole: bool, copy: Buf)
    requires Traced(waiting, out, t, need) && waiting != [] && need && (waiting[0].memory || waiting[0].mmap)
    requires !copy.memory && !copy.mmap
    ensures Traced(if whole then waiting[1..] else waiting, out + [copy], t.(copied := t.copied + {waiting[0]}), need)
  {
    assert waiting == [waiting[0]] + waiting[1..];
  }

  lemma TracedMove(waiting: seq<Buf>, out: seq<Buf>, t: Trace, need: bool, asIs: bool)
    requires Traced(waiting, out, t, need) && waiting != []
    requires if asIs then !(need && (waiting[0].memory || waiting[0].mmap)) else waiting[0] in t.hollow
    ensures Traced(waiting[1..], if asIs then out + [waiting[0]] else out, t, need)
  {
    assert waiting == [waiting[0]] + waiting[1..];
  }

  lemma TracedOut(waiting: seq<Buf>, out: seq<Buf>, t: Trace, need: bool)
    requires Traced(waiting, out, t, need)
    ensures Traced(waiting, [], t.(gone := t.gone + set b | b in out), need)
    ensures Traced(waiting, [], t.(seen := t.seen + set b | b in out), need)
  {
  }

  lemma TracedMore(waiting: seq<Buf>, t: Trace, need: bool, input: seq<Buf>, hollow: set<Buf>)
    requires Traced(waiting, [], t, need)
    ensures var u := t.(inputs := t.inputs + (set b | b in input), hollow := t.hollow + hollow);
      && Traced(waiting + input, [], u, need)
      && ((forall b :: b in input ==> !(need && (b.memory || b.mmap))) ==>
           Traced(waiting, [], u.(seen := u.seen + set b | b in input), need))
  {
  }

  lemma IsHollow(c: Chains)
    requires Filled(c) && c.waiting != [] && c.waiting[0].Size() == 0 && !c.waiting[0].Special()
    ensures c.waiting[0] in c.hollow
  {
  }

  class Context {
    const size: nat
    const num: nat
    const tag: nat
    const sendfile: bool
    const needInMemory: bool
    const needInTemp: bool
    const writer: Writer
    var buf: Buf?
    var waiting: seq<Buf>
    var free: seq<Buf>
    var busy: seq<Buf>
    var made: nat
    ghost var temps: set<Buf>
    ghost var given: seq<Item>
    ghost var lost: seq<Item>
    ghost var extra: nat
    ghost var broken: bool
    ghost var inputs: set<Buf>
    ghost var hollow: set<Buf>
    ghost var copied: set<Buf>
    ghost var gone: set<Buf>

    constructor (size: nat, num: nat, tag: nat, sendfile: bool, needInMemory: bool, needInTemp: bool, writer: Writer)
      requires size > 0 && writer.Valid() && writer.out == [] && writer.handed == [] && writer.seen == {}
      ensures Valid() && waiting == [] && free == [] && busy == [] && made == 0 && temps == {}
      ensures given == [] && lost == [] && extra == 0 && !broken && inputs == hollow == copied == gone == {}
      ensures this.size == size && this.num == num && this.tag == tag && this.writer == writer
      ensures this.sendfile == sendfile && this.needInMemory == needInMemory && this.needInTemp == needInTemp
    {
      this.size, this.num, this.tag, this.writer := size, num, tag, writer;
      this.sendfile, this.needInMemory, this.needInTemp := sendfile, needInMemory, needInTemp;
      buf, waiting, free, busy, made := null, [], [], [], 0;
      temps, given, lost, extra, broken := {}, [], [], 0, false;
      inputs, hollow, copied, gone := {}, {}, {}, {};
    }

    ghost function Here(out: seq<Buf>): Chains
      reads this, writer
    {
      Chains(waiting, out, free, busy, writer.out, buf, hollow)
    }

    /** The temporary buffers are no more than allowed, and none is lost unless a call failed. */
    ghost predicate Temps(out: seq<Buf>)
      reads this
    {
      && size > 0 && |temps| == made <= num
      && (!broken ==> forall t :: t in temps ==> t == buf || t in out || t in free || t in busy)
    }

    ghost function Whole(out: seq<Buf>): seq<Item>
      reads *
    {
      writer.handed + Stream(out) + lost + Stream(waiting)
    }

    ghost function Follow(): Trace
      reads `inputs, `hollow, `copied, `gone, writer`seen
    {
      Trace(inputs, hollow, copied, gone, writer.seen)
    }

    ghost predicate Account(out: seq<Buf>)
      reads `waiting, `broken, `inputs, `hollow, `copied, `gone, writer`seen
    {
      Traced(waiting, out, Follow(), needInTemp) && (gone != {} ==> broken)
    }

    ghost predicate Good(out: seq<Buf>)
      reads *
    {
      && Apart(Here(out), temps, tag) && Filled(Here(out)) && Temps(out) && writer.Valid() && Account(out)
      && Agrees(Whole(out), given, extra)
      && (lost != [] ==> out == [] && waiting != [] && waiting[0].Size() < 0)
    }

    ghost predicate Valid()
      reads *
    {
      buf == null && Good([])
    }

    method Copy(from: array<char>, pos: nat, n: nat, to: array<char>)
      requires pos + n <= from.Length && n <= to.Length && from != to
      modifies to
      ensures to[..n] == from[pos..pos + n]
    {
      forall i | 0 <= i < n {
        to[i] := from[pos + i];
      }
    }

    twostate lemma Copied(src: Buf, new n: nat, new dst: Buf, new stale: seq<Item>)
      requires old(src.Sane()) && 0 < n <= old(src.Size()) && n <= dst.data.Length
      requires dst.pos == 0 && dst.last == n && dst.InMemory()
      requires dst.data[..n] == old(src.data[src.pos..src.pos + n])
      requires dst.Flags() == if n == old(src.Size()) then old(src.Flags()) else stale
      requires n == old(src.Size()) ==> stale == []
      ensures dst.Items() == old(src.Taken(n)) + stale && old(src.Taken(n)) != []
    {
      hide Buf.Flags, Datas;
      ghost var s := dst.data[..n];
      DatasSize(s);
      assert dst.data[dst.pos..dst.last] == s;
      assert dst.Items() == Datas(s) + dst.Flags();
      if n == old(src.Size()) {
        assert old(src.Taken(n)) == Datas(s) + dst.Flags();
      } else {
        assert old(src.Taken(n)) == Datas(s);
      }
    }

    /** ngx_output_chain_copy_buf. The flags of the copy are stale exactly when it is not the end of the buffer and the
        temporary buffer had flags. */
    method CopyBuf() returns (ghost part: seq<Item>, ghost stale: seq<Item>)
      requires waiting != [] && waiting[0].Size() > 0 && waiting[0].Sane()
      requires buf != null && buf.pos == buf.last == 0 && buf.temporary && buf.data.Length > 0
      requires buf != waiting[0] && buf.data != waiting[0].data
      modifies {waiting[0]}`pos, buf, buf.data
      ensures var src := waiting[0];
        && src.Size() >= 0 && src.Sane() && old(src.Items()) == part + src.Items() && part != []
        && buf.Size() > 0 && buf.Sane() && buf.Items() == part + stale
        && (stale == [] || exists f, l, c :: stale == [Mark(f, l, c)])
        && (stale != [] <==> src.Size() > 0 && old(buf.Marked()))
        && src.Size() == Rest(old(src.Size()), buf) && (src.Size() == 0 ==> buf.SameFlags(src))
      ensures old(!buf.Marked() && !waiting[0].Marked()) ==> !buf.Marked()
    {
      hide Buf.Items, Buf.Taken;
      var src, dst := waiting[0], buf;
      var n := if src.Size() < dst.data.Length then src.Size() else dst.data.Length;
      stale := if n < src.Size() then dst.Flags() else [];
      part := src.Taken(n);
      Copy(src.data, src.pos, n, dst.data);
      src.pos := src.pos + n;
      dst.last := n;
      if src.pos == src.last {
        dst.flush, dst.lastBuf, dst.lastInChain := src.flush, src.lastBuf, src.lastInChain;
      }
      Advanced(src, n);
      Copied(src, n, dst, stale);
    }

    /** ngx_output_chain_as_is */
    predicate AsIs(b: Buf)
      reads this, b
    {
      b.Special()
      || ((sendfile || b.InMemory()) && (needInMemory ==> b.InMemory()) && !(needInTemp && b.ReadOnly()))
    }

    method NewBuf(ghost c: Chains) returns (b: Buf)
      requires waiting != [] && waiting[0].Size() > 0 && size > 0
      requires Filled(c) && writer.Valid() && c.pending == writer.out && c.waiting == waiting
      ensures fresh(b) && fresh(b.data) && b.tag == tag && b.temporary && !b.memory && !b.mmap
      ensures b.pos == b.last == 0 && !b.Marked()
      ensures b.data.Length == TempSize(size, num, waiting[0])
      ensures Filled(c) && writer.Valid()
      ensures Stream(c.out) == old(Stream(c.out)) && Stream(c.waiting) == old(Stream(c.waiting))
      ensures old(Plain(temps, waiting, needInTemp)) ==> Plain(temps, waiting, needInTemp)
    {
      hide Stream, Distinct, Filled, Carried, TempSize;
      var data := new char[TempSize(size, num, waiting[0])];
      b := new Buf(data, true, false, false, false, tag);
      AllKept(c);
    }

    twostate predicate Grown()
      reads this
    {
      old(temps) <= temps && forall t :: t in temps && t !in old(temps) ==> fresh(t) && fresh(t.data)
    }

    /** The new buffer is taken in hand. */
    method Adopt(ghost out: seq<Buf>, b: Buf)
      requires Good(out) && buf == null && made < num && b !in temps && !b.Marked()
      requires Apart(Here(out).(buf := b), temps + {b}, tag) && Filled(Here(out).(buf := b))
      modifies `buf, `made, `temps
      ensures Good(out) && buf == b && temps == old(temps) + {b}
      ensures old(Plain(temps, waiting, needInTemp)) ==> Plain(temps, waiting, needInTemp) && extra == old(extra)
    {
      hide Stream, Agrees, Apart, Filled, Writer.Valid, Traced;
      buf := b;
      made := made + 1;
      temps := temps + {b};
    }

    /** ngx_output_chain_get_buf */
    method GetBuf(ghost out: seq<Buf>)
      requires Good(out) && buf == null && waiting != [] && waiting[0].Size() > 0 && made < num
      modifies `buf, `made, `temps
      ensures Good(out) && buf != null && fresh(buf) && fresh(buf.data) && temps == old(temps) + {buf} && buf.tag == tag
      ensures buf.data.Length == TempSize(size, num, waiting[0]) && !buf.Marked()
      ensures (old(Stuck(busy)) ==> Stuck(busy)) && (old(Idle(writer.out)) ==> Idle(writer.out))
      ensures old(Plain(temps, waiting, needInTemp)) ==> Plain(temps, waiting, needInTemp) && extra == old(extra)
    {
      hide Stream, Agrees, Apart, Filled, TempSize, Writer.Valid, Stuck, Idle, Plain, Temps;
      ghost var c := Here(out);
      Roomy(out);
      var b := NewBuf(c);
      NewTemp(c, temps, tag, b);
      Adopt(out, b);
    }

    lemma Roomy(out: seq<Buf>)
      requires Temps(out)
      ensures size > 0
    {
    }

    method GetFree(ghost out: seq<Buf>)
      requires Good(out) && buf == null && free != []
      modifies `buf, `free
      ensures Good(out) && buf == old(free[0]) && free == old(free[1..])
      ensures (old(Stuck(busy)) ==> Stuck(busy)) && (old(Idle(writer.out)) ==> Idle(writer.out))
      ensures old(Plain(temps, waiting, needInTemp)) ==> Plain(temps, waiting, needInTemp) && extra == old(extra)
    {
      hide Stream, Agrees, Apart, Filled, Writer.Valid, Traced;
      FreeTaken(Here(out), temps, tag);
      buf, free := free[0], free[1..];
    }

    /** The first buffer waiting is copied into the one in hand, and no other changes. */
    method CopyApart(ghost c: Chains) returns (ghost part: seq<Item>, ghost stale: seq<Item>)
      requires needInTemp && waiting != [] && waiting[0].ReadOnly()
      requires c == Here(c.out) && waiting != [] && waiting[0].Size() > 0 && buf != null
      requires Apart(c, temps, tag) && Filled(c) && writer.Valid()
      modifies {waiting[0]}`pos, buf, buf.data
      ensures var src := waiting[0];
        && src.Size() >= 0 && src.Sane() && old(src.Items()) == part + src.Items() && part != []
        && buf.Size() > 0 && buf.Sane() && buf.Items() == part + stale
        && (stale == [] || exists f, l, c :: stale == [Mark(f, l, c)])
        && (stale != [] <==> src.Size() > 0 && old(buf.Marked()))
        && src.Size() == Rest(old(src.Size()), buf) && (src.Size() == 0 ==> buf.SameFlags(src))
      ensures old(Sized(waiting)) ==> Sized(waiting)
      ensures (old(Stuck(busy)) ==> Stuck(busy)) && (old(Idle(writer.out)) ==> Idle(writer.out))
      ensures Filled(Without(c)) && writer.Valid()
      ensures Stream(c.out) == old(Stream(c.out)) && Stream(c.waiting[1..]) == old(Stream(c.waiting[1..]))
      ensures old(!buf.Marked() && !waiting[0].Marked()) ==> !buf.Marked()
    {
      hide Stream, Buf.Items, Carried, Buf.Flags;
      assert waiting == [waiting[0]] + waiting[1..];
      assert Filled(Without(c));
      part, stale := CopyBuf();
      AllKept(Without(c));
    }

    /** The items with the copy between those on the way and those waiting. */
    method CopyHead(ghost c: Chains)
      requires needInTemp && waiting != [] && waiting[0].ReadOnly()
      requires c == Here(c.out) && Good(c.out) && buf != null && waiting != [] && waiting[0].Size() > 0
      modifies `extra, {waiting[0]}`pos, buf, buf.data
      ensures buf.Carries() && waiting[0].Size() >= 0 && waiting[0].Sane() && Filled(Without(c)) && writer.Valid()
      ensures old(Sized(waiting)) ==> Sized(waiting)
      ensures (old(Stuck(busy)) ==> Stuck(busy)) && (old(Idle(writer.out)) ==> Idle(writer.out))
      ensures Agrees(writer.handed + (Stream(c.out) + buf.Items()) + [] + Stream(waiting), given, extra)
      ensures |Stream(waiting)| < old(|Stream(waiting)|)
      ensures extra == old(extra) + if waiting[0].Size() > 0 && old(buf.Marked()) then 1 else 0
      ensures var src := waiting[0];
        src.Size() == Rest(old(src.Size()), buf) && (src.Size() == 0 ==> buf.SameFlags(src))
      ensures old(Plain(temps, waiting, needInTemp)) ==> Plain(temps, waiting, needInTemp) && extra == old(extra)
    {
      hide Stream, Buf.Items, Apart, Filled, Writer.Valid, Agrees, Buf.Flags, Sized, Stuck, Idle, Traced;
      ghost var o, y := Stream(c.out), Stream(waiting[1..]);
      StreamHead(waiting);
      InTemps(c, temps, tag);
      ghost var part, stale := CopyApart(c);
      AgreesStep(writer.handed, o, part, stale, waiting[0].Items(), y, given, extra);
      StreamHead(waiting);
      extra := extra + |stale|;
    }

    /** The copy goes out, and the buffer it was made of stays while it has bytes. */
    method PutOut(out: seq<Buf>) returns (next: seq<Buf>)
      requires waiting != [] && buf != null && buf.Carries() && waiting[0].Size() >= 0 && waiting[0].Sane()
      requires waiting[0].InMemory() && lost == [] && Temps(out) && Account(out)
      requires needInTemp && waiting[0].ReadOnly()
      requires Apart(Here(out), temps, tag) && Filled(Without(Here(out))) && writer.Valid()
      requires Agrees(writer.handed + (Stream(out) + buf.Items()) + [] + Stream(waiting), given, extra)
      modifies `buf, `waiting, `copied
      ensures Good(next) && buf == null && next == out + [old(buf)] && Stream(waiting) == old(Stream(waiting))
      ensures waiting == if old(waiting[0]).Size() == 0 then old(waiting[1..]) else old(waiting)
      ensures old(Plain(temps, waiting, needInTemp)) ==> Plain(temps, waiting, needInTemp) && extra == old(extra)
    {
      hide Stream, Buf.Items, Apart, Filled, Writer.Valid, Agrees, Traced;
      var src, dst := waiting[0], buf;
      InTemps(Here(out), temps, tag);
      TracedCopy(waiting, out, Follow(), needInTemp, src.Size() == 0, dst);
      CopyTaken(Here(out), temps, tag, src.Size() == 0);
      StreamLast(out, dst);
      if src.Size() == 0 {
        StreamHead(waiting);
        Spent(src);
        assert Stream(waiting) == Stream(waiting[1..]);
        waiting := waiting[1..];
      }
      copied := copied + {src};
      next := out + [dst];
      buf := null;
      assert lost == [];
    }

    method Step(out: seq<Buf>) returns (next: seq<Buf>)
      requires needInTemp && waiting != [] && waiting[0].ReadOnly()
      requires Good(out) && buf != null && waiting != [] && waiting[0].Size() > 0
      modifies `buf, `waiting, `extra, `copied, {waiting[0]}`pos, buf, buf.data
      ensures Good(next) && buf == null && next == out + [old(buf)]
      ensures old(Sized(waiting)) ==> Sized(waiting)
      ensures (old(Stuck(busy)) ==> Stuck(busy)) && (old(Idle(writer.out)) ==> Idle(writer.out))
      ensures waiting == if old(waiting[0]).Size() == 0 then old(waiting[1..]) else old(waiting)
      ensures |Stream(waiting)| < old(|Stream(waiting)|)
      ensures extra == old(extra) + if old(waiting[0]).Size() > 0 && old(buf.Marked()) then 1 else 0
      ensures var src, dst := old(waiting[0]), old(buf);
        src.Size() == Rest(old(src.Size()), dst) && (src.Size() == 0 ==> dst.SameFlags(src))
      ensures old(Plain(temps, waiting, needInTemp)) ==> Plain(temps, waiting, needInTemp) && extra == old(extra)
    {
      hide Stream, Buf.Items, Apart, Filled, Writer.Valid, Agrees, Buf.Flags, Buf.Marked, Stuck, Idle, Plain;
      CopyHead(Here(out));
      next := PutOut(out);
    }

    /** The first buffer waiting goes out as it is, or is left out. */
    method Move(out: seq<Buf>, asIs: bool) returns (next: seq<Buf>)
      requires Good(out) && buf == null && waiting != []
      requires if asIs then waiting[0].Carries() else waiting[0].Size() == 0 && !waiting[0].Special()
      requires asIs ==> !(needInTemp && (waiting[0].memory || waiting[0].mmap))
      modifies `waiting
      ensures old(Sized(waiting)) ==> Sized(waiting)
      ensures (old(Stuck(busy)) ==> Stuck(busy)) && (old(Idle(writer.out)) ==> Idle(writer.out))
      ensures Good(next) && waiting == old(waiting[1..]) && next == (if asIs then out + [old(waiting[0])] else out)
      ensures |Stream(waiting)| <= old(|Stream(waiting)|)
      ensures old(Plain(temps, waiting, needInTemp)) ==> Plain(temps, waiting, needInTemp) && extra == old(extra)
    {
      hide Stream, Buf.Items, Apart, Filled, Writer.Valid, Agrees, Traced;
      var b := waiting[0];
      if !asIs {
        IsHollow(Here(out));
        Spent(b);
      }
      TracedMove(waiting, out, Follow(), needInTemp, asIs);
      HeadTaken(Here(out), temps, tag, asIs);
      StreamHead(waiting);
      StreamLast(out, b);
      next := if asIs then out + [b] else out;
      MovedItems(writer.handed, Stream(out), lost, b.Items(), Stream(waiting[1..]), asIs);
      Shift(next);
    }

    lemma MovedItems(h: seq<Item>, o: seq<Item>, l: seq<Item>, b: seq<Item>, w: seq<Item>, asIs: bool)
      requires l == [] || o == b == []
      requires asIs || b == []
      ensures h + o + l + (b + w) == h + (if asIs then o + b else o) + l + w
    {
    }

    method Shift(ghost next: seq<Buf>)
      requires waiting != [] && buf == null && Temps(next) && writer.Valid()
      requires var d := Here(next).(waiting := waiting[1..]); Apart(d, temps, tag) && Filled(d)
      requires Traced(waiting[1..], next, Follow(), needInTemp) && (gone != {} ==> broken)
      requires Agrees(writer.handed + Stream(next) + lost + Stream(waiting[1..]), given, extra)
      requires lost == []
      modifies `waiting
      ensures Good(next) && waiting == old(waiting[1..])
    {
      hide Stream, Apart, Filled, Writer.Valid, Agrees, Traced;
      waiting := waiting[1..];
    }

    /** Temporary buffers run out only when all that are allowed are in use, or something can go out before. */
    method TakeBuf(out: seq<Buf>) returns (ok: bool)
      requires Good(out) && buf == null && waiting != [] && waiting[0].Size() > 0
      modifies `buf, `free, `made, `temps
      ensures Good(out) && ok == (buf != null) && Grown()
      ensures old(Sized(waiting)) ==> Sized(waiting)
      ensures (old(Stuck(busy)) ==> Stuck(busy)) && (old(Idle(writer.out)) ==> Idle(writer.out))
      ensures Stream(waiting) == old(Stream(waiting))
      ensures !ok ==> free == [] && (out != [] || made == num)
      ensures ok ==> buf in old(free) || (fresh(buf) && fresh(buf.data) && !buf.Marked())
      ensures free == old(free) || (old(free) != [] && free == old(free[1..]))
      ensures old(Plain(temps, waiting, needInTemp)) ==> Plain(temps, waiting, needInTemp) && extra == old(extra)
    {
      hide Stream, Apart, Filled, Writer.Valid, Agrees, TempSize, Temps, Plain;
      if free != [] {
        GetFree(out);
      } else if out != [] || made == num {
        return false;
      } else {
        MayGrow(out);
        GetBuf(out);
      }
      return true;
    }

    lemma MayGrow(out: seq<Buf>)
      requires Temps(out)
      ensures made <= num
    {
    }

    lemma OutDropped(c: Chains, temps: set<Buf>, tag: nat)
      requires Apart(c, temps, tag) && Filled(c)
      ensures Apart(c.(out := []), temps, tag) && Filled(c.(out := []))
    {
    }

    /** What is on the way is lost when a buffer of negative size is found behind it. */
    method Lose(ghost out: seq<Buf>)
      requires Good(out) && buf == null && waiting != [] && waiting[0].Size() < 0
      modifies `lost, `broken, `gone
      ensures Good([]) && lost == (if out == [] then old(lost) else Stream(out)) && Left() == old(Left())
      ensures (old(Stuck(busy)) ==> Stuck(busy)) && (old(Idle(writer.out)) ==> Idle(writer.out))
      ensures old(Plain(temps, waiting, needInTemp)) ==> Plain(temps, waiting, needInTemp) && extra == old(extra)
    {
      hide Stream, Writer.Valid, Agrees, Traced, Apart, Filled, Stuck, Idle, Plain;
      if out != [] {
        NoStream();
        OutDropped(Here(out), temps, tag);
        TracedOut(waiting, out, Follow(), needInTemp);
        ghost var was := Whole(out);
        assert lost == [];
        lost, broken := Stream(out), true;
        gone := gone + set b | b in out;
        assert Whole([]) == was;
      }
    }

    ghost function Left(): nat
      reads *
    {
      |Stream(waiting)| + |waiting|
    }

    /** One round of the inner loop; `more` tells whether there may be another. */
    method Round(out: seq<Buf>) returns (more: bool, next: seq<Buf>)
      requires Good(out) && buf == null && waiting != [] && waiting[0].Size() >= 0
      modifies `waiting, `buf, `free, `made, `temps, `extra, `copied
      modifies {waiting[0]}`pos, (set b | b in free), Arrays(free)
      ensures Good(next) && buf == null && Grown()
      ensures old(Sized(waiting)) ==> Sized(waiting)
      ensures (old(Stuck(busy)) ==> Stuck(busy)) && (old(Idle(writer.out)) ==> Idle(writer.out))
      ensures more ==> Left() < old(Left())
      ensures !more ==> next == out && free == [] && (out != [] || made == num) && Left() == old(Left())
      ensures !more ==> waiting == old(waiting) && waiting[0].Size() > 0 && !AsIs(waiting[0])
      ensures waiting == old(waiting) || waiting == old(waiting[1..])
      ensures free == old(free) || (old(free) != [] && free == old(free[1..]))
      ensures next == out || exists b :: next == out + [b] && (b == old(waiting[0]) || b in temps)
      ensures old(Plain(temps, waiting, needInTemp)) ==> Plain(temps, waiting, needInTemp) && extra == old(extra)
    {
      hide Stream, Apart, Filled, Writer.Valid, Agrees, Temps, Sized, Buf.Items, Plain;
      var b := waiting[0];
      var size := b.Size();
      if size == 0 && !b.Special() {
        next := Move(out, false);
        return true, next;
      }
      IsSane(Here(out));
      if AsIs(b) {
        next := Move(out, true);
        return true, next;
      }
      if buf == null {
        var found := TakeBuf(out);
        if !found {
          return false, out;
        }
      }
      InTemps(Here(out), temps, tag);
      next := Step(out);
      return true, next;
    }

    lemma IsSane(c: Chains)
      requires Filled(c) && c.waiting != []
      ensures c.waiting[0].Sane()
    {
    }

    lemma InTemps(c: Chains, temps: set<Buf>, tag: nat)
      requires Apart(c, temps, tag) && c.buf != null
      ensures c.buf in temps && !c.buf.memory && !c.buf.mmap
    {
    }

    /** The inner loop: buffers waiting go out, as they are or copied, while there are temporary buffers. */
    method FillLoop() returns (ok: bool, out: seq<Buf>)
      requires Valid()
      modifies `waiting, `buf, `free, `made, `temps, `lost, `extra, `broken, `copied, `gone
      modifies (set b | b in waiting)`pos, (set b | b in free), Arrays(free)
      ensures Good(out) && buf == null && Grown()
      ensures ok <==> waiting == [] || waiting[0].Size() >= 0
      ensures !ok ==> out == []
      ensures old(Sized(waiting)) ==> ok && Sized(waiting)
      ensures (old(Stuck(busy)) ==> Stuck(busy)) && (old(Idle(writer.out)) ==> Idle(writer.out))
      ensures ok && waiting != [] ==> free == [] && (out != [] || made == num) && !AsIs(waiting[0])
      ensures ok ==> lost == old(lost) == [] && broken == old(broken) && gone == old(gone)
      ensures forall b :: b in waiting ==> b in old(waiting)
      ensures forall b :: b in out ==> b in old(waiting) || b in temps
      ensures Left() <= old(Left()) && (ok && out != [] ==> Left() < old(Left()))
      ensures old(Plain(temps, waiting, needInTemp)) ==> Plain(temps, waiting, needInTemp) && extra == old(extra)
    {
      hide Stream, Apart, Filled, Writer.Valid, Agrees, Temps, Sized, Left, Stuck, Idle, Plain, Good;
      out := [];
      var more := true;
      while waiting != [] && more
        invariant Good(out) && buf == null && Grown()
        invariant lost == old(lost) && broken == old(broken) && gone == old(gone) && (lost != [] ==> more)
        invariant forall b :: b in waiting ==> b in old(waiting)
        invariant forall b :: b in free ==> b in old(free)
        invariant forall b :: b in out ==> b in old(waiting) || b in temps
        invariant old(Sized(waiting)) ==> Sized(waiting)
        invariant (old(Stuck(busy)) ==> Stuck(busy)) && (old(Idle(writer.out)) ==> Idle(writer.out))
        invariant old(Plain(temps, waiting, needInTemp)) ==> Plain(temps, waiting, needInTemp) && extra == old(extra)
        invariant Left() <= old(Left()) && (out != [] ==> Left() < old(Left()))
        invariant !more ==> free == [] && (out != [] || made == num)
        invariant !more ==> waiting != [] && waiting[0].Size() > 0 && !AsIs(waiting[0])
        decreases more, Left()
      {
        if waiting[0].Size() < 0 {
          IsSized(waiting);
          Lose(out);
          return false, [];
        }
        assert waiting[0] in old(waiting);
        LostBefore(out);
        more, out := Round(out);
      }
      LostBefore(out);
      return true, out;
    }

    /** The text on the way, lost and waiting is what was waiting before. */
    method Fill() returns (ok: bool, out: seq<Buf>)
      requires Valid()
      modifies `waiting, `buf, `free, `made, `temps, `lost, `extra, `broken, `copied, `gone
      modifies (set b | b in waiting)`pos, (set b | b in free), Arrays(free)
      ensures Good(out) && buf == null && Grown()
      ensures ok <==> waiting == [] || waiting[0].Size() >= 0
      ensures !ok ==> out == []
      ensures Text(Stream(out) + lost + Stream(waiting)) == Text(old(lost) + old(Stream(waiting)))
      ensures old(Sized(waiting)) ==> ok && Sized(waiting)
      ensures (old(Stuck(busy)) ==> Stuck(busy)) && (old(Idle(writer.out)) ==> Idle(writer.out))
      ensures ok && waiting != [] ==> free == [] && (out != [] || made == num) && !AsIs(waiting[0])
      ensures ok ==> lost == old(lost) == [] && broken == old(broken) && gone == old(gone)
      ensures forall b :: b in waiting ==> b in old(waiting)
      ensures forall b :: b in out ==> b in old(waiting) || b in temps
      ensures Left() <= old(Left()) && (ok && out != [] ==> Left() < old(Left()))
      ensures old(Plain(temps, waiting, needInTemp)) ==> Plain(temps, waiting, needInTemp) && extra == old(extra)
    {
      hide Stream, Text, Good, Sized, Stuck, Idle, Plain, Left;
      ghost var before := lost + Stream(waiting);
      GivenIs(before);
      ok, out := FillLoop();
      SameText(before, out);
    }

    lemma GivenIs(before: seq<Item>)
      requires Good([]) && before == lost + Stream(waiting)
      ensures Text(writer.handed + before) == Text(given)
    {
      hide Stream, Text, Apart, Filled, Writer.Valid, Temps;
      NoStream();
      assert Whole([]) == writer.handed + before;
    }

    lemma SameText(before: seq<Item>, out: seq<Buf>)
      requires Good(out) && Text(writer.handed + before) == Text(given)
      ensures Text(Stream(out) + lost + Stream(waiting)) == Text(before)
    {
      hide Stream, Text, Apart, Filled, Writer.Valid, Temps;
      var after := Stream(out) + lost + Stream(waiting);
      assert Whole(out) == writer.handed + after;
      TextAppend(writer.handed, after);
      TextAppend(writer.handed, before);
      Cancel(Text(writer.handed), Text(after), Text(before));
    }

    lemma LostBefore(out: seq<Buf>)
      requires Good(out)
      ensures lost != [] ==> waiting != [] && waiting[0].Size() < 0
    {
    }

    lemma IsSized(bs: seq<Buf>)
      requires bs != [] && bs[0].Size() < 0
      ensures !Sized(bs)
    {
    }

    method WriteAll(out: seq<Buf>, ghost c: Chains) returns (rc: Code)
      requires c == Here(out) && Apart(c, temps, tag) && Filled(c) && writer.Valid()
      modifies writer, (set b | b in c.pending + c.out)`pos
      ensures writer.Valid() && Filled(AtWriter(c, writer.out, rc == Error))
      ensures writer.handed == old(writer.handed) + old(Stream(c.out))
      ensures rc == Ok ==> Idle(writer.out)
      ensures forall b :: b in writer.out ==> b in c.pending || b in c.out
      ensures Same(waiting)
      ensures var a := old(writer.answers(writer.calls));
        && (rc == Error ==> a.failed && writer.Broke()) && (rc == Again ==> writer.Holding())
        && (rc == Again && writer.out != [] ==> |Text(writer.sent)| == |Text(old(writer.sent))| + a.bytes)
      ensures forall b :: b in out && b !in writer.out ==> b.Size() == 0
      ensures writer.seen == old(writer.seen) + set b | b in out
    {
      hide Stream, Plain;
      ghost var j;
      rc, j := writer.Write(out);
      assert c.out[..j] == c.out;
    }

    /** What waits is as before. */
    method WriteOut(out: seq<Buf>, ghost c: Chains) returns (rc: Code)
      requires c == Here(out) && Apart(c, temps, tag) && Filled(c) && writer.Valid()
      modifies writer, (set b | b in c.pending + c.out)`pos
      ensures writer.Valid() && Filled(AtWriter(c, writer.out, rc == Error))
      ensures writer.handed == old(writer.handed) + old(Stream(c.out))
      ensures rc == Ok ==> Idle(writer.out)
      ensures forall b :: b in writer.out ==> b in c.pending || b in c.out
      ensures Stream(waiting) == old(Stream(waiting)) && (old(Sized(waiting)) ==> Sized(waiting))
      ensures waiting != [] ==> waiting[0].Size() == old(waiting[0].Size())
      ensures var a := old(writer.answers(writer.calls));
        && (rc == Error ==> a.failed && writer.Broke()) && (rc == Again ==> writer.Holding())
        && (rc == Again && writer.out != [] ==> |Text(writer.sent)| == |Text(old(writer.sent))| + a.bytes)
      ensures forall b :: b in out && b !in writer.out ==> b.Size() == 0
      ensures old(Plain(temps, waiting, needInTemp)) ==> Plain(temps, waiting, needInTemp) && extra == old(extra)
      ensures writer.seen == old(writer.seen) + set b | b in out
    {
      hide Stream, Plain, Apart, Filled, Writer.Valid, Text, Idle;
      rc := WriteAll(out, c);
      StreamKept(waiting);
      assert waiting != [] ==> waiting[0] in waiting;
    }

    /** They wait behind those the connection has not taken all of, unless the writer failed. */
    method Settle(out: seq<Buf>, failed: bool)
      requires Account([]) && Temps(out) && buf == null && writer.Valid()
      requires lost != [] ==> waiting != [] && waiting[0].Size() < 0
      requires var d := AtWriter(Here(out), writer.out, failed); Apart(d, temps, tag) && Filled(d)
      requires Agrees(writer.handed + lost + Stream(waiting), given, extra)
      modifies `busy, `broken
      ensures Good([]) && (if failed then broken else broken == old(broken))
      ensures Stream(waiting) == old(Stream(waiting)) && (busy == old(busy) || busy == old(busy) + out)
      ensures old(Plain(temps, waiting, needInTemp)) ==> Plain(temps, waiting, needInTemp) && extra == old(extra)
      ensures !failed ==> busy == old(busy) + out
    {
      hide Stream, Agrees, Apart, Filled, Writer.Valid, Traced;
      ghost var d := AtWriter(Here(out), writer.out, failed);
      if failed {
        broken := true;
      } else {
        busy := busy + out;
      }
      NoStream();
      assert Here([]) == d && writer.handed + [] == writer.handed;
    }

    /** The buffers on the way are handed to the writer. */
    method Hand(out: seq<Buf>) returns (rc: Code)
      requires Good(out) && buf == null
      modifies writer, `busy, `broken, (set b | b in writer.out + out)`pos
      ensures Good([]) && (if rc == Error then broken else broken == old(broken))
      ensures rc == Ok ==> Idle(writer.out)
      ensures forall b :: b in writer.out ==> b in old(writer.out) || b in out
      ensures busy == old(busy) || busy == old(busy) + out
      ensures Left() == old(Left()) && (old(Sized(waiting)) ==> Sized(waiting))
      ensures old(Plain(temps, waiting, needInTemp)) ==> Plain(temps, waiting, needInTemp) && extra == old(extra)
      ensures var a := old(writer.answers(writer.calls));
        && (rc == Error ==> a.failed && writer.Broke()) && (rc == Again ==> writer.Holding())
        && (rc == Again && writer.out != [] ==> |Text(writer.sent)| == |Text(old(writer.sent))| + a.bytes)
      ensures forall b :: b in out && b !in writer.out ==> b.Size() == 0
      ensures rc != Error ==> busy == old(busy) + out
      ensures writer.handed == old(writer.handed) + old(Stream(out))
      ensures gone == old(gone)
    {
      hide Stream, Agrees, Apart, Filled, Writer.Valid, Sized, Idle, Plain, Text, Traced;
      ghost var c := Here(out);
      TracedOut(waiting, out, Follow(), needInTemp);
      rc := WriteOut(out, c);
      Handed(c, temps, tag, writer.out, rc == Error);
      Settle(out, rc == Error);
    }

    /** A temporary buffer that was sent is empty; the writer does not know it any more. */
    method Reset(ghost c: Chains)
      requires c == Here([]) && Apart(c, temps, tag) && Filled(c) && writer.Valid() && buf == null
      requires busy != [] && busy[0].Size() == 0 && busy[0].tag == tag
      modifies {busy[0]}`pos, {busy[0]}`last
      ensures busy[0] !in writer.out && Filled(Released(c, true)) && writer.Valid()
      ensures Stream(waiting) == old(Stream(waiting)) && (old(Sized(waiting)) ==> Sized(waiting))
      ensures old(Idle(writer.out)) ==> Idle(writer.out)
      ensures waiting != [] ==> waiting[0].Size() == old(waiting[0].Size())
      ensures old(Plain(temps, waiting, needInTemp)) ==> Plain(temps, waiting, needInTemp) && extra == old(extra)
    {
      hide Stream, Plain;
      var b := busy[0];
      assert busy == [b] + busy[1..] && b in temps;
      assert b !in writer.out;
      b.pos := 0;
      b.last := 0;
      assert waiting != [] ==> waiting[0] in waiting;
      AllKept(c.(busy := busy[1..]));
    }

    method Release()
      requires Valid() && busy != [] && busy[0].Size() == 0
      modifies `busy, `free, {busy[0]}`pos, {busy[0]}`last
      ensures Valid() && busy == old(busy[1..])
      ensures free == if old(busy[0]).tag == tag then [old(busy[0])] + old(free) else old(free)
      ensures Left() == old(Left()) && (old(Sized(waiting)) ==> Sized(waiting))
      ensures old(Idle(writer.out)) ==> Idle(writer.out)
      ensures old(Plain(temps, waiting, needInTemp)) ==> Plain(temps, waiting, needInTemp) && extra == old(extra)
    {
      hide Stream, Agrees, Apart, Filled, Writer.Valid, Sized, Idle, Plain, Traced;
      ghost var c := Here([]);
      var b := busy[0];
      if b.tag == tag {
        Reset(c);
        ReleasedApart(c, temps, tag);
        free := [b] + free;
      } else {
        ReleasedApart(c, temps, tag);
        NotMine(c, temps, tag);
      }
      busy := busy[1..];
      assert Here([]) == Released(c, b.tag == tag);
    }

    lemma NotMine(c: Chains, temps: set<Buf>, tag: nat)
      requires Apart(c, temps, tag) && Filled(c) && c.busy != [] && c.busy[0].tag != tag
      ensures Filled(Released(c, false)) && c.busy[0] !in temps
    {
      assert c.busy == [c.busy[0]] + c.busy[1..];
    }

    /** The second half of ngx_chain_update_chains. */
    method Recycle()
      requires Valid()
      modifies `busy, `free, (set b | b in busy)`pos, (set b | b in busy)`last
      ensures Valid() && Stuck(busy) && forall b :: b in busy ==> b in old(busy)
      ensures Left() == old(Left()) && (old(Sized(waiting)) ==> Sized(waiting))
      ensures old(Idle(writer.out)) ==> Idle(writer.out)
      ensures old(Plain(temps, waiting, needInTemp)) ==> Plain(temps, waiting, needInTemp) && extra == old(extra)
    {
      hide Stream, Agrees, Apart, Filled, Writer.Valid, Sized, Idle, Temps, Left, Plain;
      while busy != [] && busy[0].Size() == 0
        invariant Valid() && forall b :: b in busy ==> b in old(busy)
        invariant Left() == old(Left()) && (old(Sized(waiting)) ==> Sized(waiting))
        invariant old(Idle(writer.out)) ==> Idle(writer.out)
        invariant old(Plain(temps, waiting, needInTemp)) ==> Plain(temps, waiting, needInTemp) && extra == old(extra)
        decreases |busy|
      {
        assert busy[0] in busy;
        Release();
      }
      IsStuck(Here([]));
    }

    lemma IsStuck(c: Chains)
      requires Filled(c) && (c.busy != [] ==> c.busy[0].Size() != 0)
      ensures Stuck(c.busy)
    {
      assert c.busy != [] ==> c.busy[0] in c.busy;
    }

    ghost function Bufs(): set<Buf>
      reads this, writer
    {
      (set b | b in waiting) + (set b | b in busy) + (set b | b in writer.out) + temps
    }

    ghost function Memory(): set<array<char>>
      reads this
    {
      set t | t in temps :: t.data
    }

    lemma FreeInTemps()
      requires Valid()
      ensures forall b :: b in free ==> b in temps
    {
    }

    twostate predicate Within()
      reads this, writer
    {
      Grown() && forall b :: b in Bufs() ==> b in old(Bufs()) || fresh(b)
    }

    /** What is on its way is handed over, and what was sent comes free. */
    method Deliver(out: seq<Buf>) returns (rc: Code)
      requires Good(out) && buf == null
      modifies writer, `busy, `free, `broken, (set b | b in writer.out + out + busy)`pos, (set b | b in busy + out)`last
      ensures Valid() && (rc != Error ==> Stuck(busy) && (rc == Ok ==> Idle(writer.out)))
      ensures (rc == Error ==> writer.Broke()) && (rc == Again ==> writer.Holding())
      ensures forall b :: b in busy ==> b in old(busy) || b in out
      ensures forall b :: b in writer.out ==> b in old(writer.out) || b in out
      ensures Left() == old(Left()) && (old(Sized(waiting)) ==> Sized(waiting))
      ensures old(Plain(temps, waiting, needInTemp)) ==> Plain(temps, waiting, needInTemp) && extra == old(extra)
    {
      hide Good, Sized, Idle, Left, Stuck, Plain, Stream, Text;
      rc := Hand(out);
      if rc != Error {
        Recycle();
      }
    }

    /** One turn: fill, hand over, see what was sent. With nothing to hand over it is the last one, unless the first. */
    method Turn(last: Option<Code>) returns (next: Option<Code>, rc: Code)
      requires Valid()
      requires last.Some? ==> last.value != Error && Stuck(busy) && (last.value == Ok ==> Idle(writer.out))
      requires last == Some(Again) ==> writer.Holding()
      modifies this, writer, Bufs()`pos, Bufs()`last, temps, Memory()
      ensures Valid() && Within() && given == old(given)
      ensures old(Sized(waiting)) ==> lost == old(lost) && gone == old(gone) && Sized(waiting)
      ensures lost != [] ==> next == None && rc == Error
      ensures next.Some? ==> next.value != Error && Stuck(busy) && (next.value == Ok ==> Idle(writer.out))
      ensures next.Some? ==> Left() <= old(Left()) && (last.Some? ==> Left() < old(Left()))
      ensures next == None && rc == Ok ==> waiting == [] && Idle(writer.out)
      ensures next == None && rc == Error ==> writer.Broke() || (waiting != [] && waiting[0].Size() < 0)
      ensures (next == None && rc == Again && waiting == []) || next == Some(Again) ==> writer.Holding()
      ensures next == None && rc == Again && waiting != [] ==> free == [] && made == num && Stuck(busy)
      ensures old(Plain(temps, waiting, needInTemp)) ==> Plain(temps, waiting, needInTemp) && extra == old(extra)
      ensures inputs == old(inputs) && hollow == old(hollow)
    {
      hide Good, Sized, Idle, Left, Stuck, Plain, Stream, Text;
      FreeInTemps();
      var ok, out := Fill();
      assert Within();
      if !ok {
        return None, Error;
      }
      if out == [] && last.Some? {
        return None, if waiting != [] then Again else last.value;
      }
      rc := Deliver(out);
      next := if rc == Error then None else Some(rc);
    }

    /** The loop of ngx_output_chain. */
    method Pump() returns (rc: Code)
      requires Valid()
      modifies this, writer, Bufs()`pos, Bufs()`last, temps, Memory()
      ensures Valid() && Within() && given == old(given)
      ensures old(Sized(waiting)) ==> lost == old(lost) && gone == old(gone)
      ensures lost != [] ==> rc == Error
      ensures rc == Ok ==> waiting == [] && Idle(writer.out)
      ensures rc == Error ==> writer.Broke() || (waiting != [] && waiting[0].Size() < 0)
      ensures rc == Again && waiting == [] ==> writer.Holding()
      ensures rc == Again && waiting != [] ==> free == [] && made == num && Stuck(busy)
      ensures old(Plain(temps, waiting, needInTemp)) ==> Plain(temps, waiting, needInTemp) && extra == old(extra)
      ensures inputs == old(inputs) && hollow == old(hollow)
    {
      hide Good, Sized, Idle, Left, Stuck, Plain;
      var last: Option<Code>;
      last, rc := Turn(None);
      while last.Some?
        invariant Valid() && Within() && given == old(given) && inputs == old(inputs) && hollow == old(hollow)
        invariant old(Sized(waiting)) ==> lost == old(lost) && gone == old(gone) && Sized(waiting)
        invariant lost != [] ==> last == None && rc == Error
        invariant last.Some? ==> last.value != Error && Stuck(busy) && (last.value == Ok ==> Idle(writer.out))
        invariant last == None && rc == Ok ==> waiting == [] && Idle(writer.out)
        invariant last == None && rc == Error ==> writer.Broke() || (waiting != [] && waiting[0].Size() < 0)
        invariant (last == None && rc == Again && waiting == []) || last == Some(Again) ==> writer.Holding()
        invariant last == None && rc == Again && waiting != [] ==> free == [] && made == num && Stuck(busy)
        invariant old(Plain(temps, waiting, needInTemp)) ==> Plain(temps, waiting, needInTemp) && extra == old(extra)
        decreases last.Some?, Left()
      {
        last, rc := Turn(last);
      }
    }

    /** ngx_output_chain_add_copy */
    method Add(input: seq<Buf>)
      requires Valid() && Strange(input, Here([]), temps, tag)
      modifies `waiting, `given, `inputs, `hollow
      ensures Valid() && waiting == old(waiting) + input && given == old(given) + Stream(input)
      ensures old(Plain(temps, waiting + input, needInTemp)) ==>
        Plain(temps, waiting, needInTemp) && extra == old(extra)
      ensures inputs == old(inputs) + (set b | b in input) && hollow == old(hollow) + old(Hollow(input))
    {
      hide Stream, Apart, Filled, Agrees, Writer.Valid, Traced, Plain, Hollow;
      ghost var more, now := Stream(input), Hollow(input);
      Added(Here([]), temps, tag, input);
      TracedMore(waiting, Follow(), needInTemp, input, now);
      AgreesMore(Whole([]), more, given, extra);
      StreamAppend(waiting, input);
      MoreItems(writer.handed, Stream([]), lost, Stream(waiting), more);
      Enrol(input, more, now);
    }

    lemma MoreItems(h: seq<Item>, o: seq<Item>, l: seq<Item>, w: seq<Item>, more: seq<Item>)
      ensures (h + o + l + w) + more == h + o + l + (w + more)
    {
    }

    method Enrol(input: seq<Buf>, ghost more: seq<Item>, ghost now: set<Buf>)
      requires var d := Here([]).(waiting := waiting + input, hollow := hollow + now);
        Apart(d, temps, tag) && Filled(d)
      requires Temps([]) && writer.Valid() && buf == null && Stream(waiting + input) == Stream(waiting) + more
      requires var u := Follow().(inputs := inputs + (set b | b in input), hollow := hollow + now);
        Traced(waiting + input, [], u, needInTemp) && (gone != {} ==> broken)
      requires Agrees(writer.handed + Stream([]) + lost + (Stream(waiting) + more), given + more, extra)
      requires lost != [] ==> waiting != [] && waiting[0].Size() < 0
      modifies `waiting, `given, `inputs, `hollow
      ensures Valid() && waiting == old(waiting) + input && given == old(given) + more
      ensures inputs == old(inputs) + (set b | b in input) && hollow == old(hollow) + now
    {
      hide Stream, Apart, Filled, Agrees, Writer.Valid, Traced;
      waiting := waiting + input;
      given := given + more;
      inputs, hollow := inputs + (set b | b in input), hollow + now;
    }

    method WriteInput(input: seq<Buf>, ghost c: Chains) returns (rc: Code)
      requires Filled(c) && c.pending == writer.out && c.waiting == [] && c.out == [] && c.busy == [] && c.buf == null
      requires writer.Valid() && Strange(input, c, temps, tag) && |input| <= 1
      requires forall b :: b in c.free ==> b !in writer.out && b !in input
      modifies writer, (set b | b in writer.out + input)`pos
      ensures writer.Valid() && Filled(c.(pending := writer.out)) && (rc == Ok ==> Idle(writer.out))
      ensures (rc == Error ==> writer.Broke() || old(!Sized(input))) && (rc == Again ==> writer.Holding())
      ensures writer.handed == old(writer.handed) + old(Stream(input))
      ensures forall b :: b in writer.out ==> b in old(writer.out) || b in input
      ensures writer.seen == old(writer.seen) + set b | b in input
    {
      hide Stream;
      ghost var j;
      StreamOne(input);
      rc, j := writer.Write(input);
      assert input[..|input|] == input;
    }

    lemma Entered(c: Chains, temps: set<Buf>, tag: nat, input: seq<Buf>, pending: seq<Buf>, hollow: set<Buf>)
      requires Apart(c, temps, tag) && Foreign(input, temps, tag) && c.waiting == [] && c.out == [] && c.buf == null
      requires forall b :: b in pending ==> b in c.pending || b in input
      requires Filled(c.(pending := pending))
      ensures var d := c.(pending := pending, hollow := hollow); Apart(d, temps, tag) && Filled(d)
    {
    }

    lemma FreeApart(c: Chains, temps: set<Buf>, tag: nat, input: seq<Buf>)
      requires Apart(c, temps, tag) && Strange(input, c, temps, tag)
      ensures Foreign(input, temps, tag) && forall b :: b in c.free ==> b !in c.pending && b !in input
    {
    }

    lemma PlainLess(temps: set<Buf>, bs: seq<Buf>)
      ensures Plain(temps, bs, needInTemp) ==> Plain(temps, [], needInTemp)
    {
    }

    /** With nothing waiting or on the way, what needs no copy goes to the writer at once. */
    method Short(input: seq<Buf>) returns (rc: Code)
      requires Valid() && Strange(input, Here([]), temps, tag) && |input| <= 1 && waiting == [] && busy == []
      requires forall b :: b in input ==> !(needInTemp && (b.memory || b.mmap))
      modifies `given, `inputs, `hollow, writer, (set b | b in writer.out + input)`pos
      ensures Valid() && given == old(given) + old(Stream(input)) && (rc == Ok ==> Idle(writer.out))
      ensures (rc == Error ==> writer.Broke() || old(!Sized(input))) && (rc == Again ==> writer.Holding())
      ensures forall b :: b in writer.out ==> b in old(writer.out) || b in input
      ensures old(Plain(temps, waiting + input, needInTemp)) ==>
        Plain(temps, waiting, needInTemp) && extra == old(extra)
      ensures inputs == old(inputs) + (set b | b in input) && hollow == old(hollow) + old(Hollow(input))
    {
      hide Stream, Agrees, Filled, Apart, Strange, Foreign, Idle, Writer.Valid, Traced, Plain, Hollow;
      ghost var c, more, now := Here([]), Stream(input), Hollow(input);
      NoStream();
      assert waiting + input == input && lost == [] && Whole([]) == writer.handed;
      AgreesMore(writer.handed, more, given, extra);
      FreeApart(c, temps, tag, input);
      TracedMore(waiting, Follow(), needInTemp, input, now);
      PlainLess(temps, input);
      rc := WriteInput(input, c);
      Entered(c, temps, tag, input, writer.out, hollow + now);
      Record(input, more, now);
    }

    method Record(ghost input: seq<Buf>, ghost more: seq<Item>, ghost now: set<Buf>)
      requires var d := Here([]).(hollow := hollow + now); Apart(d, temps, tag) && Filled(d)
      requires Temps([]) && writer.Valid() && buf == null && waiting == [] && lost == []
      requires var u := Follow().(inputs := inputs + (set b | b in input), hollow := hollow + now);
        Traced([], [], u, needInTemp) && (gone != {} ==> broken)
      requires Agrees(writer.handed, given + more, extra)
      modifies `given, `inputs, `hollow
      ensures Valid() && given == old(given) + more
      ensures inputs == old(inputs) + (set b | b in input) && hollow == old(hollow) + now
    {
      hide Stream, Apart, Filled, Agrees, Writer.Valid, Traced;
      NoStream();
      given := given + more;
      inputs, hollow := inputs + (set b | b in input), hollow + now;
      assert Whole([]) == writer.handed;
    }

    /** ngx_output_chain */
    method Send(input: seq<Buf>) returns (rc: Code)
      requires Valid() && Strange(input, Here([]), temps, tag)
      modifies this, writer, Bufs()`pos, Bufs()`last, temps, Memory()
      modifies (set b | b in input)`pos, (set b | b in input)`last
      ensures Valid() && Grown() && given == old(given) + old(Stream(input))
      ensures old(Sized(waiting)) && old(Sized(input)) ==> lost == old(lost) && gone == old(gone)
      ensures lost != [] ==> rc == Error
      ensures rc == Ok ==> waiting == [] && Idle(writer.out)
      ensures rc == Error ==> writer.Broke() || old(!Sized(input)) || (waiting != [] && waiting[0].Size() < 0)
      ensures rc == Again && waiting == [] ==> writer.Holding()
      ensures rc == Again && waiting != [] ==> free == [] && made == num && Stuck(busy)
      ensures old(Plain(temps, waiting + input, needInTemp)) ==>
        Plain(temps, waiting, needInTemp) && extra == old(extra)
      ensures inputs == old(inputs) + (set b | b in input) && hollow == old(hollow) + old(Hollow(input))
      ensures needInTemp ==> forall b :: b in writer.seen ==> !b.memory && !b.mmap
      ensures forall b :: b in inputs && b !in hollow && b !in gone && !(needInTemp && (b.memory || b.mmap)) ==>
        b in waiting || b in writer.seen
    {
      hide Good, Strange, Idle, Stuck, Stream, Plain;
      NoLoss();
      if waiting == [] && busy == [] {
        if input == [] || (|input| == 1 && AsIs(input[0])) {
          rc := Short(input);
          NoLoss();
          WhereAll();
          return;
        }
      }
      Add(input);
      rc := Pump();
      WhereAll();
    }

    lemma WhereAll()
      requires Valid()
      ensures needInTemp ==> forall b :: b in writer.seen ==> !b.memory && !b.mmap
      ensures forall b :: b in inputs && b !in hollow && b !in gone && !(needInTemp && (b.memory || b.mmap)) ==>
        b in waiting || b in writer.seen
    {
    }

    lemma NoLoss()
      requires Valid()
      ensures lost != [] ==> waiting != []
    {
    }

    /** When the call says that all is done, all bytes given have been sent. */
    lemma SentIsGiven()
      requires Valid() && waiting == [] && Idle(writer.out)
      ensures Text(writer.sent) == Text(given)
    {
      NoStream();
      NoText(writer.out);
      TextAppend(writer.sent, Stream(writer.out));
      assert Whole([]) == writer.handed;
    }

    /** At any time what was sent is the beginning of what was given. */
    lemma SentIsPrefix()
      requires Valid()
      ensures Text(writer.sent) <= Text(given)
    {
      hide Text, Stream;
      var rest := Stream(writer.out) + Stream([]) + lost + Stream(waiting);
      assert Whole([]) == writer.sent + rest;
      TextAppend(writer.sent, rest);
    }

    /** Buffers that wait for a temporary one do so only while the connection has bytes to take. */
    lemma NoStall()
      requires Valid() && !broken && num > 0
      requires free == [] && made == num && Stuck(busy)
      ensures exists b :: b in writer.out && b.Size() > 0
    {
      assert temps != {};
      var t :| t in temps;
      assert t in busy;
      assert busy[0] in busy && busy[0].Size() > 0;
    }
  }

  lemma {:induction false} NoText(bs: seq<Buf>)
    requires Idle(bs)
    ensures Text(Stream(bs)) == ""
  {
    if bs != [] {
      assert bs[0] in bs && forall b :: b in bs[1..] ==> b in bs;
      NoText(bs[1..]);
      TextAppend(bs[0].Items(), Stream(bs[1..]));
      assert |bs[0].Items()| <= 1;
      assert bs[0].Items() == [] || bs[0].Items()[1..] == [];
    }
  }

  method InMemory(n: nat, flush: bool) returns (b: Buf)
    ensures fresh(b) && fresh(b.data) && b.memory && b.tag == 0 && b.Sane() && b.Size() == n
    ensures b.flush == flush && !b.lastBuf && !b.lastInChain
  {
    var data := new char[n](_ => 'a');
    b := new Buf(data, false, true, false, false, 0);
    b.last, b.flush := n, flush;
  }

  /** Two buffers are given, the first one with a flag. */
  method GiveTwo() returns (chain: Context, a: Buf, b: Buf)
    ensures fresh(chain) && fresh(chain.writer) && fresh(a) && fresh(b) && a != b && chain.temps == {}
    ensures chain.Valid() && chain.waiting == [a, b] && chain.busy == [] && chain.writer.out == [] && chain.free == []
    ensures chain.num == 1 && chain.size == 2 && chain.made == 0 && chain.extra == 0 && !chain.broken
    ensures a.Size() == 2 && a.flush && !a.lastInChain && b.Size() == 3
    ensures chain.needInTemp && a.memory && b.memory
    ensures forall k :: chain.writer.answers(k) == Answer(false, false, 3, false)
  {
    hide Context.Good, Stream, Text;
    var writer := new Writer(_ => Answer(false, false, 3, false));
    chain := new Context(2, 1, 1, true, true, true, writer);
    a := InMemory(2, true);
    b := InMemory(3, false);
    chain.Add([a, b]);
  }

  /** The first one is copied into a new temporary buffer. */
  method CopyFirst(chain: Context, a: Buf, b: Buf) returns (t: Buf)
    requires chain.Valid() && chain.waiting == [a, b] && chain.num == 1 && chain.size == 2 && chain.made == 0
    requires a.Size() == 2 && a.flush && !a.lastInChain && b.Size() == 3 && a != b
    requires chain.needInTemp && a.memory
    modifies chain, a`pos
    ensures chain.Good([t]) && chain.buf == null && chain.waiting == [b] && b.Size() == 3
    ensures fresh(t) && fresh(t.data) && t.flush && t.tag == chain.tag && t.data.Length == 2
    ensures chain.free == old(chain.free) && chain.busy == old(chain.busy)
    ensures chain.extra == old(chain.extra) && chain.broken == old(chain.broken)
  {
    hide Context.Good, Stream, Text;
    chain.GetBuf([]);
    t := chain.buf;
    var out := chain.Step([]);
    assert out == [t];
  }

  /** It is sent, and free again. */
  method SendFirst(chain: Context, t: Buf)
    requires chain.Good([t]) && chain.buf == null && chain.busy == [] && chain.writer.out == [] && chain.free == []
    requires chain.writer.answers(chain.writer.calls) == Answer(false, false, 3, false)
    requires t.tag == chain.tag && t.data.Length == 2
    modifies chain.writer, chain`busy, chain`free, chain`broken, t`pos, t`last
    ensures chain.Valid() && chain.free == [t] && chain.broken == old(chain.broken)
  {
    hide Context.Good, Stream, Text;
    ghost var more := Stream([t]);
    var w := chain.writer;
    AtMostTwo(chain, t);
    var rc := chain.Hand([t]);
    if t.Size() != 0 {
      NotTooMany(chain, old(w.sent), more);
    }
    assert chain.busy == [t];
    chain.Release();
  }

  lemma AtMostTwo(chain: Context, t: Buf)
    requires chain.Good([t]) && chain.writer.out == [] && t.data.Length == 2
    ensures |Text(Stream([t]))| <= 2 && chain.writer.handed == chain.writer.sent
  {
    NoStream();
    StreamOne([t]);
    TextSize(t);
  }

  lemma TextSize(b: Buf)
    requires b.Sane()
    ensures |Text(b.Items())| <= b.data.Length
  {
    if b.Size() > 0 {
      TextTaken(b, b.Size());
    } else {
      TextFlags(b);
    }
  }

  lemma NotTooMany(chain: Context, sent: seq<Item>, more: seq<Item>)
    requires chain.Good([]) && chain.writer.handed == sent + more && |Text(more)| <= 2
    ensures |Text(chain.writer.sent)| <= |Text(sent)| + 2
  {
    TextAppend(sent, more);
    TextAppend(chain.writer.sent, Stream(chain.writer.out));
  }

  /** It is filled with the beginning of the other buffer. */
  method CopySecond(chain: Context, t: Buf, b: Buf) returns (ghost out: seq<Buf>)
    requires chain.Valid() && chain.waiting == [b] && chain.free == [t]
    requires t.flush && t.data.Length == 2 && b.Size() == 3 && chain.needInTemp && b.memory
    modifies chain, b`pos, t, t.data
    ensures chain.Good(out) && chain.broken == old(chain.broken) && chain.extra == old(chain.extra) + 1
  {
    hide Context.Good, Stream, Text;
    chain.GetFree([]);
    var way := chain.Step([]);
    out := way;
  }

  /** A flag that was given once is handed over twice: it stays on the temporary buffer. */
  method StaleFlush() returns (ghost c: Context, ghost out: seq<Buf>)
    ensures c.Good(out) && !c.broken && c.extra == 1 && Text(c.Whole(out)) == Text(c.given) && c.Whole(out) != c.given
  {
    hide Context.Good, Stream, Text, Context.Whole;
    var chain, a, b := GiveTwo();
    var t := CopyFirst(chain, a, b);
    SendFirst(chain, t);
    out := CopySecond(chain, t, b);
    c := chain;
    Differs(c, out);
  }

  /** All items are as given exactly when no flag was stale. */
  lemma Differs(c: Context, out: seq<Buf>)
    requires c.Good(out)
    ensures Text(c.Whole(out)) == Text(c.given) && (c.Whole(out) == c.given <==> c.extra == 0)
  {
  }
}
