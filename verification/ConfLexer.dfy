/** The lexer of configuration files: one token is read through a sliding buffer of 4096 bytes, and the result is
    that of one scan over the whole file in memory, but for lexemes that fill the buffer. */
module ConfLexer {
  import opened Wrappers
  import opened ConfText

  // The buffer.

  class ConfFile {
    const file: string
    const buffer: array<char>
    var pos: nat
    var last: nat
    var offset: nat
    var line: nat

    /** What lies before `last` in the buffer was read from the file last. */
    ghost predicate Valid()
      reads this, buffer
    {
      && buffer.Length == SIZE && pos <= last <= SIZE && last <= offset <= |file|
      && buffer[..last] == file[offset - last..offset]
    }

    /** The place in the file of the next character. */
    function Place(): nat
      requires last <= offset
      reads this
    {
      offset - last + pos
    }

    constructor (file: string)
      ensures Valid() && this.file == file && Place() == 0 && line == 1 && fresh(buffer)
    {
      this.file := file;
      buffer := new char[SIZE](_ => ' ');
      pos, last, offset, line := 0, 0, 0, 1;
    }

    /** What was read of the lexeme, from `start`, goes to the front; more of the file behind it. */
    method Refill(start: nat)
      requires Valid() && start <= pos == last && offset < |file| && pos - start < SIZE
      modifies `pos, `last, `offset, buffer
      ensures Valid() && Place() == old(Place()) && pos < last && pos == old(pos) - start
    {
      var len := pos - start;
      var size := |file| - offset;
      if size > SIZE - len {
        size := SIZE - len;
      }
      InWindow(start);
      assert Place() == offset && offset - last + start == offset - len && start + len == pos;
      Slide(start, len, size);
      offset := offset + size;
      pos := len;
      last := len + size;
    }

    method Slide(start: nat, len: nat, size: nat)
      requires start + len <= buffer.Length && len + size <= buffer.Length && len <= offset && offset + size <= |file|
      requires buffer[start..start + len] == file[offset - len..offset]
      modifies buffer
      ensures buffer[..len + size] == file[offset - len..offset + size]
    {
      Move(start, len);
      Read(len, size);
      Joined(buffer[..], len, size, file, offset);
    }

    /** What lies in the buffer before the position is what lies in the file before it. */
    lemma InWindow(start: nat)
      requires Valid() && start <= pos
      ensures buffer[start..pos] == file[offset - last + start..Place()]
    {
      Slice(buffer[..last], file[offset - last..offset], start, pos);
      SliceOfSlice(file, offset - last, offset, start, pos);
      SliceOfSlice(buffer[..], 0, last, start, pos);
    }

    method Move(start: nat, len: nat)
      requires start + len <= buffer.Length
      modifies buffer
      ensures buffer[..len] == old(buffer[start..start + len])
    {
      ghost var s := buffer[..];
      var i := 0;
      while i < len
        invariant 0 <= i <= len && buffer[..i] == s[start..start + i]
        invariant forall k :: i <= k < buffer.Length ==> buffer[k] == s[k]
      {
        buffer[i] := buffer[start + i];
        i := i + 1;
      }
    }

    /** ngx_read_file: `size` bytes of the file from `offset`. */
    method Read(len: nat, size: nat)
      requires len + size <= buffer.Length && offset + size <= |file|
      modifies buffer
      ensures buffer[len..len + size] == file[offset..offset + size] && buffer[..len] == old(buffer[..len])
    {
      var i := 0;
      while i < size
        invariant 0 <= i <= size && buffer[..len] == old(buffer[..len])
        invariant buffer[len..len + i] == file[offset..offset + i]
      {
        buffer[len + i] := file[offset + i];
        i := i + 1;
      }
    }

    /** The loop that copies a word out of the buffer. */
    method CopyWord(start: nat, end: nat) returns (word: string)
      requires start <= end < buffer.Length
      ensures word == Unescaped(buffer[start..end], buffer[end])
    {
      hide Unescaped, Left;
      word := "";
      var src := start;
      ghost var s, after := buffer[start..end], buffer[end];
      LeftAll(s, after);
      while src < end
        invariant start <= src <= end + 1 && word + Left(s, src - start, after) == Unescaped(s, after)
      {
        LeftStep(s, src - start, after);
        ghost var rest := Left(s, src - start, after);
        var next := buffer[src + 1];
        assert s[src - start] == buffer[src] && next == if src + 1 < end then s[src + 1 - start] else after;
        if buffer[src] == '\\' && Escaped(next) {
          Joins(word, Meant(next), Left(s, src + 2 - start, after));
          word := word + [Meant(next)];
          src := src + 2;
        } else {
          Joins(word, buffer[src], Left(s, src + 1 - start, after));
          word := word + [buffer[src]];
          src := src + 1;
        }
      }
      LeftNone(s, src - start, after);
    }

    /** A character can be read, unless the file is at its end or a lexeme fills the buffer. */
    method Fetch(start: nat) returns (more: bool)
      requires Valid() && start <= pos
      modifies `pos, `last, `offset, buffer
      ensures Valid() && Place() == old(Place()) && old(offset - last + start) >= offset - last
      ensures more ==> pos < last && Place() < |file| && old(Place()) - old(offset - last + start) < SIZE
      ensures !more && offset < |file| ==> old(Place()) - old(offset - last + start) == SIZE
      ensures !more && offset >= |file| ==> Place() == |file|
      ensures !more ==> offset == old(offset)
    {
      if pos < last {
        return true;
      }
      if offset >= |file| || pos - start == SIZE {
        return false;
      }
      Refill(start);
      return true;
    }

    /** The scan from the position, with the lexeme still in the buffer, is the scan from where the call began. */
    ghost predicate Doing(was: nat, first: Lex, l: Lex)
      requires AtWork(file, was, first)
      reads this, buffer
    {
      && Valid() && AtWork(file, Place(), l) && offset - last <= l.start
      && Scan(file, Place(), l) == Scan(file, was, first)
      && Fills(file, Place(), l) == Fills(file, was, first)
    }

    /** One character. */
    method TakeChar(l: Lex, ghost was: nat, ghost first: Lex) returns (m: Lex, answer: Option<Code>)
      requires AtWork(file, was, first) && Doing(was, first, l)
      requires pos < last && Place() < |file| && Place() - l.start < SIZE
      modifies `pos
      ensures Valid() && Place() == old(Place()) + 1
      ensures answer == None ==> Doing(was, first, m)
      ensures answer.Some? ==>
        Token(answer.value, m.words, m.line, Place()) == Scan(file, was, first) && !Fills(file, was, first)
    {
      hide Scan, Fills, Decide, Unescaped;
      var start, ch := l.start - (offset - last), buffer[pos];
      InBuffer();
      InWindow(start);
      ScanStep(file, Place(), l);
      pos := pos + 1;
      match Decide(l, ch, Place() - 1) {
        case More(n) => m, answer := n, None;
        case Answer(n, code) => m, answer := n, Some(code);
        case Word(n, ends) =>
          var word := CopyWord(start, pos - 1);
          m, answer := n.(words := n.words + [word]), ends;
      }
    }

    /** ngx_conf_read_token: the next token of the file, as in one scan over it, unless a lexeme fills the buffer; and
        any clause of the grammar that stands here is read as what it says, unless it is too long. */
    method ReadToken() returns (code: Code, words: seq<string>)
      requires Valid()
      modifies this, buffer
      ensures Valid() && old(Place()) <= |file|
      ensures var was, l := old(Place()), Fresh(old(Place()), old(line));
        if Fills(file, was, l) then code.Error? && code.why.TooLong?
        else Token(code, words, line, Place()) == Scan(file, was, l)
      ensures forall c | StandsIn(c, file, old(Place())) ::
        || Token(code, words, line, Place()) == Said(c, old(Place()), old(line))
        || (!Short(c) && code.Error? && code.why.TooLong?)
    {
      hide Scan, Fills, StandsIn, Said, Short, Decide;
      EveryClauseRead(file, Place(), line);
      var l := Fresh(Place(), line);
      ghost var was, first := Place(), l;
      while true
        invariant AtWork(file, was, first) && Doing(was, first, l)
        decreases |file| - Place()
      {
        ScanEnds(file, Place(), l);
        var more := Fetch(l.start - (offset - last));
        if !more {
          if offset >= |file| {
            line := l.line;
            return if l.words != [] || !l.lastSpace then Error(UnexpectedEnd) else FileDone, l.words;
          }
          line := l.startLine;
          return Error(TooLong(if l.double then '"' else if l.single then '\'' else ' ')), l.words;
        }
        var answer;
        l, answer := TakeChar(l, was, first);
        if answer.Some? {
          line := l.line;
          return answer.value, l.words;
        }
      }
    }

    lemma InBuffer()
      requires Valid() && pos < last
      ensures Place() < |file| && buffer[pos] == file[Place()]
    {
      assert buffer[pos] == buffer[..last][pos];
    }

    /** All tokens of the file, up to its end or an error. */
    method ReadAll() returns (tokens: seq<Token>)
      requires Valid() && Place() == 0 && line == 1
      modifies this, buffer
      ensures if SomeFills(file, 0, 1) then tokens != [] && tokens[|tokens| - 1].code.Error?
                && tokens[|tokens| - 1].code.why.TooLong?
              else tokens == Tokens(file, 0, 1)
      ensures forall cs | GoodFile(cs, file, 0) ::
        || tokens == AllSaid(cs, 0, 1)
        || (!AllShort(cs) && tokens != [] && tokens[|tokens| - 1].code.Error?
            && tokens[|tokens| - 1].code.why.TooLong?)
    {
      hide Scan, Fills, Tokens, SomeFills, StandsIn, Said, Short, AllSaid, AllShort, GoodFile;
      EveryFileRead(file);
      tokens := [];
      while true
        invariant Valid() && Place() <= |file|
        invariant SomeFills(file, Place(), line) == SomeFills(file, 0, 1)
        invariant tokens + Tokens(file, Place(), line) == Tokens(file, 0, 1)
        decreases |file| - Place()
      {
        TokensStep(file, Place(), line, tokens);
        var code, words := ReadToken();
        tokens := tokens + [Token(code, words, line, Place())];
        if code.Error? || code.FileDone? {
          return;
        }
      }
    }
  }

  lemma TokensStep(file: string, pos: nat, line: nat, before: seq<Token>)
    requires pos <= |file|
    ensures var t := Scan(file, pos, Fresh(pos, line));
      && pos <= t.pos <= |file|
      && (t.code.Error? || t.code.FileDone? ==>
            Tokens(file, pos, line) == [t] && SomeFills(file, pos, line) == Fills(file, pos, Fresh(pos, line)))
      && (!t.code.Error? && !t.code.FileDone? ==>
            && pos < t.pos && before + Tokens(file, pos, line) == (before + [t]) + Tokens(file, t.pos, t.line)
            && SomeFills(file, pos, line) == (Fills(file, pos, Fresh(pos, line)) || SomeFills(file, t.pos, t.line)))
    ensures Fills(file, pos, Fresh(pos, line)) ==> SomeFills(file, pos, line)
  {
    hide Scan, Fills;
    ScanAdvances(file, pos, Fresh(pos, line));
  }

  lemma Slice(a: string, b: string, i: nat, j: nat)
    requires a == b && i <= j <= |a|
    ensures a[i..j] == b[i..j]
  {
  }

  lemma SliceOfSlice(s: string, a: nat, b: nat, i: nat, j: nat)
    requires a <= b <= |s| && i <= j <= b - a
    ensures s[a..b][i..j] == s[a + i..a + j]
  {
    var x, y := s[a..b][i..j], s[a + i..a + j];
    assert |x| == |y|;
    forall k | 0 <= k < |x|
      ensures x[k] == y[k]
    {
      assert x[k] == s[a..b][i + k] == s[a + (i + k)];
    }
  }

  lemma Joined(b: string, len: nat, size: nat, file: string, offset: nat)
    requires len <= offset && len + size <= |b| && offset + size <= |file|
    requires b[..len] == file[offset - len..offset] && b[len..len + size] == file[offset..offset + size]
    ensures b[..len + size] == file[offset - len..offset + size]
  {
    assert b[..len + size] == b[..len] + b[len..len + size];
  }

  /** What is left of the word from its index j on. */
  function Left(s: string, j: nat, end: char): string {
    if j <= |s| then Unescaped(s[j..], end) else ""
  }

  lemma LeftAll(s: string, end: char)
    ensures Left(s, 0, end) == Unescaped(s, end)
  {
    assert s[0..] == s;
  }

  lemma LeftNone(s: string, j: nat, end: char)
    requires j >= |s|
    ensures Left(s, j, end) == ""
  {
  }

  lemma Joins(a: string, c: char, b: string)
    ensures a + ([c] + b) == (a + [c]) + b
  {
  }

  lemma LeftStep(s: string, j: nat, end: char)
    requires j < |s|
    ensures var next := if j + 1 < |s| then s[j + 1] else end;
      Left(s, j, end) ==
        if s[j] == '\\' && Escaped(next) then [Meant(next)] + Left(s, j + 2, end) else [s[j]] + Left(s, j + 1, end)
  {
    assert s[j..][1..] == s[j + 1..];
    if j + 1 < |s| {
      assert s[j..][1] == s[j + 1] && s[j..][2..] == s[j + 2..];
    }
  }
}
