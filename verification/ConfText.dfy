/** Configuration texts: what one scan over a file in memory makes of them, character by character, and a grammar of the
    statements and ends that it reads. */
module ConfText {
  import opened Wrappers

  /** NGX_CONF_BUFFER. */
  const SIZE := 4096

  datatype Why = UnexpectedEnd | Unexpected(ch: char) | TooLong(quote: char)

  datatype Code = Ok | BlockStart | BlockDone | FileDone | Error(why: Why)

  /** The variables of the loop. `start` is where the lexeme begins, counted from the start of the file. */
  datatype Lex = Lex(words: seq<string>, start: nat, startLine: nat, line: nat, needSpace: bool, lastSpace: bool,
                     comment: bool, variable: bool, quoted: bool, single: bool, double: bool)

  function Fresh(pos: nat, line: nat): Lex {
    Lex([], pos, line, line, false, true, false, false, false, false, false)
  }

  /** What one character leads to: more characters, the end of a word and then more or an answer, or an answer. */
  datatype Act = More(lex: Lex) | Word(lex: Lex, answer: Option<Code>) | Answer(lex: Lex, code: Code)

  predicate Space(ch: char) {
    ch == ' ' || ch == '\t' || ch == '\r' || ch == '\n'
  }

  /** The character ch at `at`. */
  function Decide(l: Lex, ch: char, at: nat): Act {
    var m := if ch == '\n' then l.(line := l.line + 1, comment := false) else l;
    if m.comment then More(m)
    else if m.quoted then More(m.(quoted := false))
    else if m.needSpace then
      if Space(ch) then More(m.(lastSpace := true, needSpace := false))
      else if ch == ';' then Answer(m, Ok)
      else if ch == '{' then Answer(m, BlockStart)
      else if ch == ')' then Begin(m.(needSpace := false), ch, at)
      else Answer(m, Error(Unexpected(ch)))
    else if m.lastSpace then Begin(m, ch, at)
    else Inside(m, ch)
  }

  /** Between lexemes. */
  function Begin(l: Lex, ch: char, at: nat): Act {
    var m := l.(start := at, startLine := l.line, lastSpace := true);
    if Space(ch) then More(m)
    else if ch == ';' || ch == '{' then
      Answer(m, if m.words == [] then Error(Unexpected(ch)) else if ch == '{' then BlockStart else Ok)
    else if ch == '}' then Answer(m, if m.words != [] then Error(Unexpected(ch)) else BlockDone)
    else if ch == '#' then More(m.(comment := true))
    else
      var n := m.(lastSpace := false);
      More(if ch == '\\' then n.(quoted := true)
           else if ch == '"' then n.(start := at + 1, double := true)
           else if ch == '\'' then n.(start := at + 1, single := true)
           else if ch == '$' then n.(variable := true)
           else n)
  }

  /** Inside a lexeme. */
  function Inside(l: Lex, ch: char): Act {
    if ch == '{' && l.variable then More(l)
    else
      var m := l.(variable := false);
      if ch == '\\' then More(m.(quoted := true))
      else if ch == '$' then More(m.(variable := true))
      else if m.double then if ch == '"' then Word(m.(double := false, needSpace := true), None) else More(m)
      else if m.single then if ch == '\'' then Word(m.(single := false, needSpace := true), None) else More(m)
      else if Space(ch) then Word(m.(lastSpace := true), None)
      else if ch == ';' then Word(m.(lastSpace := true), Some(Ok))
      else if ch == '{' then Word(m.(lastSpace := true), Some(BlockStart))
      else More(m)
  }

  // The text of a word.

  predicate Escaped(ch: char) {
    ch == '"' || ch == '\'' || ch == '\\' || ch == 't' || ch == 'r' || ch == 'n'
  }

  function Meant(ch: char): char {
    if ch == 't' then '\t' else if ch == 'r' then '\r' else if ch == 'n' then '\n' else ch
  }

  /** The lexeme s with its escapes replaced; `end` is the character behind it. */
  function Unescaped(s: string, end: char): string
    decreases |s|
  {
    if s == "" then ""
    else
      var next := if |s| > 1 then s[1] else end;
      if s[0] == '\\' && Escaped(next) then
        [Meant(next)] + if |s| > 1 then Unescaped(s[2..], end) else ""
      else [s[0]] + Unescaped(s[1..], end)
  }

  // One scan over the whole file.

  /** The answer, the words before it, the line, and where the next call goes on. */
  datatype Token = Token(code: Code, words: seq<string>, line: nat, pos: nat)

  predicate AtWork(file: string, pos: nat, l: Lex) {
    pos <= |file| && l.start <= pos
  }

  function Pushed(file: string, pos: nat, l: Lex, m: Lex): Lex
    requires AtWork(file, pos, l) && pos < |file|
  {
    m.(words := m.words + [Unescaped(file[l.start..pos], file[pos])])
  }

  function AtEnd(pos: nat, l: Lex): Token {
    Token(if l.words != [] || !l.lastSpace then Error(UnexpectedEnd) else FileDone, l.words, l.line, pos)
  }

  /** Decisions keep the start of the lexeme behind the position. */
  lemma StaysAtWork(file: string, pos: nat, l: Lex)
    requires AtWork(file, pos, l) && pos < |file|
    ensures AtWork(file, pos + 1, Decide(l, file[pos], pos).lex)
  {
  }

  function Scan(file: string, pos: nat, l: Lex): Token
    requires AtWork(file, pos, l)
    decreases |file| - pos
  {
    if pos == |file| then AtEnd(pos, l)
    else
      StaysAtWork(file, pos, l);
      match Decide(l, file[pos], pos)
      case More(m) => Scan(file, pos + 1, m)
      case Answer(m, code) => Token(code, m.words, m.line, pos + 1)
      case Word(m, answer) =>
        var n := Pushed(file, pos, l, m);
        if answer.Some? then Token(answer.value, n.words, n.line, pos + 1) else Scan(file, pos + 1, n)
  }

  /** The scan comes to a lexeme or comment that takes up a whole buffer, with the file going on. */
  predicate Fills(file: string, pos: nat, l: Lex)
    requires AtWork(file, pos, l)
    decreases |file| - pos
  {
    pos < |file| &&
    (pos - l.start == SIZE ||
     (StaysAtWork(file, pos, l);
      match Decide(l, file[pos], pos)
      case More(m) => Fills(file, pos + 1, m)
      case Answer(_, _) => false
      case Word(m, answer) => answer == None && Fills(file, pos + 1, Pushed(file, pos, l, m))))
  }

  /** A token that is not at the end of the file takes at least one character. */
  lemma {:induction false} ScanAdvances(file: string, pos: nat, l: Lex)
    requires AtWork(file, pos, l)
    ensures var t := Scan(file, pos, l);
      pos <= t.pos <= |file| && (t.pos == pos ==> pos == |file|) && (pos == |file| ==> t == AtEnd(pos, l))
    decreases |file| - pos
  {
    if pos < |file| {
      StaysAtWork(file, pos, l);
      match Decide(l, file[pos], pos)
      case More(m) => ScanAdvances(file, pos + 1, m);
      case Word(m, None) => ScanAdvances(file, pos + 1, Pushed(file, pos, l, m));
      case _ =>
    }
  }

  /** A file no longer than the buffer has no lexeme that fills it. */
  lemma {:induction false} ShortNeverFills(file: string, pos: nat, l: Lex)
    requires AtWork(file, pos, l) && |file| <= SIZE
    ensures !Fills(file, pos, l)
    decreases |file| - pos
  {
    if pos < |file| {
      StaysAtWork(file, pos, l);
      match Decide(l, file[pos], pos)
      case More(m) => ShortNeverFills(file, pos + 1, m);
      case Word(m, None) => ShortNeverFills(file, pos + 1, Pushed(file, pos, l, m));
      case _ =>
    }
  }

  /** All tokens of a file, up to its end or an error. */
  function Tokens(file: string, pos: nat, line: nat): seq<Token>
    requires pos <= |file|
    decreases |file| - pos
  {
    var t := Scan(file, pos, Fresh(pos, line));
    ScanAdvances(file, pos, Fresh(pos, line));
    if t.code.Error? || t.code.FileDone? then [t] else [t] + Tokens(file, t.pos, t.line)
  }

  predicate SomeFills(file: string, pos: nat, line: nat)
    requires pos <= |file|
    decreases |file| - pos
  {
    var t := Scan(file, pos, Fresh(pos, line));
    ScanAdvances(file, pos, Fresh(pos, line));
    Fills(file, pos, Fresh(pos, line))
    || (!t.code.Error? && !t.code.FileDone? && SomeFills(file, t.pos, t.line))
  }

  lemma ScanEnds(file: string, pos: nat, l: Lex)
    requires AtWork(file, pos, l)
    ensures pos == |file| ==> Scan(file, pos, l) == AtEnd(pos, l) && !Fills(file, pos, l)
    ensures pos < |file| && pos - l.start == SIZE ==> Fills(file, pos, l)
  {
  }

  /** One character of the scan. */
  lemma ScanStep(file: string, pos: nat, l: Lex)
    requires AtWork(file, pos, l) && pos < |file|
    ensures AtWork(file, pos + 1, Decide(l, file[pos], pos).lex) && l.start <= Decide(l, file[pos], pos).lex.start
    ensures pos - l.start == SIZE ==> Fills(file, pos, l)
    ensures match Decide(l, file[pos], pos)
      case More(m) =>
        Scan(file, pos, l) == Scan(file, pos + 1, m)
        && (pos - l.start != SIZE ==> Fills(file, pos, l) == Fills(file, pos + 1, m))
      case Answer(m, code) =>
        Scan(file, pos, l) == Token(code, m.words, m.line, pos + 1) && (pos - l.start != SIZE ==> !Fills(file, pos, l))
      case Word(m, answer) =>
        var n := Pushed(file, pos, l, m);
        if answer.Some? then
          Scan(file, pos, l) == Token(answer.value, n.words, n.line, pos + 1)
          && (pos - l.start != SIZE ==> !Fills(file, pos, l))
        else
          Scan(file, pos, l) == Scan(file, pos + 1, n)
          && (pos - l.start != SIZE ==> Fills(file, pos, l) == Fills(file, pos + 1, n))
  {
    StaysAtWork(file, pos, l);
  }

  // A grammar of texts.

  /** A character of a word, or a backslash and the character behind it. */
  datatype Piece = Char(c: char) | Pair(c: char)

  /** A word as it stands, or between quotes. */
  datatype Form = Bare(ps: seq<Piece>) | Quoted(q: char, ps: seq<Piece>)

  /** What stands between words: a blank character, or a comment with the end of its line. */
  datatype Filler = Blank(c: char) | Note(text: string)

  /** What one token is read from: words up to a character that ends them, up to the end of the file, behind which a
      comment may be left, or up to a word that the end of the file cuts off. */
  datatype Clause =
    | End(gap: seq<Filler>, ch: char)
    | Next(gap: seq<Filler>, word: Form, rest: Clause)
    | FileEnd(gap: seq<Filler>, note: Option<string>)
    | Cut(gap: seq<Filler>, word: Form)

  /** What stands before a part of a clause: nothing, a quoted word, or a word as it stands. */
  datatype Before = Nothing | AfterQuote | AfterBare(ps: seq<Piece>)

  function PieceText(p: Piece): string {
    match p
    case Char(c) => [c]
    case Pair(c) => ['\\', c]
  }

  function PiecesText(ps: seq<Piece>): string {
    if ps == [] then "" else PieceText(ps[0]) + PiecesText(ps[1..])
  }

  /** \t, \r, \n, and the quotes and the backslash stand for one character; all else stands for itself. */
  function PieceMeans(p: Piece): string {
    match p
    case Char(c) => [c]
    case Pair(c) =>
      if c == 't' then "\t"
      else if c == 'r' then "\r"
      else if c == 'n' then "\n"
      else if c == '"' || c == '\'' || c == '\\' then [c]
      else ['\\', c]
  }

  function PiecesMean(ps: seq<Piece>): string {
    if ps == [] then "" else PieceMeans(ps[0]) + PiecesMean(ps[1..])
  }

  function FormText(w: Form): string {
    match w
    case Bare(ps) => PiecesText(ps)
    case Quoted(q, ps) => [q] + (PiecesText(ps) + [q])
  }

  function FillerText(f: Filler): string {
    match f
    case Blank(c) => [c]
    case Note(t) => "#" + (t + "\n")
  }

  function GapText(g: seq<Filler>): string {
    if g == [] then "" else FillerText(g[0]) + GapText(g[1..])
  }

  function ClauseText(c: Clause): string {
    match c
    case End(g, ch) => GapText(g) + [ch]
    case Next(g, w, rest) => GapText(g) + (FormText(w) + ClauseText(rest))
    case FileEnd(g, note) => GapText(g) + if note.Some? then "#" + note.value else ""
    case Cut(g, w) => GapText(g) + if w.Bare? then PiecesText(w.ps) else [w.q] + PiecesText(w.ps)
  }

  /** Behind these characters an opening brace belongs to the word: a dollar, or another such brace behind it. */
  function Dollar(ps: seq<Piece>, v: bool): bool {
    if ps == [] then v else Dollar(ps[1..], DollarOf(ps[0], v))
  }

  function DollarOf(p: Piece, v: bool): bool {
    p == Char('$') || (p == Char('{') && v)
  }

  predicate GoodPieces(ps: seq<Piece>, v: bool) {
    ps != [] ==>
      && (ps[0].Char? ==>
            var c := ps[0].c;
            c != ' ' && c != '\t' && c != '\r' && c != '\n' && c != ';' && c != '\\' && (c == '{' ==> v))
      && GoodPieces(ps[1..], DollarOf(ps[0], v))
  }

  predicate GoodForm(w: Form) {
    match w
    case Bare(ps) =>
      && ps != [] && GoodPieces(ps, false)
      && (ps[0].Char? ==> ps[0].c != '}' && ps[0].c != '#' && ps[0].c != '"' && ps[0].c != '\'')
    case Quoted(q, ps) =>
      && (q == '"' || q == '\'')
      && forall i | 0 <= i < |ps| :: ps[i] != Char(q) && ps[i] != Char('\\')
  }

  predicate GoodGap(g: seq<Filler>) {
    forall i | 0 <= i < |g| ::
      match g[i]
      case Blank(c) => c == ' ' || c == '\t' || c == '\r' || c == '\n'
      case Note(t) => '\n' !in t
  }

  /** The gap keeps a word apart from what follows. */
  predicate Led(g: seq<Filler>) {
    g != [] && g[0].Blank?
  }

  /** A word may follow: behind a word there must be a blank first, but for a parenthesis behind a quoted one. */
  predicate MayFollow(b: Before, g: seq<Filler>, w: Form) {
    b.Nothing? || Led(g) || (b.AfterQuote? && g == [] && w.Bare? && w.ps != [] && w.ps[0] == Char(')'))
  }

  function Behind(w: Form): Before {
    if w.Bare? then AfterBare(w.ps) else AfterQuote
  }

  /** What makes up a clause. Straight behind a quoted word any character but a blank and a parenthesis ends it. */
  predicate Good(c: Clause, b: Before) {
    match c
    case End(g, ch) =>
      && GoodGap(g)
      && if b.Nothing? || Led(g) then ch == ';' || ch == '{' || ch == '}'
         else
           && g == []
           && if b.AfterQuote? then ch != ' ' && ch != '\t' && ch != '\r' && ch != '\n' && ch != ')'
              else ch == ';' || (ch == '{' && !Dollar(b.ps, false))
    case Next(g, w, rest) => GoodGap(g) && GoodForm(w) && MayFollow(b, g, w) && Good(rest, Behind(w))
    case FileEnd(g, note) =>
      && GoodGap(g) && (note.Some? ==> '\n' !in note.value)
      && (b.Nothing? || Led(g) || (b.AfterQuote? && g == [] && note == None))
    case Cut(g, w) => GoodGap(g) && GoodForm(w) && MayFollow(b, g, w)
  }

  /** No word and no comment comes near the size of the buffer. */
  predicate ShortGap(g: seq<Filler>) {
    forall i | 0 <= i < |g| :: g[i].Note? ==> |g[i].text| + 2 < SIZE
  }

  predicate Short(c: Clause) {
    && ShortGap(c.gap)
    && match c
       case End(_, _) => true
       case Next(_, w, rest) => |FormText(w)| + 1 < SIZE && Short(rest)
       case FileEnd(_, note) => note.Some? ==> |note.value| + 2 < SIZE
       case Cut(_, w) => |FormText(w)| + 1 < SIZE
  }

  function WordsOf(c: Clause): seq<string> {
    match c
    case Next(_, w, rest) => [PiecesMean(w.ps)] + WordsOf(rest)
    case _ => []
  }

  /** What the clause is read as, when it has these words. */
  function Verdict(c: Clause, words: seq<string>): Code {
    match c
    case End(_, ch) =>
      if words == [] then if ch == '}' then BlockDone else Error(Unexpected(ch))
      else if ch == ';' then Ok
      else if ch == '{' then BlockStart
      else Error(Unexpected(ch))
    case Next(_, _, rest) => Verdict(rest, words)
    case FileEnd(_, _) => if words == [] then FileDone else Error(UnexpectedEnd)
    case Cut(_, _) => Error(UnexpectedEnd)
  }

  predicate AtFileEnd(c: Clause) {
    match c
    case End(_, _) => false
    case Next(_, _, rest) => AtFileEnd(rest)
    case _ => true
  }

  function Lines(s: string): nat {
    if s == "" then 0 else (if s[0] == '\n' then 1 else 0) + Lines(s[1..])
  }

  // The places of texts.

  predicate Stands(text: string, file: string, pos: nat) {
    pos + |text| <= |file| && file[pos..pos + |text|] == text
  }

  lemma StandsInFile(text: string, file: string, pos: nat)
    requires Stands(text, file, pos)
    ensures pos + |text| <= |file|
  {
  }

  lemma StandsSplit(a: string, b: string, file: string, pos: nat)
    requires Stands(a + b, file, pos)
    ensures Stands(a, file, pos) && Stands(b, file, pos + |a|) && (a != "" ==> file[pos] == a[0])
  {
    assert file[pos..pos + |a|] == file[pos..pos + |a + b|][..|a|];
    assert file[pos + |a|..pos + |a + b|] == file[pos..pos + |a + b|][|a|..];
    assert a != "" ==> file[pos] == file[pos..pos + |a + b|][0];
  }

  lemma StandsChar(c: char, file: string, pos: nat)
    requires Stands([c], file, pos)
    ensures pos < |file| && file[pos] == c
  {
    assert file[pos..pos + 1][0] == file[pos];
  }

  lemma {:induction false} LinesAppend(a: string, b: string)
    ensures Lines(a + b) == Lines(a) + Lines(b)
  {
    if a == "" {
      assert a + b == b;
    } else {
      LinesAppend(a[1..], b);
      assert (a + b)[1..] == a[1..] + b;
    }
  }

  // The states of the scan.

  /** Nothing is open. */
  predicate Idle(l: Lex) {
    !l.needSpace && !l.comment && !l.quoted && !l.single && !l.double
  }

  predicate Between(l: Lex) {
    Idle(l) && l.lastSpace && !l.variable
  }

  predicate InWord(l: Lex) {
    Idle(l) && !l.lastSpace
  }

  predicate InQuotes(l: Lex, q: char) {
    !l.needSpace && !l.comment && !l.quoted && !l.lastSpace && l.double == (q == '"') && l.single == (q == '\'')
  }

  predicate BehindQuotes(l: Lex) {
    l.needSpace && !l.comment && !l.quoted && !l.single && !l.double && !l.variable && !l.lastSpace && l.words != []
  }

  /** The scan goes on from one place to another, and so does the search for a lexeme that fills the buffer, as far as
      all of them are short. */
  ghost predicate Leads(short: bool, file: string, pos: nat, l: Lex, next: nat, m: Lex) {
    && AtWork(file, pos, l) && AtWork(file, next, m)
    && Scan(file, pos, l) == Scan(file, next, m) && (short ==> Fills(file, pos, l) == Fills(file, next, m))
  }

  lemma OneMore(short: bool, file: string, pos: nat, l: Lex)
    requires AtWork(file, pos, l) && pos < |file| && Decide(l, file[pos], pos).More?
    requires short ==> pos - l.start < SIZE
    ensures Leads(short, file, pos, l, pos + 1, Decide(l, file[pos], pos).lex)
  {
    hide Scan, Fills, Unescaped, Decide;
    ScanStep(file, pos, l);
  }

  // Words.

  /** The pieces of a word, in quotes or not. */
  lemma {:induction false} PiecesLead(short: bool, file: string, pos: nat, l: Lex, ps: seq<Piece>, q: char)
    requires AtWork(file, pos, l) && Stands(PiecesText(ps), file, pos)
    requires short ==> pos - l.start + |PiecesText(ps)| < SIZE
    requires if q == ' ' then InWord(l) && GoodPieces(ps, l.variable)
      else (q == '"' || q == '\'') && InQuotes(l, q)
           && forall i | 0 <= i < |ps| :: ps[i] != Char(q) && ps[i] != Char('\\')
    ensures var t := PiecesText(ps);
      Leads(short, file, pos, l, pos + |t|, l.(line := l.line + Lines(t), variable := Dollar(ps, l.variable)))
    decreases |ps|
  {
    hide Scan, Fills, Decide, Unescaped, PieceText, Stands, Lines, DollarOf;
    if ps == [] {
      assert Lines("") == 0 by {
        NoLines("");
      }
    } else {
      var a, b := PieceText(ps[0]), PiecesText(ps[1..]);
      StandsSplit(a, b, file, pos);
      LinesAppend(a, b);
      var m := l.(line := l.line + Lines(a), variable := DollarOf(ps[0], l.variable));
      PieceLeads(short, file, pos, l, ps[0], q);
      PiecesLead(short, file, pos + |a|, m, ps[1..], q);
    }
  }

  lemma PieceLeads(short: bool, file: string, pos: nat, l: Lex, p: Piece, q: char)
    requires AtWork(file, pos, l) && Stands(PieceText(p), file, pos)
    requires short ==> pos - l.start + |PieceText(p)| < SIZE
    requires if q == ' ' then InWord(l) && GoodPieces([p], l.variable)
      else (q == '"' || q == '\'') && InQuotes(l, q) && p != Char(q) && p != Char('\\')
    ensures var t := PieceText(p);
      Leads(short, file, pos, l, pos + |t|, l.(line := l.line + Lines(t), variable := DollarOf(p, l.variable)))
  {
    hide Scan, Fills, Unescaped;
    assert Lines(PieceText(p)) == if p.c == '\n' then 1 else 0 by {
      OneLine(p);
    }
    match p
    case Char(c) =>
      StandsChar(c, file, pos);
      OneMore(short, file, pos, l);
    case Pair(c) =>
      StandsSplit(['\\'], [c], file, pos);
      assert PieceText(p) == ['\\'] + [c];
      StandsChar('\\', file, pos);
      StandsChar(c, file, pos + 1);
      OneMore(short, file, pos, l);
      OneMore(short, file, pos + 1, l.(variable := false, quoted := true));
  }

  lemma OneLine(p: Piece)
    ensures Lines(PieceText(p)) == if p.c == '\n' then 1 else 0
  {
    if p.Pair? {
      LinesAppend(['\\'], [p.c]);
      assert PieceText(p) == ['\\'] + [p.c];
    }
  }

  /** What a word without quotes leads to, from where none is open or from behind a quoted one. */
  function Opened(l: Lex, pos: nat, ps: seq<Piece>): Lex {
    l.(start := pos, startLine := l.line, line := l.line + Lines(PiecesText(ps)), lastSpace := false,
       needSpace := false, variable := Dollar(ps, false))
  }

  lemma BareLeads(short: bool, file: string, pos: nat, l: Lex, ps: seq<Piece>)
    requires AtWork(file, pos, l) && (short ==> pos - l.start < SIZE) && GoodForm(Bare(ps))
    requires Between(l) || (BehindQuotes(l) && ps[0] == Char(')'))
    requires Stands(PiecesText(ps), file, pos) && (short ==> |PiecesText(ps)| < SIZE)
    ensures Leads(short, file, pos, l, pos + |PiecesText(ps)|, Opened(l, pos, ps))
  {
    hide Scan, Fills, Decide, Unescaped, PieceText, Stands, Lines, DollarOf;
    var a, b := PieceText(ps[0]), PiecesText(ps[1..]);
    StandsSplit(a, b, file, pos);
    LinesAppend(a, b);
    FirstIsGood(ps);
    FirstLeads(short, file, pos, l, ps[0]);
    var m := Opened(l, pos, [ps[0]]);
    OnePiece(ps[0]);
    PiecesLead(short, file, pos + |a|, m, ps[1..], ' ');
    assert Opened(l, pos, ps) ==
      m.(line := m.line + Lines(b), variable := Dollar(ps[1..], m.variable));
  }

  lemma FirstIsGood(ps: seq<Piece>)
    requires GoodForm(Bare(ps))
    ensures GoodForm(Bare([ps[0]]))
  {
    assert [ps[0]][1..] == [];
    assert GoodPieces([ps[0]], false);
  }

  lemma OnePiece(p: Piece)
    ensures PiecesText([p]) == PieceText(p) && Dollar([p], false) == DollarOf(p, false)
  {
    assert PiecesText([p]) == PieceText(p) + PiecesText([]);
    assert [p][1..] == [];
  }

  lemma FirstLeads(short: bool, file: string, pos: nat, l: Lex, p: Piece)
    requires AtWork(file, pos, l) && (short ==> pos - l.start < SIZE) && GoodForm(Bare([p]))
    requires Between(l) || (BehindQuotes(l) && p == Char(')'))
    requires Stands(PieceText(p), file, pos)
    ensures Leads(short, file, pos, l, pos + |PieceText(p)|, Opened(l, pos, [p]))
  {
    hide Scan, Fills, Unescaped;
    OnePiece(p);
    OneLine(p);
    match p
    case Char(c) =>
      StandsChar(c, file, pos);
      OneMore(short, file, pos, l);
    case Pair(c) =>
      StandsSplit(['\\'], [c], file, pos);
      assert PieceText(p) == ['\\'] + [c];
      StandsChar('\\', file, pos);
      StandsChar(c, file, pos + 1);
      OneMore(short, file, pos, l);
      OneMore(short, file, pos + 1, l.(start := pos, startLine := l.line, lastSpace := false, quoted := true));
  }

  /** The lexeme with its escapes replaced is what the pieces mean. */
  lemma {:induction false} Replaced(ps: seq<Piece>, end: char)
    requires forall i | 0 <= i < |ps| :: ps[i] != Char('\\')
    ensures Unescaped(PiecesText(ps), end) == PiecesMean(ps)
    decreases |ps|
  {
    if ps != [] {
      hide Unescaped, PieceMeans;
      Replaced(ps[1..], end);
      PieceReplaced(ps[0], PiecesText(ps[1..]), end);
    } else {
      assert Unescaped("", end) == "";
    }
  }

  lemma PieceReplaced(p: Piece, rest: string, end: char)
    requires p != Char('\\')
    ensures Unescaped(PieceText(p) + rest, end) == PieceMeans(p) + Unescaped(rest, end)
  {
    var t := PieceText(p) + rest;
    match p
    case Char(c) => assert t[1..] == rest;
    case Pair(c) =>
      assert t[1] == c && t[2..] == rest && t[1..] == [c] + rest;
      if !Escaped(c) {
        assert t[1..][1..] == rest;
        assert PieceMeans(p) + Unescaped(rest, end) == ['\\'] + ([c] + Unescaped(rest, end));
      }
  }

  lemma {:induction false} NoBackslash(ps: seq<Piece>, v: bool)
    requires GoodPieces(ps, v)
    ensures forall i | 0 <= i < |ps| :: ps[i] != Char('\\')
    decreases |ps|
  {
    if ps != [] {
      NoBackslash(ps[1..], DollarOf(ps[0], v));
      assert forall i | 0 < i < |ps| :: ps[i] == ps[1..][i - 1];
    }
  }

  /** What a quoted word leads to. */
  function Closed(l: Lex, pos: nat, ps: seq<Piece>): Lex {
    l.(words := l.words + [PiecesMean(ps)], start := pos + 1, startLine := l.line,
       line := l.line + Lines(PiecesText(ps)), lastSpace := false, needSpace := true)
  }

  lemma QuotedLeads(short: bool, file: string, pos: nat, l: Lex, q: char, ps: seq<Piece>)
    requires AtWork(file, pos, l) && (short ==> pos - l.start < SIZE) && GoodForm(Quoted(q, ps)) && Between(l)
    requires Stands(FormText(Quoted(q, ps)), file, pos) && (short ==> |FormText(Quoted(q, ps))| + 1 < SIZE)
    ensures Leads(short, file, pos, l, pos + |FormText(Quoted(q, ps))|, Closed(l, pos, ps))
  {
    hide Scan, Fills, Unescaped, PiecesText, PiecesMean, Lines, Dollar;
    var t := PiecesText(ps);
    StandsSplit([q], t + [q], file, pos);
    StandsSplit(t, [q], file, pos + 1);
    StandsChar(q, file, pos);
    OneMore(short, file, pos, l);
    var m := Decide(l, q, pos).lex;
    PiecesLead(short, file, pos + 1, m, ps, q);
    QuoteCloses(short, file, pos + 1, m.(line := m.line + Lines(t), variable := Dollar(ps, m.variable)), q, ps);
  }

  lemma QuoteCloses(short: bool, file: string, pos: nat, l: Lex, q: char, ps: seq<Piece>)
    requires AtWork(file, pos, l) && l.start == pos && GoodForm(Quoted(q, ps)) && InQuotes(l, q)
    requires Stands(PiecesText(ps), file, pos) && Stands([q], file, pos + |PiecesText(ps)|)
    requires short ==> |PiecesText(ps)| < SIZE
    ensures var e := pos + |PiecesText(ps)|;
      AtWork(file, e + 1, l)
      && Leads(short, file, e, l, e + 1,
               l.(words := l.words + [PiecesMean(ps)], double := false, single := false, needSpace := true,
                  variable := false))
  {
    hide Scan, Fills, Unescaped, PiecesText, PiecesMean;
    var e := pos + |PiecesText(ps)|;
    StandsChar(q, file, e);
    ScanStep(file, e, l);
    Replaced(ps, q);
  }

  // Gaps.

  lemma {:induction false} NoLines(t: string)
    requires '\n' !in t
    ensures Lines(t) == 0
  {
    if t != "" {
      NoLines(t[1..]);
    }
  }

  /** The characters of a comment. */
  lemma {:induction false} NoteLeads(short: bool, file: string, pos: nat, l: Lex, t: string)
    requires AtWork(file, pos, l) && Stands(t, file, pos) && '\n' !in t && l.comment
    requires short ==> pos - l.start + |t| < SIZE
    ensures Leads(short, file, pos, l, pos + |t|, l)
    decreases |t|
  {
    hide Scan, Fills;
    if t != "" {
      assert t == [t[0]] + t[1..];
      StandsSplit([t[0]], t[1..], file, pos);
      OneMore(short, file, pos, l);
      NoteLeads(short, file, pos + 1, l, t[1..]);
    }
  }

  /** Behind a blank, or behind the end of a comment. */
  function Past(l: Lex, pos: nat, f: Filler): Lex {
    var line := l.line + Lines(FillerText(f));
    l.(start := pos + |FillerText(f)| - 1, startLine := line, line := line)
  }

  lemma FillerLeads(short: bool, file: string, pos: nat, l: Lex, f: Filler)
    requires AtWork(file, pos, l) && (short ==> pos - l.start < SIZE) && Between(l)
    requires GoodGap([f]) && (short ==> ShortGap([f])) && Stands(FillerText(f), file, pos)
    ensures Leads(short, file, pos, l, pos + |FillerText(f)|, Past(l, pos, f))
  {
    hide Scan, Fills, Unescaped;
    assert [f][0] == f;
    match f
    case Blank(c) =>
      StandsChar(c, file, pos);
      OneMore(short, file, pos, l);
    case Note(t) => CommentLeads(short, file, pos, l, t);
  }

  lemma CommentLeads(short: bool, file: string, pos: nat, l: Lex, t: string)
    requires AtWork(file, pos, l) && (short ==> pos - l.start < SIZE) && Between(l)
    requires '\n' !in t && (short ==> |t| + 2 < SIZE) && Stands(FillerText(Note(t)), file, pos)
    ensures Leads(short, file, pos, l, pos + |t| + 2, Past(l, pos, Note(t)))
  {
    hide Scan, Fills, Unescaped, Lines;
    var m := l.(start := pos, startLine := l.line, comment := true);
    StandsSplit("#", t + "\n", file, pos);
    StandsSplit(t, "\n", file, pos + 1);
    StandsChar('#', file, pos);
    OneMore(short, file, pos, l);
    NoteLeads(short, file, pos + 1, m, t);
    StandsChar('\n', file, pos + 1 + |t|);
    OneMore(short, file, pos + 1 + |t|, m);
    NoteLines(t);
  }

  lemma NoteLines(t: string)
    requires '\n' !in t
    ensures Lines(FillerText(Note(t))) == 1
  {
    LinesAppend("#", t + "\n");
    LinesAppend(t, "\n");
    NoLines(t);
  }

  lemma {:induction false} GapLeads(short: bool, file: string, pos: nat, l: Lex, g: seq<Filler>) returns (m: Lex)
    requires AtWork(file, pos, l) && (short ==> pos - l.start < SIZE) && Between(l)
    requires GoodGap(g) && (short ==> ShortGap(g)) && Stands(GapText(g), file, pos)
    ensures var t := GapText(g);
      && Leads(short, file, pos, l, pos + |t|, m) && (short ==> pos + |t| - m.start < SIZE)
      && Between(m) && m.words == l.words && m.line == l.line + Lines(t)
    decreases |g|
  {
    hide Scan, Fills, FillerText;
    m := l;
    if g != [] {
      var a, b := FillerText(g[0]), GapText(g[1..]);
      StandsSplit(a, b, file, pos);
      LinesAppend(a, b);
      FillerLeads(short, file, pos, l, g[0]);
      assert a != "" by {
        SomeText(g[0]);
      }
      m := GapLeads(short, file, pos + |a|, Past(l, pos, g[0]), g[1..]);
    }
  }

  lemma SomeText(f: Filler)
    ensures FillerText(f) != ""
  {
  }

  // What stands before a part of a clause.

  /** The scan is behind b. */
  predicate Ready(short: bool, file: string, pos: nat, l: Lex, b: Before) {
    && AtWork(file, pos, l) && (short ==> pos - l.start < SIZE) && (short && !b.Nothing? ==> pos - l.start + 1 < SIZE)
    && match b
       case Nothing => Between(l)
       case AfterQuote => BehindQuotes(l)
       case AfterBare(ps) =>
         && InWord(l) && l.variable == Dollar(ps, false) && GoodForm(Bare(ps))
         && l.start + |PiecesText(ps)| == pos && Stands(PiecesText(ps), file, l.start)
  }

  /** The words so far, the one just read included. */
  function WordsAt(l: Lex, b: Before): seq<string> {
    if b.AfterBare? then l.words + [PiecesMean(b.ps)] else l.words
  }

  /** What a word as it stands is pushed as. */
  lemma BareIsPushed(short: bool, file: string, pos: nat, l: Lex, ps: seq<Piece>)
    requires Ready(short, file, pos, l, AfterBare(ps)) && pos < |file|
    ensures Unescaped(file[l.start..pos], file[pos]) == PiecesMean(ps)
  {
    hide Unescaped, Dollar, PiecesMean;
    NoBackslash(ps, false);
    Replaced(ps, file[pos]);
  }

  /** A blank behind a word. */
  lemma BlankLeads(short: bool, file: string, pos: nat, l: Lex, b: Before, c: char) returns (m: Lex)
    requires Ready(short, file, pos, l, b) && !b.Nothing?
    requires GoodGap([Blank(c)]) && Stands([c], file, pos)
    ensures Leads(short, file, pos, l, pos + 1, m) && (short ==> pos + 1 - m.start < SIZE)
    ensures Between(m) && m.words == WordsAt(l, b) && m.line == l.line + Lines([c])
  {
    hide Scan, Fills, Unescaped, PiecesMean, PiecesText, Dollar;
    assert [Blank(c)][0] == Blank(c);
    StandsChar(c, file, pos);
    ScanStep(file, pos, l);
    m := Decide(l, c, pos).lex;
    if b.AfterBare? {
      BareIsPushed(short, file, pos, l, b.ps);
      m := Pushed(file, pos, l, m);
    }
  }

  lemma BeforeGap(short: bool, file: string, pos: nat, l: Lex, b: Before, g: seq<Filler>) returns (m: Lex)
    requires Ready(short, file, pos, l, b) && (b.Nothing? || Led(g))
    requires GoodGap(g) && (short ==> ShortGap(g)) && Stands(GapText(g), file, pos)
    ensures Leads(short, file, pos, l, pos + |GapText(g)|, m) && Ready(short, file, pos + |GapText(g)|, m, Nothing)
    ensures m.words == WordsAt(l, b) && m.line == l.line + Lines(GapText(g))
  {
    hide Scan, Fills, Unescaped, Decide, Lines, PiecesMean, PiecesText, GoodForm, Stands, Dollar;
    if b.Nothing? {
      m := GapLeads(short, file, pos, l, g);
    } else {
      m := BeforeRest(short, file, pos, l, b, g[0].c, g[1..]);
    }
  }

  lemma BeforeRest(short: bool, file: string, pos: nat, l: Lex, b: Before, c: char, g: seq<Filler>) returns (m: Lex)
    requires Ready(short, file, pos, l, b) && !b.Nothing? && GoodGap([Blank(c)]) && GoodGap(g)
    requires (short ==> ShortGap(g)) && Stands([c] + GapText(g), file, pos)
    ensures var next := pos + 1 + |GapText(g)|;
      Leads(short, file, pos, l, next, m) && Ready(short, file, next, m, Nothing)
    ensures m.words == WordsAt(l, b) && m.line == l.line + Lines([c] + GapText(g))
  {
    hide Scan, Fills, Unescaped, Decide, Lines, PiecesMean, PiecesText, GoodForm, Stands, Dollar;
    StandsSplit([c], GapText(g), file, pos);
    LinesAppend([c], GapText(g));
    var n := BlankLeads(short, file, pos, l, b, c);
    m := GapLeads(short, file, pos + 1, n, g);
  }

  /** A word, from where it may begin. */
  lemma WordLeads(short: bool, file: string, pos: nat, l: Lex, w: Form) returns (m: Lex)
    requires AtWork(file, pos, l) && (short ==> pos - l.start < SIZE) && GoodForm(w)
    requires Between(l) || (BehindQuotes(l) && w.Bare? && w.ps[0] == Char(')'))
    requires Stands(FormText(w), file, pos) && (short ==> |FormText(w)| + 1 < SIZE)
    ensures var next := pos + |FormText(w)|;
      && Leads(short, file, pos, l, next, m) && Ready(short, file, next, m, Behind(w))
      && WordsAt(m, Behind(w)) == l.words + [PiecesMean(w.ps)] && m.line == l.line + Lines(FormText(w))
  {
    hide Scan, Fills, Unescaped, Decide, Lines, PiecesMean, PiecesText, GoodForm, Stands, Dollar;
    match w
    case Bare(ps) =>
      BareLeads(short, file, pos, l, ps);
      m := Opened(l, pos, ps);
    case Quoted(q, ps) =>
      QuotedLeads(short, file, pos, l, q, ps);
      m := Closed(l, pos, ps);
      assert q != '\n' by {
        GoodQuote(w);
      }
      LinesInside(q, PiecesText(ps));
  }

  lemma GoodQuote(w: Form)
    requires GoodForm(w) && w.Quoted?
    ensures w.q == '"' || w.q == '\''
  {
  }

  lemma LinesInside(q: char, t: string)
    requires q != '\n'
    ensures Lines([q] + (t + [q])) == Lines(t)
  {
    LinesAppend([q], t + [q]);
    LinesAppend(t, [q]);
  }

  lemma EndRead(short: bool, file: string, pos: nat, l: Lex, b: Before, ch: char)
    requires Ready(short, file, pos, l, b) && Good(End([], ch), b) && Stands([ch], file, pos)
    ensures var all := WordsAt(l, b);
      (short ==> !Fills(file, pos, l))
      && Scan(file, pos, l) == Token(Verdict(End([], ch), all), all, l.line + Lines([ch]), pos + 1)
  {
    hide Scan, Fills, Unescaped, PiecesMean, PiecesText, GoodForm, Dollar;
    StandsChar(ch, file, pos);
    ScanStep(file, pos, l);
    if b.AfterBare? {
      BareIsPushed(short, file, pos, l, b.ps);
    }
  }

  /** The end of the file. */
  lemma FileEndRead(short: bool, file: string, pos: nat, l: Lex, b: Before, note: Option<string>)
    requires Ready(short, file, pos, l, b) && Good(FileEnd([], note), b) && (short ==> Short(FileEnd([], note)))
    requires Stands(ClauseText(FileEnd([], note)), file, pos) && pos + |ClauseText(FileEnd([], note))| == |file|
    ensures short ==> !Fills(file, pos, l)
    ensures Scan(file, pos, l) ==
      Token(if l.words == [] then FileDone else Error(UnexpectedEnd), l.words,
            l.line + Lines(ClauseText(FileEnd([], note))), |file|)
  {
    hide Scan, Fills, Unescaped;
    assert ClauseText(FileEnd([], note)) == if note.Some? then "#" + note.value else "";
    match note
    case None => ScanEnds(file, pos, l);
    case Some(t) =>
      StandsSplit("#", t, file, pos);
      StandsChar('#', file, pos);
      OneMore(short, file, pos, l);
      var m := l.(start := pos, startLine := l.line, comment := true);
      NoteLeads(short, file, pos + 1, m, t);
      ScanEnds(file, |file|, m);
      LinesAppend("#", t);
      NoLines(t);
  }

  /** A word that the file ends in. */
  lemma CutRead(short: bool, file: string, pos: nat, l: Lex, w: Form)
    requires AtWork(file, pos, l) && (short ==> pos - l.start < SIZE) && GoodForm(w)
    requires Between(l) || (BehindQuotes(l) && w.Bare? && w.ps[0] == Char(')'))
    requires (short ==> Short(Cut([], w))) && Stands(ClauseText(Cut([], w)), file, pos)
    requires pos + |ClauseText(Cut([], w))| == |file|
    ensures short ==> !Fills(file, pos, l)
    ensures Scan(file, pos, l) ==
      Token(Error(UnexpectedEnd), l.words, l.line + Lines(ClauseText(Cut([], w))), |file|)
  {
    hide Scan, Fills, Unescaped, Lines, PiecesText, Dollar, Decide;
    match w
    case Bare(ps) =>
      assert ClauseText(Cut([], w)) == PiecesText(ps);
      BareLeads(short, file, pos, l, ps);
      ScanEnds(file, |file|, Opened(l, pos, ps));
    case Quoted(q, ps) =>
      assert ClauseText(Cut([], w)) == [q] + PiecesText(ps);
      CutQuotes(short, file, pos, l, q, ps);
  }

  lemma CutQuotes(short: bool, file: string, pos: nat, l: Lex, q: char, ps: seq<Piece>)
    requires AtWork(file, pos, l) && (short ==> pos - l.start < SIZE) && GoodForm(Quoted(q, ps)) && Between(l)
    requires (short ==> |PiecesText(ps)| + 3 < SIZE) && Stands([q] + PiecesText(ps), file, pos)
    requires pos + 1 + |PiecesText(ps)| == |file|
    ensures short ==> !Fills(file, pos, l)
    ensures Scan(file, pos, l) ==
      Token(Error(UnexpectedEnd), l.words, l.line + Lines([q] + PiecesText(ps)), |file|)
  {
    hide Scan, Fills, Unescaped, Lines, PiecesText, Dollar;
    var t := PiecesText(ps);
    StandsSplit([q], t, file, pos);
    StandsChar(q, file, pos);
    OneMore(short, file, pos, l);
    var m := Decide(l, q, pos).lex;
    PiecesLead(short, file, pos + 1, m, ps, q);
    ScanEnds(file, |file|, m.(line := m.line + Lines(t), variable := Dollar(ps, m.variable)));
    LinesAppend([q], t);
    OneLine(Char(q));
  }

  // A clause is read as what it says.

  function Length(c: Clause): nat {
    if c.Next? then 1 + Length(c.rest) else 0
  }

  /** The clause without the gap before it. */
  function Tail(c: Clause): Clause {
    c.(gap := [])
  }

  lemma TailIsRest(c: Clause)
    ensures ClauseText(c) == GapText(c.gap) + ClauseText(Tail(c)) && Length(Tail(c)) == Length(c)
    ensures WordsOf(Tail(c)) == WordsOf(c) && AtFileEnd(Tail(c)) == AtFileEnd(c)
    ensures forall words :: Verdict(Tail(c), words) == Verdict(c, words)
    ensures Short(c) ==> ShortGap(c.gap) && Short(Tail(c))
  {
    hide FormText, PiecesText;
    assert GapText([]) == "";
    match c
    case End(g, ch) => assert ClauseText(Tail(c)) == [ch];
    case Next(g, w, rest) => assert ClauseText(Tail(c)) == FormText(w) + ClauseText(rest);
    case FileEnd(g, note) =>
      assert ClauseText(Tail(c)) == if note.Some? then "#" + note.value else "";
    case Cut(g, w) =>
      assert ClauseText(Tail(c)) == if w.Bare? then PiecesText(w.ps) else [w.q] + PiecesText(w.ps);
  }

  lemma TailIsGood(c: Clause, b: Before)
    requires Good(c, b)
    ensures GoodGap(c.gap)
    ensures if b.Nothing? || Led(c.gap) then Good(Tail(c), Nothing) else Tail(c) == c
  {
    hide GoodForm, Dollar;
  }

  lemma {:induction false} ClauseReadFrom(short: bool, file: string, pos: nat, l: Lex, b: Before, c: Clause)
    requires Ready(short, file, pos, l, b) && Good(c, b) && (short ==> Short(c)) && Stands(ClauseText(c), file, pos)
    requires AtFileEnd(c) ==> pos + |ClauseText(c)| == |file|
    ensures var t, all := ClauseText(c), WordsAt(l, b) + WordsOf(c);
      (short ==> !Fills(file, pos, l))
      && Scan(file, pos, l) == Token(Verdict(c, all), all, l.line + Lines(t), pos + |t|)
    decreases Length(c), 2
  {
    hide Scan, Fills, Unescaped, Decide, Lines, PiecesText, PiecesMean, GapText, ClauseText, Stands;
    hide Good, Short, Verdict;
    TailIsRest(c);
    TailIsGood(c, b);
    if b.Nothing? || Led(c.gap) {
      var t, rest := GapText(c.gap), ClauseText(Tail(c));
      StandsSplit(t, rest, file, pos);
      LinesAppend(t, rest);
      var m := BeforeGap(short, file, pos, l, b, c.gap);
      TailRead(short, file, pos + |t|, m, Nothing, Tail(c));
    } else {
      TailRead(short, file, pos, l, b, c);
    }
  }

  lemma {:induction false} TailRead(short: bool, file: string, pos: nat, l: Lex, b: Before, c: Clause)
    requires c.gap == [] && Ready(short, file, pos, l, b) && Good(c, b) && (short ==> Short(c))
    requires Stands(ClauseText(c), file, pos)
    requires AtFileEnd(c) ==> pos + |ClauseText(c)| == |file|
    ensures var t, all := ClauseText(c), WordsAt(l, b) + WordsOf(c);
      (short ==> !Fills(file, pos, l))
      && Scan(file, pos, l) == Token(Verdict(c, all), all, l.line + Lines(t), pos + |t|)
    decreases Length(c), 1
  {
    hide Scan, Fills, Unescaped, Decide, Lines, PiecesText, PiecesMean, FormText, Stands;
    assert GapText([]) == "";
    assert WordsAt(l, b) + [] == WordsAt(l, b);
    match c
    case End(_, ch) =>
      assert ClauseText(c) == [ch];
      EndRead(short, file, pos, l, b, ch);
    case FileEnd(_, note) => FileEndRead(short, file, pos, l, b, note);
    case Cut(_, w) => CutRead(short, file, pos, l, w);
    case Next(_, _, _) => NextRead(short, file, pos, l, b, c);
  }

  lemma {:induction false} NextRead(short: bool, file: string, pos: nat, l: Lex, b: Before, c: Clause)
    requires c.gap == [] && c.Next? && Ready(short, file, pos, l, b) && Good(c, b) && (short ==> Short(c))
    requires Stands(ClauseText(c), file, pos) && (AtFileEnd(c) ==> pos + |ClauseText(c)| == |file|)
    ensures var t, all := ClauseText(c), WordsAt(l, b) + WordsOf(c);
      (short ==> !Fills(file, pos, l))
      && Scan(file, pos, l) == Token(Verdict(c, all), all, l.line + Lines(t), pos + |t|)
    decreases Length(c), 0
  {
    hide Scan, Fills, Unescaped, Decide, Lines, PiecesText, PiecesMean, FormText, Stands, GoodForm, Dollar;
    hide Good, Short, Verdict, Leads, GapText, ClauseText;
    var w, rest := c.word, c.rest;
    var t := FormText(w);
    NextParts(c, b);
    assert Between(l) || BehindQuotes(l);
    StandsSplit(t, ClauseText(rest), file, pos);
    LinesAppend(t, ClauseText(rest));
    var m := WordLeads(short, file, pos, l, w);
    Unfold(short, file, pos, l, pos + |t|, m);
    ClauseReadFrom(short, file, pos + |t|, m, Behind(w), rest);
    assert WordsAt(l, b) + WordsOf(c) == WordsAt(m, Behind(w)) + WordsOf(rest);
  }

  lemma Unfold(short: bool, file: string, pos: nat, l: Lex, next: nat, m: Lex)
    requires Leads(short, file, pos, l, next, m)
    ensures AtWork(file, pos, l) && AtWork(file, next, m)
    ensures Scan(file, pos, l) == Scan(file, next, m) && (short ==> Fills(file, pos, l) == Fills(file, next, m))
  {
    hide Scan, Fills;
  }

  lemma NextParts(c: Clause, b: Before)
    requires c.Next? && c.gap == [] && Good(c, b)
    ensures GoodForm(c.word) && Good(c.rest, Behind(c.word)) && !b.AfterBare?
    ensures b.AfterQuote? ==> c.word.Bare? && c.word.ps != [] && c.word.ps[0] == Char(')')
    ensures Short(c) ==> |FormText(c.word)| + 1 < SIZE && Short(c.rest)
    ensures ClauseText(c) == FormText(c.word) + ClauseText(c.rest)
    ensures forall words :: Verdict(c, words) == Verdict(c.rest, words)
  {
    hide GoodForm, PiecesText, FormText;
    assert GapText([]) == "";
  }

  /** The token a clause is read as. */
  function Said(c: Clause, pos: nat, line: nat): Token {
    Token(Verdict(c, WordsOf(c)), WordsOf(c), line + Lines(ClauseText(c)), pos + |ClauseText(c)|)
  }

  /** The clause stands in the file, and what ends with the file stands at its end. */
  predicate StandsIn(c: Clause, file: string, pos: nat) {
    && Good(c, Nothing) && Stands(ClauseText(c), file, pos)
    && (AtFileEnd(c) ==> pos + |ClauseText(c)| == |file|)
  }

  /** A clause anywhere in a file is read as what it says. */
  lemma ClauseRead(file: string, pos: nat, line: nat, c: Clause)
    requires pos <= |file| && StandsIn(c, file, pos)
    ensures Scan(file, pos, Fresh(pos, line)) == Said(c, pos, line)
    ensures Short(c) ==> !Fills(file, pos, Fresh(pos, line))
  {
    hide Scan, Fills, Good, Stands, Verdict, Short, Lines, ClauseText, WordsOf;
    ClauseReadFrom(Short(c), file, pos, Fresh(pos, line), Nothing, c);
    assert [] + WordsOf(c) == WordsOf(c);
  }

  lemma EveryClauseRead(file: string, pos: nat, line: nat)
    requires pos <= |file|
    ensures forall c | StandsIn(c, file, pos) ::
      Scan(file, pos, Fresh(pos, line)) == Said(c, pos, line) && (Short(c) ==> !Fills(file, pos, Fresh(pos, line)))
  {
    hide Scan, Fills, StandsIn, Said, Short;
    forall c | StandsIn(c, file, pos)
      ensures Scan(file, pos, Fresh(pos, line)) == Said(c, pos, line)
      ensures Short(c) ==> !Fills(file, pos, Fresh(pos, line))
    {
      ClauseRead(file, pos, line, c);
    }
  }

  // Whole files.

  function TextOf(cs: seq<Clause>): string {
    if cs == [] then "" else ClauseText(cs[0]) + TextOf(cs[1..])
  }

  predicate Final(c: Clause) {
    Verdict(c, WordsOf(c)).Error? || Verdict(c, WordsOf(c)).FileDone?
  }

  /** Clauses that make up a file, up to its end or the first error. */
  predicate GoodFile(cs: seq<Clause>, file: string, pos: nat) {
    && cs != [] && StandsIn(cs[0], file, pos)
    && if Final(cs[0]) then |cs| == 1 else |cs| > 1 && GoodFile(cs[1..], file, pos + |ClauseText(cs[0])|)
  }

  predicate AllShort(cs: seq<Clause>) {
    forall i | 0 <= i < |cs| :: Short(cs[i])
  }

  function AllSaid(cs: seq<Clause>, pos: nat, line: nat): seq<Token> {
    if cs == [] then []
    else [Said(cs[0], pos, line)] + AllSaid(cs[1..], Said(cs[0], pos, line).pos, Said(cs[0], pos, line).line)
  }

  /** All tokens of a file are those its clauses say. */
  lemma {:induction false} FileRead(file: string, pos: nat, line: nat, cs: seq<Clause>)
    requires pos <= |file| && GoodFile(cs, file, pos)
    ensures Tokens(file, pos, line) == AllSaid(cs, pos, line)
    ensures AllShort(cs) ==> !SomeFills(file, pos, line)
    decreases |cs|
  {
    hide Scan, Fills, Good, Stands, Verdict, Short, Lines, ClauseText, WordsOf;
    ClauseRead(file, pos, line, cs[0]);
    ScanAdvances(file, pos, Fresh(pos, line));
    if !Final(cs[0]) {
      var t := Said(cs[0], pos, line);
      FileRead(file, t.pos, t.line, cs[1..]);
    }
  }

  lemma EveryFileRead(file: string)
    ensures forall cs | GoodFile(cs, file, 0) ::
      Tokens(file, 0, 1) == AllSaid(cs, 0, 1) && (AllShort(cs) ==> !SomeFills(file, 0, 1))
  {
    hide Tokens, SomeFills, GoodFile, AllSaid, AllShort;
    forall cs | GoodFile(cs, file, 0)
      ensures Tokens(file, 0, 1) == AllSaid(cs, 0, 1) && (AllShort(cs) ==> !SomeFills(file, 0, 1))
    {
      FileRead(file, 0, 1, cs);
    }
  }

  // Any words can be written.

  /** A word as it may stand between double quotes. */
  function Spelled(w: string): seq<Piece> {
    if w == "" then [] else [if w[0] == '"' || w[0] == '\\' then Pair(w[0]) else Char(w[0])] + Spelled(w[1..])
  }

  lemma {:induction false} SpelledMeans(w: string)
    ensures PiecesMean(Spelled(w)) == w && GoodForm(Quoted('"', Spelled(w)))
  {
    if w != "" {
      SpelledMeans(w[1..]);
      assert Spelled(w)[1..] == Spelled(w[1..]);
    }
  }

  /** The words in double quotes, with a blank between two and a semicolon behind the last one. */
  function Statement(ws: seq<string>, gap: seq<Filler>): Clause {
    if ws == [] then End([], ';')
    else Next(gap, Quoted('"', Spelled(ws[0])), Statement(ws[1..], [Blank(' ')]))
  }

  lemma {:induction false} StatementIsGood(ws: seq<string>, gap: seq<Filler>, b: Before)
    requires (gap == [] && b.Nothing?) || (gap == [Blank(' ')] && b.AfterQuote?)
    ensures Good(Statement(ws, gap), b) && WordsOf(Statement(ws, gap)) == ws && !AtFileEnd(Statement(ws, gap))
    ensures forall words :: words != [] ==> Verdict(Statement(ws, gap), words) == Ok
    decreases |ws|
  {
    if ws != [] {
      SpelledMeans(ws[0]);
      StatementIsGood(ws[1..], [Blank(' ')], AfterQuote);
    }
  }

  /** Any words can be written so that they are read back, anywhere in a file. */
  lemma WrittenIsRead(file: string, pos: nat, l: Lex, ws: seq<string>)
    requires ws != [] && Between(l) && l.start <= pos && Stands(ClauseText(Statement(ws, [])), file, pos)
    ensures var t := ClauseText(Statement(ws, []));
      Scan(file, pos, l) == Token(Ok, l.words + ws, l.line + Lines(t), pos + |t|)
  {
    hide Scan, Fills, Good, Stands, Short, Lines, ClauseText;
    StatementIsGood(ws, [], Nothing);
    assert pos <= |file| by {
      StandsInFile(ClauseText(Statement(ws, [])), file, pos);
    }
    ClauseReadFrom(false, file, pos, l, Nothing, Statement(ws, []));
  }
}
