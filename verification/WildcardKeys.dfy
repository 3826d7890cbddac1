/** Collecting names with ngx_hash_add_key, and the whole way from patterns as written to the value of a host. */
module WildcardKeys {
  import HashLayout
  import opened WildcardHash

  // ----- names as they should be

  lemma {:induction false} ReversedClean(s: string)
    requires Clean(s)
    ensures Clean(Reversed(s))
    decreases |s|
  {
    var n := After(s);
    if n > 0 {
      ReversedClean(s[..n - 1]);
      assert Clean(s[n..]) && Clean(".");
      CleanJoin(s[n..], ".");
      CleanJoin(s[n..] + ".", Reversed(s[..n - 1]));
    }
  }

  lemma CleanJoin(a: string, b: string)
    requires Clean(a) && Clean(b)
    ensures Clean(a + b)
  {
  }

  lemma CleanText(s: string)
    requires Clean(s)
    ensures Text(s)
  {
  }

  /** No element twice. */
  ghost predicate Single<T>(s: seq<T>) {
    forall i, j | 0 <= i < j < |s| :: s[i] != s[j]
  }

  lemma SinglePermutes<T>(s: seq<T>, t: seq<T>)
    requires multiset(s) == multiset(t) && Single(t)
    ensures Single(s)
  {
    forall i, j | 0 <= i < j < |s|
      ensures s[i] != s[j]
    {
      if s[i] == s[j] {
        Twice(s, i, j);
        Once(t, s[i]);
      }
    }
  }

  lemma Twice<T>(s: seq<T>, i: nat, j: nat)
    requires i < j < |s| && s[i] == s[j]
    ensures multiset(s)[s[i]] >= 2
  {
    assert s == s[..j] + s[j..] && s[i] == s[..j][i] && s[j] == s[j..][0];
    assert s[i] in multiset(s[..j]) && s[i] in multiset(s[j..]);
  }

  lemma {:induction false} Once<T>(s: seq<T>, x: T)
    requires Single(s)
    ensures multiset(s)[x] <= 1
  {
    if s != [] {
      assert s == [s[0]] + s[1..];
      assert Single(s[1..]);
      Once(s[1..], x);
      if s[0] == x {
        assert x !in s[1..];
      }
    }
  }

  /** Domains of their own, values, printing characters in lower case. */
  ghost predicate HeadPatterns(patterns: seq<Name>) {
    && (forall i | 0 <= i < |patterns| :: Pattern(patterns[i].key))
    && (forall i, j | 0 <= i < j < |patterns| :: Bare(patterns[i].key) != Bare(patterns[j].key))
  }

  ghost predicate CleanNames(patterns: seq<Name>) {
    forall i | 0 <= i < |patterns| :: Clean(patterns[i].key) && patterns[i].value != 0
  }

  lemma KeysApart(patterns: seq<Name>)
    requires HeadPatterns(patterns)
    ensures NoConflict(Keys(patterns))
  {
    hide Pattern, Bare, KeyText, Stripped;
    var keys := Keys(patterns);
    forall i, j | 0 <= i < j < |keys|
      ensures Stripped(keys[i].key) != Stripped(keys[j].key)
    {
      ConflictIsSameDomain(patterns[i].key, patterns[j].key);
    }
  }

  /** The sorted keys of the patterns have no conflict either. */
  lemma SortedApart(keys: seq<Name>, names: seq<Name>)
    requires NoConflict(keys) && Permutes(names, keys)
    ensures NoConflict(names)
  {
    hide Stripped, Permutes;
    assert Single(keys);
    SinglePermutes(names, keys) by { PermutesIs(names, keys); }
    forall i, j | 0 <= i < j < |names|
      ensures Stripped(names[i].key) != Stripped(names[j].key)
    {
      var a := PermutedIn(names, keys, i);
      var b := PermutedIn(names, keys, j);
      assert a != b;
    }
  }

  lemma PermutesIs(names: seq<Name>, keys: seq<Name>)
    requires Permutes(names, keys)
    ensures multiset(names) == multiset(keys)
  {
  }

  /** Sorted, the keys of clean patterns can be compiled and stand together under each label. */
  lemma CleanHead(patterns: seq<Name>, names: seq<Name>)
    requires HeadPatterns(patterns) && CleanNames(patterns) && Permutes(names, Keys(patterns)) && Sorted(names)
    ensures Ok(names) && Contiguous(names)
  {
    hide Pattern, Bare, Clean, Text, Stripped, Permutes, DnsCmp, Contiguous;
    KeysApart(patterns);
    SortedApart(Keys(patterns), names);
    forall i | 0 <= i < |names|
      ensures Clean(names[i].key) && Text(names[i].key) && names[i].value != 0
    {
      var k := PermutedIn(names, Keys(patterns), i);
      KeyClean(patterns[k].key);
      CleanText(names[i].key);
    }
    CleanIsContiguous(names);
  }

  lemma KeyClean(text: string)
    requires Pattern(text) && Clean(text)
    ensures Clean(KeyText(text))
  {
    ReversedClean(text[1..]);
  }

  // ----- the other tree

  /** "www.example.*". */
  predicate TailPattern(text: string) {
    |text| > 2 && Text(text) && text[0] != '.' && text[|text| - 3] != '.'
    && text[|text| - 2] == '.' && text[|text| - 1] == '*'
  }

  /** It stands for the names that begin with "www.example.". */
  predicate TailCovers(text: string, host: string)
    requires TailPattern(text)
  {
    text[..|text| - 1] <= host
  }

  function TailKey(text: string): (r: string)
    requires TailPattern(text)
    ensures !Starred(r) && r + "." == text[..|text| - 1]
  {
    text[..|text| - 2]
  }

  function TailKeys(patterns: seq<Name>): (r: seq<Name>)
    requires forall i | 0 <= i < |patterns| :: TailPattern(patterns[i].key)
    ensures |r| == |patterns|
    ensures forall i | 0 <= i < |r| :: r[i] == Name(TailKey(patterns[i].key), patterns[i].value)
  {
    if patterns == [] then [] else [Name(TailKey(patterns[0].key), patterns[0].value)] + TailKeys(patterns[1..])
  }

  ghost predicate TailPatterns(patterns: seq<Name>) {
    && (forall i | 0 <= i < |patterns| :: TailPattern(patterns[i].key))
    && (forall i, j | 0 <= i < j < |patterns| :: patterns[i].key != patterns[j].key)
  }

  ghost predicate TailLongest(patterns: seq<Name>, host: string, k: nat)
    requires k < |patterns| && forall i | 0 <= i < |patterns| :: TailPattern(patterns[i].key)
  {
    TailCovers(patterns[k].key, host)
    && forall j | 0 <= j < |patterns| && TailCovers(patterns[j].key, host) :: |patterns[j].key| <= |patterns[k].key|
  }

  ghost predicate TailMostSpecific(patterns: seq<Name>, host: string, v: nat)
    requires forall i | 0 <= i < |patterns| :: TailPattern(patterns[i].key)
  {
    if v == 0 then forall k | 0 <= k < |patterns| :: !TailCovers(patterns[k].key, host)
    else exists k :: 0 <= k < |patterns| && TailLongest(patterns, host, k) && patterns[k].value == v
  }

  lemma CleanTail(patterns: seq<Name>, names: seq<Name>)
    requires TailPatterns(patterns) && CleanNames(patterns) && Permutes(names, TailKeys(patterns)) && Sorted(names)
    ensures Ok(names) && Contiguous(names)
  {
    hide TailPattern, Clean, Text, Stripped, Starred, Permutes, DnsCmp, Contiguous;
    var keys := TailKeys(patterns);
    TailApart(patterns);
    SortedApart(keys, names);
    forall i | 0 <= i < |names|
      ensures Clean(names[i].key) && Text(names[i].key) && names[i].value != 0
    {
      var k := PermutedIn(names, keys, i);
      TailKeyClean(patterns[k].key);
      CleanText(names[i].key);
    }
    CleanIsContiguous(names);
  }

  lemma TailApart(patterns: seq<Name>)
    requires TailPatterns(patterns)
    ensures NoConflict(TailKeys(patterns))
  {
    hide TailPattern, TailKey;
    var keys := TailKeys(patterns);
    forall i, j | 0 <= i < j < |keys|
      ensures Stripped(keys[i].key) != Stripped(keys[j].key)
    {
      TailKeyDiffers(patterns[i].key, patterns[j].key);
    }
  }

  lemma TailKeyDiffers(a: string, b: string)
    requires TailPattern(a) && TailPattern(b) && a != b
    ensures TailKey(a) != TailKey(b)
  {
    assert a == a[..|a| - 2] + ".*" && b == b[..|b| - 2] + ".*";
  }

  lemma TailKeyClean(text: string)
    requires TailPattern(text) && Clean(text)
    ensures Clean(TailKey(text))
  {
  }

  /** In the tree of the other names a host gets the value of the longest pattern that covers it, or none. */
  lemma TailFindsMostSpecific(patterns: seq<Name>, names: seq<Name>, host: string)
    requires forall i | 0 <= i < |patterns| :: TailPattern(patterns[i].key)
    requires Permutes(names, TailKeys(patterns)) && Ok(names) && Contiguous(names)
    ensures TailMostSpecific(patterns, host, Find(true, Level(Compile(names), 0), host))
  {
    var v := Find(true, Level(Compile(names), 0), host);
    ContiguousIsRight(true, names, host);
    hide Find, Compile, Ok, Contiguous, TailCovers, TailPattern, Matches, Depth, Stripped, TailKey, Permutes;
    var keys := TailKeys(patterns);
    forall k | 0 <= k < |patterns|
      ensures TailCovers(patterns[k].key, host) <==> Matches(true, keys[k].key, host)
      ensures |Stripped(keys[k].key)| == |patterns[k].key| - 2
      ensures exists i :: 0 <= i < |names| && names[i] == keys[k]
    {
      TailCoversIsMatch(patterns[k].key, host);
      PermutesBack(names, keys);
      var i := PermutedIn(keys, names, k);
    }
    if v != 0 {
      var i :| 0 <= i < |names| && Wins(true, names, host, i) && names[i].value == v;
      var k := PermutedIn(names, keys, i);
      forall j | 0 <= j < |patterns| && TailCovers(patterns[j].key, host)
        ensures |patterns[j].key| <= |patterns[k].key|
      {
        var m :| 0 <= m < |names| && names[m] == keys[j];
        DeeperIsLonger(true, keys[j].key, keys[k].key, host);
      }
      assert TailLongest(patterns, host, k);
    }
  }

  lemma TailCoversIsMatch(text: string, host: string)
    requires TailPattern(text)
    ensures TailCovers(text, host) <==> Matches(true, TailKey(text), host)
    ensures |Stripped(TailKey(text))| == |text| - 2
  {
    TailMatch(TailKey(text), host);
  }

  // ----- adding names

  datatype Kind = Refused | Exact | Dotted | Wild | Tail

  function Stars(s: string): nat {
    if s == "" then 0 else (if s[|s| - 1] == '*' then 1 else 0) + Stars(s[..|s| - 1])
  }

  predicate TwoDots(s: string) {
    exists i :: 0 <= i < |s| - 1 && s[i] == '.' && s[i + 1] == '.'
  }

  /** "*.example.com", ".example.com" and "www.example.*" are the wildcards there are. */
  function KindOf(s: string): Kind {
    if Stars(s) > 1 || TwoDots(s) || !Text(s) then Refused
    else if |s| > 1 && s[0] == '.' then Dotted
    else if |s| > 2 && s[0] == '*' && s[1] == '.' then Wild
    else if |s| > 2 && s[|s| - 2] == '.' && s[|s| - 1] == '*' then Tail
    else if Stars(s) > 0 then Refused
    else Exact
  }

  lemma KindPattern(s: string)
    ensures KindOf(s) == Dotted || KindOf(s) == Wild ==> Pattern(s)
    ensures KindOf(s) == Tail ==> TailPattern(s)
  {
    if !TwoDots(s) && |s| > 2 {
      assert s[1] == '.' && s[2] == '.' ==> TwoDots(s);
      assert s[|s| - 3] == '.' && s[|s| - 2] == '.' ==> TwoDots(s);
    }
    assert |s| > 1 && s[0] == '.' && s[1] == '.' ==> TwoDots(s);
  }

  /** The scan over the name, and what it decides. */
  method Classify(s: string) returns (kind: Kind)
    ensures kind == KindOf(s)
  {
    var n, i := 0, 0;
    assert s[..|s|] == s;
    while i < |s|
      invariant 0 <= i <= |s| && n == Stars(s[..i]) <= 1
      invariant forall j | 0 <= j < i :: s[j] != '\0' && !(s[j] == '.' && j + 1 < |s| && s[j + 1] == '.')
    {
      assert s[..i + 1][..i] == s[..i];
      if s[i] == '*' {
        n := n + 1;
        if n > 1 {
          StarsGrow(s, i + 1);
          return Refused;
        }
      }
      if s[i] == '.' && i + 1 < |s| && s[i + 1] == '.' {
        return Refused;
      }
      if s[i] == '\0' {
        return Refused;
      }
      i := i + 1;
    }
    if |s| > 1 && s[0] == '.' {
      return Dotted;
    }
    if |s| > 2 {
      if s[0] == '*' && s[1] == '.' {
        return Wild;
      }
      if s[i - 2] == '.' && s[i - 1] == '*' {
        return Tail;
      }
    }
    if n > 0 {
      return Refused;
    }
    return Exact;
  }

  lemma {:induction false} StarsGrow(s: string, i: nat)
    requires i <= |s|
    ensures Stars(s[..i]) <= Stars(s)
    decreases |s| - i
  {
    if i == |s| {
      assert s[..i] == s;
    } else {
      StarsGrow(s, i + 1);
      assert s[..i + 1][..i] == s[..i];
    }
  }

  /** The comparison takes characters as names are stored. */
  lemma FoldIsLower(s: string)
    ensures First(s) == if s == "" then 0 else HashLayout.Lowered(s)[0] as int
  {
  }

  lemma LoweredPattern(s: string)
    ensures var t := HashLayout.Lowered(s);
      (Pattern(s) ==> Pattern(t) && t[0] == s[0]) && (TailPattern(s) ==> TailPattern(t))
  {
  }

  lemma {:induction false} KeysAdd(a: seq<Name>, n: Name)
    requires (forall i | 0 <= i < |a| :: Pattern(a[i].key)) && Pattern(n.key)
    ensures Keys(a + [n]) == Keys(a) + [Name(KeyText(n.key), n.value)]
  {
  }

  lemma {:induction false} TailKeysAdd(a: seq<Name>, n: Name)
    requires (forall i | 0 <= i < |a| :: TailPattern(a[i].key)) && TailPattern(n.key)
    ensures TailKeys(a + [n]) == TailKeys(a) + [Name(TailKey(n.key), n.value)]
  {
  }

  lemma HeadNext(patterns: seq<Name>, names: seq<string>, n: Name)
    requires HeadPatterns(patterns) && Pattern(n.key) && |names| == |patterns| && Bare(n.key) !in names
    requires forall i | 0 <= i < |patterns| :: names[i] == Bare(patterns[i].key)
    ensures HeadPatterns(patterns + [n]) && Keys(patterns + [n]) == Keys(patterns) + [Name(KeyText(n.key), n.value)]
  {
    hide Pattern, Bare, KeyText;
    KeysAdd(patterns, n);
  }

  lemma TailNext(tails: seq<Name>, names: seq<string>, n: Name)
    requires TailPatterns(tails) && TailPattern(n.key) && |names| == |tails| && n.key[..|n.key| - 1] !in names
    requires forall i | 0 <= i < |tails| :: names[i] == tails[i].key[..|tails[i].key| - 1]
    ensures TailPatterns(tails + [n]) && TailKeys(tails + [n]) == TailKeys(tails) + [Name(TailKey(n.key), n.value)]
  {
    hide TailPattern, TailKey;
    TailKeysAdd(tails, n);
  }

  lemma BareIs(name: string)
    requires Pattern(name)
    ensures Bare(name) == name[if name[0] == '*' then 2 else 1..] && |name| > 1
  {
  }

  lemma KindName(s: string)
    ensures var t := HashLayout.Lowered(s);
      && |t| == |s|
      && (KindOf(s) == Dotted ==> Pattern(t) && t[0] == '.')
      && (KindOf(s) == Wild ==> Pattern(t) && |t| > 2 && Bare(t) == t[2..])
      && (KindOf(s) == Tail ==> TailPattern(t))
  {
    KindPattern(s);
    LoweredPattern(s);
    hide TailPattern, TwoDots, Stars, Text;
  }

  datatype Code = OK | BUSY | DECLINED

  /** The names gathered so far, and for each of the three kinds the names that are in use. Equal names fall into
      one bucket of the source's tables, so each table is one list. */
  class KeysArrays {
    var exact: seq<Name>
    var taken: seq<string>
    var head: seq<Name>
    var headTaken: seq<string>
    var tail: seq<Name>
    var tailTaken: seq<string>
    ghost var patterns: seq<Name>
    ghost var tails: seq<Name>

    constructor ()
      ensures Valid() && exact == [] && taken == [] && patterns == [] && tails == []
    {
      exact, taken, head, headTaken, tail, tailTaken := [], [], [], [], [], [];
      patterns, tails := [], [];
    }

    /** The lists for the trees hold the keys of the patterns accepted, which have no conflict. */
    ghost predicate Valid()
      reads this
    {
      && HeadPatterns(patterns) && head == Keys(patterns)
      && |headTaken| == |patterns| && (forall i | 0 <= i < |patterns| :: headTaken[i] == Bare(patterns[i].key))
      && TailPatterns(tails) && tail == TailKeys(tails)
      && |tailTaken| == |tails|
      && (forall i | 0 <= i < |tails| :: tailTaken[i] == tails[i].key[..|tails[i].key| - 1])
      && (forall i | 0 <= i < |exact| :: exact[i].key in taken)
      && (forall i, j | 0 <= i < j < |exact| :: exact[i].key != exact[j].key)
    }

    method AddExact(name: string, value: nat) returns (rc: Code)
      requires Valid()
      modifies `exact, `taken
      ensures Valid() && rc == if name in old(taken) then BUSY else OK
      ensures exact == old(exact) + (if rc == OK then [Name(name, value)] else [])
      ensures taken == old(taken) + (if rc == OK then [name] else [])
    {
      hide HeadPatterns, TailPatterns, Bare, Pattern, TailPattern;
      var used := Among(taken, name);
      if used {
        return BUSY;
      }
      taken := taken + [name];
      exact := exact + [Name(name, value)];
      rc := OK;
    }

    /** The key with the labels from the end, unless the domain is in use. */
    method AddHead(name: string, value: nat) returns (rc: Code)
      requires Valid() && Pattern(name)
      modifies `head, `headTaken, `patterns
      ensures Valid() && rc == if Bare(name) in old(headTaken) then BUSY else OK
      ensures patterns == old(patterns) + (if rc == OK then [Name(name, value)] else [])
    {
      hide HeadPatterns, TailPatterns, Pattern, TailPattern, KeyText, TailKey;
      BareIs(name);
      var p := KeyOf(name);
      var skip := if name[0] == '*' then 2 else 1;
      var used := Among(headTaken, name[skip..]);
      if used {
        return BUSY;
      }
      HeadNext(patterns, headTaken, Name(name, value));
      headTaken := headTaken + [name[skip..]];
      head := head + [Name(p, value)];
      patterns := patterns + [Name(name, value)];
      rc := OK;
    }

    lemma TakenNext(tails: seq<Name>, names: seq<string>, n: Name)
      requires TailPatterns(tails) && TailPattern(n.key) && |names| == |tails|
      requires forall i | 0 <= i < |tails| :: names[i] == tails[i].key[..|tails[i].key| - 1]
      ensures var ts, ns := tails + [n], names + [n.key[..|n.key| - 1]];
        forall i | 0 <= i < |ts| :: TailPattern(ts[i].key) && ns[i] == ts[i].key[..|ts[i].key| - 1]
    {
      var ts := tails + [n];
      assert forall i | 0 <= i < |ts| :: ts[i] == if i < |tails| then tails[i] else n;
    }

    lemma TailKeyIs(name: string)
      requires TailPattern(name)
      ensures |name| > 2 && TailKey(name) == name[..|name| - 2]
    {
    }

    method AddTail(name: string, value: nat) returns (rc: Code)
      requires Valid() && TailPattern(name)
      modifies `tail, `tailTaken, `tails
      ensures Valid() && rc == if name[..|name| - 1] in old(tailTaken) then BUSY else OK
      ensures tails == old(tails) + (if rc == OK then [Name(name, value)] else [])
    {
      hide HeadPatterns, TailPatterns, Pattern, KeyText, Bare;
      TailKeyIs(name);
      hide TailPattern, TailKey, TailKeys;
      var bare := name[..|name| - 1];
      var used := Among(tailTaken, bare);
      if used {
        return BUSY;
      }
      var n := Name(name, value);
      TailNext(tails, tailTaken, n);
      TakenNext(tails, tailTaken, n);
      tailTaken := tailTaken + [bare];
      tail := tail + [Name(name[..|name| - 2], value)];
      tails := tails + [n];
      rc := OK;
    }

    method AddDotted(name: string, value: nat) returns (rc: Code)
      requires Valid() && Pattern(name) && name[0] == '.'
      modifies `taken, `head, `headTaken, `patterns
      ensures Valid() && rc == if name[1..] in old(taken) || name[1..] in old(headTaken) then BUSY else OK
      ensures taken == old(taken) + (if name[1..] in old(taken) then [] else [name[1..]])
      ensures patterns == old(patterns) + (if rc == OK then [Name(name, value)] else [])
    {
      hide HeadPatterns, TailPatterns, Pattern, TailPattern, Bare;
      BareIs(name);
      var used := Among(taken, name[1..]);
      if used {
        return BUSY;
      }
      taken := taken + [name[1..]];
      rc := AddHead(name, value);
    }

    /** ngx_hash_add_key for names that may be wildcards. A dotted name that is turned down by a starred one
        stays in use as an exact name. */
    method AddKey(text: string, value: nat, readonly: bool) returns (rc: Code)
      requires Valid()
      modifies this
      ensures Valid()
      ensures rc == DECLINED <==> KindOf(text) == Refused
      ensures rc == DECLINED <==> Faulty(text)
      ensures KindOf(text) == Exact ==>
        var name := if readonly then text else HashLayout.Lowered(text);
        && (rc == BUSY <==> name in old(taken))
        && exact == old(exact) + (if rc == OK then [Name(name, value)] else [])
        && taken == old(taken) + (if rc == OK then [name] else [])
      ensures KindOf(text) == Dotted ==>
        var name := HashLayout.Lowered(text);
        && (rc == BUSY <==> name[1..] in old(taken) || name[1..] in old(headTaken))
        && taken == old(taken) + (if name[1..] in old(taken) then [] else [name[1..]])
      ensures KindOf(text) == Wild ==>
        (rc == BUSY <==> HashLayout.Lowered(text)[2..] in old(headTaken)) && taken == old(taken)
      ensures KindOf(text) == Tail ==>
        (rc == BUSY <==> HashLayout.Lowered(text)[..|text| - 1] in old(tailTaken)) && taken == old(taken)
      ensures patterns == old(patterns) +
        (if rc == OK && (KindOf(text) == Dotted || KindOf(text) == Wild)
          then [Name(HashLayout.Lowered(text), value)] else [])
      ensures tails == old(tails) +
        (if rc == OK && KindOf(text) == Tail then [Name(HashLayout.Lowered(text), value)] else [])
      ensures rc != OK || KindOf(text) != Exact ==> exact == old(exact)
      ensures rc == DECLINED ==> taken == old(taken)
    {
      var kind := Classify(text);
      KindName(text);
      RefusedIffFaulty(text);
      hide Valid, Faulty, KindOf, Pattern, TailPattern, Bare, HashLayout.Lowered;
      var name := HashLayout.Lowered(text);
      match kind {
        case Refused => rc := DECLINED;
        case Exact =>
          if readonly {
            name := text;
          }
          rc := AddExact(name, value);
        case Dotted =>
          rc := AddDotted(name, value);
        case Wild => rc := AddHead(name, value);
        case Tail => rc := AddTail(name, value);
      }
    }

    /** The whole way: the keys gathered, in an order that sorts them, compiled and searched for a host. */
    method FindHead(sorted: seq<Name>, host: string) returns (value: nat)
      requires Valid() && CleanNames(patterns) && Permutes(sorted, head) && Sorted(sorted)
      ensures MostSpecific(patterns, host, value)
    {
      CleanHead(patterns, sorted);
      HeadFindsMostSpecific(patterns, sorted, host);
      OkDifferent(sorted);
      DifferentCuttable(sorted);
      var level := WildcardInit(sorted);
      value := FindWcHead(level, host);
    }

    method FindTail(sorted: seq<Name>, host: string) returns (value: nat)
      requires Valid() && CleanNames(tails) && Permutes(sorted, tail) && Sorted(sorted)
      ensures TailMostSpecific(tails, host, value)
    {
      CleanTail(tails, sorted);
      TailFindsMostSpecific(tails, sorted, host);
      OkDifferent(sorted);
      DifferentCuttable(sorted);
      var level := WildcardInit(sorted);
      value := FindWcTail(level, host);
    }
  }

  lemma OkDifferent(names: seq<Name>)
    requires Ok(names)
    ensures Different(names)
  {
    hide Sorted, Text, Stripped, Values;
  }

  /** The search of a table for a name in use. */
  method Among(names: seq<string>, name: string) returns (used: bool)
    ensures used <==> name in names
  {
    var i := 0;
    while i < |names|
      invariant 0 <= i <= |names| && name !in names[..i]
    {
      if |name| == |names[i]| && name == names[i] {
        return true;
      }
      i := i + 1;
    }
    return false;
  }

  // ----- which texts are what

  /** A name without star, zero, or empty label at its ends or within. */
  predicate Domain(d: string) {
    d != "" && d[0] != '.' && d[|d| - 1] != '.' && '*' !in d && '\0' !in d && !TwoDots(d)
  }

  /** What may be added for a domain. */
  datatype Form = Alone | DotBefore | StarBefore | StarAfter

  function Written(form: Form, d: string): string {
    match form
    case Alone => d
    case DotBefore => "." + d
    case StarBefore => "*." + d
    case StarAfter => d + ".*"
  }

  lemma {:induction false} StarsAppend(a: string, b: string)
    ensures Stars(a + b) == Stars(a) + Stars(b)
    decreases |b|
  {
    if b == "" {
      assert a + b == a;
    } else {
      var c := b[..|b| - 1];
      assert (a + b)[..|a + b| - 1] == a + c;
      StarsAppend(a, c);
    }
  }

  lemma {:induction false} LastStar(s: string) returns (a: string, b: string)
    requires Stars(s) > 0
    ensures s == a + "*" + b && Stars(a) == Stars(s) - 1 && '*' !in b
    decreases |s|
  {
    var t := s[..|s| - 1];
    if s[|s| - 1] == '*' {
      a, b := t, "";
    } else {
      a, b := LastStar(t);
      b := b + [s[|s| - 1]];
    }
  }

  /** Two dots in a row, a zero, two stars, or one star that is not the first label, nor the last one, of a name that
      does not begin with a dot; a name that does is taken for a domain with its star and all. */
  ghost predicate Faulty(s: string) {
    || '\0' in s
    || (exists a, b :: s == a + ".." + b)
    || (exists a, b, c :: s == a + "*" + b + "*" + c)
    || (exists a, b :: Misplaced(s, a, b))
  }

  lemma TwoDotsText(s: string)
    ensures TwoDots(s) <==> exists a, b :: s == a + ".." + b
  {
    if i :| 0 <= i < |s| - 1 && s[i] == '.' && s[i + 1] == '.' {
      assert s == s[..i] + ".." + s[i + 2..];
    }
    if a, b :| s == a + ".." + b {
      assert s[|a|] == '.' && s[|a| + 1] == '.';
    }
  }

  lemma TwoStarsText(s: string)
    ensures Stars(s) > 1 <==> exists a, b, c :: s == a + "*" + b + "*" + c
  {
    if Stars(s) > 1 {
      var a, c := LastStar(s);
      var x, b := LastStar(a);
      assert s == x + "*" + b + "*" + c;
    }
    if a, b, c :| s == a + "*" + b + "*" + c {
      StarsAppend(a + "*" + b + "*", c);
      StarsAppend(a + "*" + b, "*");
      StarsAppend(a + "*", b);
      StarsAppend(a, "*");
      assert Stars("*") == 1;
    }
  }

  lemma OneStarText(s: string, a: string, b: string)
    requires Stars(s) <= 1 && s == a + "*" + b
    ensures Stars(s) == 1 && '*' !in a && '*' !in b
  {
    StarsAppend(a + "*", b);
    StarsAppend(a, "*");
    assert Stars("*") == 1;
    StarFree(a);
    StarFree(b);
  }

  lemma {:induction false} StarFree(s: string)
    ensures Stars(s) == 0 <==> '*' !in s
    decreases |s|
  {
    if s != "" {
      StarFree(s[..|s| - 1]);
      assert s == s[..|s| - 1] + [s[|s| - 1]];
    }
  }

  /** The names refused. */
  lemma RefusedIffFaulty(s: string)
    ensures KindOf(s) == Refused <==> Faulty(s)
  {
    TwoDotsText(s);
    TwoStarsText(s);
    ZeroText(s);
    if Stars(s) <= 1 && !TwoDots(s) && Text(s) {
      OneStarPlace(s);
    }
  }

  ghost predicate Misplaced(s: string, a: string, b: string) {
    && s == a + "*" + b
    && !(a == "" && |b| > 1 && b[0] == '.') && !(b == "" && |a| > 1 && a[|a| - 1] == '.')
    && !(|s| > 1 && s[0] == '.')
  }

  lemma OneStarPlace(s: string)
    requires Stars(s) <= 1 && !TwoDots(s) && Text(s)
    ensures KindOf(s) == Refused <==> exists a, b :: Misplaced(s, a, b)
  {
    StarFree(s);
    if Stars(s) == 1 {
      var a, b := LastStar(s);
      StarFree(a);
      KindByPlace(s, a, b);
      assert KindOf(s) == Refused <==> Misplaced(s, a, b);
      if c, d :| Misplaced(s, c, d) {
        SamePlace(s, a, b, c, d);
      }
    } else if c, d :| Misplaced(s, c, d) {
      OneStarText(s, c, d);
    }
  }

  lemma KindByPlace(s: string, a: string, b: string)
    requires Stars(s) == 1 && !TwoDots(s) && Text(s) && s == a + "*" + b && '*' !in a && '*' !in b
    ensures KindOf(s) == Refused <==> Misplaced(s, a, b)
  {
    assert s[|a|] == '*' && s[..|a|] == a && s[|a| + 1..] == b;
    assert forall i | 0 <= i < |s| && i != |a| :: s[i] != '*' by {
      assert forall i | 0 <= i < |a| :: s[i] == a[i];
      assert forall i | |a| < i < |s| :: s[i] == b[i - |a| - 1];
    }
  }

  lemma SamePlace(s: string, a: string, b: string, c: string, d: string)
    requires Stars(s) == 1 && s == a + "*" + b == c + "*" + d
    ensures a == c && b == d
  {
    OneStarText(s, a, b);
    OneStarText(s, c, d);
    var x, y := a + "*" + b, c + "*" + d;
    assert x[|a|] == '*' && y[|c|] == '*';
    assert forall i | 0 <= i < |a| :: s[i] != '*' by {
      assert forall i | 0 <= i < |a| :: x[i] == a[i] && a[i] in a;
    }
    assert forall i | 0 <= i < |c| :: s[i] != '*' by {
      assert forall i | 0 <= i < |c| :: y[i] == c[i] && c[i] in c;
    }
    assert a == s[..|a|] && c == s[..|c|] && b == s[|a| + 1..] && d == s[|c| + 1..];
  }

  lemma ZeroText(s: string)
    ensures Text(s) <==> '\0' !in s
  {
  }

  /** Each form of a domain is what it should be. */
  lemma KindsWritten(form: Form, d: string)
    requires Domain(d)
    ensures KindOf(Written(form, d)) ==
      match form case Alone => Exact case DotBefore => Dotted case StarBefore => Wild case StarAfter => Tail
  {
    var s := Written(form, d);
    StarFree(d);
    StarsAppend("*.", d);
    StarsAppend(".", d);
    StarsAppend(d, ".*");
    SmallStars();
    PlainChars(form, d);
  }

  lemma SmallStars()
    ensures Stars("*.") == Stars(".*") == 1 && Stars(".") == 0
  {
    assert "*."[..1] == "*" && ".*"[..1] == ".";
  }

  lemma PlainChars(form: Form, d: string)
    requires Domain(d)
    ensures Text(Written(form, d)) && !TwoDots(Written(form, d))
  {
    var s := Written(form, d);
    var k := match form case Alone => 0 case DotBefore => 1 case StarBefore => 2 case StarAfter => 0;
    assert forall i | 0 <= i < |d| :: s[k + i] == d[i] && d[i] in d;
    forall i | 0 <= i < |s| - 1
      ensures !(s[i] == '.' && s[i + 1] == '.')
    {
      assert k <= i && i + 1 < k + |d| ==> s[i] == d[i - k] && s[i + 1] == d[i + 1 - k];
    }
  }

  /** A form of a domain, added to nothing, is accepted and comes into the list for its form, in small letters, and into
      no other. */
  method AddFirst(form: Form, d: string, value: nat) returns (keys: KeysArrays, rc: Code)
    requires Domain(d)
    ensures fresh(keys) && keys.Valid() && rc == OK
    ensures var one := [Name(HashLayout.Lowered(Written(form, d)), value)];
      && keys.exact == (if form.Alone? then one else [])
      && keys.patterns == (if form.DotBefore? || form.StarBefore? then one else [])
      && keys.tails == (if form.StarAfter? then one else [])
  {
    KindsWritten(form, d);
    hide KindOf, HashLayout.Lowered, Domain, Written, KeysArrays.Valid;
    keys := new KeysArrays();
    NothingTaken(keys);
    rc := keys.AddKey(Written(form, d), value, false);
  }

  lemma NothingTaken(keys: KeysArrays)
    requires keys.Valid() && keys.patterns == keys.tails == []
    ensures keys.headTaken == keys.tailTaken == []
  {
  }

  // ----- accepted, and wrong

  lemma BrokenKinds()
    ensures KindOf("a.*") == KindOf("a\t.*") == KindOf("a.b.*") == Tail
    ensures HashLayout.Lowered("a.*") == "a.*" && HashLayout.Lowered("a\t.*") == "a\t.*"
    ensures HashLayout.Lowered("a.b.*") == "a.b.*"
  {
    hide KindOf, HashLayout.Lowered;
    Trailing("a.");
    Trailing("a\t.");
    Trailing("a.b.");
    assert "a." + "*" == "a.*" && "a\t." + "*" == "a\t.*" && "a.b." + "*" == "a.b.*";
    SmallLetters("a.*");
    SmallLetters("a\t.*");
    SmallLetters("a.b.*");
  }

  lemma Trailing(s: string)
    requires |s| > 1 && s[0] != '.' && s[|s| - 1] == '.' && '*' !in s && Text(s) && !TwoDots(s)
    ensures KindOf(s + "*") == Tail
  {
    OneStar(s);
    hide Stars;
    var t := s + "*";
    forall i | 0 <= i < |t| - 1
      ensures !(t[i] == '.' && t[i + 1] == '.')
    {
      assert t[i] == s[i] && (i + 1 < |s| ==> t[i + 1] == s[i + 1]);
    }
    assert t[0] == s[0] && s[0] in s;
  }

  lemma SmallLetters(s: string)
    requires forall i | 0 <= i < |s| :: HashLayout.Lower(s[i]) == s[i]
    ensures HashLayout.Lowered(s) == s
  {
  }

  lemma OneStar(s: string)
    requires '*' !in s
    ensures Stars(s + "*") == 1
  {
    assert (s + "*")[..|s|] == s;
    NoStar(s);
  }

  lemma {:induction false} NoStar(s: string)
    requires '*' !in s
    ensures Stars(s) == 0
    decreases |s|
  {
    if s != "" {
      NoStar(s[..|s| - 1]);
    }
  }

  method AddTrailing(keys: KeysArrays, text: string, value: nat) returns (rc: Code)
    requires keys.Valid() && KindOf(text) == Tail && HashLayout.Lowered(text) == text
    requires forall i | 0 <= i < |keys.tails| :: keys.tails[i].key != text
    modifies keys
    ensures keys.Valid() && rc == OK && keys.tails == old(keys.tails) + [Name(text, value)]
  {
    NotTaken(keys, text);
    hide KindOf, HashLayout.Lowered, KeysArrays.Valid;
    rc := keys.AddKey(text, value, false);
  }

  lemma StarBehind(t: string)
    requires TailPattern(t)
    ensures |t| > 0 && t == t[..|t| - 1] + "*"
  {
  }

  lemma NotTaken(keys: KeysArrays, text: string)
    requires keys.Valid() && KindOf(text) == Tail
    requires forall i | 0 <= i < |keys.tails| :: keys.tails[i].key != text
    ensures |text| > 0 && text[..|text| - 1] !in keys.tailTaken
  {
    KindPattern(text);
    StarBehind(text);
    hide TailPattern, HeadPatterns, Keys, Bare, KindOf;
    forall i | 0 <= i < |keys.tails|
      ensures keys.tailTaken[i] != text[..|text| - 1]
    {
      StarBehind(keys.tails[i].key);
    }
  }

  /** "a.*", "a\t.*" and "a.b.*" are accepted one after the other, their keys are sorted as they are gathered, and some
      host gets a wrong answer from the tree that is made of them. */
  method AcceptBroken() returns (keys: KeysArrays, ghost host: string)
    ensures keys.Valid() && keys.tail == BROKEN && Sorted(BROKEN) && !Contiguous(BROKEN) && Wrong(true, BROKEN, host)
  {
    host := BrokenHost();
    keys := AddBroken();
    BrokenTails(keys);
  }

  method AddBroken() returns (keys: KeysArrays)
    ensures keys.Valid() && keys.tails == [Name("a.*", 1), Name("a\t.*", 2), Name("a.b.*", 3)]
  {
    BrokenKinds();
    hide *;
    keys := new KeysArrays();
    var rc := AddTrailing(keys, "a.*", 1);
    rc := AddTrailing(keys, "a\t.*", 2);
    rc := AddTrailing(keys, "a.b.*", 3);
  }

  lemma BrokenHost() returns (host: string)
    ensures Sorted(BROKEN) && !Contiguous(BROKEN) && Wrong(true, BROKEN, host)
  {
    hide Contiguous, Wrong, DistinctValues, Sorted;
    ControlCharacterBreaks();
    var at;
    host, at := NotContiguousIsWrong(true, BROKEN);
  }

  lemma BrokenTails(keys: KeysArrays)
    requires keys.Valid() && keys.tails == [Name("a.*", 1), Name("a\t.*", 2), Name("a.b.*", 3)]
    ensures keys.tail == BROKEN
  {
    var tails := keys.tails;
    assert "a.*"[..1] == "a" && "a\t.*"[..2] == "a\t" && "a.b.*"[..3] == "a.b";
    assert tails[0].key == "a.*" && tails[1].key == "a\t.*" && tails[2].key == "a.b.*";
    assert TailKey(tails[0].key) == "a" && TailKey(tails[1].key) == "a\t" && TailKey(tails[2].key) == "a.b";
  }
}
