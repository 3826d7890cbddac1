/** Wildcard names compiled into a tree of hashes: ngx_hash_wildcard_init, ngx_hash_find_wc_head and
    ngx_hash_find_wc_tail, the order ngx_dns_strcmp and the key reversal of ngx_hash_add_key. */
module WildcardHash {
  import opened Wrappers

  /** A key of the list to compile: labels in the order of lookup, joined by dots. A dot at the end
      stands for one label more at least. Value 0 is no value. */
  datatype Name = Name(key: string, value: nat)

  /** What a label leads to, with the two low bits of the pointer: a value or a hash of the labels below,
      and whether names that end here are excluded. */
  datatype Entry = Leaf(value: nat, only: bool) | Sub(level: Level, only: bool)

  datatype Elt = Elt(text: string, entry: Entry)

  /** One hash, as the list of its elements in the order in which they were put in, and its own value. */
  datatype Level = Level(table: seq<Elt>, value: nat)

  // ----- labels

  function Dot(s: string): (r: nat)
    ensures r <= |s|
    ensures forall i | 0 <= i < r :: s[i] != '.'
    ensures r < |s| ==> s[r] == '.'
  {
    if s == "" || s[0] == '.' then 0 else 1 + Dot(s[1..])
  }

  function Label(s: string): string {
    s[..Dot(s)]
  }

  predicate HasDot(s: string) {
    Dot(s) < |s|
  }

  function Rest(s: string): (r: string)
    ensures |r| <= |s| && (HasDot(s) ==> |r| < |s|)
  {
    if HasDot(s) then s[Dot(s) + 1..] else ""
  }

  lemma DotIs(s: string, n: nat)
    requires n <= |s| && (n < |s| ==> s[n] == '.') && forall i | 0 <= i < n :: s[i] != '.'
    ensures Dot(s) == n
  {
  }

  lemma LabelOf(c: string, r: string)
    requires '.' !in c
    ensures Label(c) == c && !HasDot(c)
    ensures Label(c + "." + r) == c && HasDot(c + "." + r) && Rest(c + "." + r) == r
  {
    DotIs(c, |c|);
    DotIs(c + "." + r, |c|);
  }

  lemma LabelParts(s: string)
    ensures '.' !in Label(s) && s == if HasDot(s) then Label(s) + "." + Rest(s) else Label(s)
  {
  }

  // ----- lookup

  /** ngx_hash_find: the first element with the label. */
  function FindElt(table: seq<Elt>, text: string): Option<Entry> {
    if table == [] then None
    else if table[0].text == text then Some(table[0].entry) else FindElt(table[1..], text)
  }

  /** The value found for a name, its labels in the order of lookup. With tail, a name that ends is not found. */
  function Find(tail: bool, level: Level, name: string): nat
    decreases |name|, 1
  {
    if tail && !HasDot(name) then 0
    else match FindElt(level.table, Label(name))
         case None => level.value
         case Some(e) => FindIn(tail, e, name)
  }

  function FindIn(tail: bool, e: Entry, name: string): nat
    decreases |name|, 0
  {
    if !HasDot(name) then
      if e.only then 0 else match e case Leaf(v, _) => v case Sub(l, _) => l.value
    else
      match e
      case Leaf(v, _) => v
      case Sub(l, _) => var v := Find(tail, l, Rest(name)); if v != 0 then v else l.value
  }

  // ----- compilation

  /** The names behind the first one that go under the same label. */
  predicate SameGroup(first: string, key: string) {
    var len := if HasDot(first) then Dot(first) + 1 else Dot(first);
    len <= |key| && key[..len] == first[..len] && (!HasDot(first) && |key| > len ==> key[len] == '.')
  }

  function GroupEnd(names: seq<Name>, i: nat): (r: nat)
    requires 0 < i <= |names|
    ensures i <= r <= |names|
    ensures forall j | i <= j < r :: SameGroup(names[0].key, names[j].key)
    ensures r < |names| ==> !SameGroup(names[0].key, names[r].key)
    decreases |names| - i
  {
    if i < |names| && SameGroup(names[0].key, names[i].key) then GroupEnd(names, i + 1) else i
  }

  /** The key ends with its first label, or with the dot after it. */
  predicate EndsHere(key: string) {
    !HasDot(key) || Rest(key) == ""
  }

  function Cut(names: seq<Name>): (r: seq<Name>)
    ensures |r| == |names| && forall i | 0 <= i < |names| :: r[i] == Name(Rest(names[i].key), names[i].value)
  {
    if names == [] then [] else [Name(Rest(names[0].key), names[0].value)] + Cut(names[1..])
  }

  /** What is left of the names of a group below their label. */
  function Nexts(group: seq<Name>): seq<Name>
    requires group != []
  {
    if EndsHere(group[0].key) then Cut(group[1..]) else Cut(group)
  }

  function Size(names: seq<Name>): nat {
    if names == [] then 0 else |names[0].key| + 1 + Size(names[1..])
  }

  lemma {:induction false} CutSize(names: seq<Name>)
    ensures Size(Cut(names)) <= Size(names)
    ensures names != [] && HasDot(names[0].key) ==> Size(Cut(names)) < Size(names)
  {
    if names != [] {
      CutSize(names[1..]);
      assert Cut(names)[1..] == Cut(names[1..]);
    }
  }

  lemma {:induction false} SizeSplit(names: seq<Name>, k: nat)
    requires k <= |names|
    ensures Size(names) == Size(names[..k]) + Size(names[k..])
  {
    if k > 0 {
      SizeSplit(names[1..], k - 1);
      assert names[..k][1..] == names[1..][..k - 1] && names[k..] == names[1..][k - 1..];
    } else {
      assert names[..0] == [] && names[0..] == names;
    }
  }

  lemma GroupShrinks(names: seq<Name>, k: nat)
    requires 0 < k <= |names|
    ensures Size(Nexts(names[..k])) < Size(names) && Size(names[k..]) < Size(names) && Size(names[..k]) <= Size(names)
  {
    SizeSplit(names, k);
    CutSize(names[..k]);
    CutSize(names[..k][1..]);
  }

  /** The element of a group, with the names below already compiled. */
  function Make(group: seq<Name>, below: seq<Elt>): Elt
    requires group != []
  {
    var key := group[0].key;
    Elt(Label(key),
        if Nexts(group) != [] then Sub(Level(below, if EndsHere(key) then group[0].value else 0), HasDot(key))
        else Leaf(group[0].value, HasDot(key)))
  }

  function Compile(names: seq<Name>): seq<Elt>
    decreases Size(names)
  {
    if names == [] then [] else
      var k := GroupEnd(names, 1);
      GroupShrinks(names, k);
      [Make(names[..k], Compile(Nexts(names[..k])))] + Compile(names[k..])
  }

  // ----- what a key stands for

  /** The name goes under the key: it begins with the labels of the key and, where the key ends with a dot
      or with tail, has one label more at least. */
  predicate Matches(tail: bool, key: string, name: string)
    decreases |key|
  {
    Label(key) == Label(name) && (tail || HasDot(key) ==> HasDot(name))
    && (!EndsHere(key) ==> Matches(tail, Rest(key), Rest(name)))
  }

  function Depth(key: string): nat
    decreases |key|
  {
    if EndsHere(key) then 1 else 1 + Depth(Rest(key))
  }

  function Last(s: string): char
    requires s != ""
  {
    s[|s| - 1]
  }

  predicate Starred(key: string) {
    key != "" && Last(key) == '.'
  }

  function Stripped(key: string): string {
    if Starred(key) then key[..|key| - 1] else key
  }

  lemma PrefixParts(c: string, x: string, name: string)
    requires '.' !in c
    ensures c + "." + x <= name <==> Label(name) == c && HasDot(name) && x <= Rest(name)
  {
    LabelParts(name);
    if c + "." + x <= name {
      var r := name[|c| + 1..];
      assert name == c + "." + r;
      LabelOf(c, r);
      assert x <= r;
    }
  }

  lemma SameParts(key: string, name: string)
    ensures key == name <==> Label(key) == Label(name) && HasDot(key) == HasDot(name) && Rest(key) == Rest(name)
  {
    LabelParts(key);
    LabelParts(name);
  }

  lemma StarredParts(key: string)
    requires HasDot(key)
    ensures Rest(key) == "" ==> Starred(key) && Stripped(key) == Label(key)
    ensures Rest(key) != "" ==>
      Starred(key) == Starred(Rest(key)) && Stripped(key) == Label(key) + "." + Stripped(Rest(key))
  {
    LabelParts(key);
    var c, r := Label(key), Rest(key);
    if r == "" {
      assert key == c + ".";
    } else {
      assert Last(key) == Last(r);
      assert key[..|key| - 1] == c + "." + r[..|r| - 1];
    }
  }

  lemma NotStarred(key: string)
    requires !HasDot(key)
    ensures !Starred(key) && Stripped(key) == key == Label(key)
  {
    LabelParts(key);
  }

  /** The same without labels: the name begins with the key and a dot, or is the key. */
  lemma {:induction false} MatchesIsPrefix(tail: bool, key: string, name: string)
    ensures Matches(tail, key, name) <==>
      Stripped(key) + "." <= name || (!tail && !Starred(key) && key == name)
    decreases |key|
  {
    LabelParts(key);
    var c, r := Label(key), Rest(key);
    SameParts(key, name);
    hide Label, HasDot, Starred, Stripped;
    if !HasDot(key) {
      NotStarred(key);
      PrefixParts(c, "", name);
      assert c + "." + "" == c + ".";
    } else {
      StarredParts(key);
      if r == "" {
        PrefixParts(c, "", name);
        assert c + "." + "" == c + ".";
      } else {
        MatchesIsPrefix(tail, r, Rest(name));
        PrefixParts(c, Stripped(r) + ".", name);
        assert c + "." + (Stripped(r) + ".") == Stripped(key) + ".";
      }
    }
  }

  // ----- the most specific key wins

  /** v is the value of the key with the most labels among those the name goes under, or 0 without one. */
  ghost predicate IsBest(tail: bool, names: seq<Name>, name: string, v: nat) {
    if v == 0 then forall k | 0 <= k < |names| :: !Matches(tail, names[k].key, name)
    else exists k :: 0 <= k < |names| && Wins(tail, names, name, k) && names[k].value == v
  }

  ghost predicate Wins(tail: bool, names: seq<Name>, name: string, k: nat)
    requires k < |names|
  {
    Matches(tail, names[k].key, name)
    && forall j | 0 <= j < |names| && Matches(tail, names[j].key, name) :: Depth(names[j].key) <= Depth(names[k].key)
  }

  predicate Values(names: seq<Name>) {
    forall i | 0 <= i < |names| :: names[i].value != 0
  }

  /** A group as the compiler forms it: one label, and only the first key may end there. */
  predicate Group(group: seq<Name>) {
    group != [] && forall i | 0 < i < |group| ::
      Label(group[i].key) == Label(group[0].key) && !EndsHere(group[i].key)
  }

  function Off(group: seq<Name>): nat
    requires group != []
  {
    if EndsHere(group[0].key) then 1 else 0
  }

  lemma NextsLength(group: seq<Name>)
    requires Group(group)
    ensures group != [] && |Nexts(group)| == |group| - Off(group) && Off(group) <= 1
  {
    hide EndsHere;
  }

  lemma NextAt(group: seq<Name>, j: nat)
    requires Group(group) && j + Off(group) < |group|
    ensures j < |Nexts(group)| && Nexts(group)[j] == Name(Rest(group[j + Off(group)].key), group[j + Off(group)].value)
    ensures !EndsHere(group[j + Off(group)].key)
  {
    hide EndsHere, Rest, Label;
    if EndsHere(group[0].key) {
      assert group[1..][j] == group[j + 1];
    }
  }

  lemma NextsAre(group: seq<Name>)
    requires Group(group)
    ensures |Nexts(group)| == |group| - Off(group)
    ensures forall j | 0 <= j < |group| - Off(group) ::
      Nexts(group)[j] == Name(Rest(group[j + Off(group)].key), group[j + Off(group)].value)
      && !EndsHere(group[j + Off(group)].key)
  {
    NextsLength(group);
    hide Nexts, EndsHere, Rest, Off;
    forall j: nat | j < |group| - Off(group)
      ensures Nexts(group)[j] == Name(Rest(group[j + Off(group)].key), group[j + Off(group)].value)
      ensures !EndsHere(group[j + Off(group)].key)
    {
      NextAt(group, j);
    }
  }

  lemma EmptyFinds(tail: bool, sub: Level, w: nat, name: string)
    requires sub.value == 0
    ensures var v, u := Find(tail, sub.(value := w), name), Find(tail, sub, name);
      (if v != 0 then v else w) == (if u != 0 then u else w)
  {
  }

  /** A key of a group against a name with its label, one label down. */
  lemma GroupMatches(tail: bool, group: seq<Name>, name: string, j: nat)
    requires Group(group) && Label(name) == Label(group[0].key) && (tail ==> HasDot(name)) && j < |group|
    ensures var off, next := Off(group), Nexts(group);
      if j < off then
        Depth(group[j].key) == 1 && (Matches(tail, group[j].key, name) <==> HasDot(group[j].key) ==> HasDot(name))
      else
        && j - off < |next| && next[j - off].value == group[j].value
        && Depth(group[j].key) == 1 + Depth(next[j - off].key)
        && (Matches(tail, group[j].key, name) <==> HasDot(name) && Matches(tail, next[j - off].key, Rest(name)))
  {
    NextsAre(group);
  }

  lemma WinsBelow(tail: bool, group: seq<Name>, name: string, k: nat)
    requires Group(group) && Label(name) == Label(group[0].key) && HasDot(name)
    requires k < |Nexts(group)| && Wins(tail, Nexts(group), Rest(name), k)
    ensures k + Off(group) < |group| && Wins(tail, group, name, k + Off(group))
  {
    NextsAre(group);
    GroupMatches(tail, group, name, k + Off(group));
    hide Nexts, Matches;
    forall j | 0 <= j < |group| && Matches(tail, group[j].key, name)
      ensures Depth(group[j].key) <= Depth(group[k + Off(group)].key)
    {
      GroupMatches(tail, group, name, j);
    }
  }

  lemma WinsHere(tail: bool, group: seq<Name>, name: string)
    requires Group(group) && Label(name) == Label(group[0].key) && (tail ==> HasDot(name))
    requires Off(group) == 1 && (HasDot(group[0].key) ==> HasDot(name))
    requires HasDot(name) ==> forall k | 0 <= k < |Nexts(group)| :: !Matches(tail, Nexts(group)[k].key, Rest(name))
    ensures Wins(tail, group, name, 0)
  {
    GroupMatches(tail, group, name, 0);
    hide Nexts, Matches;
    forall j | 0 < j < |group|
      ensures !Matches(tail, group[j].key, name)
    {
      GroupMatches(tail, group, name, j);
    }
  }

  lemma NoneMatches(tail: bool, group: seq<Name>, name: string)
    requires Group(group) && Label(name) == Label(group[0].key) && (tail ==> HasDot(name))
    requires Off(group) == 1 ==> HasDot(group[0].key) && !HasDot(name)
    requires HasDot(name) ==> forall k | 0 <= k < |Nexts(group)| :: !Matches(tail, Nexts(group)[k].key, Rest(name))
    ensures forall j | 0 <= j < |group| :: !Matches(tail, group[j].key, name)
  {
    hide Nexts, Matches, Depth, Label, HasDot, Rest, EndsHere;
    forall j | 0 <= j < |group|
      ensures !Matches(tail, group[j].key, name)
    {
      GroupMatches(tail, group, name, j);
    }
  }

  /** What the element of a group answers: what is found below, or the value of its own key. */
  lemma GroupAnswer(tail: bool, group: seq<Name>, below: seq<Elt>, name: string)
    requires Group(group) && Label(name) == Label(group[0].key) && (tail ==> HasDot(name))
    ensures var w := if Off(group) == 1 then group[0].value else 0;
      var u := if HasDot(name) then Find(tail, Level(below, 0), Rest(name)) else 0;
      FindIn(tail, Make(group, below).entry, name)
      == if u != 0 && Nexts(group) != [] then u else if HasDot(name) || !HasDot(group[0].key) then w else 0
  {
    NextsAre(group);
    if HasDot(name) {
      EmptyFinds(tail, Level(below, 0), if Off(group) == 1 then group[0].value else 0, Rest(name));
    }
  }

  /** One element answers for its group. */
  lemma GroupBest(tail: bool, group: seq<Name>, below: seq<Elt>, name: string)
    requires Group(group) && Values(group) && Label(name) == Label(group[0].key) && (tail ==> HasDot(name))
    requires HasDot(name) ==> IsBest(tail, Nexts(group), Rest(name), Find(tail, Level(below, 0), Rest(name)))
    ensures IsBest(tail, group, name, FindIn(tail, Make(group, below).entry, name))
  {
    NextsAre(group);
    GroupAnswer(tail, group, below, name);
    var next := Nexts(group);
    var v := FindIn(tail, Make(group, below).entry, name);
    var u := if HasDot(name) then Find(tail, Level(below, 0), Rest(name)) else 0;
    hide Find, FindIn, Make, Wins, Matches, Group;
    if next != [] && u != 0 {
      var k :| 0 <= k < |next| && Wins(tail, next, Rest(name), k) && next[k].value == u;
      WinsBelow(tail, group, name, k);
    } else if v != 0 {
      WinsHere(tail, group, name);
    } else {
      NoneMatches(tail, group, name);
    }
  }

  // ----- the order of the list

  predicate Text(s: string) {
    forall i | 0 <= i < |s| :: s[i] != '\0'
  }

  function Fold(c: char): int {
    if 'A' <= c <= 'Z' then c as int + 32 else c as int
  }

  /** The first character, in lower case; 0 at the end. */
  function First(s: string): int {
    if s == "" then 0 else Fold(s[0])
  }

  /** The dot comes before all characters that belong in names: it takes the place of the blank. */
  function Low(c: int): int {
    if c == '.' as int then ' ' as int else c
  }

  /** ngx_dns_strcmp. */
  function DnsCmp(a: string, b: string): int {
    if First(a) == First(b) then
      if a == "" || b == "" then 0 else DnsCmp(a[1..], b[1..])
    else
      Low(First(a)) - Low(First(b))
  }

  predicate Sorted(names: seq<Name>) {
    forall i, j | 0 <= i < j < |names| :: DnsCmp(names[i].key, names[j].key) <= 0
  }

  /** ngx_hash_add_key turns down a name that differs from an earlier one at most in being starred. */
  predicate NoConflict(names: seq<Name>) {
    forall i, j | 0 <= i < j < |names| :: Stripped(names[i].key) != Stripped(names[j].key)
  }

  predicate Ok(names: seq<Name>) {
    Sorted(names) && NoConflict(names) && Values(names) && forall i | 0 <= i < |names| :: Text(names[i].key)
  }

  lemma {:induction false} CmpStrip(c: string, x: string, y: string)
    ensures DnsCmp(c + x, c + y) == DnsCmp(x, y)
  {
    if c == "" {
      assert c + x == x && c + y == y;
    } else {
      CmpStrip(c[1..], x, y);
      assert (c + x)[1..] == c[1..] + x && (c + y)[1..] == c[1..] + y;
    }
  }

  lemma SameGroupLabel(first: string, key: string)
    requires SameGroup(first, key)
    ensures Label(key) == Label(first) && (HasDot(first) ==> HasDot(key))
  {
    var n := Dot(first);
    assert forall i | 0 <= i < n :: key[i] == first[..n][i];
    if n < |key| {
      assert key[n] == '.';
    }
    DotIs(key, n);
    assert key[..n] == first[..n];
  }

  /** In a sorted list without conflicts only the first key of a group may end with the label. */
  lemma GroupPair(a: string, b: string)
    requires SameGroup(a, b) && DnsCmp(a, b) <= 0 && Stripped(a) != Stripped(b) && Text(a)
    ensures Label(b) == Label(a) && !EndsHere(b)
  {
    SameGroupLabel(a, b);
    LabelParts(a);
    LabelParts(b);
    if EndsHere(b) {
      StrippedHere(b);
      if EndsHere(a) {
        StrippedHere(a);
      } else {
        var c := Label(a) + ".";
        assert c + "" == c;
        LongerIsLater(c, Rest(a));
      }
    }
  }

  lemma GroupForms(names: seq<Name>, k: nat)
    requires Ok(names) && 0 < k <= |names| && forall j | 0 < j < k :: SameGroup(names[0].key, names[j].key)
    ensures Group(names[..k])
  {
    forall j | 0 < j < k
      ensures Label(names[j].key) == Label(names[0].key) && !EndsHere(names[j].key)
    {
      hide SameGroup, DnsCmp, Stripped, Text, Label, EndsHere;
      GroupPair(names[0].key, names[j].key);
    }
  }

  lemma LongerIsLater(c: string, x: string)
    requires x != "" && Text(c + x)
    ensures DnsCmp(c + x, c) > 0
  {
    CmpStrip(c, x, "");
    assert c + "" == c;
    assert (c + x)[|c|] == x[0];
  }

  lemma StrippedHere(key: string)
    requires EndsHere(key)
    ensures Stripped(key) == Label(key)
  {
    if HasDot(key) {
      StarredParts(key);
    } else {
      NotStarred(key);
    }
  }

  lemma OkParts(names: seq<Name>, k: nat)
    requires Ok(names) && k <= |names|
    ensures Ok(names[..k]) && Ok(names[k..])
  {
  }

  /** The key of a group and what is left of it below the label. */
  lemma KeyBelow(group: seq<Name>, j: nat)
    requires Ok(group) && Group(group) && j < |group| - Off(group)
    ensures var key, below, c := group[j + Off(group)].key, Rest(group[j + Off(group)].key), Label(group[0].key) + ".";
      key == c + below && Stripped(key) == c + Stripped(below) && Text(below)
  {
    var key := group[j + Off(group)].key;
    assert Text(key);
    LabelParts(key);
    StarredParts(key);
    assert forall i | 0 <= i < |Rest(key)| :: Rest(key)[i] == key[i + Dot(key) + 1];
  }

  lemma PairBelow(group: seq<Name>, i: nat, j: nat)
    requires Ok(group) && Group(group) && i < j < |group| - Off(group)
    ensures var x, y := Rest(group[i + Off(group)].key), Rest(group[j + Off(group)].key);
      DnsCmp(x, y) <= 0 && Stripped(x) != Stripped(y)
  {
    KeyBelow(group, i);
    KeyBelow(group, j);
    hide Group, Off, DnsCmp, Stripped, Label, Rest, Text;
    var a, b := group[i + Off(group)].key, group[j + Off(group)].key;
    assert DnsCmp(a, b) <= 0 && Stripped(a) != Stripped(b);
    CmpStrip(Label(group[0].key) + ".", Rest(a), Rest(b));
  }

  lemma OkNexts(group: seq<Name>)
    requires Ok(group) && Group(group)
    ensures Ok(Nexts(group))
  {
    NextsLength(group);
    hide Nexts, Off, DnsCmp, Stripped, Text;
    var next, off := Nexts(group), Off(group);
    forall j: nat | j < |next|
      ensures Text(next[j].key) && next[j].value != 0
    {
      KeyBelow(group, j);
      NextAt(group, j);
    }
    forall i: nat, j: nat | i < j < |next|
      ensures DnsCmp(next[i].key, next[j].key) <= 0 && Stripped(next[i].key) != Stripped(next[j].key)
    {
      PairBelow(group, i, j);
      NextAt(group, i);
      NextAt(group, j);
    }
  }

  // ----- when the compiled tree is right

  /** Names under one label stand together, here and in all the lists below. */
  predicate Contiguous(names: seq<Name>)
    decreases Size(names)
  {
    names == [] ||
    (var k := GroupEnd(names, 1);
     GroupShrinks(names, k);
     (forall j | k <= j < |names| :: Label(names[j].key) != Label(names[0].key))
     && Contiguous(names[k..]) && Contiguous(Nexts(names[..k])))
  }

  lemma WinsFront(tail: bool, names: seq<Name>, k: nat, name: string, j: nat)
    requires j < k <= |names| && forall i | k <= i < |names| :: Label(names[i].key) != Label(name)
    ensures Wins(tail, names, name, j) <==> Wins(tail, names[..k], name, j)
  {
    forall i | 0 <= i < k
      ensures names[..k][i] == names[i]
    {
    }
    forall i | k <= i < |names|
      ensures !Matches(tail, names[i].key, name)
    {
    }
    hide Matches, Depth;
  }

  lemma WinsBack(tail: bool, names: seq<Name>, k: nat, name: string, j: nat)
    requires k <= j < |names| && forall i | 0 <= i < k :: Label(names[i].key) != Label(name)
    ensures Wins(tail, names, name, j) <==> Wins(tail, names[k..], name, j - k)
  {
    forall i | k <= i < |names|
      ensures names[k..][i - k] == names[i]
    {
    }
    forall i | 0 <= i < k
      ensures !Matches(tail, names[i].key, name)
    {
    }
    hide Matches, Depth;
    if Wins(tail, names[k..], name, j - k) {
      forall i | 0 <= i < |names| && Matches(tail, names[i].key, name)
        ensures Depth(names[i].key) <= Depth(names[j].key)
      {
        assert names[k..][i - k] == names[i];
      }
    }
  }

  /** Keys with another label do not matter. */
  lemma BestFront(tail: bool, names: seq<Name>, k: nat, name: string, v: nat)
    requires k <= |names| && forall j | k <= j < |names| :: Label(names[j].key) != Label(name)
    ensures IsBest(tail, names[..k], name, v) <==> IsBest(tail, names, name, v)
  {
    forall j: nat | j < k
      ensures Wins(tail, names, name, j) <==> Wins(tail, names[..k], name, j)
      ensures Matches(tail, names[j].key, name) <==> Matches(tail, names[..k][j].key, name)
    {
      WinsFront(tail, names, k, name, j);
    }
    forall j: nat | k <= j < |names|
      ensures !Matches(tail, names[j].key, name)
    {
    }
    hide Matches, Depth;
    assert forall j: nat | k <= j < |names| :: !Wins(tail, names, name, j);
    hide Wins;
    assert forall j: nat | j < k :: names[..k][j] == names[j];
  }

  lemma BestBack(tail: bool, names: seq<Name>, k: nat, name: string, v: nat)
    requires k <= |names| && forall j | 0 <= j < k :: Label(names[j].key) != Label(name)
    ensures IsBest(tail, names[k..], name, v) <==> IsBest(tail, names, name, v)
  {
    forall j: nat | k <= j < |names|
      ensures Wins(tail, names, name, j) <==> Wins(tail, names[k..], name, j - k)
    {
      WinsBack(tail, names, k, name, j);
    }
    forall j: nat | j < k
      ensures !Matches(tail, names[j].key, name)
    {
    }
    hide Matches, Depth;
    assert forall j: nat | j < k :: !Wins(tail, names, name, j);
    hide Wins;
    assert forall j: nat | j < |names| - k :: names[k..][j] == names[j + k];
    if IsBest(tail, names[k..], name, v) && v != 0 {
      var j: nat :| 0 <= j < |names| - k && Wins(tail, names[k..], name, j) && names[k..][j].value == v;
      assert Wins(tail, names, name, j + k);
    }
    if IsBest(tail, names[k..], name, v) && v == 0 {
      forall j: nat | k <= j < |names|
        ensures !Matches(tail, names[j].key, name)
      {
        assert names[k..][j - k] == names[j];
      }
    }
  }

  /** Where a name is looked up in the compiled list. */
  lemma FindCompiled(tail: bool, names: seq<Name>, name: string)
    requires names != [] && (tail ==> HasDot(name))
    ensures var k := GroupEnd(names, 1);
      && Find(tail, Level(Compile(names), 0), name)
         == (if Label(name) == Label(names[0].key)
           then FindIn(tail, Make(names[..k], Compile(Nexts(names[..k]))).entry, name)
             else Find(tail, Level(Compile(names[k..]), 0), name))
  {
    var k := GroupEnd(names, 1);
    var first, rest := Make(names[..k], Compile(Nexts(names[..k]))), Compile(names[k..]);
    var t := [first] + rest;
    assert Compile(names) == t && t[1..] == rest && t[0] == first;
    hide FindIn, Compile, Make;
  }

  /** The first group of a list and what is behind it. */
  lemma FirstGroup(names: seq<Name>)
    requires Ok(names) && names != []
    ensures var k := GroupEnd(names, 1);
      && Group(names[..k]) && Ok(names[..k]) && Ok(names[k..]) && Ok(Nexts(names[..k]))
      && Size(Nexts(names[..k])) < Size(names) && Size(names[k..]) < Size(names)
      && forall j | 0 <= j < k :: Label(names[j].key) == Label(names[0].key)
  {
    hide Ok, SameGroup;
    var k := GroupEnd(names, 1);
    GroupForms(names, k);
    OkParts(names, k);
    OkNexts(names[..k]);
    GroupShrinks(names, k);
    forall j | 0 <= j < k
      ensures Label(names[j].key) == Label(names[0].key)
    {
      assert names[..k][j] == names[j] && names[..k][0] == names[0];
    }
  }

  /** In a list that is contiguous, the tree finds the most specific key for every name. */
  lemma {:induction false} ContiguousIsRight(tail: bool, names: seq<Name>, name: string)
    requires Ok(names) && Contiguous(names)
    ensures IsBest(tail, names, name, Find(tail, Level(Compile(names), 0), name))
    decreases Size(names)
  {
    if names != [] && (tail ==> HasDot(name)) {
      var k := GroupEnd(names, 1);
      FirstGroup(names);
      FindCompiled(tail, names, name);
      hide Compile, Find, FindIn, IsBest, Make, Group, Ok, GroupEnd, Size;
      var v := Find(tail, Level(Compile(names), 0), name);
      if Label(name) == Label(names[0].key) {
        if HasDot(name) {
          ContiguousIsRight(tail, Nexts(names[..k]), Rest(name));
        }
        GroupValues(names[..k]);
        GroupBest(tail, names[..k], Compile(Nexts(names[..k])), name);
        BestFront(tail, names, k, name, v);
      } else {
        ContiguousIsRight(tail, names[k..], name);
        BestBack(tail, names, k, name, v);
      }
    }
  }

  lemma GroupValues(names: seq<Name>)
    requires Ok(names)
    ensures Values(names)
  {
  }

  // ----- and when it is not

  predicate DistinctValues(names: seq<Name>) {
    forall i, j | 0 <= i < j < |names| :: names[i].value != names[j].value
  }

  predicate HasValue(names: seq<Name>, v: nat) {
    exists i :: 0 <= i < |names| && names[i].value == v
  }

  lemma FoundInGroup(tail: bool, group: seq<Name>, below: seq<Elt>, name: string)
    requires Group(group) && Label(name) == Label(group[0].key) && (tail ==> HasDot(name))
    requires HasDot(name) ==> var u := Find(tail, Level(below, 0), Rest(name)); u == 0 || HasValue(Nexts(group), u)
    ensures var v := FindIn(tail, Make(group, below).entry, name); v == 0 || HasValue(group, v)
  {
    GroupAnswer(tail, group, below, name);
    NextsAre(group);
    var v := FindIn(tail, Make(group, below).entry, name);
    hide Find, FindIn, Make, Nexts;
    if v == group[0].value {
    } else if v != 0 {
      var i :| 0 <= i < |Nexts(group)| && Nexts(group)[i].value == v;
      assert group[i + Off(group)].value == v;
    }
  }

  lemma {:induction false} FoundIsListed(tail: bool, names: seq<Name>, name: string)
    requires Ok(names)
    ensures var v := Find(tail, Level(Compile(names), 0), name); v == 0 || HasValue(names, v)
    ensures names != [] && Label(name) == Label(names[0].key) ==>
      var v := Find(tail, Level(Compile(names), 0), name); v == 0 || HasValue(names[..GroupEnd(names, 1)], v)
    decreases Size(names)
  {
    hide *;
    if names == [] || (tail && !HasDot(name)) {
      FindsNothing(tail, names, name);
    } else {
      var k := GroupEnd(names, 1);
      FirstGroup(names);
      FindCompiled(tail, names, name);
      var v := Find(tail, Level(Compile(names), 0), name);
      if Label(name) == Label(names[0].key) {
        var group := names[..k];
        if HasDot(name) {
          FoundIsListed(tail, Nexts(group), Rest(name));
        }
        FoundInGroup(tail, group, Compile(Nexts(group)), name);
        assert names[0..k] == group;
        PartHasValue(names, 0, k, v);
      } else {
        FoundIsListed(tail, names[k..], name);
        assert names[k..|names|] == names[k..];
        PartHasValue(names, k, |names|, v);
      }
    }
  }

  lemma FindsNothing(tail: bool, names: seq<Name>, name: string)
    requires names == [] || (tail && !HasDot(name))
    ensures Find(tail, Level(Compile(names), 0), name) == 0
  {
  }

  lemma PartHasValue(names: seq<Name>, lo: nat, hi: nat, v: nat)
    requires lo <= hi <= |names|
    ensures HasValue(names[lo..hi], v) ==> HasValue(names, v)
  {
    if HasValue(names[lo..hi], v) {
      var i :| 0 <= i < hi - lo && names[lo..hi][i].value == v;
      assert names[lo + i].value == v;
    }
  }

  /** A name that goes under the key, with as few labels as it takes and the extra one where one more is needed. */
  function Witness(tail: bool, key: string, extra: string): string {
    if Starred(key) then key + extra else if tail then key + "." + extra else key
  }

  lemma WitnessGlue(tail: bool, c: string, r: string, extra: string)
    requires r == "" ==> Starred(c + "." + r)
    requires r != "" ==> Starred(c + "." + r) == Starred(r)
    ensures r == "" ==> Witness(tail, c + "." + r, extra) == c + "." + extra
    ensures r != "" ==> Witness(tail, c + "." + r, extra) == c + "." + Witness(tail, r, extra)
  {
    hide Starred;
    Glue(c, r, extra);
    Glue(c, r, "." + extra);
    Behind(c + "." + r, ".", extra);
    Behind(r, ".", extra);
    assert "" + extra == extra;
  }

  lemma Behind(a: string, b: string, c: string)
    ensures a + b + c == a + (b + c)
  {
  }

  /** The witness: the key itself, or its last label and the extra one, or its first label before a witness. */
  lemma WitnessText(tail: bool, key: string, extra: string)
    ensures EndsHere(key) ==>
      Witness(tail, key, extra) == if tail || HasDot(key) then Label(key) + "." + extra else Label(key)
    ensures !EndsHere(key) ==> Witness(tail, key, extra) == Label(key) + "." + Witness(tail, Rest(key), extra)
  {
    LabelParts(key);
    if !HasDot(key) {
      NotStarred(key);
    } else {
      StarredParts(key);
      var c, r := Label(key), Rest(key);
      assert key == c + "." + r;
      hide Stripped, HasDot, Label, Rest, EndsHere, Starred;
      WitnessGlue(tail, c, r, extra);
    }
  }

  lemma Glue(c: string, r: string, e: string)
    ensures (c + "." + r) + e == c + "." + (r + e)
  {
  }

  lemma WitnessParts(tail: bool, key: string, extra: string)
    requires '.' !in extra
    ensures var w := Witness(tail, key, extra);
      && Label(w) == Label(key) && (HasDot(w) <==> tail || HasDot(key))
      && (HasDot(w) ==> Rest(w) == if EndsHere(key) then extra else Witness(tail, Rest(key), extra))
  {
    WitnessText(tail, key, extra);
    LabelParts(key);
    hide Witness, Label, HasDot, Rest;
    LabelOf(Label(key), extra);
    LabelOf(Label(key), Witness(tail, Rest(key), extra));
  }

  lemma {:induction false} WitnessMatches(tail: bool, key: string, extra: string)
    requires '.' !in extra
    ensures Matches(tail, key, Witness(tail, key, extra))
    decreases |key|
  {
    WitnessParts(tail, key, extra);
    if !EndsHere(key) {
      WitnessMatches(tail, Rest(key), extra);
    }
    hide Witness, Label, HasDot;
  }

  /** A key under which the extra label alone goes is no shorter than the label. */
  lemma ExtraIsLong(tail: bool, key: string, extra: string)
    requires '.' !in extra && Matches(tail, key, extra)
    ensures |key| >= |extra|
  {
    LabelOf(extra, "");
  }

  /** A key with more labels than the witness has is too long. */
  lemma WitnessEnds(tail: bool, key: string, extra: string, other: string)
    requires '.' !in extra && |other| < |extra| && Matches(tail, other, Witness(tail, key, extra))
    ensures EndsHere(key) ==> EndsHere(other)
  {
    WitnessParts(tail, key, extra);
    hide Witness, Label;
    if EndsHere(key) && !EndsHere(other) {
      ExtraIsLong(tail, Rest(other), extra);
    }
  }

  lemma {:induction false} WitnessDepth(tail: bool, key: string, extra: string, other: string)
    requires '.' !in extra && |other| < |extra| && Matches(tail, other, Witness(tail, key, extra))
    ensures Depth(other) <= Depth(key) && (Depth(other) == Depth(key) ==> Stripped(other) == Stripped(key))
    decreases |key|
  {
    WitnessParts(tail, key, extra);
    WitnessEnds(tail, key, extra, other);
    LabelParts(other);
    hide Witness, Starred, Stripped, Label, HasDot;
    if EndsHere(other) {
      StrippedHere(other);
      if EndsHere(key) {
        StrippedHere(key);
      }
    } else {
      StarredParts(other);
      if !EndsHere(key) {
        StarredParts(key);
        WitnessDepth(tail, Rest(key), extra, Rest(other));
      }
    }
  }

  lemma WrongNone(tail: bool, group: seq<Name>, name: string, k: nat)
    requires Group(group) && DistinctValues(group) && Label(name) == Label(group[0].key) && HasDot(name)
    requires k < |Nexts(group)| && Matches(tail, Nexts(group)[k].key, Rest(name))
    ensures !IsBest(tail, group, name, if Off(group) == 1 then group[0].value else 0)
  {
    hide Nexts, Matches, Depth, Label, HasDot, Rest, IsBest, EndsHere, DistinctValues;
    NextsLength(group);
    hide Group;
    var i: nat := k + Off(group);
    DepthPositive(Nexts(group)[k].key);
    GroupMatches(tail, group, name, i);
    GroupMatches(tail, group, name, 0);
    NotBest(tail, group, name, if Off(group) == 1 then group[0].value else 0, 0, i);
  }

  lemma WrongSome(tail: bool, group: seq<Name>, name: string, u: nat)
    requires Group(group) && DistinctValues(group) && Label(name) == Label(group[0].key) && HasDot(name)
    requires u != 0 && HasValue(Nexts(group), u) && !IsBest(tail, Nexts(group), Rest(name), u)
    ensures !IsBest(tail, group, name, u)
  {
    hide Nexts, Matches, Depth, Group, Label, HasDot, Rest, EndsHere, Off;
    NextsLength(group);
    var next := Nexts(group);
    var i: nat :| 0 <= i < |next| && next[i].value == u;
    NextAt(group, i);
    ListedNotBest(tail, next, Rest(name), i);
    hide Wins, IsBest;
    WinsUp(tail, group, name, i);
    ValueNotBest(tail, group, name, i + Off(group));
  }

  lemma ListedNotBest(tail: bool, names: seq<Name>, name: string, i: nat)
    requires i < |names| && names[i].value != 0 && !IsBest(tail, names, name, names[i].value)
    ensures !Wins(tail, names, name, i)
  {
    hide Wins;
  }

  /** A wrong answer below a label is a wrong answer for the group. */
  lemma WrongBelow(tail: bool, group: seq<Name>, below: seq<Elt>, name: string)
    requires Group(group) && DistinctValues(group) && Label(name) == Label(group[0].key) && HasDot(name)
    requires var u := Find(tail, Level(below, 0), Rest(name));
      (u == 0 || HasValue(Nexts(group), u)) && !IsBest(tail, Nexts(group), Rest(name), u)
    ensures !IsBest(tail, group, name, FindIn(tail, Make(group, below).entry, name))
  {
    GroupAnswer(tail, group, below, name);
    var u := Find(tail, Level(below, 0), Rest(name));
    hide Find, FindIn, Make, Nexts, Matches, Depth, Group, Label;
    if u == 0 {
      var k: nat :| 0 <= k < |Nexts(group)| && Matches(tail, Nexts(group)[k].key, Rest(name));
      WrongNone(tail, group, name, k);
    } else {
      hide IsBest;
      WrongSome(tail, group, name, u);
    }
  }

  lemma ValueNotBest(tail: bool, names: seq<Name>, name: string, i: nat)
    requires DistinctValues(names) && i < |names| && names[i].value != 0 && !Wins(tail, names, name, i)
    ensures !IsBest(tail, names, name, names[i].value)
  {
    hide Wins;
  }

  lemma NotBest(tail: bool, names: seq<Name>, name: string, v: nat, i: nat, j: nat)
    requires DistinctValues(names) && i < |names| && j < |names| && (v != 0 ==> names[i].value == v)
    requires Matches(tail, names[j].key, name) && (v != 0 ==> Depth(names[j].key) > Depth(names[i].key))
    ensures !IsBest(tail, names, name, v)
  {
    hide Matches, Depth;
    if v != 0 {
      assert !Wins(tail, names, name, i);
      ValueNotBest(tail, names, name, i);
    }
  }

  lemma DepthPositive(key: string)
    ensures Depth(key) >= 1
    decreases |key|
  {
  }

  lemma WinsUp(tail: bool, group: seq<Name>, name: string, i: nat)
    requires Group(group) && Label(name) == Label(group[0].key) && HasDot(name) && i < |Nexts(group)|
    requires !Wins(tail, Nexts(group), Rest(name), i)
    ensures i + Off(group) < |group| && !Wins(tail, group, name, i + Off(group))
  {
    hide Nexts, Matches, Depth, Group, Label, HasDot, Rest, EndsHere, Off;
    NextsLength(group);
    var off, next := Off(group), Nexts(group);
    GroupMatches(tail, group, name, i + off);
    if Matches(tail, next[i].key, Rest(name)) {
      var j: nat :| 0 <= j < |next| && Matches(tail, next[j].key, Rest(name))
        && Depth(next[j].key) > Depth(next[i].key);
      GroupMatches(tail, group, name, j + off);
      BeatenLoses(tail, group, name, i + off, j + off);
    }
  }

  lemma BeatenLoses(tail: bool, names: seq<Name>, name: string, i: nat, j: nat)
    requires i < |names| && j < |names| && Matches(tail, names[j].key, name)
    requires Depth(names[j].key) > Depth(names[i].key)
    ensures !Wins(tail, names, name, i)
  {
    hide Matches, Depth;
  }

  function Letters(n: nat): (r: string)
    ensures |r| == n && '.' !in r
  {
    if n == 0 then "" else Letters(n - 1) + "x"
  }

  lemma {:induction false} KeyShort(names: seq<Name>, i: nat)
    requires i < |names|
    ensures |names[i].key| < Size(names)
  {
    if i > 0 {
      KeyShort(names[1..], i - 1);
    }
  }

  /** A second group under the same label hides nothing and is never reached: its key is missed. */
  lemma SecondGroupMissed(tail: bool, names: seq<Name>, j: nat) returns (name: string)
    requires Ok(names) && DistinctValues(names) && names != []
    requires GroupEnd(names, 1) <= j < |names| && Label(names[j].key) == Label(names[0].key)
    ensures (tail ==> HasDot(name)) && Label(name) == Label(names[0].key)
    ensures !IsBest(tail, names, name, Find(tail, Level(Compile(names), 0), name))
  {
    var k, key, extra := GroupEnd(names, 1), names[j].key, Letters(Size(names));
    name := Witness(tail, key, extra);
    WitnessParts(tail, key, extra);
    WitnessMatches(tail, key, extra);
    FoundIsListed(tail, names, name);
    var v := Find(tail, Level(Compile(names), 0), name);
    hide Find, Compile, GroupEnd, Label, HasDot, Witness, Letters, Matches, Depth;
    if v != 0 {
      var i: nat :| 0 <= i < k && names[..k][i].value == v;
      forall w: nat | w < |names| && Wins(tail, names, name, w)
        ensures w == j
      {
        KeyShort(names, w);
        WitnessDepth(tail, key, extra, names[w].key);
      }
      hide Ok, Wins;
      assert names[i].value == v && !Wins(tail, names, name, i);
      ValueNotBest(tail, names, name, i);
    }
  }

  lemma WrongInRest(tail: bool, names: seq<Name>, name: string)
    requires Ok(names) && names != [] && (tail ==> HasDot(name)) && Label(name) != Label(names[0].key)
    requires var rest := names[GroupEnd(names, 1)..];
      !IsBest(tail, rest, name, Find(tail, Level(Compile(rest), 0), name))
    ensures !IsBest(tail, names, name, Find(tail, Level(Compile(names), 0), name))
  {
    FirstGroup(names);
    FindCompiled(tail, names, name);
    hide Find, Compile, IsBest, Ok;
    BestBack(tail, names, GroupEnd(names, 1), name, Find(tail, Level(Compile(names), 0), name));
  }

  lemma WrongInGroup(tail: bool, names: seq<Name>, name: string)
    requires Ok(names) && DistinctValues(names) && names != [] && HasDot(name) && Label(name) == Label(names[0].key)
    requires forall j | GroupEnd(names, 1) <= j < |names| :: Label(names[j].key) != Label(name)
    requires var next := Nexts(names[..GroupEnd(names, 1)]);
      !IsBest(tail, next, Rest(name), Find(tail, Level(Compile(next), 0), Rest(name)))
    ensures !IsBest(tail, names, name, Find(tail, Level(Compile(names), 0), name))
  {
    hide Find, FindIn, Compile, IsBest, Ok, Group, GroupEnd, Nexts, Make, HasValue, Size;
    var k := GroupEnd(names, 1);
    var group := names[..k];
    FirstGroup(names);
    FoundIsListed(tail, Nexts(group), Rest(name));
    FindCompiled(tail, names, name);
    PartDistinct(names, k);
    WrongBelow(tail, group, Compile(Nexts(group)), name);
    BestFront(tail, names, k, name, Find(tail, Level(Compile(names), 0), name));
  }

  lemma PartDistinct(names: seq<Name>, k: nat)
    requires k <= |names| && DistinctValues(names)
    ensures DistinctValues(names[..k])
  {
  }

  lemma NextsDistinct(names: seq<Name>, k: nat)
    requires 0 < k <= |names| && Group(names[..k]) && DistinctValues(names)
    ensures DistinctValues(Nexts(names[..k])) && DistinctValues(names[k..])
  {
    hide Nexts, Group, Off;
    var group, next, off := names[..k], Nexts(names[..k]), Off(names[..k]);
    NextsLength(group);
    forall i, j | 0 <= i < j < |next|
      ensures next[i].value != next[j].value
    {
      NextAt(group, i);
      NextAt(group, j);
    }
    forall i, j | 0 <= i < j < |names| - k
      ensures names[k..][i].value != names[k..][j].value
    {
    }
  }

  /** No name behind the first group has its label. */
  predicate Alone(names: seq<Name>)
    requires names != []
  {
    forall j | GroupEnd(names, 1) <= j < |names| :: Label(names[j].key) != Label(names[0].key)
  }

  ghost predicate Wrong(tail: bool, names: seq<Name>, name: string) {
    !IsBest(tail, names, name, Find(tail, Level(Compile(names), 0), name))
  }

  lemma WrongSecond(tail: bool, names: seq<Name>, j: nat) returns (name: string)
    requires Ok(names) && DistinctValues(names) && names != []
    requires GroupEnd(names, 1) <= j < |names| && Label(names[j].key) == Label(names[0].key)
    ensures (tail ==> HasDot(name)) && Label(name) == Label(names[0].key) && Wrong(tail, names, name)
  {
    hide Find, Compile, IsBest, Ok, DistinctValues, GroupEnd, Label, HasDot;
    name := SecondGroupMissed(tail, names, j);
  }

  lemma WrongRest(tail: bool, names: seq<Name>, name: string, at: nat)
    requires Ok(names) && names != [] && Alone(names) && (tail ==> HasDot(name))
    requires GroupEnd(names, 1) + at < |names| && Label(names[GroupEnd(names, 1)..][at].key) == Label(name)
    requires Wrong(tail, names[GroupEnd(names, 1)..], name)
    ensures Wrong(tail, names, name) && Label(names[GroupEnd(names, 1) + at].key) == Label(name)
  {
    hide Find, Compile, IsBest, Ok, GroupEnd, Label;
    assert names[GroupEnd(names, 1)..][at] == names[GroupEnd(names, 1) + at];
    WrongInRest(tail, names, name);
  }

  lemma WrongUnder(tail: bool, names: seq<Name>, below: string) returns (name: string)
    requires Ok(names) && DistinctValues(names) && names != [] && Alone(names)
    requires Wrong(tail, Nexts(names[..GroupEnd(names, 1)]), below)
    ensures HasDot(name) && Label(name) == Label(names[0].key) && Wrong(tail, names, name)
  {
    hide Find, Compile, IsBest, Ok, DistinctValues, Nexts, GroupEnd;
    var c := Label(names[0].key);
    name := c + "." + below;
    LabelParts(names[0].key);
    LabelOf(c, below);
    WrongInGroup(tail, names, name);
  }

  lemma NotContiguousWhere(names: seq<Name>) returns (j: nat)
    requires names != [] && !Contiguous(names)
    ensures var k := GroupEnd(names, 1);
      if Alone(names) then !Contiguous(names[k..]) || !Contiguous(Nexts(names[..k]))
      else k <= j < |names| && Label(names[j].key) == Label(names[0].key)
  {
    hide Nexts, GroupEnd;
    j := 0;
    if !Alone(names) {
      j :| GroupEnd(names, 1) <= j < |names| && Label(names[j].key) == Label(names[0].key);
    }
  }

  lemma NotEmpty(names: seq<Name>)
    requires !Contiguous(names)
    ensures names != []
  {
  }

  lemma Smaller(names: seq<Name>, k: nat)
    requires Ok(names) && DistinctValues(names) && names != [] && k == GroupEnd(names, 1)
    ensures Ok(names[k..]) && DistinctValues(names[k..]) && Size(names[k..]) < Size(names)
    ensures var next := Nexts(names[..k]); Ok(next) && DistinctValues(next) && Size(next) < Size(names)
  {
    hide Ok, DistinctValues, Nexts, Size;
    FirstGroup(names);
    NextsDistinct(names, k);
  }

  /** Some name, with the label of some key, gets a wrong answer. */
  lemma {:induction false} NotContiguousIsWrong(tail: bool, names: seq<Name>) returns (name: string, at: nat)
    requires Ok(names) && DistinctValues(names) && !Contiguous(names)
    ensures (tail ==> HasDot(name)) && at < |names| && Label(names[at].key) == Label(name)
    ensures Wrong(tail, names, name)
    decreases Size(names)
  {
    hide *;
    NotEmpty(names);
    var k := GroupEnd(names, 1);
    var j := NotContiguousWhere(names);
    Smaller(names, k);
    at := 0;
    if !Alone(names) {
      name := WrongSecond(tail, names, j);
    } else if !Contiguous(names[k..]) {
      name, at := NotContiguousIsWrong(tail, names[k..]);
      WrongRest(tail, names, name, at);
      at := k + at;
    } else {
      var below, _ := NotContiguousIsWrong(tail, Nexts(names[..k]));
      name := WrongUnder(tail, names, below);
    }
  }

  /** For keys with values of their own the tree is right for every name exactly when the names under each label
      stand together. */
  lemma RightIffContiguous(tail: bool, names: seq<Name>)
    requires Ok(names) && DistinctValues(names)
    ensures Contiguous(names) <==>
      forall name: string :: IsBest(tail, names, name, Find(tail, Level(Compile(names), 0), name))
  {
    hide Find, Compile, IsBest, Ok, DistinctValues, Contiguous;
    if Contiguous(names) {
      forall name: string
        ensures IsBest(tail, names, name, Find(tail, Level(Compile(names), 0), name))
      {
        ContiguousIsRight(tail, names, name);
      }
    } else {
      var name, _ := NotContiguousIsWrong(tail, names);
      assert Wrong(tail, names, name);
      assert !IsBest(tail, names, name, Find(tail, Level(Compile(names), 0), name));
    }
  }

  // ----- names as they should be

  /** Printing characters in lower case: the dot, moved to the place of the blank, comes before all others. */
  predicate Clean(s: string) {
    forall i | 0 <= i < |s| :: ' ' < s[i] && !('A' <= s[i] <= 'Z')
  }

  lemma {:induction false} Between(a: string, b: string, d: string, c: string)
    requires Clean(a) && Clean(b) && Clean(d) && DnsCmp(a, b) <= 0 && DnsCmp(b, d) <= 0
    requires Label(a) == c && Label(d) == c
    ensures Label(b) == c
  {
    if c == "" {
    } else {
      LabelTail(a);
      LabelTail(d);
      assert a[0] == c[0] == d[0] != '.';
      if b == "" || b[0] != c[0] {
      } else {
        LabelTail(b);
        Between(a[1..], b[1..], d[1..], c[1..]);
      }
    }
  }

  lemma LabelTail(s: string)
    requires s != "" && s[0] != '.'
    ensures Label(s) == [s[0]] + Label(s[1..])
  {
  }

  lemma SameLabelGroups(first: string, key: string)
    requires Label(key) == Label(first) && (HasDot(first) ==> HasDot(key))
    ensures SameGroup(first, key)
  {
    LabelParts(first);
    LabelParts(key);
    if HasDot(first) {
      assert first[..Dot(first) + 1] == Label(first) + "." == key[..Dot(key) + 1];
    }
  }

  /** What ngx_hash_add_key and the sort make of names without blanks and control characters can be compiled. */
  lemma {:induction false} CleanIsContiguous(names: seq<Name>)
    requires Ok(names) && forall i | 0 <= i < |names| :: Clean(names[i].key)
    ensures Contiguous(names)
    decreases Size(names)
  {
    if names != [] {
      var k := GroupEnd(names, 1);
      FirstGroup(names);
      forall j | k <= j < |names|
        ensures Label(names[j].key) != Label(names[0].key)
      {
        CleanBreak(names, j);
      }
      NextsClean(names[..k]);
      assert forall j | 0 <= j < |names| - k :: names[k..][j] == names[j + k];
      hide Ok, Clean, Nexts, Group;
      CleanIsContiguous(names[k..]);
      CleanIsContiguous(Nexts(names[..k]));
    }
  }

  lemma DotIsLater(a: string, b: string)
    requires HasDot(a) && !HasDot(b) && Label(b) == Label(a) && Text(a)
    ensures DnsCmp(a, b) > 0
  {
    LabelParts(a);
    LabelParts(b);
    assert b + ("." + Rest(a)) == a;
    LongerIsLater(b, "." + Rest(a));
  }

  lemma CleanKeys(a: string, b: string, d: string)
    requires Clean(a) && Clean(b) && Clean(d) && Text(a) && DnsCmp(a, b) <= 0
    requires DnsCmp(b, d) <= 0 && Label(d) == Label(a)
    ensures SameGroup(a, b)
  {
    hide Clean, Text, DnsCmp, Label, HasDot, SameGroup;
    Between(a, b, d, Label(a));
    if HasDot(a) && !HasDot(b) {
      DotIsLater(a, b);
    } else {
      SameLabelGroups(a, b);
    }
  }

  lemma CleanBreak(names: seq<Name>, j: nat)
    requires Ok(names) && (forall i | 0 <= i < |names| :: Clean(names[i].key))
    requires names != [] && GroupEnd(names, 1) <= j < |names|
    ensures Label(names[j].key) != Label(names[0].key)
  {
    hide Clean, Text, DnsCmp, Label, SameGroup, Stripped;
    var k := GroupEnd(names, 1);
    CmpSelf(names[k].key);
    SortedPair(names, 0, k);
    SortedPair(names, k, j);
    hide Ok;
    if Label(names[j].key) == Label(names[0].key) {
      CleanKeys(names[0].key, names[k].key, names[j].key);
    }
  }

  lemma SortedPair(names: seq<Name>, i: nat, j: nat)
    requires Ok(names) && i <= j < |names|
    ensures DnsCmp(names[i].key, names[j].key) <= 0 && Text(names[i].key)
  {
    hide DnsCmp, Text, Stripped;
    CmpSelf(names[i].key);
  }

  lemma {:induction false} CmpSelf(s: string)
    ensures DnsCmp(s, s) == 0
  {
    if s != "" {
      CmpSelf(s[1..]);
    }
  }

  lemma RestClean(key: string)
    requires Clean(key)
    ensures Clean(Rest(key))
  {
    assert forall j | 0 <= j < |Rest(key)| :: Rest(key)[j] == key[j + Dot(key) + 1];
  }

  lemma NextsClean(group: seq<Name>)
    requires Group(group) && forall i | 0 <= i < |group| :: Clean(group[i].key)
    ensures forall i | 0 <= i < |Nexts(group)| :: Clean(Nexts(group)[i].key)
  {
    NextsAre(group);
    hide Clean, Nexts, Rest, Group;
    forall i | 0 <= i < |Nexts(group)|
      ensures Clean(Nexts(group)[i].key)
    {
      RestClean(group[i + Off(group)].key);
    }
  }

  const BROKEN := [Name("a", 1), Name("a\t", 2), Name("a.b", 3)]

  lemma BrokenOrder()
    ensures DnsCmp("a", "a\t") < 0 && DnsCmp("a", "a.b") < 0 && DnsCmp("a\t", "a.b") < 0
  {
    assert "a" + "" == "a" && "a" + "\t" == "a\t" && "a" + ".b" == "a.b";
    CmpStrip("a", "", "\t");
    CmpStrip("a", "", ".b");
    CmpStrip("a", "\t", ".b");
  }

  lemma BrokenIsOk()
    ensures Ok(BROKEN) && DistinctValues(BROKEN)
  {
    BrokenOrder();
    assert Stripped("a") == "a" && Stripped("a\t") == "a\t" && Stripped("a.b") == "a.b";
    hide DnsCmp, Stripped;
  }

  /** A control character below the blank comes between a name and the names under it. */
  lemma ControlCharacterBreaks()
    ensures Ok(BROKEN) && DistinctValues(BROKEN) && !Contiguous(BROKEN)
  {
    BrokenIsOk();
    assert "a" + "." + "b" == "a.b";
    LabelOf("a", "b");
    assert !SameGroup("a", "a\t");
    hide Ok, DistinctValues, Label, SameGroup;
    assert GroupEnd(BROKEN, 1) == 1;
    assert Label(BROKEN[2].key) == Label(BROKEN[0].key);
  }

  // ----- compiling, step by step

  lemma CutAdd(a: seq<Name>, n: Name)
    ensures Cut(a + [n]) == Cut(a) + [Name(Rest(n.key), n.value)]
  {
  }

  lemma NextsAdd(group: seq<Name>, n: Name)
    requires group != []
    ensures Nexts(group + [n]) == Nexts(group) + [Name(Rest(n.key), n.value)]
  {
    CutAdd(group, n);
    CutAdd(group[1..], n);
    assert (group + [n])[1..] == group[1..] + [n];
  }

  /** The rest of a key in the group of another one, as ngx_hash_wildcard_init cuts it. */
  lemma GroupRest(a: string, b: string)
    requires SameGroup(a, b) && HasDot(b)
    ensures Dot(a) + 1 <= |b| && b[Dot(a) + 1..] == Rest(b)
  {
    SameGroupLabel(a, b);
    assert |Label(a)| == Dot(a) && |Label(b)| == Dot(b);
    hide SameGroup;
    LabelParts(b);
  }

  /** Behind the first key of a group no key is just the label, at any level; the length of what is left
      of such a key would be below zero. */
  predicate Cuttable(names: seq<Name>)
    decreases Size(names)
  {
    names == [] ||
    (var k := GroupEnd(names, 1);
     GroupShrinks(names, k);
     (forall j | 0 < j < k :: HasDot(names[j].key)) && Cuttable(names[k..]) && Cuttable(Nexts(names[..k])))
  }

  /** What ngx_hash_add_key accepts can be cut, in any order. */
  lemma {:induction false} DifferentCuttable(names: seq<Name>)
    requires Different(names)
    ensures Cuttable(names)
    decreases Size(names)
  {
    if names != [] {
      var k := GroupEnd(names, 1);
      GroupShrinks(names, k);
      forall j | 0 < j < k
        ensures HasDot(names[j].key)
      {
        DottedBehind(names[0].key, names[j].key);
      }
      hide SameGroup, Nexts, Cuttable;
      DifferentNexts(names, k);
      DifferentCuttable(names[k..]);
      DifferentCuttable(Nexts(names[..k]));
      CuttableParts(names);
    }
  }

  lemma CuttableParts(names: seq<Name>)
    requires names != []
    requires var k := GroupEnd(names, 1);
      (forall j | 0 < j < k :: HasDot(names[j].key)) && Cuttable(names[k..]) && Cuttable(Nexts(names[..k]))
    ensures Cuttable(names)
  {
    GroupShrinks(names, GroupEnd(names, 1));
  }

  predicate Different(names: seq<Name>) {
    forall i, j | 0 <= i < j < |names| :: names[i].key != names[j].key
  }

  lemma DottedBehind(a: string, b: string)
    requires SameGroup(a, b) && a != b
    ensures HasDot(b)
  {
    SameGroupLabel(a, b);
    LabelParts(a);
    LabelParts(b);
  }

  lemma DifferentNexts(names: seq<Name>, k: nat)
    requires Different(names) && 0 < k <= |names| && forall j | 0 < j < k :: SameGroup(names[0].key, names[j].key)
    ensures Different(names[k..]) && Different(Nexts(names[..k]))
  {
    var group := names[..k];
    var off := if EndsHere(group[0].key) then 1 else 0;
    assert Nexts(group) == Cut(group[off..]);
    forall i, j | off <= i < j < k
      ensures Rest(group[i].key) != Rest(group[j].key)
    {
      if i > 0 { DottedBehind(names[0].key, names[i].key); }
      DottedBehind(names[0].key, names[j].key);
      RestDiffers(names[0].key, names[i].key, names[j].key, i == 0);
    }
  }

  lemma RestDiffers(first: string, a: string, b: string, same: bool)
    requires a != b && HasDot(a) && HasDot(b) && SameGroup(first, b) && if same then a == first else SameGroup(first, a)
    ensures Rest(a) != Rest(b)
  {
    if !same { SameGroupLabel(first, a); }
    SameGroupLabel(first, b);
    LabelParts(a);
    LabelParts(b);
  }

  method FirstDot(key: string) returns (len: nat, dot: bool)
    ensures len == Dot(key) && dot == HasDot(key)
  {
    len := 0;
    dot := false;
    while len < |key|
      invariant len <= |key| && forall i | 0 <= i < len :: key[i] != '.'
    {
      if key[len] == '.' {
        dot := true;
        break;
      }
      len := len + 1;
    }
    DotIs(key, len);
  }

  /** The test that ends a group, as it is written. */
  lemma SameGroupTest(first: string, key: string)
    ensures var dot := HasDot(first); var len := if dot then Dot(first) + 1 else Dot(first);
      SameGroup(first, key) <==>
        !(|key| < len || key[..len] != first[..len]) && !(!dot && |key| > len && key[len] != '.')
  {
  }

  lemma FirstNext(n: Name)
    ensures Nexts([n]) == if EndsHere(n.key) then [] else [Name(Rest(n.key), n.value)]
    ensures var len := if HasDot(n.key) then Dot(n.key) + 1 else Dot(n.key);
      EndsHere(n.key) <==> |n.key| == len
    ensures !EndsHere(n.key) ==> n.key[Dot(n.key) + 1..] == Rest(n.key)
  {
    assert [n][1..] == [];
  }

  lemma OneMore(names: seq<Name>, i: nat)
    requires i < |names|
    ensures names[..i + 1] == names[..i] + [names[i]]
  {
  }

  lemma CuttableGroup(names: seq<Name>)
    requires Cuttable(names) && names != []
    ensures var k := GroupEnd(names, 1);
      && (forall j | 0 < j < k :: HasDot(names[j].key))
      && Cuttable(names[k..]) && Cuttable(Nexts(names[..k]))
      && Size(Nexts(names[..k])) < Size(names) && Size(names[k..]) < Size(names)
  {
    GroupShrinks(names, GroupEnd(names, 1));
  }

  /** One more name of the group, cut as ngx_hash_wildcard_init cuts it. */
  lemma GroupStep(names: seq<Name>, i: nat)
    requires Cuttable(names) && 0 < i < |names| && GroupEnd(names, 1) == GroupEnd(names, i)
    requires SameGroup(names[0].key, names[i].key)
    ensures var first, key := names[0].key, names[i].key;
      && Dot(first) + 1 <= |key| && GroupEnd(names, 1) == GroupEnd(names, i + 1)
      && Nexts(names[..i + 1]) == Nexts(names[..i]) + [Name(key[Dot(first) + 1..], names[i].value)]
  {
    hide Nexts, Rest, Dot, SameGroup;
    CuttableGroup(names);
    hide Cuttable, EndsHere;
    GroupRest(names[0].key, names[i].key);
    OneMore(names, i);
    NextsAdd(names[..i], names[i]);
  }

  lemma GroupStops(names: seq<Name>, i: nat)
    requires 0 < i <= |names| && (i < |names| ==> !SameGroup(names[0].key, names[i].key))
    ensures GroupEnd(names, i) == i
  {
  }

  /** The first name of the group. */
  lemma GroupStarts(names: seq<Name>)
    requires names != []
    ensures var n := names[0]; var len := if HasDot(n.key) then Dot(n.key) + 1 else Dot(n.key);
      && (EndsHere(n.key) <==> |n.key| == len) && len <= |n.key|
      && Nexts(names[..1]) == if |n.key| == len then [] else [Name(n.key[len..], n.value)]
  {
    hide Nexts, Rest, Cuttable;
    FirstNext(names[0]);
    assert names[..1] == [names[0]];
  }

  /** The names of the group that starts the list, cut behind their label, and where the next group starts. */
  method Collect(names: seq<Name>) returns (next: seq<Name>, i: nat, text: string, dot: bool, ends: bool)
    requires Cuttable(names) && names != []
    ensures i == GroupEnd(names, 1) && next == Nexts(names[..i])
    ensures text == Label(names[0].key) && dot == HasDot(names[0].key) && ends == EndsHere(names[0].key)
  {
    hide Nexts, SameGroup, GroupEnd, Rest, EndsHere, Cuttable;
    var key := names[0].key;
    var len;
    len, dot := FirstDot(key);
    text := key[..len];
    var dotLen := len + 1;
    if dot {
      len := len + 1;
    }
    next := [];
    ends := |key| == len;
    GroupStarts(names);
    if !ends {
      next := [Name(key[len..], names[0].value)];
    }
    i := 1;
    while i < |names|
      invariant 0 < i <= |names| && next == Nexts(names[..i])
      invariant GroupEnd(names, 1) == GroupEnd(names, i)
    {
      SameGroupTest(key, names[i].key);
      if |names[i].key| < len || names[i].key[..len] != key[..len] {
        break;
      }
      if !dot && |names[i].key| > len && names[i].key[len] != '.' {
        break;
      }
      GroupStep(names, i);
      next := next + [Name(names[i].key[dotLen..], names[i].value)];
      i := i + 1;
    }
    GroupStops(names, i);
  }

  lemma CompileUnfolds(names: seq<Name>)
    requires names != []
    ensures var k := GroupEnd(names, 1);
      Compile(names) == [Make(names[..k], Compile(Nexts(names[..k])))] + Compile(names[k..])
  {
    hide Nexts, Make, Size;
  }

  lemma CompileStep(names: seq<Name>, n: nat, rest: seq<Name>, k: nat)
    requires n < |names| && rest == names[n..] && Cuttable(rest) && k == GroupEnd(rest, 1)
    ensures Size(rest) <= Size(names) && n + k <= |names| && Cuttable(names[n + k..])
    ensures Compile(rest) == [Make(rest[..k], Compile(Nexts(rest[..k])))] + Compile(names[n + k..])
  {
    hide *;
    CompileUnfolds(rest);
    CuttableBehind(rest);
    SizeSplit(names, n);
    DropDrop(names, n, k);
  }

  lemma CuttableBehind(names: seq<Name>)
    requires Cuttable(names) && names != []
    ensures Cuttable(names[GroupEnd(names, 1)..])
  {
    CuttableGroup(names);
  }

  lemma DropDrop(names: seq<Name>, n: nat, k: nat)
    requires n <= |names| && k <= |names[n..]|
    ensures n + k <= |names| && names[n..][k..] == names[n + k..]
  {
  }

  /** The element of the first group of the list, with the hash of the names below when there are any. */
  method CompileGroup(names: seq<Name>) returns (elt: Elt, i: nat)
    requires Cuttable(names) && names != []
    ensures i == GroupEnd(names, 1) && elt == Make(names[..i], Compile(Nexts(names[..i])))
    decreases Size(names), 0
  {
    CuttableGroup(names);
    var next, text, dot, ends;
    next, i, text, dot, ends := Collect(names);
    hide Cuttable, GroupEnd, Nexts, Size, Compile, Label, HasDot, EndsHere;
    var value := names[0].value;
    var entry := Leaf(value, dot);
    if next != [] {
      var wdc := WildcardInit(next);
      if ends {
        wdc := wdc.(value := value);
      }
      entry := Sub(wdc, dot);
    }
    elt := Elt(text, entry);
  }

  /** ngx_hash_wildcard_init. */
  method WildcardInit(names: seq<Name>) returns (level: Level)
    requires Cuttable(names)
    ensures level == Level(Compile(names), 0)
    decreases Size(names), 1
  {
    hide *;
    var table: seq<Elt> := [];
    var n := 0;
    assert names[0..] == names;
    while n < |names|
      invariant n <= |names| && Compile(names) == table + Compile(names[n..]) && Cuttable(names[n..])
    {
      CompileStep(names, n, names[n..], GroupEnd(names[n..], 1));
      var elt, i := CompileGroup(names[n..]);
      Regroup(table, elt, Compile(names[n + i..]));
      table := table + [elt];
      n := n + i;
    }
    CompileNothing(names, n);
    level := Level(table, 0);
  }

  lemma Regroup(a: seq<Elt>, e: Elt, b: seq<Elt>)
    ensures a + ([e] + b) == (a + [e]) + b
  {
  }

  lemma CompileNothing(names: seq<Name>, n: nat)
    requires n == |names|
    ensures Compile(names[n..]) == []
  {
  }

  // ----- names of hosts

  /** Behind the last dot. */
  function After(s: string): (r: nat)
    ensures r <= |s| && (r > 0 ==> s[r - 1] == '.') && forall i | r <= i < |s| :: s[i] != '.'
  {
    if s == "" then 0 else if s[|s| - 1] == '.' then |s| else After(s[..|s| - 1])
  }

  lemma AfterIs(s: string, n: nat)
    requires n <= |s| && (n > 0 ==> s[n - 1] == '.') && forall i | n <= i < |s| :: s[i] != '.'
    ensures After(s) == n
  {
  }

  /** The labels of a name, the last one first. */
  function Reversed(s: string): string {
    var n := After(s);
    if n == 0 then s else s[n..] + "." + Reversed(s[..n - 1])
  }

  lemma ReversedParts(s: string)
    ensures var n, r := After(s), Reversed(s);
      Label(r) == s[n..] && (HasDot(r) <==> n > 0) && (n > 0 ==> Rest(r) == Reversed(s[..n - 1]))
  {
    var n := After(s);
    if n > 0 {
      LabelOf(s[n..], Reversed(s[..n - 1]));
    } else {
      assert s[0..] == s;
      LabelOf(s, "");
    }
  }

  /** ngx_hash_find_wc_head: the labels are taken from the end. */
  method FindWcHead(level: Level, name: string) returns (value: nat)
    ensures value == Find(false, level, Reversed(name))
    decreases |name|
  {
    ReversedParts(name);
    hide Reversed, Label, HasDot, Rest;
    var n := |name|;
    while n > 0
      invariant 0 <= n <= |name| && forall i | n <= i < |name| :: name[i] != '.'
    {
      if name[n - 1] == '.' {
        break;
      }
      n := n - 1;
    }
    AfterIs(name, n);
    match FindElt(level.table, name[n..]) {
      case None => value := level.value;
      case Some(Sub(hwc, only)) =>
        if n == 0 {
          value := if only then 0 else hwc.value;
        } else {
          value := FindWcHead(hwc, name[..n - 1]);
          if value == 0 {
            value := hwc.value;
          }
        }
      case Some(Leaf(v, only)) =>
        value := if only && n == 0 then 0 else v;
    }
  }

  /** ngx_hash_find_wc_tail: the labels are taken from the front, and one must be left over. The keys of this
      tree do not end with a dot, so its values carry no mark. */
  method FindWcTail(level: Level, name: string) returns (value: nat)
    ensures value == Find(true, level, name)
    decreases |name|
  {
    var i, dot := FirstDot(name);
    if i == |name| {
      return 0;
    }
    match FindElt(level.table, name[..i]) {
      case None => value := level.value;
      case Some(Sub(hwc, _)) =>
        value := FindWcTail(hwc, name[i + 1..]);
        if value == 0 {
          value := hwc.value;
        }
      case Some(Leaf(v, _)) => value := v;
    }
  }

  // ----- patterns as they are written

  /** "*.example.com" and ".example.com", as ngx_hash_add_key takes them: no two dots in a row, no zeros. */
  predicate Pattern(text: string) {
    |text| > 1 && Text(text)
    && (if text[0] == '*' then |text| > 2 && text[1] == '.' && text[2] != '.' else text[0] == '.' && text[1] != '.')
  }

  predicate EndsWith(host: string, suffix: string) {
    |suffix| <= |host| && host[|host| - |suffix|..] == suffix
  }

  /** "*.example.com" stands for the names below example.com, ".example.com" for these and example.com itself. */
  predicate Covers(text: string, host: string)
    requires Pattern(text)
  {
    if text[0] == '*' then EndsWith(host, text[1..]) else host == text[1..] || EndsWith(host, text)
  }

  lemma {:induction false} EndsWithReversed(x: string, host: string)
    ensures Reversed(x) + "." <= Reversed(host) <==> EndsWith(host, "." + x)
    decreases |x|
  {
    ReversedParts(x);
    ReversedParts(host);
    AfterParts(x);
    LabelParts(Reversed(x));
    hide Reversed, Label, HasDot, Rest, EndsWith;
    var n, m := After(x), After(host);
    var c := x[n..];
    if n == 0 {
      PrefixParts(c, "", Reversed(host));
      assert c + "." + "" == c + ".";
      EndsWithLabel(x, host);
    } else {
      var y := x[..n - 1];
      PrefixParts(c, Reversed(y) + ".", Reversed(host));
      assert c + "." + (Reversed(y) + ".") == Reversed(x) + ".";
      if m > 0 {
        EndsWithReversed(y, host[..m - 1]);
      }
      EndsWithMore(y, c, host);
    }
  }

  lemma EndsWithLabel(c: string, host: string)
    requires '.' !in c
    ensures EndsWith(host, "." + c) <==> After(host) > 0 && host[After(host)..] == c
  {
    var m, s := After(host), "." + c;
    if EndsWith(host, s) {
      var d := |host| - |s|;
      assert host[d] == host[d..][0] == '.';
      assert forall i | d < i < |host| :: host[i] == host[d..][i - d] == s[i - d];
      AfterIs(host, d + 1);
      assert host[d + 1..] == host[d..][1..] == c;
    }
    if m > 0 && host[m..] == c {
      assert host[m - 1..] == [host[m - 1]] + host[m..] == s;
      assert |host| - |s| == m - 1;
    }
  }

  lemma EndsWithBoth(host: string, a: string, b: string)
    ensures EndsWith(host, a + b) <==> EndsWith(host, b) && EndsWith(host[..|host| - |b|], a)
  {
    if |a| + |b| <= |host| {
      var d := |host| - |a| - |b|;
      var front := host[..|host| - |b|];
      assert host[d..] == front[d..] + host[|host| - |b|..];
    }
  }

  lemma EndsWithMore(y: string, c: string, host: string)
    requires '.' !in c
    ensures EndsWith(host, "." + (y + "." + c)) <==>
      After(host) > 0 && host[After(host)..] == c && EndsWith(host[..After(host) - 1], "." + y)
  {
    EndsWithLabel(c, host);
    assert "." + (y + "." + c) == ("." + y) + ("." + c);
    EndsWithBoth(host, "." + y, "." + c);
  }

  lemma AfterParts(s: string)
    ensures After(s) > 0 ==> s == s[..After(s) - 1] + "." + s[After(s)..]
    ensures After(s) == 0 ==> s == s[After(s)..]
  {
  }

  lemma {:induction false} ReversedInjective(x: string, y: string)
    ensures Reversed(x) == Reversed(y) ==> x == y
    decreases |x|
  {
    ReversedParts(x);
    ReversedParts(y);
    AfterParts(x);
    AfterParts(y);
    hide Reversed, Label, HasDot, Rest;
    if After(x) > 0 && After(y) > 0 {
      ReversedInjective(x[..After(x) - 1], y[..After(y) - 1]);
    }
  }

  lemma CoversIsMatch(text: string, host: string)
    requires Pattern(text)
    ensures Matches(false, KeyText(text), Reversed(host)) <==> Covers(text, host)
  {
    var p := text[1..];
    var key := Reversed(p);
    MatchesIsPrefix(false, key, Reversed(host));
    if text[0] == '*' {
      var x := text[2..];
      assert p == "." + x;
      ReversedStarred(x);
      EndsWithReversed(x, host);
    } else {
      assert text == "." + p;
      ReversedPlain(p);
      EndsWithReversed(p, host);
      ReversedInjective(p, host);
    }
  }

  /** "*.example.com" becomes the key "com.example.". */
  lemma {:induction false} ReversedStarred(x: string)
    ensures Reversed("." + x) == Reversed(x) + "."
    decreases |x|
  {
    var n, s := After(x), "." + x;
    if n == 0 {
      AfterIs(s, 1);
      assert s[1..] == x && s[..0] == "";
      assert Reversed("") == "";
      assert x + "." + "" == x + ".";
    } else {
      AfterIs(s, n + 1);
      ReversedStarred(x[..n - 1]);
      assert s[n + 1..] == x[n..] && s[..n] == "." + x[..n - 1];
      assert x[n..] + "." + (Reversed(x[..n - 1]) + ".") == Reversed(x) + ".";
    }
  }

  /** ".example.com" becomes the key "com.example", which ends without a dot. */
  lemma {:induction false} ReversedPlain(p: string)
    requires p != "" && p[0] != '.'
    ensures !Starred(Reversed(p)) && Reversed(p) != ""
    decreases |p|
  {
    var n := After(p);
    if n > 0 {
      ReversedPlain(p[..n - 1]);
      assert Last(Reversed(p)) == Last(Reversed(p[..n - 1]));
    }
  }

  /** The key of a pattern: its labels from the end, "com.example" or, starred, "com.example.". */
  function KeyText(text: string): string
    requires Pattern(text)
  {
    Reversed(text[1..])
  }

  /** How ngx_hash_add_key makes it, label by label from the end. The label being read is text[i + 1..end]. */
  method KeyOf(text: string) returns (p: string)
    requires Pattern(text)
    ensures p == KeyText(text)
  {
    assert |text| > 1 && KeyText(text) == Reversed(text[1..]);
    hide *;
    p := "";
    var i, end := |text| - 1, |text|;
    assert text[1..end] == text[1..];
    while i > 0
      invariant 0 <= i < end <= |text| && (forall j | i < j < end :: text[j] != '.')
      invariant Reversed(text[1..]) == p + Reversed(text[1..end])
    {
      if text[i] == '.' {
        var word := text[i + 1..end];
        LastLabel(text, i, end);
        Joined(p, word, Reversed(text[1..i]));
        p := p + word + ".";
        end := i;
      }
      i := i - 1;
    }
    OneLabel(text[1..end]);
    p := p + text[1..end];
  }

  lemma Joined(p: string, a: string, b: string)
    ensures p + (a + "." + b) == (p + a + ".") + b
  {
  }

  lemma OneLabel(s: string)
    requires '.' !in s
    ensures Reversed(s) == s
  {
    AfterIs(s, 0);
  }

  lemma LastLabel(text: string, i: nat, end: nat)
    requires 0 < i < end <= |text| && text[i] == '.' && forall j | i < j < end :: text[j] != '.'
    ensures Reversed(text[1..end]) == text[i + 1..end] + "." + Reversed(text[1..i])
  {
    var s := text[1..end];
    AfterIs(s, i);
    assert s[i..] == text[i + 1..end] && s[..i - 1] == text[1..i];
  }

  // ----- the whole way

  /** The list to compile: the patterns in an order that sorts their keys. */
  function Keys(patterns: seq<Name>): (r: seq<Name>)
    requires forall i | 0 <= i < |patterns| :: Pattern(patterns[i].key)
    ensures |r| == |patterns|
    ensures forall i | 0 <= i < |r| :: r[i] == Name(KeyText(patterns[i].key), patterns[i].value)
  {
    if patterns == [] then [] else [Name(KeyText(patterns[0].key), patterns[0].value)] + Keys(patterns[1..])
  }

  /** The domain of a pattern: what follows its first dot. */
  function Bare(text: string): string
    requires Pattern(text)
  {
    if text[0] == '*' then text[2..] else text[1..]
  }

  lemma {:induction false} ReversedLength(s: string)
    ensures |Reversed(s)| == |s|
    decreases |s|
  {
    if After(s) > 0 {
      ReversedLength(s[..After(s) - 1]);
    }
  }

  lemma BareLength(text: string)
    requires Pattern(text)
    ensures |Stripped(KeyText(text))| == |Bare(text)|
  {
    ReversedLength(Bare(text));
    if text[0] == '*' {
      assert text[1..] == "." + text[2..];
      ReversedStarred(text[2..]);
    } else {
      ReversedPlain(text[1..]);
    }
  }

  lemma {:induction false} DeeperIsLonger(tail: bool, a: string, b: string, name: string)
    requires Matches(tail, a, name) && Matches(tail, b, name) && Depth(a) <= Depth(b)
    ensures |Stripped(a)| <= |Stripped(b)|
    decreases |a|
  {
    if EndsHere(a) {
      StrippedHere(a);
      if EndsHere(b) {
        StrippedHere(b);
      } else {
        StarredParts(b);
      }
    } else if EndsHere(b) {
      DepthPositive(Rest(a));
    } else {
      StarredParts(a);
      StarredParts(b);
      DeeperIsLonger(tail, Rest(a), Rest(b), Rest(name));
    }
  }

  ghost predicate Longest(patterns: seq<Name>, host: string, k: nat)
    requires k < |patterns| && forall i | 0 <= i < |patterns| :: Pattern(patterns[i].key)
  {
    Covers(patterns[k].key, host)
    && forall j | 0 <= j < |patterns| && Covers(patterns[j].key, host) ::
      |Bare(patterns[j].key)| <= |Bare(patterns[k].key)|
  }

  ghost predicate MostSpecific(patterns: seq<Name>, host: string, v: nat)
    requires forall i | 0 <= i < |patterns| :: Pattern(patterns[i].key)
  {
    if v == 0 then forall k | 0 <= k < |patterns| :: !Covers(patterns[k].key, host)
    else exists k :: 0 <= k < |patterns| && Longest(patterns, host, k) && patterns[k].value == v
  }

  /** The list that is compiled holds the keys of the patterns in some order. */
  ghost predicate Permutes(names: seq<Name>, keys: seq<Name>) {
    multiset(names) == multiset(keys)
  }

  lemma PermutedIn(names: seq<Name>, keys: seq<Name>, i: nat) returns (k: nat)
    requires Permutes(names, keys) && i < |names|
    ensures k < |keys| && keys[k] == names[i]
  {
    assert names[i] in multiset(keys);
    k :| k < |keys| && keys[k] == names[i];
  }

  /** A host gets the value of the pattern with the longest domain among those that cover it, or none. */
  lemma HeadFindsMostSpecific(patterns: seq<Name>, names: seq<Name>, host: string)
    requires forall i | 0 <= i < |patterns| :: Pattern(patterns[i].key)
    requires Permutes(names, Keys(patterns)) && Ok(names) && Contiguous(names)
    ensures MostSpecific(patterns, host, Find(false, Level(Compile(names), 0), Reversed(host)))
  {
    var r := Reversed(host);
    var v := Find(false, Level(Compile(names), 0), r);
    ContiguousIsRight(false, names, r);
    hide Find, Compile, Ok, Contiguous;
    BestIsMostSpecific(patterns, names, host, v);
  }

  lemma BestIsMostSpecific(patterns: seq<Name>, names: seq<Name>, host: string, v: nat)
    requires forall i | 0 <= i < |patterns| :: Pattern(patterns[i].key)
    requires Permutes(names, Keys(patterns)) && IsBest(false, names, Reversed(host), v)
    ensures MostSpecific(patterns, host, v)
  {
    hide Covers, Bare, Pattern, Matches, Depth, Stripped, Reversed, KeyText, Permutes;
    var keys, r := Keys(patterns), Reversed(host);
    forall k | 0 <= k < |patterns|
      ensures Covers(patterns[k].key, host) <==> Matches(false, keys[k].key, r)
      ensures |Stripped(keys[k].key)| == |Bare(patterns[k].key)|
      ensures exists i :: 0 <= i < |names| && names[i] == keys[k]
    {
      CoversIsMatch(patterns[k].key, host);
      BareLength(patterns[k].key);
      var i := PermutedIn(keys, names, k) by { PermutesBack(names, keys); }
    }
    if v != 0 {
      var i :| 0 <= i < |names| && Wins(false, names, r, i) && names[i].value == v;
      var k := PermutedIn(names, keys, i);
      forall j | 0 <= j < |patterns| && Covers(patterns[j].key, host)
        ensures |Bare(patterns[j].key)| <= |Bare(patterns[k].key)|
      {
        var m :| 0 <= m < |names| && names[m] == keys[j];
        DeeperIsLonger(false, keys[j].key, keys[k].key, r);
      }
      assert Longest(patterns, host, k);
    }
  }

  lemma PermutesBack(names: seq<Name>, keys: seq<Name>)
    requires Permutes(names, keys)
    ensures Permutes(keys, names)
  {
  }

  /** In the other tree a key stands for the names that begin with it and a dot. */
  lemma TailMatch(key: string, name: string)
    requires !Starred(key)
    ensures Matches(true, key, name) <==> key + "." <= name
  {
    MatchesIsPrefix(true, key, name);
  }

  /** Two patterns are in conflict, as ngx_hash_add_key finds them, exactly when their keys are. */
  lemma ConflictIsSameDomain(a: string, b: string)
    requires Pattern(a) && Pattern(b)
    ensures Stripped(KeyText(a)) == Stripped(KeyText(b)) <==> Bare(a) == Bare(b)
  {
    StrippedIsBare(a);
    StrippedIsBare(b);
    ReversedInjective(Bare(a), Bare(b));
  }

  lemma StrippedIsBare(text: string)
    requires Pattern(text)
    ensures Stripped(KeyText(text)) == Reversed(Bare(text))
  {
    if text[0] == '*' {
      assert text[1..] == "." + text[2..];
      ReversedStarred(text[2..]);
    } else {
      ReversedPlain(text[1..]);
    }
  }
}
