/**
 Directory lists of a ROM image: path lookup and enumeration over the packed entries refine
 lookup and enumeration in a directory graph.

 An entry is a 4-byte offset, a 4-byte size, flags, a name length that counts the
 terminating null, then the name.
 */
module RomLookup {
  import opened Bytes
  import opened Options
  import opened RomFile

  const HEADER_SIZE := 24
  const ENTRY_SIZE := 10
  const FILENAME_MAXLEN := 27
  const SLASH: byte := 0x2F

  /** What an entry says; target is the address of a folder's list. */
  datatype Item = Item(name: seq<byte>, enabled: bool, folder: bool, target: nat)

  function Size(item: Item): nat { ENTRY_SIZE + |item.name| + 1 }

  /** The list of entries at address a reads as items; exactly the last one has the last flag. */
  ghost predicate ListAt(rom: seq<byte>, a: nat, items: seq<Item>)
    decreases |items|
  {
    && items != []
    && var it := items[0];
    && a + Size(it) <= |rom|
    && Has(rom[a + 8], 0x01) == it.enabled
    && Has(rom[a + 8], 0x02) == it.folder
    && Has(rom[a + 8], 0x40) == (|items| == 1)
    && rom[a + 9] as int == |it.name| + 1
    && rom[a + 10..a + 10 + |it.name|] == it.name
    && (it.folder ==> Be32(rom[a..a + 4]) == it.target)
    && (|items| > 1 ==> ListAt(rom, a + Size(it), items[1..]))
  }

  type Graph = map<nat, seq<Item>>

  /** Every list of the graph is in the image, and folders lead to lists. */
  ghost predicate Image(rom: seq<byte>, fs: Graph) {
    && 24 in fs
    && (forall a :: a in fs ==> ListAt(rom, a, fs[a]))
    && (forall a, i :: a in fs && 0 <= i < |fs[a]| && fs[a][i].folder ==> fs[a][i].target in fs)
  }

  function Upper(c: byte): byte { if 0x61 <= c <= 0x7A then c - 0x20 else c }

  function UpperAll(s: seq<byte>): (r: seq<byte>)
    ensures |r| == |s|
    ensures forall i :: 0 <= i < |s| ==> r[i] == Upper(s[i])
  {
    seq(|s|, i requires 0 <= i < |s| => Upper(s[i]))
  }

  /** The enabled item's name is `name`, up to case. */
  predicate SameName(item: Item, name: seq<byte>) {
    item.enabled && UpperAll(item.name) == UpperAll(name)
  }

  /** The same letter in both cases. */
  predicate CasePair(a: byte, b: byte) {
    (0x41 <= a <= 0x5A && b == a + 0x20) || (0x61 <= a <= 0x7A && b == a - 0x20)
  }

  /** Equal up to the case of ASCII letters, place by place. */
  predicate SameUpToCase(s: seq<byte>, t: seq<byte>) {
    |s| == |t| && forall i :: 0 <= i < |s| ==> s[i] == t[i] || CasePair(s[i], t[i])
  }

  lemma CaseIsUpper(s: seq<byte>, t: seq<byte>)
    ensures UpperAll(s) == UpperAll(t) <==> SameUpToCase(s, t)
  {
    if UpperAll(s) == UpperAll(t) {
      forall i | 0 <= i < |s| ensures s[i] == t[i] || CasePair(s[i], t[i]) {
        assert UpperAll(s)[i] == UpperAll(t)[i];
      }
    }
  }

  /** An enabled item has a name when the bytes are equal, or the same ASCII letter, at every place. */
  lemma SameNameIs(item: Item, name: seq<byte>)
    ensures SameName(item, name) <==>
            item.enabled && |item.name| == |name| &&
            forall i :: 0 <= i < |name| ==>
              var a, b := item.name[i] as int, name[i] as int;
              a == b || (0x41 <= a <= 0x5A && b == a + 0x20) || (0x61 <= a <= 0x7A && b == a - 0x20)
  {
    CaseIsUpper(item.name, name);
    hide UpperAll;
  }

  /** Index of the first item of that name, |items| when there is none. */
  function Find(items: seq<Item>, name: seq<byte>): (i: nat)
    ensures i <= |items|
    ensures i < |items| ==> SameName(items[i], name)
    ensures forall k :: 0 <= k < i ==> !SameName(items[k], name)
  {
    if items == [] || SameName(items[0], name) then 0 else 1 + Find(items[1..], name)
  }

  /** Address of the i-th entry of a list that starts at a. */
  function AddressOf(a: nat, items: seq<Item>, i: nat): nat
    requires i <= |items|
    decreases i
  {
    if i == 0 then a else AddressOf(a + Size(items[0]), items[1..], i - 1)
  }

  lemma {:induction false} ListSuffix(rom: seq<byte>, a: nat, items: seq<Item>, i: nat)
    requires ListAt(rom, a, items) && i < |items|
    ensures ListAt(rom, AddressOf(a, items, i), items[i..])
    decreases i
  {
    if i == 0 {
      assert items[0..] == items;
    } else {
      ListSuffix(rom, a + Size(items[0]), items[1..], i - 1);
      assert items[1..][i - 1..] == items[i..];
    }
  }

  function FirstSlash(p: seq<byte>): (k: nat)
    ensures k <= |p| && SLASH !in p[..k]
    ensures k < |p| ==> p[k] == SLASH
  {
    if p == [] || p[0] == SLASH then 0
    else
      var k := FirstSlash(p[1..]);
      assert p[..k + 1] == [p[0]] + p[1..][..k];
      k + 1
  }

  /** The file names of a path. */
  function Components(p: seq<byte>): (r: seq<seq<byte>>)
    ensures r != []
    decreases |p|
  {
    var k := FirstSlash(p);
    if k == |p| then [p] else [p[..k]] + Components(p[k + 1..])
  }

  /** Names with a slash between each two. */
  function Join(names: seq<seq<byte>>): seq<byte> {
    if names == [] then [] else if |names| == 1 then names[0] else names[0] + [0x2F] + Join(names[1..])
  }

  /** A path is its components joined by slashes, and they hold none. */
  lemma {:induction false} ComponentsJoin(p: seq<byte>)
    ensures Join(Components(p)) == p && forall c :: c in Components(p) ==> 0x2F !in c
    decreases |p|
  {
    hide *;
    var k := FirstSlash(p);
    ComponentsStep(p);
    SlashIs(p);
    if k < |p| {
      var rest := Components(p[k + 1..]);
      ComponentsJoin(p[k + 1..]);
      JoinCons(p[..k], rest);
      assert p == p[..k] + [p[k]] + p[k + 1..];
    } else {
      JoinOne(p);
      assert p == p[..k];
    }
  }

  lemma SlashIs(p: seq<byte>)
    ensures var k := FirstSlash(p); 0x2F !in p[..k] && (k < |p| ==> p[k] == 0x2F)
  {
    hide FirstSlash;
  }

  lemma JoinOne(p: seq<byte>)
    ensures Join([p]) == p
  {
  }

  lemma JoinCons(p: seq<byte>, rest: seq<seq<byte>>)
    requires rest != []
    ensures Join([p] + rest) == p + [0x2F] + Join(rest)
  {
    assert ([p] + rest)[1..] == rest;
  }

  lemma {:induction false} FirstSlashIs(p: seq<byte>, n: nat)
    requires n <= |p| && SLASH !in p[..n] && (n < |p| ==> p[n] == SLASH)
    ensures FirstSlash(p) == n
    decreases n
  {
    if n > 0 {
      assert p[..n][0] == p[0];
      assert p[..n] == [p[0]] + p[1..][..n - 1];
      FirstSlashIs(p[1..], n - 1);
    }
  }

  lemma ComponentsStep(p: seq<byte>)
    ensures var k := FirstSlash(p); Components(p) == if k == |p| then [p] else [p[..k]] + Components(p[k + 1..])
  {
    hide FirstSlash;
  }

  /** The first component of path[j..], given the next slash or end at i, and the others. */
  lemma ComponentsAt(path: seq<byte>, j: nat, i: nat)
    requires j <= i <= |path| && SLASH !in path[j..i] && (i < |path| ==> path[i] == SLASH)
    ensures Components(path[j..]) ==
            [path[j..i]] + (if i == |path| then [] else Components(path[i + 1..]))
  {
    hide *;
    var p := path[j..];
    assert p[..i - j] == path[j..i];
    FirstSlashIs(p, i - j);
    ComponentsStep(p);
    if i == |path| {
      assert p == path[j..i];
    } else {
      assert p[i - j + 1..] == path[i + 1..];
    }
  }

  /** Where a search stands: at entry address a, with these items from there on. */
  datatype Cursor = At(a: nat, items: seq<Item>)

  ghost predicate ValidCursor(rom: seq<byte>, fs: Graph, c: Cursor) {
    ListAt(rom, c.a, c.items) && forall i :: 0 <= i < |c.items| && c.items[i].folder ==> c.items[i].target in fs
  }

  /** One path component: into a folder's list, or onto a file's entry. */
  function Descend(fs: Graph, c: Cursor, name: seq<byte>): (r: Option<Cursor>) {
    var i := Find(c.items, name);
    if |name| > 26 || i == |c.items| then None
    else if c.items[i].folder then
      if c.items[i].target in fs then Some(At(c.items[i].target, fs[c.items[i].target])) else None
    else Some(At(AddressOf(c.a, c.items, i), c.items[i..]))
  }

  /** The lookup the source performs, component by component; an empty component ends it. */
  function Lookup(fs: Graph, c: Cursor, comps: seq<seq<byte>>): Option<nat>
    decreases |comps|
  {
    if comps == [] || comps[0] == [] then Some(c.a)
    else match Descend(fs, c, comps[0])
      case None => None
      case Some(d) => Lookup(fs, d, comps[1..])
  }

  /** The components in front of the first empty one. */
  function Named(comps: seq<seq<byte>>): (r: seq<seq<byte>>)
    ensures r <= comps && (forall k :: 0 <= k < |r| ==> r[k] != [])
    ensures |r| < |comps| ==> comps[|r|] == []
    decreases |comps|
  {
    if comps == [] || comps[0] == [] then [] else [comps[0]] + Named(comps[1..])
  }

  /** Plain resolution: every name but the last one has to be a folder's; no name stands for the folder itself. */
  function Resolve(fs: Graph, dir: nat, names: seq<seq<byte>>): Option<nat>
    requires dir in fs
    decreases |names|
  {
    if names == [] then Some(dir)
    else
      var items := fs[dir];
      var i := Find(items, names[0]);
      if |names[0]| + 1 > FILENAME_MAXLEN || i == |items| then None
      else if items[i].folder then
        if items[i].target in fs then Resolve(fs, items[i].target, names[1..]) else None
      else if |names| == 1 then Some(AddressOf(dir, items, i))
      else None
  }

  /** The names are found one after the other, from place i of the list at dir on, files standing in their list. */
  predicate Follows(fs: Graph, dir: nat, i: nat, names: seq<seq<byte>>)
    requires dir in fs && i <= |fs[dir]|
    decreases |names|
  {
    names == [] ||
    (|names[0]| + 1 <= FILENAME_MAXLEN &&
     var items := fs[dir];
     var k := i + Find(items[i..], names[0]);
     k < |items| &&
     if items[k].folder then items[k].target in fs && Follows(fs, items[k].target, 0, names[1..])
     else Follows(fs, dir, k, names[1..]))
  }

  /** Some inner name is a file, and the names behind it are found from its place in the list on. */
  predicate Astray(fs: Graph, dir: nat, names: seq<seq<byte>>)
    requires dir in fs
    decreases |names|
  {
    |names| > 1 && |names[0]| + 1 <= FILENAME_MAXLEN &&
    var items := fs[dir];
    var i := Find(items, names[0]);
    i < |items| &&
    if items[i].folder then items[i].target in fs && Astray(fs, items[i].target, names[1..])
    else Follows(fs, dir, i, names[1..])
  }

  /** The source's lookup stops at an empty component: what follows it is ignored. */
  lemma {:induction false} LookupStopsAtEmpty(fs: Graph, c: Cursor, comps: seq<seq<byte>>)
    ensures Lookup(fs, c, comps) == Lookup(fs, c, Named(comps))
    decreases |comps|
  {
    hide Descend;
    if comps != [] && comps[0] != [] {
      var d := Descend(fs, c, comps[0]);
      assert Named(comps)[1..] == Named(comps[1..]);
      if d.Some? { LookupStopsAtEmpty(fs, d.value, comps[1..]); }
    }
  }

  lemma FollowsStep(fs: Graph, dir: nat, i: nat, names: seq<seq<byte>>)
    requires dir in fs && i <= |fs[dir]| && names != []
    ensures var items := fs[dir]; var k := i + Find(items[i..], names[0]);
            Follows(fs, dir, i, names) <==>
            (|names[0]| + 1 <= FILENAME_MAXLEN && k < |items| &&
             if items[k].folder then items[k].target in fs && Follows(fs, items[k].target, 0, names[1..])
             else Follows(fs, dir, k, names[1..]))
  {
    hide Find;
  }

  lemma DropTwice<T>(s: seq<T>, i: nat, f: nat)
    requires i + f <= |s|
    ensures s[i..][f..] == s[i + f..] && s[0..] == s && (i + f < |s| ==> s[i..][f] == s[i + f])
  {
  }

  lemma DescendForm(fs: Graph, dir: nat, a: nat, i: nat, name: seq<byte>)
    requires dir in fs && i <= |fs[dir]|
    ensures var items := fs[dir]; var f := Find(items[i..], name); var k := i + f;
            Descend(fs, At(a, items[i..]), name) ==
            if |name| + 1 > FILENAME_MAXLEN || k == |items| then None
            else if !items[k].folder then Some(At(AddressOf(a, items[i..], f), items[k..]))
            else if items[k].target in fs then Some(At(items[k].target, fs[items[k].target][0..]))
            else None
  {
    hide Find;
    hide AddressOf;
    var items, f := fs[dir], Find(fs[dir][i..], name);
    DropTwice(items, i, f);
    if i + f < |items| && items[i + f].folder && items[i + f].target in fs { DropTwice(fs[items[i + f].target], 0, 0); }
  }

  lemma LookupFirst(fs: Graph, c: Cursor, comps: seq<seq<byte>>)
    ensures comps == [] || comps[0] == [] ==> Lookup(fs, c, comps) == Some(c.a)
    ensures comps != [] && comps[0] != [] ==>
              var d := Descend(fs, c, comps[0]);
              Lookup(fs, c, comps) == if d.None? then None else Lookup(fs, d.value, comps[1..])
  {
    hide Descend;
  }

  /** The lookup finds something exactly when the names follow each other. */
  lemma {:induction false} LookupFollows(fs: Graph, dir: nat, a: nat, i: nat, names: seq<seq<byte>>)
    requires dir in fs && i <= |fs[dir]| && forall k :: 0 <= k < |names| ==> names[k] != []
    ensures Lookup(fs, At(a, fs[dir][i..]), names).Some? <==> Follows(fs, dir, i, names)
    decreases |names|
  {
    hide *;
    if names == [] {
      NothingToFollow(fs, dir, a, i);
    } else {
      var items := fs[dir];
      LookupFirst(fs, At(a, items[i..]), names);
      DescendForm(fs, dir, a, i, names[0]);
      FollowsStep(fs, dir, i, names);
      var f := Find(items[i..], names[0]);
      if i + f < |items| {
        var it := items[i + f];
        if !it.folder {
          LookupFollows(fs, dir, AddressOf(a, items[i..], f), i + f, names[1..]);
        } else if it.target in fs {
          LookupFollows(fs, it.target, it.target, 0, names[1..]);
        }
      }
    }
  }

  lemma {:induction false} FindIgnoresCase(items: seq<Item>, n: seq<byte>, m: seq<byte>)
    requires UpperAll(n) == UpperAll(m)
    ensures Find(items, n) == Find(items, m)
  {
    hide UpperAll;
    if items != [] { FindIgnoresCase(items[1..], n, m); }
  }

  /** Components that differ only in the case of letters are looked up alike. */
  lemma {:induction false} LookupIgnoresCase(fs: Graph, c: Cursor, ps: seq<seq<byte>>, qs: seq<seq<byte>>)
    requires |ps| == |qs| && forall k :: 0 <= k < |ps| ==> SameUpToCase(ps[k], qs[k])
    ensures Lookup(fs, c, ps) == Lookup(fs, c, qs)
    decreases |ps|
  {
    hide UpperAll;
    hide SameUpToCase;
    hide AddressOf;
    if ps != [] {
      CaseLength(ps[0], qs[0]);
      CaseIsUpper(ps[0], qs[0]);
      FindIgnoresCase(c.items, ps[0], qs[0]);
      var d := Descend(fs, c, ps[0]);
      assert d == Descend(fs, c, qs[0]);
      if d.Some? { LookupIgnoresCase(fs, d.value, ps[1..], qs[1..]); }
      hide Descend;
    }
  }

  lemma CaseLength(s: seq<byte>, t: seq<byte>)
    requires SameUpToCase(s, t)
    ensures |s| == |t|
  {
  }

  lemma CaseSlice(s: seq<byte>, t: seq<byte>, i: nat, j: nat)
    requires SameUpToCase(s, t) && i <= j <= |s|
    ensures |s| == |t| && SameUpToCase(s[i..j], t[i..j])
  {
    var u, v := s[i..j], t[i..j];
    forall k | 0 <= k < |u| ensures u[k] == v[k] || CasePair(u[k], v[k]) {
      assert u[k] == s[i + k] && v[k] == t[i + k];
    }
  }

  /** Slashes have no case, so both paths are cut at the same places. */
  lemma {:induction false} ComponentsIgnoreCase(p: seq<byte>, q: seq<byte>)
    requires SameUpToCase(p, q)
    ensures |Components(p)| == |Components(q)|
    ensures forall k :: 0 <= k < |Components(p)| ==> SameUpToCase(Components(p)[k], Components(q)[k])
    decreases |p|
  {
    hide *;
    var i := FirstSlash(p);
    SlashesAgree(p, q, i);
    ComponentsStep(p);
    ComponentsStep(q);
    CaseSlice(p, q, 0, i);
    assert p[0..i] == p[..i] && q[0..i] == q[..i];
    if i < |p| {
      CaseSlice(p, q, i + 1, |p|);
      assert p[i + 1..|p|] == p[i + 1..] && q[i + 1..|q|] == q[i + 1..];
      ComponentsIgnoreCase(p[i + 1..], q[i + 1..]);
    }
  }

  lemma SlashesAgree(p: seq<byte>, q: seq<byte>, i: nat)
    requires SameUpToCase(p, q) && i == FirstSlash(p)
    ensures FirstSlash(q) == i && |p| == |q| && i <= |p|
  {
    hide FirstSlash;
    assert forall k :: 0 <= k < i ==> p[..i][k] == p[k];
    FirstSlashIs(q, i);
  }

  /** Two paths that differ only in the case of ASCII letters lead to the same entry. */
  lemma PathIgnoresCase(fs: Graph, c: Cursor, p: seq<byte>, q: seq<byte>)
    requires |p| == |q|
    requires forall i :: 0 <= i < |p| ==>
               var a, b := p[i] as int, q[i] as int;
               a == b || (0x41 <= a <= 0x5A && b == a + 0x20) || (0x61 <= a <= 0x7A && b == a - 0x20)
    ensures Lookup(fs, c, Components(p)) == Lookup(fs, c, Components(q))
  {
    assert SameUpToCase(p, q);
    hide *;
    ComponentsIgnoreCase(p, q);
    LookupIgnoresCase(fs, c, Components(p), Components(q));
  }

  lemma NothingToFollow(fs: Graph, dir: nat, a: nat, i: nat)
    requires dir in fs && i <= |fs[dir]|
    ensures Lookup(fs, At(a, fs[dir][i..]), []).Some? && Follows(fs, dir, i, [])
  {
  }

  /** The source's lookup of names is plain resolution exactly when it does not go astray behind a file. */
  lemma {:induction false} LookupIsResolve(fs: Graph, dir: nat, names: seq<seq<byte>>)
    requires dir in fs && forall k :: 0 <= k < |names| ==> names[k] != []
    ensures Lookup(fs, At(dir, fs[dir]), names) == Resolve(fs, dir, names) <==> !Astray(fs, dir, names)
    ensures Astray(fs, dir, names) ==> Resolve(fs, dir, names) == None
    decreases |names|
  {
    if names != [] {
      var items := fs[dir];
      var i := Find(items, names[0]);
      LookupFirst(fs, At(dir, items), names);
      assert Lookup(fs, At(AddressOf(dir, items, i), items[i..]), []).Some?;
      hide Lookup;
      hide Find;
      hide AddressOf;
      if |names[0]| + 1 <= FILENAME_MAXLEN && i < |items| {
        if !items[i].folder {
          LookupFollows(fs, dir, AddressOf(dir, items, i), i, names[1..]);
        } else if items[i].target in fs {
          LookupIsResolve(fs, items[i].target, names[1..]);
        }
      }
    }
  }

  /** Some name before the last one resolves to a file. */
  predicate ThroughFile(fs: Graph, dir: nat, names: seq<seq<byte>>)
    requires dir in fs
    decreases |names|
  {
    |names| > 1 && |names[0]| + 1 <= FILENAME_MAXLEN &&
    var items := fs[dir];
    var i := Find(items, names[0]);
    i < |items| &&
    (!items[i].folder || (items[i].target in fs && ThroughFile(fs, items[i].target, names[1..])))
  }

  /** Plain resolution never goes through a file, and only paths through one can go astray. */
  lemma {:induction false} ThroughFileResolvesNowhere(fs: Graph, dir: nat, names: seq<seq<byte>>)
    requires dir in fs
    ensures ThroughFile(fs, dir, names) ==> Resolve(fs, dir, names) == None
    ensures Astray(fs, dir, names) ==> ThroughFile(fs, dir, names)
    decreases |names|
  {
    hide Find;
    hide AddressOf;
    if |names| > 1 {
      var items := fs[dir];
      var i := Find(items, names[0]);
      if i < |items| && items[i].folder && items[i].target in fs {
        ThroughFileResolvesNowhere(fs, items[i].target, names[1..]);
      }
    }
  }

  /** For every path: the names in front of an empty component are resolved, unless they go astray. */
  lemma PathLookup(fs: Graph, dir: nat, comps: seq<seq<byte>>)
    requires dir in fs
    ensures var names := Named(comps);
            Lookup(fs, At(dir, fs[dir]), comps) == Resolve(fs, dir, names) <==> !Astray(fs, dir, names)
  {
    LookupStopsAtEmpty(fs, At(dir, fs[dir]), comps);
    LookupIsResolve(fs, dir, Named(comps));
  }

  /** In every list: behind a file f, the path f/g leads to the next g from f itself on. */
  lemma LookupThroughFile(fs: Graph, dir: nat, f: seq<byte>, g: seq<byte>)
    requires dir in fs && f != [] && g != [] && |f| + 1 <= FILENAME_MAXLEN && |g| + 1 <= FILENAME_MAXLEN
    requires var i := Find(fs[dir], f); i < |fs[dir]| && !fs[dir][i].folder
    ensures var items := fs[dir]; var i := Find(items, f); var k := i + Find(items[i..], g);
            && Resolve(fs, dir, [f, g]) == None
            && (Astray(fs, dir, [f, g]) <==> k < |items| && (items[k].folder ==> items[k].target in fs))
            && (UpperAll(f) == UpperAll(g) ==> k == i && Astray(fs, dir, [f, g]))
  {
    var items := fs[dir];
    var i := Find(items, f);
    assert [f, g][1..] == [g] && [g][1..] == [];
    assert items[i..] != [] && items[i..][0] == items[i];
    FollowsStep(fs, dir, i, [g]);
    if UpperAll(f) == UpperAll(g) { SameNameAgain(items[i], f, g); }
  }

  lemma SameNameAgain(item: Item, f: seq<byte>, g: seq<byte>)
    requires UpperAll(f) == UpperAll(g)
    ensures SameName(item, f) == SameName(item, g)
  {
  }

  /** A folder a with a file g: a//x is reported to be g, whatever x is. */
  lemma LookupIgnoresBehindEmpty(a: seq<byte>, g: Item, x: seq<byte>)
    requires 0 < |a| && |a| + 1 <= FILENAME_MAXLEN && x != [] && !SameName(g, x)
    ensures var fs: Graph := map[HEADER_SIZE := [Item(a, true, true, 100)], 100 := [g]];
            && Lookup(fs, At(HEADER_SIZE, fs[HEADER_SIZE]), [a, [], x]) == Some(100)
            && Resolve(fs, HEADER_SIZE, [a, x]) == None
  {
    var fs: Graph := map[HEADER_SIZE := [Item(a, true, true, 100)], 100 := [g]];
    var root := At(HEADER_SIZE, fs[HEADER_SIZE]);
    assert SameName(fs[HEADER_SIZE][0], a) && Find(fs[HEADER_SIZE], a) == 0;
    assert Find([g], x) == 1;
    assert [a, [], x][1..] == [[], x] && [a, x][1..] == [x];
    assert Descend(fs, root, a) == Some(At(100, [g]));
  }

  /** An entry as it stands in the image; the size of what it names plays no part here. */
  function EntryBytes(item: Item, last: bool): (r: seq<byte>)
    requires |item.name| < 255 && item.target < 0x1_0000_0000
    ensures |r| == |item.name| + 11
  {
    var t, flags := item.target, (if item.enabled then 1 else 0) + (if item.folder then 2 else 0) + (if last then 0x40 else 0);
    [t / 0x100_0000, t / 0x1_0000 % 256, t / 0x100 % 256, t % 256, 0, 0, 0, 0, flags, |item.name| + 1] + item.name + [0]
  }

  function ListBytes(items: seq<Item>): seq<byte>
    requires forall i :: 0 <= i < |items| ==> |items[i].name| < 255 && items[i].target < 0x1_0000_0000
  {
    if items == [] then [] else EntryBytes(items[0], |items| == 1) + ListBytes(items[1..])
  }

  /** Every list of entries can be read where it is written. */
  lemma {:induction false} ListReads(before: seq<byte>, items: seq<Item>, after: seq<byte>)
    requires items != []
    requires forall i :: 0 <= i < |items| ==> |items[i].name| < 255 && items[i].target < 0x1_0000_0000
    ensures ListAt(before + ListBytes(items) + after, |before|, items)
    decreases |items|
  {
    hide *;
    var first, rest := EntryBytes(items[0], |items| == 1), ListBytes(items[1..]);
    var rom := before + ListBytes(items) + after;
    ListBytesStep(items);
    assert rom == before + first + (rest + after);
    EntryReads(before, items[0], |items| == 1, rest + after);
    if |items| > 1 {
      ListReads(before + first, items[1..], after);
      assert rom == before + first + rest + after;
    }
    ListAtStep(rom, |before|, items);
  }

  lemma ListBytesStep(items: seq<Item>)
    requires items != []
    requires forall i :: 0 <= i < |items| ==> |items[i].name| < 255 && items[i].target < 0x1_0000_0000
    ensures ListBytes(items) == EntryBytes(items[0], |items| == 1) + ListBytes(items[1..])
    ensures Size(items[0]) == |EntryBytes(items[0], |items| == 1)|
  {
    hide EntryBytes;
  }

  lemma ListAtStep(rom: seq<byte>, a: nat, items: seq<Item>)
    requires items != []
    requires var it := items[0];
             && Size(it) == |it.name| + 11 && a + Size(it) <= |rom|
             && Has(rom[a + 8], 0x01) == it.enabled && Has(rom[a + 8], 0x02) == it.folder
             && Has(rom[a + 8], 0x40) == (|items| == 1)
             && rom[a + 9] as int == |it.name| + 1 && rom[a + 10..a + 10 + |it.name|] == it.name
             && Be32(rom[a..a + 4]) == it.target
    requires |items| > 1 ==> ListAt(rom, a + Size(items[0]), items[1..])
    ensures ListAt(rom, a, items)
  {
    hide Has;
    hide Be32;
  }

  lemma EntryReads(before: seq<byte>, it: Item, last: bool, after: seq<byte>)
    requires |it.name| < 255 && it.target < 0x1_0000_0000
    ensures var rom, a := before + EntryBytes(it, last) + after, |before|;
            && Size(it) == |it.name| + 11 && a + Size(it) <= |rom|
            && Has(rom[a + 8], 0x01) == it.enabled && Has(rom[a + 8], 0x02) == it.folder && Has(rom[a + 8], 0x40) == last
            && rom[a + 9] as int == |it.name| + 1 && rom[a + 10..a + 10 + |it.name|] == it.name
            && Be32(rom[a..a + 4]) == it.target
  {
    var t, e := it.target, EntryBytes(it, last);
    var rom, a := before + e + after, |before|;
    Be32Digits(t);
    assert rom[a..a + |e|] == e;
    assert rom[a..a + 4] == e[..4] == Be32Bytes(t);
    assert rom[a + 10..a + 10 + |it.name|] == e[10..10 + |it.name|] == it.name;
    assert rom[a + 8] == e[8] && rom[a + 9] == e[9];
  }

  /** _romfs_compare_filename: the stored name against an upper-case one. */
  method CompareFilename(filename: seq<byte>, rom: seq<byte>, at: nat) returns (same: bool)
    requires at + |filename| <= |rom|
    ensures same <==> filename == UpperAll(rom[at..at + |filename|])
  {
    var i := 0;
    while i < |filename|
      invariant 0 <= i <= |filename|
      invariant filename[..i] == UpperAll(rom[at..at + |filename|])[..i]
    {
      if filename[i] != Upper(rom[at + i]) {
        assert filename[i] != UpperAll(rom[at..at + |filename|])[i];
        return false;
      }
      i := i + 1;
    }
    return true;
  }

  /** The fields of a list's first entry. */
  lemma FirstItem(rom: seq<byte>, a: nat, items: seq<Item>)
    requires ListAt(rom, a, items)
    ensures items != [] && a + Size(items[0]) <= |rom|
    ensures var it := items[0];
            && Has(rom[a + 8], FLAG_ENABLED) == it.enabled && rom[a + 9] as int == |it.name| + 1
            && Has(rom[a + 8], FLAG_LASTENTRY) == (|items| == 1)
            && rom[a + 10..a + 10 + |it.name|] == it.name
  {
  }

  lemma FindFirst(a: nat, items: seq<Item>, name: seq<byte>)
    requires items != [] && SameName(items[0], name)
    ensures Find(items, name) == 0 && AddressOf(a, items, 0) == a
  {
    hide SameName;
  }

  /** An entry of another name can be skipped. */
  lemma SkipItem(rom: seq<byte>, a: nat, items: seq<Item>, name: seq<byte>)
    requires ListAt(rom, a, items) && items != [] && !SameName(items[0], name)
    ensures |items| == 1 ==> Find(items, name) == 1
    ensures |items| > 1 ==>
              var next, rest := a + Size(items[0]), items[1..];
              && ListAt(rom, next, rest) && Find(items, name) == 1 + Find(rest, name)
              && AddressOf(a, items, Find(items, name)) == AddressOf(next, rest, Find(rest, name))
  {
    hide SameName;
  }

  /** The search through one list: the address of the first match and its index. */
  method SearchList(rom: seq<byte>, ghost c: Cursor, e0: nat, name: seq<byte>) returns (found: bool, e: nat)
    requires ListAt(rom, c.a, c.items) && e0 == c.a
    ensures found == (Find(c.items, name) < |c.items|)
    ensures found ==> e == AddressOf(c.a, c.items, Find(c.items, name))
  {
    hide ListAt;
    hide Find;
    hide Has;
    hide AddressOf;
    var filename := UpperAll(name);
    e := e0;
    ghost var items := c.items;
    while true
      invariant ListAt(rom, e, items)
      invariant (Find(items, name) < |items|) == (Find(c.items, name) < |c.items|)
      invariant Find(items, name) < |items| ==>
                  AddressOf(e, items, Find(items, name)) == AddressOf(c.a, c.items, Find(c.items, name))
      decreases |items|
    {
      FirstItem(rom, e, items);
      if Has(rom[e + 8], FLAG_ENABLED) && rom[e + 9] as int == |name| + 1 {
        var same := CompareFilename(filename, rom, e + ENTRY_SIZE);
        if same {
          FindFirst(e, items, name);
          return true, e;
        }
      }
      SkipItem(rom, e, items, name);
      if Has(rom[e + 8], FLAG_LASTENTRY) { return false, e; }
      e := e + ENTRY_SIZE + rom[e + 9] as int;
      items := items[1..];
    }
  }

  lemma RootValid(rom: seq<byte>, fs: Graph)
    requires Image(rom, fs)
    ensures HEADER_SIZE in fs && ValidCursor(rom, fs, At(HEADER_SIZE, fs[HEADER_SIZE]))
  {
  }

  predicate HeaderOk(rom: seq<byte>)
    requires |rom| >= HEADER_SIZE
  {
    rom[..8] == [0x52, 0x6F, 0x6D, 0x46, 0x73, 0x31, 0xCA, 0xFE] && Be32(rom[8..12]) >= HEADER_SIZE
  }

  /** One name of the path: the entry it leads to, None when it is too long or not there. */
  method Enter(rom: seq<byte>, ghost fs: Graph, ghost c: Cursor, e: nat, name: seq<byte>)
    returns (r: Option<nat>, ghost d: Cursor)
    requires Image(rom, fs) && ValidCursor(rom, fs, c) && e == c.a
    ensures r.None? <==> Descend(fs, c, name).None?
    ensures r.Some? ==> Descend(fs, c, name) == Some(d) && d.a == r.value && ValidCursor(rom, fs, d)
  {
    d := c;
    if |name| + 1 > FILENAME_MAXLEN { return None, d; }
    ghost var i := Find(c.items, name);
    var found, at := SearchList(rom, c, e, name);
    if !found { return None, d; }
    ListSuffix(rom, c.a, c.items, i);
    ghost var rest := c.items[i..];
    assert rest[0] == c.items[i];
    if Has(rom[at + 8], FLAG_FOLDER) {
      at := Be32(rom[at..at + 4]);
      d := At(at, fs[at]);
    } else {
      d := At(at, rest);
      forall k | 0 <= k < |rest| && rest[k].folder ensures rest[k].target in fs {
        assert rest[k] == c.items[i + k];
      }
    }
    r := Some(at);
  }

  /** romfs_get_first_entry; a path is a C string, so it holds no null. */
  method GetFirstEntry(rom: seq<byte>, path: seq<byte>, ghost fs: Graph) returns (r: Option<nat>)
    requires |rom| >= HEADER_SIZE
    requires HeaderOk(rom) ==> Image(rom, fs)
    ensures !HeaderOk(rom) ==> r == None
    ensures HeaderOk(rom) ==>
              r == Lookup(fs, At(24, fs[24]), Components(if path != [] && path[0] == 0x2F then path[1..] else path))
  {
    hide Components;
    hide FirstSlash;
    hide Lookup;
    hide Descend;
    hide ValidCursor;
    hide Image;
    if !HeaderOk(rom) { return None; }
    var e := HEADER_SIZE;
    var i: nat := if path != [] && path[0] == SLASH then 1 else 0;
    var j: nat := i;
    RootValid(rom, fs);
    ghost var c := At(e, fs[e]);
    ghost var goal := Lookup(fs, c, Components(path[i..]));
    assert path[0..] == path;
    while true
      invariant j <= i <= |path| && SLASH !in path[j..i]
      invariant ValidCursor(rom, fs, c) && e == c.a
      invariant Lookup(fs, c, Components(path[j..])) == goal
      decreases |path| - i
    {
      if i == |path| || path[i] == SLASH {
        ComponentsAt(path, j, i);
        ghost var comps, d := Components(path[j..]), c;
        LookupFirst(fs, c, comps);
        if i == j { return Some(e); }
        assert comps[0] == path[j..i];
        r, d := Enter(rom, fs, c, e, path[j..i]);
        if r == None { return; }
        e, c := r.value, d;
        if i == |path| {
          LookupFirst(fs, c, []);
          return Some(e);
        }
        j := i + 1;
        assert comps[1..] == Components(path[j..]);
      } else {
        assert path[j..i + 1] == path[j..i] + [path[i]];
      }
      i := i + 1;
    }
  }

  /** Addresses of the enabled entries behind the first one, in order. */
  function LaterEnabled(a: nat, items: seq<Item>): seq<nat>
    decreases |items|
  {
    if |items| <= 1 then []
    else
      var next := a + Size(items[0]);
      (if items[1].enabled then [next] else []) + LaterEnabled(next, items[1..])
  }

  /** Each entry takes eleven bytes and its name. */
  lemma {:induction false} AddressStep(a: nat, items: seq<Item>, k: nat)
    requires k < |items|
    ensures AddressOf(a, items, 0) == a
    ensures AddressOf(a, items, k + 1) == AddressOf(a, items, k) + |items[k].name| + 11
    decreases k
  {
    if k > 0 { AddressStep(a + Size(items[0]), items[1..], k - 1); }
  }

  lemma {:induction false} LaterAscend(a: nat, items: seq<Item>)
    ensures forall i :: 0 <= i < |LaterEnabled(a, items)| ==> LaterEnabled(a, items)[i] > a
    ensures forall i, j :: 0 <= i < j < |LaterEnabled(a, items)| ==> LaterEnabled(a, items)[i] < LaterEnabled(a, items)[j]
    decreases |items|
  {
    hide *;
    LaterStep(a, items);
    if |items| > 1 {
      var next := a + Size(items[0]);
      LaterAscend(next, items[1..]);
      Ascend(a, next, LaterEnabled(next, items[1..]));
    }
  }

  lemma LaterStep(a: nat, items: seq<Item>)
    ensures |items| <= 1 ==> LaterEnabled(a, items) == []
    ensures |items| > 1 ==>
              var next := a + Size(items[0]);
              a < next && LaterEnabled(a, items) == (if items[1].enabled then [next] else []) + LaterEnabled(next, items[1..])
  {
  }

  lemma Ascend(a: nat, next: nat, more: seq<nat>)
    requires a < next && forall i :: 0 <= i < |more| ==> more[i] > next
    requires forall i, j :: 0 <= i < j < |more| ==> more[i] < more[j]
    ensures forall i :: 0 <= i < |more| ==> more[i] > a
    ensures forall i :: 0 <= i <= |more| ==> ([next] + more)[i] > a
    ensures forall i, j :: 0 <= i < j <= |more| ==> ([next] + more)[i] < ([next] + more)[j]
    ensures [] + more == more
  {
  }

  /** x is the address of an enabled item behind the first one. */
  ghost predicate IsLater(a: nat, items: seq<Item>, x: nat) {
    exists k :: 1 <= k < |items| && items[k].enabled && x == AddressOf(a, items, k)
  }

  lemma IsLaterStep(a: nat, items: seq<Item>, x: nat)
    requires |items| > 1
    ensures var next := a + Size(items[0]);
            IsLater(a, items, x) <==> (items[1].enabled && x == next) || IsLater(next, items[1..], x)
  {
    var next, rest := a + Size(items[0]), items[1..];
    assert AddressOf(a, items, 1) == next;
    if IsLater(a, items, x) {
      var k :| 1 <= k < |items| && items[k].enabled && x == AddressOf(a, items, k);
      assert k > 1 ==> rest[k - 1].enabled && x == AddressOf(next, rest, k - 1);
    }
    if IsLater(next, rest, x) {
      var k :| 1 <= k < |rest| && rest[k].enabled && x == AddressOf(next, rest, k);
      assert items[k + 1].enabled && x == AddressOf(a, items, k + 1);
    }
  }

  lemma {:induction false} LaterMembers(a: nat, items: seq<Item>, x: nat)
    ensures x in LaterEnabled(a, items) <==> IsLater(a, items, x)
    decreases |items|
  {
    if |items| > 1 {
      IsLaterStep(a, items, x);
      LaterMembers(a + Size(items[0]), items[1..], x);
      hide IsLater;
    }
  }

  /** They are the addresses of the enabled items behind the first one, each once, in ascending order. */
  lemma LaterEnabledIs(a: nat, items: seq<Item>)
    ensures forall x: nat :: x in LaterEnabled(a, items) <==>
              exists k :: 1 <= k < |items| && items[k].enabled && x == AddressOf(a, items, k)
    ensures forall i, j :: 0 <= i < j < |LaterEnabled(a, items)| ==> LaterEnabled(a, items)[i] < LaterEnabled(a, items)[j]
  {
    hide LaterEnabled;
    hide AddressOf;
    LaterAscend(a, items);
    forall x: nat ensures x in LaterEnabled(a, items) <==> IsLater(a, items, x) {
      LaterMembers(a, items, x);
    }
  }

  /** romfs_get_next_entry: the first later enabled entry; what follows it is the rest of them. */
  method GetNextEntry(rom: seq<byte>, entry: nat, ghost c: Cursor) returns (r: Option<nat>, ghost d: Cursor)
    requires ListAt(rom, c.a, c.items) && entry == c.a
    ensures LaterEnabled(c.a, c.items) == [] ==> r == None
    ensures LaterEnabled(c.a, c.items) != [] ==> r == Some(LaterEnabled(c.a, c.items)[0])
    ensures r.Some? ==> d.a == r.value && ListAt(rom, d.a, d.items) && |d.items| < |c.items|
                        && LaterEnabled(d.a, d.items) == LaterEnabled(c.a, c.items)[1..]
  {
    hide Has;
    hide Be32;
    d := c;
    var e := entry;
    if Has(rom[e + 8], FLAG_LASTENTRY) { return None, d; }
    while true
      invariant ListAt(rom, d.a, d.items) && e == d.a && 1 < |d.items| <= |c.items|
      invariant LaterEnabled(d.a, d.items) == LaterEnabled(c.a, c.items)
      decreases |d.items|
    {
      e := e + ENTRY_SIZE + rom[e + 9] as int;
      d := At(e, d.items[1..]);
      if Has(rom[e + 8], FLAG_LASTENTRY) && !Has(rom[e + 8], FLAG_ENABLED) { return None, d; }
      if Has(rom[e + 8], FLAG_ENABLED) { return Some(e), d; }
    }
  }

  /** Asking for the next entry until there is none: all later enabled entries, in order, once each. */
  method Enumerate(rom: seq<byte>, entry: nat, ghost c: Cursor) returns (found: seq<nat>)
    requires ListAt(rom, c.a, c.items) && entry == c.a
    ensures found == LaterEnabled(c.a, c.items)
  {
    found := [];
    var at := entry;
    ghost var d := c;
    while true
      invariant ListAt(rom, d.a, d.items) && at == d.a
      invariant found + LaterEnabled(d.a, d.items) == LaterEnabled(c.a, c.items)
      decreases |d.items|
    {
      hide LaterEnabled;
      ghost var later := LaterEnabled(d.a, d.items);
      var r;
      r, d := GetNextEntry(rom, at, d);
      if r == None { return; }
      assert later == [r.value] + later[1..];
      found, at := found + [r.value], r.value;
    }
  }
}
