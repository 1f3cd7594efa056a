/**
 Bidirectional synchronisation of a local folder and a folder on the card (mode 3 of
 DoSdSync): both trees are listed, then every path is visited in the order of the names.
 */
module SdSync {
  import opened Bytes
  import opened Options

  type Path = string

  datatype Node = Dir | File(data: seq<byte>)

  /** A side's entries by their path; the empty path is its base folder. */
  type Tree = map<Path, Node>

  const UINT32 := 0x1_0000_0000

  /** Largest file that a transfer's 32-bit size can announce. */
  const MAX_FILE := 0xFFFF_FFFF

  /** std::string's order. */
  predicate Less(a: Path, b: Path) {
    b != "" && (a == "" || a[0] < b[0] || (a[0] == b[0] && Less(a[1..], b[1..])))
  }

  lemma {:induction false} LessTotal(a: Path, b: Path)
    ensures Less(a, b) || a == b || Less(b, a)
    decreases |a|
  {
    if a != "" && b != "" && a[0] == b[0] {
      LessTotal(a[1..], b[1..]);
      assert a == [a[0]] + a[1..] && b == [b[0]] + b[1..];
    }
  }

  lemma {:induction false} LessTransitive(a: Path, b: Path, c: Path)
    requires Less(a, b) && Less(b, c)
    ensures Less(a, c)
    decreases |a|
  {
    if a != "" && a[0] == b[0] == c[0] { LessTransitive(a[1..], b[1..], c[1..]); }
  }

  lemma {:induction false} LessIrreflexive(a: Path)
    ensures !Less(a, a)
    decreases |a|
  {
    if a != "" { LessIrreflexive(a[1..]); }
  }

  /** A proper prefix comes first. */
  lemma {:induction false} PrefixLess(a: Path, b: Path)
    requires a < b
    ensures Less(a, b)
    decreases |a|
  {
    if a != "" {
      assert a[0] == b[0];
      PrefixLess(a[1..], b[1..]);
    }
  }

  ghost predicate Ascending(s: seq<Path>) {
    forall i, j :: 0 <= i < j < |s| ==> Less(s[i], s[j])
  }

  /** std::set::insert: into its place, unless it is there. */
  method Insert(s: seq<Path>, p: Path) returns (r: seq<Path>)
    requires Ascending(s)
    ensures Ascending(r)
    ensures forall q :: q in r <==> q in s || q == p
  {
    var i := 0;
    while i < |s| && Less(s[i], p)
      invariant 0 <= i <= |s| && forall k :: 0 <= k < i ==> Less(s[k], p)
    {
      i := i + 1;
    }
    if i < |s| && s[i] == p { return s; }
    r := s[..i] + [p] + s[i..];
    if i < |s| {
      LessTotal(s[i], p);
      forall k | i <= k < |s| ensures Less(p, s[k]) {
        if k > i { LessTransitive(p, s[i], s[k]); }
      }
    }
    assert s == s[..i] + s[i..];
  }

  /** The sorted set of both listings. */
  method AllPaths(localItems: seq<Path>, cardItems: seq<Path>) returns (order: seq<Path>)
    ensures Ascending(order) && forall p :: p in order <==> p in localItems || p in cardItems
  {
    order := [];
    for i := 0 to |localItems|
      invariant Ascending(order) && forall p :: p in order <==> p in localItems[..i]
    {
      order := Insert(order, localItems[i]);
    }
    for i := 0 to |cardItems|
      invariant Ascending(order) && forall p :: p in order <==> p in localItems || p in cardItems[..i]
    {
      order := Insert(order, cardItems[i]);
    }
  }

  /** The folder a path is in; empty for the top. */
  function Parent(p: Path): (r: Path)
    ensures p != "" ==> r < p
  {
    if p == "" then "" else if p[|p| - 1] == '/' then p[..|p| - 1] else CutName(p[..|p| - 1])
  }

  /** Drops characters up to and including the last slash. */
  function CutName(p: Path): (r: Path)
    ensures r <= p
  {
    if p == "" then "" else if p[|p| - 1] == '/' then p[..|p| - 1] else CutName(p[..|p| - 1])
  }

  /** A path is its folder, a slash and a name; or only a name, or a slash and a name, in the top. */
  lemma ParentIs(p: Path)
    requires p != ""
    ensures var q := Parent(p);
            exists name :: '/' !in name && (p == q + "/" + name || (q == "" && p == name))
  {
    if p[|p| - 1] == '/' {
      assert p == Parent(p) + "/" + "";
    } else {
      var name := CutNameIs(p[..|p| - 1]);
      var rest := name + [p[|p| - 1]];
      assert p == p[..|p| - 1] + [p[|p| - 1]];
      assert '/' !in rest && (p == Parent(p) + "/" + rest || (Parent(p) == "" && p == rest));
    }
  }

  lemma {:induction false} CutNameIs(p: Path) returns (name: string)
    ensures '/' !in name && (p == CutName(p) + "/" + name || (CutName(p) == "" && p == name))
  {
    if p == "" {
      name := "";
    } else if p[|p| - 1] == '/' {
      name := "";
      assert p == CutName(p) + "/" + "";
    } else {
      name := CutNameIs(p[..|p| - 1]);
      name := name + [p[|p| - 1]];
      assert p == p[..|p| - 1] + [p[|p| - 1]];
    }
  }

  ghost predicate HasParent(t: Tree, p: Path) {
    Parent(p) in t && t[Parent(p)] == Dir
  }

  /** Every entry is in a folder that exists. */
  ghost predicate Wellformed(t: Tree) {
    forall p :: p in t ==> if p == "" then t[p] == Dir else HasParent(t, p)
  }

  /** The tree once its base folder is there. */
  function WithBase(t: Tree): Tree { t["" := Dir] }

  function Get(t: Tree, p: Path): Option<Node> { if p in t then Some(t[p]) else None }

  /** A side of the synchronisation. An operation fails on trouble, or when there is no place for the entry. */
  class Store {
    var tree: Tree
    ghost var trouble: bool

    constructor (t: Tree)
      ensures tree == t && !trouble
    {
      tree, trouble := t, false;
    }

    /** Makes the base folder unless it is there; the source ignores whether it worked. */
    method MakeBase()
      modifies this
      ensures old(trouble) ==> trouble
      ensures !trouble ==> tree == WithBase(old(tree))
    {
      var works: bool := *;
      if works { tree := tree["" := Dir]; } else { trouble := true; }
    }

    /** Makes a folder; the source ignores whether it worked. */
    method MakeDir(p: Path)
      modifies this
      ensures old(trouble) ==> trouble
      ensures !trouble ==> tree == if p !in old(tree) && HasParent(old(tree), p) then old(tree)[p := Dir] else old(tree)
    {
      var works: bool := *;
      if !works {
        trouble := true;
      } else if p !in tree && Parent(p) in tree && tree[Parent(p)] == Dir {
        tree := tree[p := Dir];
      }
    }

    /** Transfers a file to this side; its size has to fit the protocol's field. */
    method Put(p: Path, data: seq<byte>) returns (ok: bool)
      modifies this
      ensures old(trouble) ==> trouble
      ensures !trouble ==> ok == (|data| <= MAX_FILE && HasParent(old(tree), p) && Get(old(tree), p) != Some(Dir))
      ensures !trouble ==> tree == if ok then old(tree)[p := File(data)] else old(tree)
    {
      ok := *;
      if !ok {
        trouble := true;
        return;
      }
      ok := |data| <= MAX_FILE && Parent(p) in tree && tree[Parent(p)] == Dir && !(p in tree && tree[p] == Dir);
      if ok { tree := tree[p := File(data)]; }
    }

    /** The recursive listing: every path below the base folder, in no particular order. */
    method List() returns (l: seq<Path>)
      ensures forall p :: p in l <==> p in tree && p != ""
    {
      l := [];
      var left := tree.Keys - {""};
      while left != {}
        invariant left <= tree.Keys - {""}
        invariant forall p :: p in l <==> p in tree.Keys - {""} - left
        decreases |left|
      {
        var p :| p in left;
        l := l + [p];
        left := left - {p};
      }
    }
  }

  /** The comparison of the source, on sizes cast to 32 bits. */
  predicate SizesDiffer(a: Node, b: Node) { a.File? && b.File? && |a.data| % 0x1_0000_0000 != |b.data| % 0x1_0000_0000 }

  /**
   What a synchronisation cannot help: a folder facing a file, files of different sizes that
   agree in 32 bits, and a file to transfer that is too large for the protocol.
   */
  predicate Stuck(a: Tree, b: Tree, p: Path) {
    p != "" &&
    if p in a && p in b then
      || a[p].Dir? != b[p].Dir?
      || (a[p].File? && b[p].File? && |a[p].data| != |b[p].data|
          && (!SizesDiffer(a[p], b[p]) || |a[p].data| > 0xFFFF_FFFF))
    else if p in a then a[p].File? && |a[p].data| > 0xFFFF_FFFF
    else p in b && b[p].File? && |b[p].data| > 0xFFFF_FFFF
  }

  /** The path or a folder above it is stuck. */
  predicate Blocked(a: Tree, b: Tree, p: Path)
    decreases |p|
  {
    Stuck(a, b, p) || (p != "" && Blocked(a, b, Parent(p)))
  }

  /** Of the paths that the slashes of p cut off, or p itself, one is stuck. */
  lemma {:induction false} BlockedIs(a: Tree, b: Tree, p: Path)
    ensures Blocked(a, b, p) <==>
            exists k :: 0 <= k <= |p| && (k == |p| || p[k] == '/') && Stuck(a, b, p[..k])
    decreases |p|
  {
    assert p[..|p|] == p;
    BlockedStep(a, b, p);
    hide Blocked;
    hide Stuck;
    if p != "" {
      var q := Parent(p);
      BlockedIs(a, b, q);
      ParentCut(p);
      hide Parent;
      forall k | 0 <= k < |p| && p[k] == '/' ensures k <= |q| && p[..k] == q[..k] && (k < |q| ==> q[k] == '/') {
      }
      forall k | 0 <= k <= |q| ensures p[..k] == q[..k] {
      }
    }
  }

  /** The folder of p is cut off by the last slash; the top when there is none. */
  lemma ParentCut(p: Path)
    requires p != ""
    ensures var q := Parent(p);
            && q == p[..|q|] && (q == "" || p[|q|] == '/') && forall k :: |q| < k < |p| ==> p[k] != '/'
    ensures Parent(p) == "" ==> forall k :: 0 < k < |p| ==> p[k] != '/'
  {
    CutNameCut(p[..|p| - 1]);
  }

  lemma {:induction false} CutNameCut(p: Path)
    ensures var q := CutName(p);
            |q| <= |p| && q == p[..|q|] && (q == "" || (|q| < |p| && p[|q|] == '/')) && forall k :: |q| < k < |p| ==> p[k] != '/'
    decreases |p|
  {
    if p != "" && p[|p| - 1] != '/' { CutNameCut(p[..|p| - 1]); }
  }

  ghost predicate NoneStuck(a: Tree, b: Tree) {
    forall p :: !Stuck(a, b, p)
  }

  /** Paths that are stuck are left as they are. */
  ghost predicate StuckKept(local0: Tree, card0: Tree, local: Tree, card: Tree) {
    forall p :: Stuck(local0, card0, p) ==> Get(local, p) == Get(local0, p) && Get(card, p) == Get(card0, p)
  }

  /** What the local side should hold in the end. */
  function LocalGoal(local: Tree, card: Tree, p: Path): Option<Node> {
    if p in local || Blocked(local, card, p) then Get(local, p) else Get(card, p)
  }

  /** What the card should hold: the local file wins when the sizes differ. */
  function CardGoal(local: Tree, card: Tree, p: Path): Option<Node> {
    if p in local && (p !in card || SizesDiffer(local[p], card[p])) && !Blocked(local, card, p)
    then Some(local[p]) else Get(card, p)
  }

  /** The visited paths are as they should be, the others as they were. */
  ghost predicate Reached(local0: Tree, card0: Tree, local: Tree, card: Tree, done: seq<Path>) {
    forall p: Path ::
      && Get(local, p) == (if p in done then LocalGoal(local0, card0, p) else Get(local0, p))
      && Get(card, p) == (if p in done then CardGoal(local0, card0, p) else Get(card0, p))
  }

  /** Both base folders are there, and every entry is in a folder. */
  ghost predicate Ready(local0: Tree, card0: Tree) {
    Wellformed(local0) && Wellformed(card0) && "" in local0 && "" in card0
  }

  /** The folder of an entry is on one of the sides, and on both when it is the base. */
  lemma ParentKnown(local0: Tree, card0: Tree, p: Path)
    requires Ready(local0, card0) && p != "" && (p in local0 || p in card0)
    ensures var q := Parent(p);
            && (p in local0 ==> Get(local0, q) == Some(Dir)) && (p in card0 ==> Get(card0, q) == Some(Dir))
            && (q == "" ==> Get(local0, q) == Get(card0, q) == Some(Dir))
  {
    hide Parent;
    if p in local0 { assert HasParent(local0, p); }
    if p in card0 { assert HasParent(card0, p); }
  }

  lemma BlockedStep(a: Tree, b: Tree, p: Path)
    ensures Blocked(a, b, p) <==> Stuck(a, b, p) || (p != "" && Blocked(a, b, Parent(p)))
    ensures !Stuck(a, b, "")
  {
    hide Parent;
  }

  /** What is above a blocked path is not a folder on both sides. */
  lemma {:induction false} BlockedApart(local0: Tree, card0: Tree, q: Path)
    requires Ready(local0, card0) && Blocked(local0, card0, q)
    ensures !(Get(local0, q) == Some(Dir) && Get(card0, q) == Some(Dir))
    decreases |q|
  {
    hide Parent;
    if !Stuck(local0, card0, q) {
      BlockedApart(local0, card0, Parent(q));
      if q in local0 || q in card0 { ParentKnown(local0, card0, q); }
    }
    hide Blocked;
  }

  /** A folder that is not blocked is to be a folder on both sides. */
  lemma FolderGoal(local0: Tree, card0: Tree, q: Path)
    requires Get(local0, q) == Some(Dir) || Get(card0, q) == Some(Dir)
    requires !Blocked(local0, card0, q) && (q == "" ==> Get(local0, q) == Get(card0, q) == Some(Dir))
    ensures LocalGoal(local0, card0, q) == CardGoal(local0, card0, q) == Some(Dir)
    ensures q in local0 || q in card0
  {
    BlockedStep(local0, card0, q);
    hide Blocked;
  }

  /** A blocked path stays as it is. */
  lemma BlockedGoal(local0: Tree, card0: Tree, q: Path)
    requires Blocked(local0, card0, q)
    ensures LocalGoal(local0, card0, q) == Get(local0, q) && CardGoal(local0, card0, q) == Get(card0, q)
  {
    hide Blocked;
  }

  lemma ReachedAt(local0: Tree, card0: Tree, local: Tree, card: Tree, done: seq<Path>, p: Path)
    requires Reached(local0, card0, local, card, done)
    ensures Get(local, p) == if p in done then LocalGoal(local0, card0, p) else Get(local0, p)
    ensures Get(card, p) == if p in done then CardGoal(local0, card0, p) else Get(card0, p)
  {
    hide LocalGoal;
    hide CardGoal;
    hide Get;
  }

  lemma HasParentForm(t: Tree, p: Path)
    ensures HasParent(t, p) <==> Get(t, Parent(p)) == Some(Dir)
  {
    hide Parent;
  }

  /** A smaller path of an ascending order was visited before. */
  lemma SmallerIsBefore(order: seq<Path>, i: nat, q: Path)
    requires Ascending(order) && i < |order| && q in order && Less(q, order[i])
    ensures q in order[..i]
  {
    var j :| 0 <= j < |order| && order[j] == q;
    if j > i { LessTransitive(q, order[i], q); }
    LessIrreflexive(q);
    assert order[..i][j] == q;
  }

  /** Parents were visited before their children. */
  lemma ParentReady(local0: Tree, card0: Tree, local: Tree, card: Tree, order: seq<Path>, i: nat)
    requires Ready(local0, card0) && i < |order| && !Blocked(local0, card0, order[i])
    requires Ascending(order) && forall p :: p in order <==> p != "" && (p in local0 || p in card0)
    requires Reached(local0, card0, local, card, order[..i])
    ensures HasParent(local, order[i]) && HasParent(card, order[i])
  {
    hide *;
    var p := order[i];
    var q := Parent(p);
    assert p in order;
    ParentKnown(local0, card0, p);
    BlockedStep(local0, card0, p);
    FolderGoal(local0, card0, q);
    if q != "" {
      PrefixLess(q, p);
      assert q in order;
      SmallerIsBefore(order, i, q);
    }
    ReachedAt(local0, card0, local, card, order[..i], q);
    HasParentForm(local, p);
    HasParentForm(card, p);
  }

  /** Nothing can be done for a path that is stuck, or whose folder is missing where it is missing itself. */
  ghost predicate CutOff(local0: Tree, card0: Tree, local: Tree, card: Tree, p: Path) {
    || Stuck(local0, card0, p)
    || (p !in card0 && !HasParent(card, p))
    || (p !in local0 && !HasParent(local, p))
  }

  /** Below a stuck folder nothing can be done. */
  lemma BlockedIsCutOff(local0: Tree, card0: Tree, local: Tree, card: Tree, done: seq<Path>, p: Path)
    requires Ready(local0, card0) && p != "" && (p in local0 || p in card0) && Blocked(local0, card0, p)
    requires Reached(local0, card0, local, card, done)
    ensures CutOff(local0, card0, local, card, p)
  {
    hide *;
    BlockedStep(local0, card0, p);
    CutOffForm(local0, card0, local, card, p);
    if !Stuck(local0, card0, p) {
      var q := Parent(p);
      ParentKnown(local0, card0, p);
      BlockedApart(local0, card0, q);
      BlockedGoal(local0, card0, q);
      ReachedAt(local0, card0, local, card, done, q);
    }
  }

  lemma CutOffForm(local0: Tree, card0: Tree, local: Tree, card: Tree, p: Path)
    ensures CutOff(local0, card0, local, card, p) <==>
            || Stuck(local0, card0, p)
            || (p !in card0 && Get(card, Parent(p)) != Some(Dir)) || (p !in local0 && Get(local, Parent(p)) != Some(Dir))
  {
    hide Parent;
    hide Stuck;
  }

  /** The work on one path: both sides hold what they should there, and nothing else changed. */
  ghost predicate PathDone(local0: Tree, card0: Tree, local: Tree, card: Tree, local': Tree, card': Tree, p: Path) {
    && Get(local', p) == LocalGoal(local0, card0, p) && Get(card', p) == CardGoal(local0, card0, p)
    && forall q :: q != p ==> Get(local', q) == Get(local, q) && Get(card', q) == Get(card, q)
  }

  /** One visited path more. */
  lemma ReachedOneMore(local0: Tree, card0: Tree, local: Tree, card: Tree, local': Tree, card': Tree,
                       order: seq<Path>, i: nat)
    requires i < |order| && Reached(local0, card0, local, card, order[..i])
    requires PathDone(local0, card0, local, card, local', card', order[i])
    ensures Reached(local0, card0, local', card', order[..i + 1])
  {
    assert order[..i + 1] == order[..i] + [order[i]];
  }

  /** Entries stay, and stay folders or files. */
  ghost predicate KindsKept(was: Tree, now: Tree) {
    forall q :: q in was ==> q in now && now[q].Dir? == was[q].Dir?
  }

  /** Sides that agree have nothing stuck. */
  lemma StuckStays(local0: Tree, card0: Tree, local: Tree, card: Tree)
    requires StuckKept(local0, card0, local, card) && !NoneStuck(local0, card0)
    ensures !NoneStuck(local, card) && !Converged(local, card)
  {
    var p :| Stuck(local0, card0, p);
    assert Get(local, p) == Get(local0, p) && Get(card, p) == Get(card0, p);
    assert Stuck(local, card, p);
    assert Converged(local, card) ==> (p in local <==> p in card.Keys);
  }

  lemma KindsKeptTwice(a: Tree, b: Tree, c: Tree)
    requires KindsKept(a, b) && KindsKept(b, c)
    ensures KindsKept(a, c)
  {
  }

  /** No path needs anything. */
  ghost predicate Settled(local: Tree, card: Tree) {
    forall p :: !Works(local, card, p)
  }

  lemma NoWork(local: Tree, card: Tree, p: Path)
    requires Settled(local, card)
    ensures !Works(local, card, p)
  {
  }

  /** Both sides hold what they should. */
  ghost predicate GoalsReached(local0: Tree, card0: Tree, local: Tree, card: Tree) {
    forall p :: Get(local, p) == LocalGoal(local0, card0, p) && Get(card, p) == CardGoal(local0, card0, p)
  }

  /**
   A synchronised pair, on the trees themselves: local entries stay; what only one side had is
   on both, unless it is blocked; of two files of different sizes the card holds the local one.
   */
  ghost predicate Synced(local0: Tree, card0: Tree, local: Tree, card: Tree) {
    forall p :: SyncedAt(local0, card0, local, card, p)
  }

  ghost predicate SyncedAt(local0: Tree, card0: Tree, local: Tree, card: Tree, p: Path) {
    && (p in local0 ==> p in local && local[p] == local0[p])
    && (p !in local0 && p in card0 ==> p in card && card[p] == card0[p])
    && (p !in local0 && p in card0 && !Blocked(local0, card0, p) ==> p in local && local[p] == card0[p])
    && (p !in local0 && p in card0 && Blocked(local0, card0, p) ==> p !in local)
    && (p in local0 && p !in card0 && !Blocked(local0, card0, p) ==> p in card && card[p] == local0[p])
    && (p in local0 && p !in card0 && Blocked(local0, card0, p) ==> p !in card)
    && (p in local0 && p in card0 ==>
          var differ := local0[p].File? && card0[p].File? && |local0[p].data| != |card0[p].data|;
          p in card && card[p] == if differ && !Blocked(local0, card0, p) then local0[p] else card0[p])
    && (p !in local0 && p !in card0 ==> p !in local && p !in card)
  }

  lemma GoalMeans(local0: Tree, card0: Tree, local: Tree, card: Tree, p: Path)
    requires Ready(local0, card0)
    ensures Get(local, p) == LocalGoal(local0, card0, p) && Get(card, p) == CardGoal(local0, card0, p)
            <==> SyncedAt(local0, card0, local, card, p)
  {
    BlockedStep(local0, card0, p);
    hide Blocked;
    hide Parent;
  }

  /** The goal trees are the synchronised pair, and no other pair is one. */
  lemma GoalsMean(local0: Tree, card0: Tree, local: Tree, card: Tree)
    requires Ready(local0, card0)
    ensures GoalsReached(local0, card0, local, card) <==> Synced(local0, card0, local, card)
  {
    forall p
      ensures Get(local, p) == LocalGoal(local0, card0, p) && Get(card, p) == CardGoal(local0, card0, p)
              <==> SyncedAt(local0, card0, local, card, p)
    {
      GoalMeans(local0, card0, local, card, p);
    }
    hide Get;
    hide LocalGoal;
    hide CardGoal;
    hide SyncedAt;
  }

  /** Paths on which a file is transferred, and on which the transfer fails. */
  function Moved(local0: Tree, card0: Tree, among: set<Path>): set<Path> {
    set p | p in among && Transfers(local0, card0, p) && !Blocked(local0, card0, p)
  }

  function Refused(local0: Tree, card0: Tree, among: set<Path>): set<Path> {
    set p | p in among && Transfers(local0, card0, p) && Blocked(local0, card0, p)
  }

  lemma AllVisited(local0: Tree, card0: Tree, local: Tree, card: Tree, order: seq<Path>)
    requires Reached(local0, card0, local, card, order) && "" in local0 && "" in card0
    requires local0[""] == card0[""] == Dir && forall p :: p in order <==> p != "" && (p in local0 || p in card0)
    ensures GoalsReached(local0, card0, local, card)
  {
  }

  lemma NoneVisited(local0: Tree, card0: Tree)
    ensures Reached(local0, card0, local0, card0, [])
    ensures KindsKept(local0, local0) && KindsKept(card0, card0) && StuckKept(local0, card0, local0, card0)
  {
  }

  /** All other paths are left as they were, and so is this one when it is stuck. */
  ghost predicate OthersKept(local0: Tree, card0: Tree, local: Tree, card: Tree, local': Tree, card': Tree, p: Path) {
    forall q :: q != p || Stuck(local0, card0, p) ==> Get(local', q) == Get(local, q) && Get(card', q) == Get(card, q)
  }

  /** The work on one path, from what the two listings said about it. */
  method SyncPath(local: Store, card: Store, local0: Tree, card0: Tree, p: Path)
    returns (succeeded: nat, failed: nat)
    requires local != card && p != "" && (p in local0 || p in card0)
    modifies local, card
    ensures old(local.trouble) ==> local.trouble
    ensures old(card.trouble) ==> card.trouble
    ensures succeeded + failed <= 1
    ensures !Transfers(local0, card0, p) ==> succeeded == failed == 0
    ensures !Works(local0, card0, p) ==>
              succeeded == failed == 0 && local.tree == old(local.tree) && card.tree == old(card.tree)
    ensures !local.trouble && !card.trouble
            && Get(old(local.tree), p) == Get(local0, p) && Get(old(card.tree), p) == Get(card0, p)
            && HasParent(old(local.tree), p) && HasParent(old(card.tree), p) && !Blocked(local0, card0, p) ==>
              && succeeded == (if Transfers(local0, card0, p) then 1 else 0) && failed == 0
              && PathDone(local0, card0, old(local.tree), old(card.tree), local.tree, card.tree, p)
    ensures !local.trouble && !card.trouble
            && Get(old(local.tree), p) == Get(local0, p) && Get(old(card.tree), p) == Get(card0, p)
            && CutOff(local0, card0, old(local.tree), old(card.tree), p) ==>
              && succeeded == 0 && failed == (if Transfers(local0, card0, p) then 1 else 0)
              && local.tree == old(local.tree) && card.tree == old(card.tree)
    ensures !local.trouble && !card.trouble ==>
              KindsKept(old(local.tree), local.tree) && KindsKept(old(card.tree), card.tree)
    ensures !local.trouble && !card.trouble ==>
              OthersKept(local0, card0, old(local.tree), old(card.tree), local.tree, card.tree, p)
  {
    hide Blocked;
    hide Parent;
    BlockedStep(local0, card0, p);
    succeeded, failed := 0, 0;
    if p in local0 && p in card0 {
      var loc, sat := local0[p], card0[p];
      if loc.Dir? && sat.Dir? {
      } else if loc.File? && sat.File? {
        if |loc.data| % UINT32 != |sat.data| % UINT32 {
          var ok := card.Put(p, loc.data);
          if ok { succeeded := 1; } else { failed := 1; }
        }
      }
    } else if p in local0 {
      var loc := local0[p];
      if loc.Dir? {
        card.MakeDir(p);
      } else {
        var ok := card.Put(p, loc.data);
        if ok { succeeded := 1; } else { failed := 1; }
      }
    } else {
      var sat := card0[p];
      if sat.Dir? {
        local.MakeDir(p);
      } else {
        var ok := local.Put(p, sat.data);
        if ok { succeeded := 1; } else { failed := 1; }
      }
    }
  }

  /** A file is transferred for this path. */
  predicate Transfers(local0: Tree, card0: Tree, p: Path) {
    if p in local0 && p in card0 then SizesDiffer(local0[p], card0[p])
    else (p in local0 && local0[p].File?) || (p in card0 && card0[p].File?)
  }

  /** Anything at all is done for this path. */
  predicate Works(local0: Tree, card0: Tree, p: Path) {
    Transfers(local0, card0, p) || (p in local0) != (p in card0)
  }

  /** Same paths, same kinds, same file sizes. */
  ghost predicate Converged(a: Tree, b: Tree) {
    a.Keys == b.Keys && forall p :: p in a ==> a[p].Dir? == b[p].Dir? && (a[p].File? ==> |a[p].data| == |b[p].data|)
  }

  function Members(s: seq<Path>): set<Path> { set p | p in s }

  /** What is done after the visited paths. */
  ghost predicate Progress(local0: Tree, card0: Tree, local: Tree, card: Tree, done: seq<Path>, succeeded: nat, failed: nat) {
    && Reached(local0, card0, local, card, done)
    && succeeded == |Moved(local0, card0, Members(done))| && failed == |Refused(local0, card0, Members(done))|
  }

  /**
   Mode 3 of DoSdSync. Without trouble both sides become the synchronised pair, whatever is
   stuck; exactly the transfers of blocked files fail.
   */
  method DoSdSync(local: Store, card: Store) returns (r: int, succeeded: nat, failed: nat)
    requires local != card
    modifies local, card
    ensures r == if failed == 0 then 1 else 0
    ensures old(local.trouble) ==> local.trouble
    ensures old(card.trouble) ==> card.trouble
    ensures var local0, card0 := WithBase(old(local.tree)), WithBase(old(card.tree));
            !local.trouble && !card.trouble ==>
              && (Wellformed(old(local.tree)) && Wellformed(old(card.tree)) ==>
                    && Synced(local0, card0, local.tree, card.tree) && GoalsReached(local0, card0, local.tree, card.tree)
                    && succeeded == |Moved(local0, card0, local0.Keys + card0.Keys)|
                    && failed == |Refused(local0, card0, local0.Keys + card0.Keys)|
                    && (NoneStuck(local0, card0) ==> r == 1))
              && KindsKept(local0, local.tree) && KindsKept(card0, card.tree)
              && StuckKept(local0, card0, local.tree, card.tree)
              && (Settled(local0, card0) ==> succeeded == failed == 0 && local.tree == local0 && card.tree == card0)
  {
    hide *;
    ghost var start, start' := local.tree, card.tree;
    local.MakeBase();
    var localItems := local.List();
    var cardItems := card.List();
    var local0, card0 := WithBase(local.tree), WithBase(card.tree);
    var order := AllPaths(localItems, cardItems);
    card.MakeBase();
    BaseMade(start);
    BaseMade(start');
    BaseMade(local.tree);
    Listed(local.tree);
    Listed(start');
    succeeded, failed := 0, 0;
    assert order[..0] == [];
    NoneVisited(local0, card0);
    NothingDone(local0, card0);
    ghost var ready, settled := Ready(local0, card0), Settled(local0, card0);
    for i := 0 to |order|
      invariant old(local.trouble) ==> local.trouble
      invariant old(card.trouble) ==> card.trouble
      invariant !local.trouble && !card.trouble ==>
                  && local0 == WithBase(start)
                  && KindsKept(local0, local.tree) && KindsKept(card0, card.tree)
                  && StuckKept(local0, card0, local.tree, card.tree)
                  && (ready ==> Progress(local0, card0, local.tree, card.tree, order[..i], succeeded, failed))
                  && (settled ==> succeeded == failed == 0 && local.tree == local0 && card.tree == card0)
    {
      ghost var localWas, cardWas, s0, f0 := local.tree, card.tree, succeeded, failed;
      assert order[i] in order;
      if settled { NoWork(local0, card0, order[i]); }
      if ready && !local.trouble && !card.trouble {
        VisitReady(local0, card0, localWas, cardWas, order, i, s0, f0);
      }
      var s, f := SyncPath(local, card, local0, card0, order[i]);
      succeeded, failed := succeeded + s, failed + f;
      if !local.trouble && !card.trouble {
        KindsKeptTwice(local0, localWas, local.tree);
        KindsKeptTwice(card0, cardWas, card.tree);
        StuckOneMore(local0, card0, localWas, cardWas, local.tree, card.tree, order[i]);
        if ready { OneMore(local0, card0, localWas, cardWas, local.tree, card.tree, order, i, s0, f0, s, f); }
      }
    }
    assert order[..|order|] == order;
    if !local.trouble && !card.trouble && Wellformed(start) && Wellformed(start') {
      BecomesReady(start, start');
      AllDone(local0, card0, local.tree, card.tree, order, succeeded, failed);
    }
    r := if failed == 0 then 1 else 0;
  }

  lemma NothingDone(local0: Tree, card0: Tree)
    ensures Progress(local0, card0, local0, card0, [], 0, 0)
  {
    hide LocalGoal;
    hide CardGoal;
    hide Transfers;
    hide Blocked;
  }

  lemma BaseMade(t: Tree)
    ensures WithBase(WithBase(t)) == WithBase(t)
  {
  }

  lemma Listed(t: Tree)
    ensures forall p :: p != "" ==> (p in WithBase(t) <==> p in t)
  {
  }

  lemma BecomesReady(local: Tree, card: Tree)
    requires Wellformed(local) && Wellformed(card)
    ensures Ready(WithBase(local), WithBase(card))
  {
  }

  lemma StuckOneMore(local0: Tree, card0: Tree, local: Tree, card: Tree, local': Tree, card': Tree, p: Path)
    requires StuckKept(local0, card0, local, card)
    requires OthersKept(local0, card0, local, card, local', card', p)
    ensures StuckKept(local0, card0, local', card')
  {
  }

  /** What the work on the next path may rely on. */
  lemma VisitReady(local0: Tree, card0: Tree, local: Tree, card: Tree, order: seq<Path>, i: nat, succeeded: nat, failed: nat)
    requires Ready(local0, card0) && i < |order|
    requires Ascending(order) && forall p :: p in order <==> p != "" && (p in local0 || p in card0)
    requires Progress(local0, card0, local, card, order[..i], succeeded, failed)
    ensures if Blocked(local0, card0, order[i]) then CutOff(local0, card0, local, card, order[i])
            else HasParent(local, order[i]) && HasParent(card, order[i])
    ensures Get(local, order[i]) == Get(local0, order[i]) && Get(card, order[i]) == Get(card0, order[i])
  {
    hide *;
    ProgressReached(local0, card0, local, card, order[..i], succeeded, failed);
    assert order[i] in order;
    if Blocked(local0, card0, order[i]) {
      BlockedIsCutOff(local0, card0, local, card, order[..i], order[i]);
    } else {
      ParentReady(local0, card0, local, card, order, i);
    }
    NotYetDone(order, i);
    ReachedAt(local0, card0, local, card, order[..i], order[i]);
  }

  lemma ProgressReached(local0: Tree, card0: Tree, local: Tree, card: Tree, done: seq<Path>, succeeded: nat, failed: nat)
    requires Progress(local0, card0, local, card, done, succeeded, failed)
    ensures Reached(local0, card0, local, card, done)
  {
  }

  lemma MembersOneMore(local0: Tree, card0: Tree, done: set<Path>, p: Path)
    requires p !in done
    ensures var moves, blocked := Transfers(local0, card0, p), Blocked(local0, card0, p);
            var moved, refused := Moved(local0, card0, done), Refused(local0, card0, done);
            && p !in moved && p !in refused
            && Moved(local0, card0, done + {p}) == (if moves && !blocked then moved + {p} else moved)
            && Refused(local0, card0, done + {p}) == (if moves && blocked then refused + {p} else refused)
  {
    hide Transfers;
    hide Blocked;
  }

  /** The counts with one path more. */
  lemma CountOneMore(local0: Tree, card0: Tree, done: set<Path>, p: Path)
    requires p !in done
    ensures var moves, blocked := Transfers(local0, card0, p), Blocked(local0, card0, p);
            && |Moved(local0, card0, done + {p})| == |Moved(local0, card0, done)| + (if moves && !blocked then 1 else 0)
            && |Refused(local0, card0, done + {p})| == |Refused(local0, card0, done)| + (if moves && blocked then 1 else 0)
  {
    hide *;
    MembersOneMore(local0, card0, done, p);
  }

  lemma OneMore(local0: Tree, card0: Tree, local: Tree, card: Tree, local': Tree, card': Tree,
                order: seq<Path>, i: nat, succeeded: nat, failed: nat, s: nat, f: nat)
    requires Ascending(order) && i < |order| && Progress(local0, card0, local, card, order[..i], succeeded, failed)
    requires var p := order[i]; var moves := Transfers(local0, card0, p);
             if Blocked(local0, card0, p) then
               && s == 0 && f == (if moves then 1 else 0) && local' == local && card' == card
               && Get(local, p) == Get(local0, p) && Get(card, p) == Get(card0, p)
             else s == (if moves then 1 else 0) && f == 0 && PathDone(local0, card0, local, card, local', card', p)
    ensures Progress(local0, card0, local', card', order[..i + 1], succeeded + s, failed + f)
  {
    hide Reached;
    hide PathDone;
    hide Blocked;
    hide Transfers;
    hide Moved;
    hide Refused;
    var p := order[i];
    NotYetDone(order, i);
    CountOneMore(local0, card0, Members(order[..i]), p);
    assert Members(order[..i + 1]) == Members(order[..i]) + {p};
    if Blocked(local0, card0, p) { BlockedDone(local0, card0, local, card, p); }
    ReachedOneMore(local0, card0, local, card, local', card', order, i);
  }

  lemma BlockedDone(local0: Tree, card0: Tree, local: Tree, card: Tree, p: Path)
    requires Blocked(local0, card0, p) && Get(local, p) == Get(local0, p) && Get(card, p) == Get(card0, p)
    ensures PathDone(local0, card0, local, card, local, card, p)
  {
    hide Blocked;
  }

  lemma AllDone(local0: Tree, card0: Tree, local: Tree, card: Tree, order: seq<Path>, succeeded: nat, failed: nat)
    requires Ready(local0, card0) && forall p :: p in order <==> p != "" && (p in local0 || p in card0)
    requires Progress(local0, card0, local, card, order, succeeded, failed)
    ensures Synced(local0, card0, local, card) && GoalsReached(local0, card0, local, card)
    ensures var all := local0.Keys + card0.Keys;
            succeeded == |Moved(local0, card0, all)| && failed == |Refused(local0, card0, all)|
    ensures NoneStuck(local0, card0) ==> failed == 0
  {
    hide *;
    BaseOnBoth(local0, card0);
    ProgressParts(local0, card0, local, card, order, succeeded, failed);
    AllVisited(local0, card0, local, card, order);
    GoalsMean(local0, card0, local, card);
    var visited, all := Members(order), local0.Keys + card0.Keys;
    VisitedAll(local0, card0, order);
    CountOneMore(local0, card0, visited, "");
    if NoneStuck(local0, card0) { NoneRefused(local0, card0, all); }
  }

  lemma ProgressParts(local0: Tree, card0: Tree, local: Tree, card: Tree, done: seq<Path>, succeeded: nat, failed: nat)
    requires Progress(local0, card0, local, card, done, succeeded, failed)
    ensures Reached(local0, card0, local, card, done)
    ensures succeeded == |Moved(local0, card0, Members(done))| && failed == |Refused(local0, card0, Members(done))|
  {
  }

  lemma VisitedAll(local0: Tree, card0: Tree, order: seq<Path>)
    requires "" in local0 && forall p :: p in order <==> p != "" && (p in local0 || p in card0)
    ensures "" !in Members(order) && local0.Keys + card0.Keys == Members(order) + {""}
  {
  }

  lemma BaseOnBoth(local0: Tree, card0: Tree)
    requires Ready(local0, card0)
    ensures "" in local0 && "" in card0 && local0[""] == card0[""] == Dir && !Transfers(local0, card0, "")
  {
  }

  lemma {:induction false} NoneBlocked(a: Tree, b: Tree, p: Path)
    requires NoneStuck(a, b)
    ensures !Blocked(a, b, p)
    decreases |p|
  {
    hide Parent;
    if p != "" { NoneBlocked(a, b, Parent(p)); }
  }

  lemma NoneRefused(a: Tree, b: Tree, among: set<Path>)
    requires NoneStuck(a, b)
    ensures Refused(a, b, among) == {}
  {
    hide Transfers;
    hide Blocked;
    hide NoneStuck;
    forall p | p in among ensures !Blocked(a, b, p) { NoneBlocked(a, b, p); }
  }

  lemma NotYetDone(order: seq<Path>, i: nat)
    requires Ascending(order) && i < |order|
    ensures order[i] !in order[..i]
  {
    if order[i] in order[..i] {
      var j :| 0 <= j < i && order[..i][j] == order[i];
      LessIrreflexive(order[i]);
    }
  }

  /** Two sides that hold what they should have converged, and there is nothing left to do. */
  lemma GoalsConverge(local0: Tree, card0: Tree, local: Tree, card: Tree)
    requires NoneStuck(local0, card0) && Get(local0, "") == Get(card0, "") == Some(Dir)
    requires GoalsReached(local0, card0, local, card)
    ensures Converged(local, card) && Settled(local, card)
  {
    hide Blocked;
    forall p ensures (p in local <==> p in card) && !Works(local, card, p)
                     && (p in local ==> local[p].Dir? == card[p].Dir? && (local[p].File? ==> |local[p].data| == |card[p].data|))
    {
      assert !Stuck(local0, card0, p);
      NoneBlocked(local0, card0, p);
      assert Get(local, p) == LocalGoal(local0, card0, p);
      assert Get(card, p) == CardGoal(local0, card0, p);
    }
    assert local.Keys == card.Keys;
  }

  /** A run changes nothing about what is stuck. */
  lemma StuckAgain(local0: Tree, card0: Tree, local: Tree, card: Tree, p: Path)
    requires Ready(local0, card0) && SyncedAt(local0, card0, local, card, p)
    requires Blocked(local0, card0, p) ==> Get(local, p) == Get(local0, p) && Get(card, p) == Get(card0, p)
    ensures Stuck(local, card, p) == Stuck(local0, card0, p)
  {
    BlockedStep(local0, card0, p);
    hide Blocked;
    hide Parent;
  }

  lemma SyncedBlocked(local0: Tree, card0: Tree, local: Tree, card: Tree, p: Path)
    requires SyncedAt(local0, card0, local, card, p) && Blocked(local0, card0, p)
    ensures Get(local, p) == Get(local0, p) && Get(card, p) == Get(card0, p)
  {
    hide Blocked;
  }

  lemma {:induction false} BlockedAgain(local0: Tree, card0: Tree, local: Tree, card: Tree, p: Path)
    requires Ready(local0, card0) && Synced(local0, card0, local, card)
    ensures Blocked(local, card, p) == Blocked(local0, card0, p)
    decreases |p|
  {
    hide *;
    SyncedHere(local0, card0, local, card, p);
    BlockedStep(local0, card0, p);
    BlockedStep(local, card, p);
    if Blocked(local0, card0, p) { SyncedBlocked(local0, card0, local, card, p); }
    StuckAgain(local0, card0, local, card, p);
    if p != "" { BlockedAgain(local0, card0, local, card, Parent(p)); }
  }

  lemma SyncedHere(local0: Tree, card0: Tree, local: Tree, card: Tree, p: Path)
    requires Synced(local0, card0, local, card)
    ensures SyncedAt(local0, card0, local, card, p)
  {
    hide SyncedAt;
  }

  /** The goals of a synchronised pair are what it holds, and its transfers are the refused ones. */
  lemma SyncedIsGoal(local0: Tree, card0: Tree, local: Tree, card: Tree, p: Path)
    requires Ready(local0, card0) && SyncedAt(local0, card0, local, card, p)
    requires Blocked(local, card, p) == Blocked(local0, card0, p)
    ensures LocalGoal(local, card, p) == Get(local, p) && CardGoal(local, card, p) == Get(card, p)
    ensures Transfers(local, card, p) <==> Transfers(local0, card0, p) && Blocked(local0, card0, p)
  {
    BlockedStep(local0, card0, p);
    hide Blocked;
    hide Parent;
  }

  lemma SyncedAgainAt(local0: Tree, card0: Tree, local: Tree, card: Tree, p: Path)
    requires Ready(local0, card0) && Synced(local0, card0, local, card)
    ensures LocalGoal(local, card, p) == Get(local, p) && CardGoal(local, card, p) == Get(card, p)
    ensures Blocked(local, card, p) == Blocked(local0, card0, p)
    ensures Transfers(local, card, p) <==> Transfers(local0, card0, p) && Blocked(local0, card0, p)
    ensures p in local || p in card <==> p in local0 || p in card0
  {
    hide *;
    SyncedHere(local0, card0, local, card, p);
    BlockedAgain(local0, card0, local, card, p);
    SyncedIsGoal(local0, card0, local, card, p);
    SyncedKeys(local0, card0, local, card, p);
  }

  lemma SyncedKeys(local0: Tree, card0: Tree, local: Tree, card: Tree, p: Path)
    requires SyncedAt(local0, card0, local, card, p)
    ensures p in local || p in card <==> p in local0 || p in card0
  {
    hide Blocked;
  }

  /** Synchronising a synchronised pair changes nothing, and refuses the same files. */
  lemma SyncedAgain(local0: Tree, card0: Tree, local: Tree, card: Tree)
    requires Ready(local0, card0) && Synced(local0, card0, local, card)
    ensures GoalsReached(local, card, local, card)
    ensures var all := local.Keys + card.Keys;
            && all == local0.Keys + card0.Keys && Moved(local, card, all) == {}
            && Refused(local, card, all) == Refused(local0, card0, all)
  {
    hide *;
    forall p ensures Get(local, p) == LocalGoal(local, card, p) && Get(card, p) == CardGoal(local, card, p) {
      SyncedAgainAt(local0, card0, local, card, p);
    }
    OwnGoals(local, card);
    var all := local.Keys + card.Keys;
    forall p ensures p in all <==> p in local0.Keys + card0.Keys {
      SyncedAgainAt(local0, card0, local, card, p);
    }
    forall p ensures p !in Moved(local, card, all) && (p in Refused(local, card, all) <==> p in Refused(local0, card0, all)) {
      SyncedAgainAt(local0, card0, local, card, p);
      Counted(local, card, all, p);
      Counted(local0, card0, all, p);
    }
  }

  lemma OwnGoals(local: Tree, card: Tree)
    requires forall p :: Get(local, p) == LocalGoal(local, card, p) && Get(card, p) == CardGoal(local, card, p)
    ensures GoalsReached(local, card, local, card)
  {
    hide Get;
    hide LocalGoal;
    hide CardGoal;
  }

  lemma Counted(local: Tree, card: Tree, among: set<Path>, p: Path)
    ensures p in Moved(local, card, among) <==> p in among && Transfers(local, card, p) && !Blocked(local, card, p)
    ensures p in Refused(local, card, among) <==> p in among && Transfers(local, card, p) && Blocked(local, card, p)
  {
    hide Transfers;
    hide Blocked;
  }

  /** Folders stay folders, and what is new is in one. */
  lemma StaysWellformed(local0: Tree, card0: Tree, local: Tree, card: Tree)
    requires Ready(local0, card0) && GoalsReached(local0, card0, local, card)
    ensures Wellformed(local) && Wellformed(card)
  {
    hide *;
    forall p ensures if p != "" then (p in local ==> HasParent(local, p)) && (p in card ==> HasParent(card, p))
                     else Get(local, p) == Get(card, p) == Some(Dir) {
      GoalsHere(local0, card0, local, card, p);
      BlockedStep(local0, card0, p);
      if p == "" {
        BaseGoal(local0, card0);
        FolderGoal(local0, card0, p);
      } else {
        StaysInFolder(local0, card0, local, card, p);
      }
    }
    WellformedForm(local);
    WellformedForm(card);
  }

  lemma StaysInFolder(local0: Tree, card0: Tree, local: Tree, card: Tree, p: Path)
    requires Ready(local0, card0) && GoalsReached(local0, card0, local, card) && p != ""
    ensures (p in local ==> HasParent(local, p)) && (p in card ==> HasParent(card, p))
  {
    hide *;
    var q := Parent(p);
    GoalsHere(local0, card0, local, card, p);
    GoalsHere(local0, card0, local, card, q);
    BlockedStep(local0, card0, p);
    HasParentForm(local, p);
    HasParentForm(card, p);
    if p in local0 || p in card0 {
      ParentKnown(local0, card0, p);
      if Blocked(local0, card0, q) {
        BlockedGoal(local0, card0, q);
        BlockedGoal(local0, card0, p);
      } else {
        FolderGoal(local0, card0, q);
      }
    }
  }

  lemma GoalsHere(local0: Tree, card0: Tree, local: Tree, card: Tree, p: Path)
    requires GoalsReached(local0, card0, local, card)
    ensures Get(local, p) == LocalGoal(local0, card0, p) && Get(card, p) == CardGoal(local0, card0, p)
    ensures p in local || p in card ==> p in local0 || p in card0
    ensures (p in local <==> Get(local, p) != None) && (p in card <==> Get(card, p) != None)
    ensures (p in local0 <==> Get(local0, p) != None) && (p in card0 <==> Get(card0, p) != None)
  {
    hide Blocked;
  }

  lemma BaseGoal(local0: Tree, card0: Tree)
    requires Ready(local0, card0)
    ensures Get(local0, "") == Get(card0, "") == Some(Dir)
  {
  }

  lemma WellformedForm(t: Tree)
    requires Get(t, "") == Some(Dir) && forall p :: p != "" && p in t ==> HasParent(t, p)
    ensures Wellformed(t)
  {
    hide HasParent;
  }

  /**
   Synchronising twice without trouble: the sides converge exactly when nothing was stuck. The
   second run transfers nothing, fails on the same files, and leaves the synchronised pair of
   the first (of which there is only one, GoalsUnique) as it is.
   */
  method SyncTwice(local: Store, card: Store) returns (r: int, again: int, transfers: nat)
    requires local != card && Wellformed(local.tree) && Wellformed(card.tree)
    modifies local, card
    ensures var local0, card0 := WithBase(old(local.tree)), WithBase(old(card.tree));
            !local.trouble && !card.trouble ==>
              && Synced(local0, card0, local.tree, card.tree) && GoalsReached(local0, card0, local.tree, card.tree)
              && transfers == 0 && again == r
              && (Converged(local.tree, card.tree) <==> NoneStuck(local0, card0))
              && (NoneStuck(local0, card0) ==> r == 1)
  {
    hide *;
    ghost var local0, card0 := WithBase(local.tree), WithBase(card.tree);
    BecomesReady(local.tree, card.tree);
    var failed, failed';
    r, transfers, failed := DoSdSync(local, card);
    ghost var local1, card1 := local.tree, card.tree;
    if !local.trouble && !card.trouble {
      StaysWellformed(local0, card0, local1, card1);
      KeepsBase(local0, card0, local1, card1);
      SyncedAgain(local0, card0, local1, card1);
    }
    again, transfers, failed' := DoSdSync(local, card);
    if !local.trouble && !card.trouble {
      GoalsUnique(local1, card1, local1, card1, local.tree, card.tree);
      BaseGoal(local0, card0);
      if NoneStuck(local0, card0) {
        GoalsConverge(local0, card0, local1, card1);
      } else {
        StuckStays(local0, card0, local1, card1);
      }
    }
  }

  lemma KeepsBase(local0: Tree, card0: Tree, local: Tree, card: Tree)
    requires Ready(local0, card0) && GoalsReached(local0, card0, local, card)
    ensures WithBase(local) == local && WithBase(card) == card
  {
    hide *;
    StaysWellformed(local0, card0, local, card);
    BaseGoal(local0, card0);
    GoalsHere(local0, card0, local, card, "");
    BlockedStep(local0, card0, "");
    FolderGoal(local0, card0, "");
    WithBaseForm(local);
    WithBaseForm(card);
  }

  lemma WithBaseForm(t: Tree)
    requires Get(t, "") == Some(Dir)
    ensures WithBase(t) == t
  {
  }

  lemma GoalsUnique(local0: Tree, card0: Tree, local: Tree, card: Tree, local': Tree, card': Tree)
    requires GoalsReached(local0, card0, local, card) && GoalsReached(local0, card0, local', card')
    ensures local == local' && card == card'
  {
    SameTree(local, local');
    SameTree(card, card');
  }

  lemma SameTree(a: Tree, b: Tree)
    requires forall p :: Get(a, p) == Get(b, p)
    ensures a == b
  {
    forall p ensures (p in a <==> p in b) && (p in a ==> a[p] == b[p]) {
      assert Get(a, p) == Get(b, p);
    }
    assert a.Keys == b.Keys;
  }
}
