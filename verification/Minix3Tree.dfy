/**
 * The file system as users see it: numbered nodes, each a plain file or a directory of named entries; what makes
 * that a tree; and what creating and removing a node does to it.
 */
module Minix3Tree {
  import opened Bytes
  import opened Minix3Entries

  datatype Node = Directory(nlinks: nat, entries: seq<Entry>) | Plain(nlinks: nat, bytes: seq<byte>)

  type Tree = map<nat, Node>

  const ROOT: nat := 1
  const DOT: seq<byte> := [46]
  const DOT_DOT: seq<byte> := [46, 46]

  predicate IsDir(t: Tree, d: nat) { d in t && t[d].Directory? }

  /** Entry x is live and carries the name; slots past the end are empty. */
  predicate Matches(es: seq<Entry>, name: seq<byte>, x: nat)
  {
    x < |es| && es[x].ino != 0 && es[x].name == name
  }

  /** Entry x of directory d, other than its first two, points at node c. */
  predicate Names(t: Tree, d: nat, x: nat, c: nat)
  {
    IsDir(t, d) && 2 <= x < |t[d].entries| && t[d].entries[x].ino == c && c != 0
  }

  /** The entries that point at directories, "." and ".." aside. */
  function Subdirs(t: Tree, es: seq<Entry>): set<nat>
  {
    set x | 2 <= x < |es| && IsDir(t, es[x].ino)
  }

  predicate UniqueNames(es: seq<Entry>)
  {
    forall x, y :: 0 <= x < y < |es| && es[x].ino != 0 && es[y].ino != 0 ==> es[x].name != es[y].name
  }

  predicate EntryOk(t: Tree, e: Entry)
  {
    e.ino != 0 ==> e.ino in t && IsName(e.name)
  }

  predicate DirOk(t: Tree, d: nat)
    requires IsDir(t, d)
  {
    var es := t[d].entries;
    && |es| >= 2 && es[0].ino == d && es[0].name == DOT && es[1].ino in t && es[1].name == DOT_DOT
    && (forall x :: 0 <= x < |es| ==> EntryOk(t, es[x]))
    && UniqueNames(es)
    && t[d].nlinks == 2 + |Subdirs(t, es)|
  }

  ghost predicate AllDirsOk(t: Tree)
  {
    forall d: nat {:trigger DirOk(t, d)} :: IsDir(t, d) ==> DirOk(t, d)
  }

  ghost predicate HasName(t: Tree, c: nat)
  {
    exists d: nat, x: nat :: Names(t, d, x, c)
  }

  /** Every node but the root has exactly one name, and the root none. */
  ghost predicate NamedOnce(t: Tree)
  {
    && (forall c: nat {:trigger HasName(t, c)} :: c in t && c != ROOT ==> HasName(t, c))
    && (forall d, x, e, y, c :: Names(t, d, x, c) && Names(t, e, y, c) ==> d == e && x == y)
    && (forall d, x, c :: Names(t, d, x, c) ==> c != ROOT)
  }

  /** ".." points at the directory with the name. */
  ghost predicate DotDotsUp(t: Tree)
  {
    forall d: nat, x: nat, c: nat :: Names(t, d, x, c) ==> DotDot(t, c, d)
  }

  predicate DotDot(t: Tree, c: nat, d: nat)
  {
    IsDir(t, c) && |t[c].entries| > 1 ==> t[c].entries[1].ino == d
  }

  /** Names lead strictly away from the root. */
  ghost predicate Ranked(t: Tree, rank: map<nat, nat>)
  {
    && t.Keys <= rank.Keys
    && forall d, x, c :: Names(t, d, x, c) && c in t ==> rank[d] < rank[c]
  }

  ghost predicate WfTree(t: Tree)
  {
    && 0 !in t && IsDir(t, ROOT) && DotDot(t, ROOT, ROOT)
    && AllDirsOk(t)
    && (forall c :: c in t && t[c].Plain? ==> t[c].nlinks == 1)
    && NamedOnce(t) && DotDotsUp(t)
    && exists rank: map<nat, nat> :: Ranked(t, rank)
  }

  lemma DirOf(t: Tree, d: nat)
    requires WfTree(t) && IsDir(t, d)
    ensures DirOk(t, d)
  {
  }

  /** What an entry names exists. */
  lemma NamedExists(t: Tree, d: nat, x: nat, c: nat)
    requires WfTree(t) && Names(t, d, x, c)
    ensures c in t && c != ROOT && DotDot(t, c, d)
  {
    DirOf(t, d);
    assert EntryOk(t, t[d].entries[x]);
  }

  lemma NameOf(t: Tree, c: nat) returns (d: nat, x: nat)
    requires WfTree(t) && c in t && c != ROOT
    ensures Names(t, d, x, c)
  {
    assert HasName(t, c);
    d, x :| Names(t, d, x, c);
  }

  lemma ParentIsDir(t: Tree, d: nat)
    requires WfTree(t) && IsDir(t, d)
    ensures |t[d].entries| >= 2 && IsDir(t, t[d].entries[1].ino)
  {
    DirOf(t, d);
    if d != ROOT {
      var e, x := NameOf(t, d);
      NamedExists(t, e, x, d);
    }
  }

  lemma NamesAgree(t: Tree, d: nat, x: nat, e: nat, y: nat, c: nat)
    requires WfTree(t) && Names(t, d, x, c) && Names(t, e, y, c)
    ensures d == e && x == y
  {
  }

  // ---- it is a tree ----------------------------------------------------------

  /** The names on the way from the root to node c. */
  ghost predicate IsPath(t: Tree, path: seq<seq<byte>>, c: nat)
  {
    if path == [] then c == ROOT
    else exists d: nat, x: nat :: LastStep(t, path, d, x, c) && IsPath(t, path[..|path| - 1], d)
  }

  predicate LastStep(t: Tree, path: seq<seq<byte>>, d: nat, x: nat, c: nat)
  {
    path != [] && Names(t, d, x, c) && t[d].entries[x].name == path[|path| - 1]
  }

  /** Every node can be reached from the root by names. */
  lemma {:induction false} Reachable(t: Tree, rank: map<nat, nat>, c: nat) returns (path: seq<seq<byte>>)
    requires WfTree(t) && Ranked(t, rank) && c in t
    ensures IsPath(t, path, c)
    decreases rank[c]
  {
    hide WfTree;
    if c == ROOT {
      path := [];
    } else {
      var d, x := NameOf(t, c);
      var up := Reachable(t, rank, d);
      path := up + [t[d].entries[x].name];
      assert path[..|path| - 1] == up;
      assert LastStep(t, path, d, x, c);
    }
  }

  /** A path leads to one node only. */
  lemma {:induction false} PathLeadsOneWay(t: Tree, path: seq<seq<byte>>, c: nat, c': nat)
    requires WfTree(t) && IsPath(t, path, c) && IsPath(t, path, c')
    ensures c == c'
    decreases |path|
  {
    hide WfTree;
    if path != [] {
      var up, last := path[..|path| - 1], path[|path| - 1];
      var d: nat, x: nat :| LastStep(t, path, d, x, c) && IsPath(t, up, d);
      var e: nat, y: nat :| LastStep(t, path, e, y, c') && IsPath(t, up, e);
      PathLeadsOneWay(t, up, d, e);
      DirOf(t, d);
      NoDouble(t[d].entries, x, y);
    }
  }

  lemma NoDouble(es: seq<Entry>, x: nat, y: nat)
    requires UniqueNames(es) && x < |es| && y < |es| && es[x].ino != 0 && es[y].ino != 0 && es[x].name == es[y].name
    ensures x == y
  {
  }

  /** And to one node leads one path only. */
  lemma {:induction false} OnePath(t: Tree, path: seq<seq<byte>>, path': seq<seq<byte>>, c: nat)
    requires WfTree(t) && IsPath(t, path, c) && IsPath(t, path', c)
    ensures path == path'
    decreases |path|
  {
    hide WfTree;
    PathToRoot(t, path, c);
    PathToRoot(t, path', c);
    if c != ROOT {
      var d: nat, x: nat :| LastStep(t, path, d, x, c) && IsPath(t, path[..|path| - 1], d);
      var e: nat, y: nat :| LastStep(t, path', e, y, c) && IsPath(t, path'[..|path'| - 1], e);
      NamesAgree(t, d, x, e, y, c);
      OnePath(t, path[..|path| - 1], path'[..|path'| - 1], d);
      assert path == path[..|path| - 1] + [path[|path| - 1]];
      assert path' == path'[..|path'| - 1] + [path'[|path'| - 1]];
    }
  }

  lemma PathToRoot(t: Tree, path: seq<seq<byte>>, c: nat)
    requires WfTree(t) && IsPath(t, path, c)
    ensures path == [] <==> c == ROOT
  {
    hide WfTree;
    if path != [] {
      var d: nat, x: nat :| LastStep(t, path, d, x, c) && IsPath(t, path[..|path| - 1], d);
      NamedExists(t, d, x, c);
    }
  }

  // ---- a new node ------------------------------------------------------------

  /** The 16-bit link count of the parent of a new node. */
  function LinksAfter(nlinks: nat, node: Node): nat
  {
    if node.Directory? then (nlinks + 1) % 0x1_0000 else nlinks
  }

  /** Node c is new, and directory p has one more entry, for it. */
  function Added(t: Tree, p: nat, c: u32, name: seq<byte>, node: Node): Tree
    requires IsDir(t, p)
  {
    t[p := Directory(LinksAfter(t[p].nlinks, node), t[p].entries + [Entry(c, name)])][c := node]
  }

  function Touched(t: Tree, p: nat, c: u32, name: seq<byte>): Tree
    requires IsDir(t, p)
  {
    Added(t, p, c, name, Plain(1, []))
  }

  function Made(t: Tree, p: u32, c: u32, name: seq<byte>): Tree
    requires IsDir(t, p)
  {
    Added(t, p, c, name, Directory(2, [Entry(c, DOT), Entry(p, DOT_DOT)]))
  }

  /** The name and the node can be added. */
  predicate Addable(t: Tree, p: nat, c: nat, name: seq<byte>)
  {
    IsDir(t, p) && c !in t && c != 0 && c != p && IsName(name) && forall x :: 0 <= x < |t[p].entries| ==> !Matches(t[p].entries, name, x)
  }

  /** An empty file, or a directory under a parent whose link count has room. */
  predicate NewNode(t: Tree, p: nat, c: nat, node: Node)
  {
    || node == Plain(1, [])
    || (p < 0x1_0000_0000 && c < 0x1_0000_0000 && node == Directory(2, [Entry(c, DOT), Entry(p, DOT_DOT)])
        && IsDir(t, p) && t[p].nlinks < 0xffff)
  }

  /** Which entry names which node afterwards. */
  lemma NamesAdded(t: Tree, p: nat, c: u32, name: seq<byte>, node: Node, d: nat, x: nat, k: nat)
    requires WfTree(t) && Addable(t, p, c, name) && NewNode(t, p, c, node)
    ensures Names(Added(t, p, c, name, node), d, x, k)
       <==> Names(t, d, x, k) || (d == p && x == |t[p].entries| && k == c)
    ensures Names(t, d, x, k) ==> k in t && d in t
  {
    hide WfTree, DirOk;
    DirOf(t, p);
    AtLeastTwo(t, p);
    if Names(t, d, x, k) { NamedExists(t, d, x, k); }
  }

  lemma AtLeastTwo(t: Tree, d: nat)
    requires IsDir(t, d) && DirOk(t, d)
    ensures |t[d].entries| >= 2
  {
  }

  lemma SubdirsAdded(t: Tree, p: nat, c: u32, name: seq<byte>, node: Node, d: nat)
    requires WfTree(t) && Addable(t, p, c, name) && NewNode(t, p, c, node) && IsDir(t, d)
    ensures var t' := Added(t, p, c, name, node);
            IsDir(t', d)
            && Subdirs(t', t'[d].entries)
            == Subdirs(t, t[d].entries) + (if d == p && node.Directory? then {|t[d].entries|} else {})
  {
    hide WfTree, Subdirs, UniqueNames;
    var t' := Added(t, p, c, name, node);
    var es := t[d].entries;
    DirOf(t, d);
    NotZero(t);
    forall x | 0 <= x < |es| ensures IsDir(t', es[x].ino) == IsDir(t, es[x].ino) {
      assert EntryOk(t, es[x]);
    }
    SubdirsKept(t, t', es);
    SubdirsOneMore(t', es, Entry(c, name));
  }

  lemma SubdirsKept(t: Tree, t': Tree, es: seq<Entry>)
    requires forall x :: 0 <= x < |es| ==> IsDir(t', es[x].ino) == IsDir(t, es[x].ino)
    ensures Subdirs(t', es) == Subdirs(t, es)
  {
  }

  lemma SubdirsOneMore(t: Tree, es: seq<Entry>, e: Entry)
    requires |es| >= 2
    ensures Subdirs(t, es + [e]) == Subdirs(t, es) + (if IsDir(t, e.ino) then {|es|} else {})
  {
    assert forall x :: 0 <= x < |es| ==> (es + [e])[x] == es[x];
  }

  lemma NotZero(t: Tree)
    requires WfTree(t)
    ensures 0 !in t && IsDir(t, ROOT) && DotDot(t, ROOT, ROOT)
    ensures forall c :: c in t && t[c].Plain? ==> t[c].nlinks == 1
  {
  }

  lemma EntriesAdded(es: seq<Entry>, e: Entry)
    requires UniqueNames(es) && forall x :: 0 <= x < |es| ==> !Matches(es, e.name, x)
    ensures UniqueNames(es + [e])
  {
    var es' := es + [e];
    forall x, y | 0 <= x < y < |es'| && es'[x].ino != 0 && es'[y].ino != 0 ensures es'[x].name != es'[y].name {
      assert !Matches(es, e.name, x);
    }
  }

  lemma DirOkAdded(t: Tree, p: nat, c: u32, name: seq<byte>, node: Node, d: nat)
    requires WfTree(t) && Addable(t, p, c, name) && NewNode(t, p, c, node) && IsDir(t, d)
    ensures IsDir(Added(t, p, c, name, node), d) && DirOk(Added(t, p, c, name, node), d)
  {
    hide Subdirs, WfTree, UniqueNames;
    var t' := Added(t, p, c, name, node);
    var es, es' := t[d].entries, t'[d].entries;
    DirOf(t, d);
    SubdirsAdded(t, p, c, name, node, d);
    SubdirsBelow(t, es);
    if d == p { EntriesAdded(es, Entry(c, name)); }
    forall x | 0 <= x < |es'| ensures EntryOk(t', es'[x]) {
      if x < |es| { assert EntryOk(t, es[x]); }
    }
  }

  lemma SubdirsBelow(t: Tree, es: seq<Entry>)
    ensures |es| !in Subdirs(t, es)
  {
  }

  lemma NamedOnceAdded(t: Tree, p: nat, c: u32, name: seq<byte>, node: Node)
    requires WfTree(t) && Addable(t, p, c, name) && NewNode(t, p, c, node)
    ensures NamedOnce(Added(t, p, c, name, node)) && DotDotsUp(Added(t, p, c, name, node))
  {
    hide WfTree, Names;
    var t' := Added(t, p, c, name, node);
    forall k | k in t' && k != ROOT ensures HasName(t', k) {
      if k == c {
        NamesAdded(t, p, c, name, node, p, |t[p].entries|, c);
      } else {
        var d, x := NameOf(t, k);
        NamesAdded(t, p, c, name, node, d, x, k);
      }
    }
    forall d, x, e, y, k | Names(t', d, x, k) && Names(t', e, y, k) ensures d == e && x == y {
      NamesAdded(t, p, c, name, node, d, x, k);
      NamesAdded(t, p, c, name, node, e, y, k);
      if k != c { NamesAgree(t, d, x, e, y, k); }
    }
    NotZero(t);
    forall d, x, k | Names(t', d, x, k) ensures k != ROOT && DotDot(t', k, d) {
      NamesAdded(t, p, c, name, node, d, x, k);
      if k != c {
        NamedExists(t, d, x, k);
        if IsDir(t, k) { DirOf(t, k); }
      }
    }
  }

  lemma RankedAdded(t: Tree, p: nat, c: u32, name: seq<byte>, node: Node, rank: map<nat, nat>)
    returns (rank': map<nat, nat>)
    requires WfTree(t) && Addable(t, p, c, name) && NewNode(t, p, c, node) && Ranked(t, rank)
    ensures Ranked(Added(t, p, c, name, node), rank')
  {
    hide WfTree, Names;
    var t' := Added(t, p, c, name, node);
    rank' := rank[c := rank[p] + 1];
    forall d, x, k | Names(t', d, x, k) && k in t' ensures d in rank' && rank'[d] < rank'[k] {
      NamesAdded(t, p, c, name, node, d, x, k);
    }
  }

  lemma AddKeepsTree(t: Tree, p: nat, c: u32, name: seq<byte>, node: Node)
    requires WfTree(t) && Addable(t, p, c, name) && NewNode(t, p, c, node)
    ensures WfTree(Added(t, p, c, name, node))
  {
    hide Subdirs, UniqueNames, Names, NamedOnce, DotDotsUp, DirOk, Ranked;
    var t' := Added(t, p, c, name, node);
    NamedOnceAdded(t, p, c, name, node);
    forall d | IsDir(t', d) ensures DirOk(t', d) {
      if d == c {
        NewDirOk(t', p, c);
      } else {
        DirOkAdded(t, p, c, name, node, d);
      }
    }
    RootAdded(t, p, c, name, node);
    var rank :| Ranked(t, rank);
    var rank' := RankedAdded(t, p, c, name, node, rank);
    assert Ranked(t', rank');
  }

  /** A directory with 65535 links cannot take one more: its count wraps to 0. */
  lemma LinksOverflow(t: Tree, p: u32, c: u32, name: seq<byte>)
    requires WfTree(t) && Addable(t, p, c, name) && t[p].nlinks == 0xffff
    ensures !WfTree(Made(t, p, c, name))
  {
    if WfTree(Made(t, p, c, name)) {
      DirOf(Made(t, p, c, name), p);
    }
  }

  lemma RootAdded(t: Tree, p: nat, c: u32, name: seq<byte>, node: Node)
    requires WfTree(t) && Addable(t, p, c, name)
    ensures IsDir(Added(t, p, c, name, node), ROOT) && DotDot(Added(t, p, c, name, node), ROOT, ROOT)
  {
    DirOf(t, ROOT);
  }

  lemma NewDirOk(t: Tree, p: u32, c: u32)
    requires IsDir(t, c) && t[c] == Directory(2, [Entry(c, DOT), Entry(p, DOT_DOT)]) && IsDir(t, p)
    ensures DirOk(t, c)
  {
    assert Subdirs(t, t[c].entries) == {};
  }

  // ---- a node taken away -----------------------------------------------------

  /** Node c is gone, and entry x of directory p, which named it, is empty. */
  function Removed(t: Tree, p: nat, x: nat, c: nat): Tree
    requires IsDir(t, p) && x < |t[p].entries| && c in t && (t[c].Directory? ==> t[p].nlinks > 0)
  {
    (t - {c})[p := Directory(t[p].nlinks - (if t[c].Directory? then 1 else 0),
                             t[p].entries[x := Entry(0, t[p].entries[x].name)])]
  }

  /** A node can be removed when it is a plain file or a directory with only "." and "..". */
  predicate Removable(t: Tree, p: nat, x: nat, c: nat)
  {
    && IsDir(t, p) && x < |t[p].entries| && Names(t, p, x, c) && c in t
    && (t[c].Directory? ==> |t[c].entries| == 2 && t[p].nlinks > 0)
  }

  lemma NamesRemoved(t: Tree, p: nat, x: nat, c: nat, d: nat, y: nat, k: nat)
    requires WfTree(t) && Removable(t, p, x, c)
    ensures p != c && c != ROOT
    ensures Names(Removed(t, p, x, c), d, y, k) <==> Names(t, d, y, k) && k != c
    ensures Names(t, d, y, k) ==> k in t && d in t && d != c
  {
    hide WfTree;
    NamedExists(t, p, x, c);
    if Names(t, d, y, k) {
      NamedExists(t, d, y, k);
      if k == c { NamesAgree(t, d, y, p, x, c); }
    }
  }

  /** An entry of a directory that stays, other than the one removed, points at something that stays. */
  lemma EntryStays(t: Tree, p: nat, x: nat, c: nat, d: nat, y: nat)
    requires WfTree(t) && Removable(t, p, x, c) && IsDir(t, d) && d != c && y < |t[d].entries| && (d != p || y != x)
    ensures t[d].entries[y].ino != c
  {
    hide WfTree;
    DirOf(t, d);
    NamesRemoved(t, p, x, c, d, y, c);
    if y == 1 {
      if d == ROOT {
        NotZero(t);
      } else {
        var e, z := NameOf(t, d);
        NamedExists(t, e, z, d);
        NamesRemoved(t, p, x, c, e, z, d);
      }
    } else if y > 1 && t[d].entries[y].ino == c {
      NamesAgree(t, d, y, p, x, c);
    }
  }

  lemma SubdirsRemoved(t: Tree, p: nat, x: nat, c: nat, d: nat)
    requires WfTree(t) && Removable(t, p, x, c) && IsDir(t, d) && d != c
    ensures var t' := Removed(t, p, x, c);
            IsDir(t', d)
            && Subdirs(t', t'[d].entries)
            == Subdirs(t, t[d].entries) - (if d == p && t[c].Directory? then {x} else {})
    ensures t[c].Directory? ==> x in Subdirs(t, t[p].entries)
  {
    hide WfTree, DirOk;
    var t' := Removed(t, p, x, c);
    NotZero(t);
    forall y | 0 <= y < |t[d].entries|
      ensures IsDir(t', t'[d].entries[y].ino) == (IsDir(t, t[d].entries[y].ino) && (d != p || y != x))
    {
      if d != p || y != x { EntryStays(t, p, x, c, d, y); }
    }
  }

  lemma EntriesRemoved(es: seq<Entry>, x: nat)
    requires UniqueNames(es) && x < |es|
    ensures UniqueNames(es[x := Entry(0, es[x].name)])
  {
  }

  lemma DirOkRemoved(t: Tree, p: nat, x: nat, c: nat, d: nat)
    requires WfTree(t) && Removable(t, p, x, c) && IsDir(t, d) && d != c
    ensures IsDir(Removed(t, p, x, c), d) && DirOk(Removed(t, p, x, c), d)
  {
    hide Subdirs, WfTree, UniqueNames;
    var t' := Removed(t, p, x, c);
    var es, es' := t[d].entries, t'[d].entries;
    DirOf(t, d);
    SubdirsRemoved(t, p, x, c, d);
    if d == p { EntriesRemoved(es, x); }
    forall y | 0 <= y < |es'| ensures EntryOk(t', es'[y]) {
      assert EntryOk(t, es[y]);
      if d != p || y != x { EntryStays(t, p, x, c, d, y); }
    }
    EntryStays(t, p, x, c, d, 1);
  }

  lemma NamedOnceRemoved(t: Tree, p: nat, x: nat, c: nat)
    requires WfTree(t) && Removable(t, p, x, c)
    ensures NamedOnce(Removed(t, p, x, c)) && DotDotsUp(Removed(t, p, x, c))
  {
    hide WfTree, Names;
    var t' := Removed(t, p, x, c);
    forall k | k in t' && k != ROOT ensures HasName(t', k) {
      NamesRemoved(t, p, x, c, p, x, c);
      var d, y := NameOf(t, k);
      NamesRemoved(t, p, x, c, d, y, k);
    }
    forall d, y, e, z, k | Names(t', d, y, k) && Names(t', e, z, k) ensures d == e && y == z {
      NamesRemoved(t, p, x, c, d, y, k);
      NamesRemoved(t, p, x, c, e, z, k);
      NamesAgree(t, d, y, e, z, k);
    }
    forall d, y, k | Names(t', d, y, k) ensures k != ROOT && DotDot(t', k, d) {
      NamesRemoved(t, p, x, c, d, y, k);
      NamedExists(t, d, y, k);
      DotDotStays(t, p, x, c, k, d);
    }
  }

  lemma DotDotStays(t: Tree, p: nat, x: nat, c: nat, k: nat, d: nat)
    requires Removable(t, p, x, c) && k != c && k in t && DotDot(t, k, d)
    ensures DotDot(Removed(t, p, x, c), k, d)
  {
  }

  lemma RankedRemoved(t: Tree, p: nat, x: nat, c: nat, rank: map<nat, nat>)
    requires WfTree(t) && Removable(t, p, x, c) && Ranked(t, rank)
    ensures Ranked(Removed(t, p, x, c), rank)
  {
    hide WfTree, Names;
    var t' := Removed(t, p, x, c);
    NamesRemoved(t, p, x, c, p, x, c);
    forall d, y, k | Names(t', d, y, k) && k in t' ensures d in rank && rank[d] < rank[k] {
      NamesRemoved(t, p, x, c, d, y, k);
    }
  }

  lemma RemoveKeepsTree(t: Tree, p: nat, x: nat, c: nat)
    requires WfTree(t) && Removable(t, p, x, c)
    ensures WfTree(Removed(t, p, x, c))
  {
    hide Subdirs, UniqueNames, Names, NamedOnce, DotDotsUp, DotDot, DirOk, Ranked;
    var t' := Removed(t, p, x, c);
    NamesRemoved(t, p, x, c, p, x, c);
    NamedOnceRemoved(t, p, x, c);
    forall d | IsDir(t', d) ensures DirOk(t', d) {
      DirOkRemoved(t, p, x, c, d);
    }
    NotZero(t);
    DotDotStays(t, p, x, c, ROOT, ROOT);
    var rank :| Ranked(t, rank);
    RankedRemoved(t, p, x, c, rank);
  }

  // ---- a directory is a finite map -------------------------------------------

  /** What a directory says: each name and the node it leads to. */
  function View(es: seq<Entry>): map<seq<byte>, nat>
    requires UniqueNames(es)
  {
    map x | 0 <= x < |es| && es[x].ino != 0 :: es[x].name := es[x].ino
  }

  lemma ViewAdded(es: seq<Entry>, c: u32, name: seq<byte>)
    requires UniqueNames(es) && c != 0 && forall x :: 0 <= x < |es| ==> !Matches(es, name, x)
    ensures UniqueNames(es + [Entry(c, name)]) && name !in View(es)
    ensures View(es + [Entry(c, name)]) == View(es)[name := c]
  {
    hide UniqueNames;
    EntriesAdded(es, Entry(c, name));
    var es' := es + [Entry(c, name)];
    forall k | k in View(es)[name := c] ensures k in View(es') {
      if k == name {
        ViewAt(es', |es|);
      } else {
        var x := ViewOf(es, k);
        ViewAt(es', x);
      }
    }
    forall k | k in View(es') ensures k in View(es)[name := c] && View(es')[k] == View(es)[name := c][k] {
      var x := ViewOf(es', k);
      ViewAt(es', x);
      if x < |es| {
        ViewAt(es, x);
        assert !Matches(es, name, x);
      }
    }
    if name in View(es) {
      var x := ViewOf(es, name);
    }
  }

  /** An entry of the view comes from a live entry, and each live entry is in it. */
  lemma ViewOf(es: seq<Entry>, name: seq<byte>) returns (x: nat)
    requires UniqueNames(es) && name in View(es)
    ensures Matches(es, name, x) && View(es)[name] == es[x].ino
  {
    hide UniqueNames;
    x :| x < |es| && es[x].ino != 0 && es[x].name == name;
    ViewAt(es, x);
  }

  lemma ViewAt(es: seq<Entry>, x: nat)
    requires UniqueNames(es) && x < |es| && es[x].ino != 0
    ensures es[x].name in View(es) && View(es)[es[x].name] == es[x].ino
  {
  }

  lemma ViewRemoved(es: seq<Entry>, x: nat)
    requires UniqueNames(es) && x < |es| && es[x].ino != 0
    ensures UniqueNames(es[x := Entry(0, es[x].name)])
    ensures View(es[x := Entry(0, es[x].name)]) == View(es) - {es[x].name}
  {
    hide UniqueNames;
    EntriesRemoved(es, x);
    var es', less := es[x := Entry(0, es[x].name)], View(es) - {es[x].name};
    forall k | k in less ensures k in View(es') {
      var y := ViewOf(es, k);
      ViewAt(es', y);
    }
    forall k | k in View(es') ensures k in less && View(es')[k] == less[k] {
      var y := ViewOf(es', k);
      ViewAt(es, y);
      if k == es[x].name { NoDouble(es, x, y); }
    }
  }

  /** Creating a node and removing it again leaves the tree with one more empty entry. */
  lemma AddThenRemove(t: Tree, p: nat, c: u32, name: seq<byte>, node: Node)
    requires WfTree(t) && Addable(t, p, c, name) && NewNode(t, p, c, node)
    ensures var t', x := Added(t, p, c, name, node), |t[p].entries|;
            Removable(t', p, x, c)
            && Removed(t', p, x, c) == t[p := Directory(t[p].nlinks, t[p].entries + [Entry(0, name)])]
  {
    hide WfTree;
    DirOf(t, p);
    var t', x := Added(t, p, c, name, node), |t[p].entries|;
    assert t'[p].entries[x := Entry(0, name)] == t[p].entries + [Entry(0, name)];
    assert (t' - {c})[p := Directory(t[p].nlinks, t[p].entries + [Entry(0, name)])]
        == t[p := Directory(t[p].nlinks, t[p].entries + [Entry(0, name)])];
  }

  /** Taking a node away and leaving its name behind is the end of the tree. */
  lemma NameWithoutNode(t: Tree, c: nat)
    requires WfTree(t) && c in t && c != ROOT
    ensures !WfTree(t - {c})
  {
    var d, x := NameOf(t, c);
    var rank :| Ranked(t, rank);
    assert d != c;
    if WfTree(t - {c}) {
      NamedExists(t - {c}, d, x, c);
    }
  }

  // ---- whole runs ------------------------------------------------------------

  datatype Op = Touch(p: nat, c: nat, name: seq<byte>) | MakeDir(p: nat, c: nat, name: seq<byte>) | Remove(p: nat, x: nat, c: nat)

  /**
   * What one successful operation does to the tree; mkdir under a parent that has room for another link, rmdir of a name
   * other than ".".
   */
  predicate Step(t: Tree, op: Op, t': Tree)
  {
    match op
    case Touch(p, c, name) => c < 0x1_0000_0000 && Addable(t, p, c, name) && t' == Touched(t, p, c, name)
    case MakeDir(p, c, name) =>
      p < 0x1_0000_0000 && c < 0x1_0000_0000 && Addable(t, p, c, name) && t[p].nlinks < 0xffff && t' == Made(t, p, c, name)
    case Remove(p, x, c) => Removable(t, p, x, c) && t' == Removed(t, p, x, c)
  }

  /** The three operations, written out. */
  lemma StepMeans(t: Tree, op: Op, t': Tree)
    requires Step(t, op, t')
    ensures IsDir(t, op.p)
    ensures op.Touch? ==>
      t' == t[op.p := Directory(t[op.p].nlinks, t[op.p].entries + [Entry(op.c, op.name)])][op.c := Plain(1, [])]
    ensures op.MakeDir? ==>
      t' == t[op.p := Directory(t[op.p].nlinks + 1, t[op.p].entries + [Entry(op.c, op.name)])]
             [op.c := Directory(2, [Entry(op.c, [46]), Entry(op.p, [46, 46])])]
    ensures op.Remove? ==>
      && op.x < |t[op.p].entries| && op.c in t
      && t' == (t - {op.c})[op.p := Directory(t[op.p].nlinks - (if IsDir(t, op.c) then 1 else 0),
                                              t[op.p].entries[op.x := Entry(0, t[op.p].entries[op.x].name)])]
  {
  }

  ghost predicate Run(ops: seq<Op>, trees: seq<Tree>)
  {
    |trees| == |ops| + 1 && forall k :: 0 <= k < |ops| ==> Step(trees[k], ops[k], trees[k + 1])
  }

  lemma StepKeepsTree(t: Tree, op: Op, t': Tree)
    requires WfTree(t) && Step(t, op, t')
    ensures WfTree(t')
  {
    hide WfTree, Removable;
    match op {
      case Touch(p, c, name) => AddKeepsTree(t, p, c, name, Plain(1, []));
      case MakeDir(p, c, name) => AddKeepsTree(t, p, c, name, Directory(2, [Entry(c, DOT), Entry(p, DOT_DOT)]));
      case Remove(p, x, c) => RemoveKeepsTree(t, p, x, c);
    }
  }

  /** However many operations run, every tree on the way is one. */
  lemma {:induction false} RunKeepsTree(ops: seq<Op>, trees: seq<Tree>, k: nat)
    requires Run(ops, trees) && WfTree(trees[0]) && k <= |ops|
    ensures WfTree(trees[k])
  {
    hide WfTree, Step;
    if k > 0 {
      RunKeepsTree(ops, trees, k - 1);
      StepKeepsTree(trees[k - 1], ops[k - 1], trees[k]);
    }
  }

  /**
   * And only what the operations created or removed differs: a node no operation of the run touches, as directory or
   * as child, is the same at the end as at the start.
   */
  lemma {:induction false} RunKeepsOthers(ops: seq<Op>, trees: seq<Tree>, k: nat, i: nat)
    requires Run(ops, trees) && k <= |ops| && forall m :: 0 <= m < |ops| ==> ops[m].p != i && ops[m].c != i
    ensures i in trees[k] <==> i in trees[0]
    ensures i in trees[0] ==> trees[k][i] == trees[0][i]
  {
    hide Addable, Removable;
    if k > 0 {
      RunKeepsOthers(ops, trees, k - 1, i);
      StepKeepsOther(trees[k - 1], ops[k - 1], trees[k], i);
    }
  }

  lemma StepKeepsOther(t: Tree, op: Op, t': Tree, i: nat)
    requires Step(t, op, t') && op.p != i && op.c != i
    ensures i in t' <==> i in t
    ensures i in t ==> t'[i] == t[i]
  {
  }
}
