/**
 * The collector: a pre-order walk over a directory tree that produces one
 * candidate per directory, root first. The filesystem is a finite rose tree
 * whose folders list their entries in the order the directory listing
 * gives them; plain files are entries too, but are never descended into.
 */
module Collector {
  import opened Candidates
  import opened Results

  datatype Entry =
    | File(name: string, path: string)
    | Folder(name: string, path: string, entries: seq<Entry>)

  /** Why the walk cannot start: its root is not a directory. */
  datatype FsError = NotADirectory(path: string)

  /** How many entries of a listing are directories. */
  function DirCount(es: seq<Entry>): (k: nat)
    ensures k <= |es|
  {
    if |es| == 0 then 0
    else (if es[0].Folder? then 1 else 0) + DirCount(es[1..])
  }

  /** The candidate recorded for a folder reached at `level`. */
  function Visit(d: Entry, level: int): Candidate
    requires d.Folder?
  {
    Candidate(d.name, d.path, DirCount(d.entries), level)
  }

  /** The walk from folder `d`: `d` itself, then every directory entry's walk,
      one level deeper, in listing order. */
  function Walk(d: Entry, level: int): seq<Candidate>
    requires d.Folder?
    decreases d, 1
  {
    [Visit(d, level)] + WalkEntries(d.entries, level + 1)
  }

  /** The walks of the directory entries of a listing, concatenated. */
  function WalkEntries(es: seq<Entry>, level: int): seq<Candidate>
    decreases es, 0
  {
    if |es| == 0 then []
    else (if es[0].Folder? then Walk(es[0], level) else []) + WalkEntries(es[1..], level)
  }

  /** The walk of a tree, or the error the directory listing raises when the
      root is a plain file. */
  function Collect(root: Entry, level: int): (r: Result<seq<Candidate>, FsError>)
    ensures r.Failure? <==> root.File?
    ensures r.Failure? ==> r.error == NotADirectory(root.path)
    ensures r.Success? ==> |r.value| == Size(root) && r.value[0] == Visit(root, level)
  {
    if root.File? then Failure(NotADirectory(root.path))
    else
      WalkSize(root, level);
      Success(Walk(root, level))
  }

  // ---------------------------------------------------------------------
  // How many directories a tree holds, and the walk visits each once.
  // ---------------------------------------------------------------------

  /** The number of folders in a tree, root included. */
  function Size(e: Entry): nat
    decreases e, 1
  {
    match e
    case File(_, _) => 0
    case Folder(_, _, es) => 1 + SizeList(es)
  }

  function SizeList(es: seq<Entry>): nat
    decreases es, 0
  {
    if |es| == 0 then 0 else Size(es[0]) + SizeList(es[1..])
  }

  /** One candidate per folder of the tree, the root included. */
  lemma {:induction false} WalkSize(d: Entry, level: int)
    requires d.Folder?
    ensures |Walk(d, level)| == Size(d)
    decreases d, 1
  {
    WalkEntriesSize(d.entries, level + 1);
  }

  lemma {:induction false} WalkEntriesSize(es: seq<Entry>, level: int)
    ensures |WalkEntries(es, level)| == SizeList(es)
    decreases es, 0
  {
    if |es| > 0 {
      if es[0].Folder? {
        WalkSize(es[0], level);
      }
      WalkEntriesSize(es[1..], level);
    }
  }

  // ---------------------------------------------------------------------
  // Levels: the shape of a pre-order listing.
  // ---------------------------------------------------------------------

  /** The levels a pre-order walk started at `level` can show: it starts at
      `level`, never goes above it, and descends at most one level per step. */
  predicate LevelShape(cs: seq<Candidate>, level: int)
  {
    && (forall i :: 0 <= i < |cs| ==> level <= cs[i].level)
    && (|cs| > 0 ==> cs[0].level == level)
    && (forall i :: 0 < i < |cs| ==> cs[i].level <= cs[i - 1].level + 1)
  }

  lemma LevelShapeConcat(a: seq<Candidate>, b: seq<Candidate>, level: int)
    requires LevelShape(a, level) && LevelShape(b, level)
    ensures LevelShape(a + b, level)
  {
    var ab := a + b;
    forall i | 0 <= i < |ab|
      ensures level <= ab[i].level
    {
      if i < |a| {
        assert ab[i] == a[i];
      } else {
        assert ab[i] == b[i - |a|];
      }
    }
    if |ab| > 0 {
      assert ab[0] == if |a| > 0 then a[0] else b[0];
    }
    forall i | 0 < i < |ab|
      ensures ab[i].level <= ab[i - 1].level + 1
    {
      if i < |a| {
        assert ab[i] == a[i] && ab[i - 1] == a[i - 1];
      } else if i == |a| {
        assert ab[i] == b[0] && ab[i - 1] == a[|a| - 1];
      } else {
        assert ab[i] == b[i - |a|] && ab[i - 1] == b[i - |a| - 1];
      }
    }
  }

  /** The depth of a tree: 0 for a file, one more than the deepest entry for a folder. */
  function Height(e: Entry): nat
    decreases e, 1
  {
    match e
    case File(_, _) => 0
    case Folder(_, _, es) => 1 + MaxHeight(es)
  }

  function MaxHeight(es: seq<Entry>): nat
    decreases es, 0
  {
    if |es| == 0 then 0
    else
      var h, rest := Height(es[0]), MaxHeight(es[1..]);
      if h < rest then rest else h
  }

  /** The root comes first at the caller's level, every other candidate lies
      strictly deeper, no candidate lies deeper than the tree, and the levels
      have the shape of a pre-order listing. The order itself is stated by
      `WalkChildBlock` and `WalkBlocks`. */
  lemma {:induction false} WalkLevels(d: Entry, level: int)
    requires d.Folder?
    ensures LevelShape(Walk(d, level), level)
    ensures forall i :: 0 < i < |Walk(d, level)| ==> level < Walk(d, level)[i].level
    ensures forall i :: 0 <= i < |Walk(d, level)| ==> Walk(d, level)[i].level < level + Height(d)
    decreases d, 1
  {
    var w, rest := Walk(d, level), WalkEntries(d.entries, level + 1);
    assert w == [Visit(d, level)] + rest;
    assert Height(d) == 1 + MaxHeight(d.entries);
    WalkEntriesLevels(d.entries, level + 1);
    forall i | 0 < i < |w|
      ensures level < w[i].level < level + Height(d)
      ensures w[i].level <= w[i - 1].level + 1
    {
      assert w[i] == rest[i - 1];
      if i > 1 {
        assert w[i - 1] == rest[i - 2];
      }
    }
    assert w[0].level == level;
  }

  lemma {:induction false} WalkEntriesLevels(es: seq<Entry>, level: int)
    ensures LevelShape(WalkEntries(es, level), level)
    ensures forall i :: 0 <= i < |WalkEntries(es, level)| ==> WalkEntries(es, level)[i].level < level + MaxHeight(es)
    decreases es, 0
  {
    if |es| > 0 {
      var head := if es[0].Folder? then Walk(es[0], level) else [];
      var tail := WalkEntries(es[1..], level);
      if es[0].Folder? {
        WalkLevels(es[0], level);
      }
      WalkEntriesLevels(es[1..], level);
      LevelShapeConcat(head, tail, level);
      var ws := head + tail;
      forall i | 0 <= i < |ws|
        ensures ws[i].level < level + MaxHeight(es)
      {
        if i < |head| {
          assert ws[i] == head[i];
        } else {
          assert ws[i] == tail[i - |head|];
        }
      }
    }
  }

  // ---------------------------------------------------------------------
  // Pre-order: each subtree's walk is one contiguous block of the listing.
  // ---------------------------------------------------------------------

  /** Walking a listing is walking its first `k` entries, then the rest. */
  lemma {:induction false} WalkEntriesSplit(es: seq<Entry>, level: int, k: nat)
    requires k <= |es|
    ensures WalkEntries(es, level) == WalkEntries(es[..k], level) + WalkEntries(es[k..], level)
    decreases k
  {
    if k == 0 {
      assert es[..0] == [] && es[0..] == es;
    } else {
      var head := if es[0].Folder? then Walk(es[0], level) else [];
      WalkEntriesSplit(es[1..], level, k - 1);
      assert es[1..][..k - 1] == es[..k][1..];
      assert es[1..][k - 1..] == es[k..];
      assert es[..k][0] == es[0];
      assert WalkEntries(es[..k], level) == head + WalkEntries(es[..k][1..], level);
    }
  }

  /** The `k`-th entry of a folder, if a directory, is walked one level deeper
      as one contiguous block, right after the root and the blocks of the
      directories listed before it. */
  lemma {:induction false} WalkChildBlock(d: Entry, level: int, k: nat)
    requires d.Folder? && k < |d.entries| && d.entries[k].Folder?
    ensures 1 + SizeList(d.entries[..k]) + Size(d.entries[k]) <= |Walk(d, level)|
    ensures Walk(d, level)[1 + SizeList(d.entries[..k]) .. 1 + SizeList(d.entries[..k]) + Size(d.entries[k])]
            == Walk(d.entries[k], level + 1)
  {
    var es, c := d.entries, d.entries[k];
    var before, after := WalkEntries(es[..k], level + 1), WalkEntries(es[k + 1..], level + 1);
    WalkEntriesSplit(es, level + 1, k);
    assert es[k..][0] == c && es[k..][1..] == es[k + 1..];
    assert WalkEntries(es[k..], level + 1) == Walk(c, level + 1) + after;
    WalkEntriesSize(es[..k], level + 1);
    WalkSize(c, level + 1);
    var w := Walk(d, level);
    assert w == [Visit(d, level)] + before + Walk(c, level + 1) + after;
    var o := 1 + |before|;
    assert w[o .. o + |Walk(c, level + 1)|] == Walk(c, level + 1);
  }

  /** A block inside a block of `a` is a block of `a`. */
  lemma SliceOfSlice<T>(a: seq<T>, o: nat, b: seq<T>, p: nat, len: nat)
    requires o + |b| <= |a| && a[o .. o + |b|] == b && p + len <= |b|
    ensures a[o + p .. o + p + len] == b[p .. p + len]
  {
    var inner, outer := a[o + p .. o + p + len], b[p .. p + len];
    forall i | 0 <= i < len
      ensures inner[i] == outer[i]
    {
      assert inner[i] == a[o .. o + |b|][p + i];
    }
  }

  /** `n` is `e` itself (`t == 0`) or lies `t` levels below it. */
  predicate ContainsAt(e: Entry, n: Entry, t: nat)
    decreases e
  {
    if t == 0 then e == n
    else e.Folder? && exists k :: 0 <= k < |e.entries| && ContainsAt(e.entries[k], n, t - 1)
  }

  /** Lying somewhere below a tree is lying some number of levels below it. */
  lemma {:induction false} ContainsAtSomeDepth(e: Entry, n: Entry)
    ensures Contains(e, n) <==> exists t: nat :: ContainsAt(e, n, t)
    decreases e
  {
    if Contains(e, n) {
      if e == n {
        assert ContainsAt(e, n, 0);
      } else {
        var k :| 0 <= k < |e.entries| && Contains(e.entries[k], n);
        ContainsAtSomeDepth(e.entries[k], n);
        var t: nat :| ContainsAt(e.entries[k], n, t);
        assert ContainsAt(e, n, t + 1);
      }
    }
    if t: nat :| ContainsAt(e, n, t) {
      if t > 0 {
        var below: nat := t - 1;
        var k :| 0 <= k < |e.entries| && ContainsAt(e.entries[k], n, below);
        assert exists d: nat :: ContainsAt(e.entries[k], n, d);
        ContainsAtSomeDepth(e.entries[k], n);
        assert Contains(e.entries[k], n);
      }
    }
  }

  /** Folder `n`'s walk from `level` occupies `w` from offset `o` on. */
  predicate BlockAt(w: seq<Candidate>, o: int, n: Entry, level: int)
  {
    n.Folder? && 0 <= o <= |w| - Size(n) && w[o .. o + Size(n)] == Walk(n, level)
  }

  /** Folder `n`'s walk from `level` appears in `w` as one contiguous block. */
  ghost predicate HeadsBlock(w: seq<Candidate>, n: Entry, level: int)
  {
    exists o :: BlockAt(w, o, n, level)
  }

  /** Every folder `t` levels below the root is walked at `level + t` as one
      contiguous block of the root's walk: the walk is a pre-order listing. */
  lemma {:induction false} WalkBlocks(d: Entry, level: int)
    requires d.Folder?
    ensures forall n, t: nat :: ContainsAt(d, n, t) && n.Folder? ==> HeadsBlock(Walk(d, level), n, level + t)
    decreases d
  {
    var w := Walk(d, level);
    forall n, t: nat | ContainsAt(d, n, t) && n.Folder?
      ensures HeadsBlock(w, n, level + t)
    {
      if t == 0 {
        WalkSize(d, level);
        assert BlockAt(w, 0, n, level + t);
      } else {
        var k :| 0 <= k < |d.entries| && ContainsAt(d.entries[k], n, t - 1);
        var c := d.entries[k];
        WalkChildBlock(d, level, k);
        WalkBlocks(c, level + 1);
        var wc := Walk(c, level + 1);
        assert HeadsBlock(wc, n, level + 1 + (t - 1));
        var o2 :| BlockAt(wc, o2, n, level + t);
        var o := 1 + SizeList(d.entries[..k]);
        assert w[o .. o + |wc|] == wc by {
          WalkSize(c, level + 1);
        }
        SliceOfSlice(w, o, wc, o2, Size(n));
        assert BlockAt(w, o + o2, n, level + t);
      }
    }
  }

  // ---------------------------------------------------------------------
  // num_directories against the listing the walk produces.
  // ---------------------------------------------------------------------

  /** How many candidates sit at `level`. */
  function AtLevel(cs: seq<Candidate>, level: int): nat
  {
    if |cs| == 0 then 0
    else (if cs[0].level == level then 1 else 0) + AtLevel(cs[1..], level)
  }

  lemma {:induction false} AtLevelConcat(a: seq<Candidate>, b: seq<Candidate>, level: int)
    ensures AtLevel(a + b, level) == AtLevel(a, level) + AtLevel(b, level)
  {
    if |a| == 0 {
      assert a + b == b;
    } else {
      assert (a + b)[0] == a[0];
      assert (a + b)[1..] == a[1..] + b;
      AtLevelConcat(a[1..], b, level);
    }
  }

  lemma {:induction false} AtLevelBelow(cs: seq<Candidate>, level: int)
    requires forall i :: 0 <= i < |cs| ==> level < cs[i].level
    ensures AtLevel(cs, level) == 0
  {
    if |cs| > 0 {
      AtLevelBelow(cs[1..], level);
    }
  }

  /** Exactly one candidate of a walk sits at the start level, the root, and
      the root's directory count equals the number of candidates exactly one
      level below it: each directory entry contributes exactly one. */
  lemma {:induction false} WalkChildren(d: Entry, level: int)
    requires d.Folder?
    ensures AtLevel(Walk(d, level), level) == 1
    ensures AtLevel(Walk(d, level), level + 1) == Walk(d, level)[0].numDirectories
  {
    var rest := WalkEntries(d.entries, level + 1);
    WalkEntriesLevels(d.entries, level + 1);
    AtLevelBelow(rest, level);
    WalkEntriesChildren(d.entries, level + 1);
    AtLevelConcat([Visit(d, level)], rest, level);
    AtLevelConcat([Visit(d, level)], rest, level + 1);
  }

  lemma {:induction false} WalkEntriesChildren(es: seq<Entry>, level: int)
    ensures AtLevel(WalkEntries(es, level), level) == DirCount(es)
  {
    if |es| > 0 {
      var head := if es[0].Folder? then Walk(es[0], level) else [];
      if es[0].Folder? {
        WalkLevels(es[0], level);
        AtLevelBelow(head[1..], level);
        assert AtLevel(head, level) == 1;
      }
      WalkEntriesChildren(es[1..], level);
      AtLevelConcat(head, WalkEntries(es[1..], level), level);
    }
  }

  // ---------------------------------------------------------------------
  // Candidates are exactly the folders of the tree.
  // ---------------------------------------------------------------------

  /** `n` is `e` or lies somewhere below it. */
  predicate Contains(e: Entry, n: Entry)
    decreases e
  {
    e == n || (e.Folder? && exists k :: 0 <= k < |e.entries| && Contains(e.entries[k], n))
  }

  /** `c` records folder `n`: same name and path, and its directory count. */
  predicate Describes(c: Candidate, n: Entry)
  {
    n.Folder? && c.name == n.name && c.path == n.path && c.numDirectories == DirCount(n.entries)
  }

  /** `c` records some folder of tree `e`. */
  ghost predicate RecordsFolderOf(e: Entry, c: Candidate)
  {
    exists n :: Contains(e, n) && Describes(c, n)
  }

  /** Some candidate of `cs` records folder `n`. */
  predicate Recorded(cs: seq<Candidate>, n: Entry)
  {
    exists i :: 0 <= i < |cs| && Describes(cs[i], n)
  }

  /** Every candidate records some folder of the tree. */
  lemma {:induction false} WalkSound(d: Entry, level: int)
    requires d.Folder?
    ensures forall c :: c in Walk(d, level) ==> RecordsFolderOf(d, c)
    decreases d, 1
  {
    var w, rest := Walk(d, level), WalkEntries(d.entries, level + 1);
    WalkEntriesSound(d.entries, level + 1);
    forall c | c in w
      ensures RecordsFolderOf(d, c)
    {
      if c == w[0] {
        assert Contains(d, d) && Describes(c, d);
      } else {
        assert c in rest;
        var k :| 0 <= k < |d.entries| && RecordsFolderOf(d.entries[k], c);
        var n :| Contains(d.entries[k], n) && Describes(c, n);
        assert Contains(d, n);
      }
    }
  }

  lemma {:induction false} WalkEntriesSound(es: seq<Entry>, level: int)
    ensures forall c :: c in WalkEntries(es, level) ==> exists k :: 0 <= k < |es| && RecordsFolderOf(es[k], c)
    decreases es, 0
  {
    if |es| > 0 {
      var head := if es[0].Folder? then Walk(es[0], level) else [];
      var tail := WalkEntries(es[1..], level);
      assert WalkEntries(es, level) == head + tail;
      if es[0].Folder? {
        WalkSound(es[0], level);
      }
      WalkEntriesSound(es[1..], level);
      forall c | c in head + tail
        ensures exists k :: 0 <= k < |es| && RecordsFolderOf(es[k], c)
      {
        if c in head {
          assert RecordsFolderOf(es[0], c);
        } else {
          var k :| 0 <= k < |es[1..]| && RecordsFolderOf(es[1..][k], c);
          assert es[1..][k] == es[k + 1];
          assert RecordsFolderOf(es[k + 1], c);
        }
      }
    }
  }

  /** Every folder of the tree is recorded by some candidate. */
  lemma {:induction false} WalkComplete(d: Entry, level: int)
    requires d.Folder?
    ensures forall n :: Contains(d, n) && n.Folder? ==> Recorded(Walk(d, level), n)
    decreases d, 1
  {
    var w, rest := Walk(d, level), WalkEntries(d.entries, level + 1);
    WalkEntriesComplete(d.entries, level + 1);
    forall n | Contains(d, n) && n.Folder?
      ensures Recorded(w, n)
    {
      if n == d {
        assert Describes(w[0], n);
      } else {
        var k :| 0 <= k < |d.entries| && Contains(d.entries[k], n);
        assert Recorded(rest, n);
        var j :| 0 <= j < |rest| && Describes(rest[j], n);
        assert w[j + 1] == rest[j];
      }
    }
  }

  lemma {:induction false} WalkEntriesComplete(es: seq<Entry>, level: int)
    ensures forall k, n :: 0 <= k < |es| && Contains(es[k], n) && n.Folder? ==> Recorded(WalkEntries(es, level), n)
    decreases es, 0
  {
    if |es| > 0 {
      var head := if es[0].Folder? then Walk(es[0], level) else [];
      var tail := WalkEntries(es[1..], level);
      var ws := head + tail;
      assert WalkEntries(es, level) == ws;
      if es[0].Folder? {
        WalkComplete(es[0], level);
      }
      WalkEntriesComplete(es[1..], level);
      forall k, n | 0 <= k < |es| && Contains(es[k], n) && n.Folder?
        ensures Recorded(ws, n)
      {
        if k == 0 {
          assert es[0].Folder?;
          assert Recorded(head, n);
          var i :| 0 <= i < |head| && Describes(head[i], n);
          assert ws[i] == head[i];
        } else {
          assert es[1..][k - 1] == es[k];
          assert Recorded(tail, n);
          var i :| 0 <= i < |tail| && Describes(tail[i], n);
          assert ws[|head| + i] == tail[i];
        }
      }
    }
  }
}
