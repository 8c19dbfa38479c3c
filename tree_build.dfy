/**
 * The summary tree of tree_summary/main.py: a flat mapping from a relative
 * path to its summary becomes a nested tree whose internal nodes are
 * directories (a dictionary from a name to a child) and whose leaves are the
 * summaries of files.
 *
 * The builder walks a cursor down one directory dictionary per leading path
 * segment, creating empty ones on demand, and stores the summary under the
 * last segment. Here the walk is the recursive function `Insert`, and the
 * outer loop over the mapping is the method `BuildFileTree`.
 */
module TreeBuild {
  import opened Text
  import opened Wrappers

  /** The path separator (`os.sep` on POSIX). */
  const Sep: char := '/'

  /** A directory maps each child name to a node; a file holds its summary. */
  datatype Node = Dir(children: map<string, Node>) | Leaf(summary: string)

  /** One level of the tree: the dictionary of a directory (the root included). */
  type Level = map<string, Node>

  /** Path segments of a key of the summary mapping. */
  function Segments(key: string): (parts: seq<string>)
    ensures |parts| >= 1
  {
    Split(key, Sep)
  }

  /**
   * Stores `summary` at path `parts` below `level`: every segment but the
   * last names a directory, reused when present and created empty when
   * absent; the last segment is (over)written with the leaf. `None` stands
   * for the TypeError Python raises when the walk reaches a summary string
   * where it expects a directory.
   */
  function Insert(level: Level, parts: seq<string>, summary: string): (r: Option<Level>)
    requires |parts| >= 1
    ensures |parts| == 1 ==> r.Some?
    ensures r.Some? ==> r.value.Keys == level.Keys + {parts[0]}
    ensures r.Some? ==> (r.value[parts[0]].Leaf? <==> |parts| == 1)
    decreases |parts|
  {
    if |parts| == 1 then Some(level[parts[0] := Leaf(summary)])
    else
      var next := if parts[0] in level then level[parts[0]] else Dir(map[]);
      match next
      case Leaf(_) => None
      case Dir(sub) =>
        match Insert(sub, parts[1..], summary)
        case None => None
        case Some(sub') => Some(level[parts[0] := Dir(sub')])
  }

  /** The tree built from the first entries of the mapping, in insertion order. */
  function Build(summaries: seq<(string, string)>): (r: Option<Level>)
    ensures r.Some? ==> forall i :: 0 <= i < |summaries| ==> Segments(summaries[i].0)[0] in r.value
    decreases |summaries|
  {
    if summaries == [] then Some(map[])
    else
      match Build(summaries[..|summaries| - 1])
      case None => None
      case Some(tree) =>
        var (key, summary) := summaries[|summaries| - 1];
        Insert(tree, Segments(key), summary)
  }

  /** The pair sequence stands for a Python dict: no key occurs twice. */
  ghost predicate DistinctKeys(summaries: seq<(string, string)>)
  {
    forall i, j :: 0 <= i < j < |summaries| ==> summaries[i].0 != summaries[j].0
  }

  /** `_build_file_tree_from_summaries`: the outer loop over the mapping. */
  method BuildFileTree(summaries: seq<(string, string)>) returns (tree: Option<Level>)
    requires DistinctKeys(summaries)
    ensures tree == Build(summaries)
  {
    var t: Level := map[];
    var i := 0;
    while i < |summaries|
      invariant 0 <= i <= |summaries|
      invariant Build(summaries[..i]) == Some(t)
    {
      var (path, summary) := summaries[i];
      assert summaries[..i + 1][..i] == summaries[..i];
      var r := Insert(t, Segments(path), summary);
      if r.None? {
        BuildFailureSticks(summaries, i + 1);
        return None;
      }
      t := r.value;
      i := i + 1;
    }
    assert summaries[..i] == summaries;
    return Some(t);
  }

  /** Once an entry makes the walk fail, the whole build fails: the error propagates. */
  lemma {:induction false} BuildFailureSticks(summaries: seq<(string, string)>, i: nat)
    requires i <= |summaries|
    requires Build(summaries[..i]).None?
    ensures Build(summaries).None?
    decreases |summaries| - i
  {
    if i < |summaries| {
      assert summaries[..i + 1][..i] == summaries[..i];
      BuildFailureSticks(summaries, i + 1);
    } else {
      assert summaries[..i] == summaries;
    }
  }

  // ---------------------------------------------------------------------
  // Following a path from the root
  // ---------------------------------------------------------------------

  /** The node reached by following `path` from `level`, if any. */
  function Lookup(level: Level, path: seq<string>): Option<Node>
    requires |path| >= 1
    decreases |path|
  {
    if path[0] !in level then None
    else if |path| == 1 then Some(level[path[0]])
    else
      match level[path[0]]
      case Leaf(_) => None
      case Dir(sub) => Lookup(sub, path[1..])
  }

  predicate IsLeafAt(level: Level, path: seq<string>)
    requires |path| >= 1
  {
    Lookup(level, path).Some? && Lookup(level, path).value.Leaf?
  }

  predicate IsDirAt(level: Level, path: seq<string>)
    requires |path| >= 1
  {
    Lookup(level, path).Some? && Lookup(level, path).value.Dir?
  }

  /** Names directly inside the directory at `path` (none if there is none). */
  function ChildNames(level: Level, path: seq<string>): set<string>
    requires |path| >= 1
  {
    if IsDirAt(level, path) then Lookup(level, path).value.children.Keys else {}
  }

  /** Nothing is found below an empty directory. */
  lemma LookupEmpty(path: seq<string>)
    requires |path| >= 1
    ensures Lookup(map[], path) == None
  {
  }

  // ---------------------------------------------------------------------
  // What one insertion does
  // ---------------------------------------------------------------------

  /**
   * An insertion fails exactly when a leaf already sits at one of the
   * directory prefixes of the path.
   */
  lemma {:induction false} InsertSucceeds(level: Level, parts: seq<string>, summary: string)
    requires |parts| >= 1
    ensures Insert(level, parts, summary).Some? <==>
            forall m :: 1 <= m < |parts| ==> !IsLeafAt(level, parts[..m])
    decreases |parts|
  {
    if |parts| > 1 {
      var head := parts[0];
      var next := if head in level then level[head] else Dir(map[]);
      if next.Leaf? {
        assert parts[..1] == [head];
        assert IsLeafAt(level, parts[..1]);
      } else {
        var sub := next.children;
        InsertSucceeds(sub, parts[1..], summary);
        forall m | 1 <= m < |parts|
          ensures IsLeafAt(level, parts[..m]) <==> (m > 1 && IsLeafAt(sub, parts[1..][..m - 1]))
        {
          if m > 1 {
            assert parts[..m][1..] == parts[1..][..m - 1];
            if head !in level {
              LookupEmpty(parts[1..][..m - 1]);
            }
          }
        }
        if Insert(level, parts, summary).Some? {
          forall m | 1 <= m < |parts| ensures !IsLeafAt(level, parts[..m]) {
            if m > 1 {
              assert !IsLeafAt(sub, parts[1..][..(m - 1)]);
            }
          }
        } else {
          var m' :| 1 <= m' < |parts| - 1 && IsLeafAt(sub, parts[1..][..m']);
          assert IsLeafAt(level, parts[..m' + 1]);
        }
      }
    }
  }

  /** After a successful insertion the path leads to the new leaf. */
  lemma {:induction false} InsertReaches(level: Level, parts: seq<string>, summary: string)
    requires |parts| >= 1
    requires Insert(level, parts, summary).Some?
    ensures Lookup(Insert(level, parts, summary).value, parts) == Some(Leaf(summary))
    decreases |parts|
  {
    if |parts| > 1 {
      var next := if parts[0] in level then level[parts[0]] else Dir(map[]);
      InsertReaches(next.children, parts[1..], summary);
    }
  }

  /**
   * Every directory prefix of the path is a directory afterwards, holding the
   * names it held before (none, if it was just created) plus the next
   * segment: shared prefixes reuse one directory node.
   */
  lemma {:induction false} InsertDirsAlong(level: Level, parts: seq<string>, summary: string, m: nat)
    requires |parts| >= 1
    requires Insert(level, parts, summary).Some?
    requires 1 <= m < |parts|
    ensures IsDirAt(Insert(level, parts, summary).value, parts[..m])
    ensures ChildNames(Insert(level, parts, summary).value, parts[..m])
            == ChildNames(level, parts[..m]) + {parts[m]}
    decreases |parts|
  {
    var head := parts[0];
    var next := if head in level then level[head] else Dir(map[]);
    var sub := next.children;
    var sub' := Insert(sub, parts[1..], summary).value;
    var level' := Insert(level, parts, summary).value;
    assert level' == level[head := Dir(sub')];
    if m == 1 {
      assert parts[..1] == [head];
      if head !in level {
        assert ChildNames(level, parts[..1]) == {};
      }
    } else {
      InsertDirsAlong(sub, parts[1..], summary, m - 1);
      assert parts[..m][1..] == parts[1..][..m - 1];
      if head !in level {
        LookupEmpty(parts[1..][..m - 1]);
        assert ChildNames(sub, parts[1..][..m - 1]) == {};
      }
    }
  }

  /** Whatever lay below the path's own position is gone: a leaf has no children. */
  lemma {:induction false} InsertCutsBelow(level: Level, parts: seq<string>, summary: string, path: seq<string>)
    requires |parts| >= 1
    requires Insert(level, parts, summary).Some?
    requires |path| > |parts| && path[..|parts|] == parts
    ensures Lookup(Insert(level, parts, summary).value, path) == None
    decreases |parts|
  {
    if |parts| > 1 {
      var next := if parts[0] in level then level[parts[0]] else Dir(map[]);
      assert path[1..][..|parts| - 1] == parts[1..];
      InsertCutsBelow(next.children, parts[1..], summary, path[1..]);
    }
  }

  /**
   * Nothing else changes: a path that leaves the inserted path at segment
   * `m` (same first `m` segments, a different one at `m`) finds what it
   * found before.
   */
  lemma {:induction false} InsertFrame(level: Level, parts: seq<string>, summary: string, path: seq<string>, m: nat)
    requires |parts| >= 1
    requires Insert(level, parts, summary).Some?
    requires m < |path| && m < |parts| && path[..m] == parts[..m] && path[m] != parts[m]
    ensures Lookup(Insert(level, parts, summary).value, path) == Lookup(level, path)
    decreases |parts|
  {
    if m > 0 {
      var head := parts[0];
      assert path[0] == path[..m][0];
      var next := if head in level then level[head] else Dir(map[]);
      assert path[1..][..m - 1] == parts[1..][..m - 1];
      InsertFrame(next.children, parts[1..], summary, path[1..], m - 1);
      if head !in level {
        LookupEmpty(path[1..]);
      }
    }
  }

  /** A key without a separator becomes (or replaces) a top-level leaf. */
  lemma TopLevelKey(tree: Level, key: string, summary: string)
    requires Sep !in key
    ensures Insert(tree, Segments(key), summary) == Some(tree[key := Leaf(summary)])
  {
  }

  /**
   * Writing a path that is already present replaces the node there by the
   * new leaf and leaves every other path alone; in particular the
   * directories along it keep exactly the names they had.
   */
  lemma OverwriteExisting(level: Level, parts: seq<string>, summary: string, path: seq<string>)
    requires |parts| >= 1 && |path| >= 1
    requires Lookup(level, parts).Some?
    ensures Insert(level, parts, summary).Some?
    ensures Insert(level, parts, summary).value.Keys == level.Keys
    ensures path == parts ==> Lookup(Insert(level, parts, summary).value, path) == Some(Leaf(summary))
    ensures !(path <= parts) && !(parts < path) ==>
              Lookup(Insert(level, parts, summary).value, path) == Lookup(level, path)
    ensures path < parts ==>
              IsDirAt(Insert(level, parts, summary).value, path) &&
              ChildNames(Insert(level, parts, summary).value, path) == ChildNames(level, path)
  {
    ExistingPathHasDirs(level, parts);
    InsertSucceeds(level, parts, summary);
    assert parts[0] in level;
    if path == parts {
      InsertReaches(level, parts, summary);
    } else if path < parts {
      assert path == parts[..|path|];
      InsertDirsAlong(level, parts, summary, |path|);
      ExistingPathChild(level, parts, |path|);
    } else if !(path <= parts) && !(parts < path) {
      var m := FirstDifference(path, parts);
      InsertFrame(level, parts, summary, path, m);
    }
  }

  /** The directory prefixes of a path that is present are directories. */
  lemma {:induction false} ExistingPathHasDirs(level: Level, parts: seq<string>)
    requires |parts| >= 1
    requires Lookup(level, parts).Some?
    ensures forall m :: 1 <= m < |parts| ==> IsDirAt(level, parts[..m])
    decreases |parts|
  {
    if |parts| > 1 {
      var sub := level[parts[0]].children;
      ExistingPathHasDirs(sub, parts[1..]);
      forall m | 1 <= m < |parts| ensures IsDirAt(level, parts[..m]) {
        if m > 1 {
          assert parts[..m][1..] == parts[1..][..m - 1];
        }
      }
    }
  }

  /** Along a path that is present, each segment names a child of the one before. */
  lemma {:induction false} ExistingPathChild(level: Level, parts: seq<string>, m: nat)
    requires |parts| >= 1
    requires Lookup(level, parts).Some?
    requires 1 <= m < |parts|
    ensures parts[m] in ChildNames(level, parts[..m])
    decreases |parts|
  {
    var sub := level[parts[0]].children;
    if m == 1 {
      assert parts[..1] == [parts[0]];
    } else {
      ExistingPathChild(sub, parts[1..], m - 1);
      assert parts[..m][1..] == parts[1..][..m - 1];
    }
  }

  /**
   * The first position where two paths differ, when neither is a prefix of
   * the other.
   */
  lemma {:induction false} FirstDifference(a: seq<string>, b: seq<string>) returns (m: nat)
    requires !(a <= b) && !(b <= a)
    ensures m < |a| && m < |b| && a[..m] == b[..m] && a[m] != b[m]
  {
    m := 0;
    while m < |a| && m < |b| && a[m] == b[m]
      invariant m <= |a| && m <= |b| && a[..m] == b[..m]
      decreases |a| - m
    {
      assert a[..m + 1] == b[..m + 1];
      m := m + 1;
    }
    if m == |a| || m == |b| {
      assert false;
    }
  }

  // ---------------------------------------------------------------------
  // The whole mapping
  // ---------------------------------------------------------------------

  /** The summary stored last for `key`, if the key occurs. */
  function Latest(summaries: seq<(string, string)>, key: string): Option<string>
    decreases |summaries|
  {
    if summaries == [] then None
    else if summaries[|summaries| - 1].0 == key then Some(summaries[|summaries| - 1].1)
    else Latest(summaries[..|summaries| - 1], key)
  }

  /** No key's path is a proper prefix of another key's path. */
  ghost predicate NoConflicts(summaries: seq<(string, string)>)
  {
    forall i, j :: 0 <= i < |summaries| && 0 <= j < |summaries| ==>
      !(Segments(summaries[i].0) < Segments(summaries[j].0))
  }

  /** Following each key's segments reaches a leaf with the last summary stored for it. */
  ghost predicate KeysReachLatest(tree: Level, summaries: seq<(string, string)>)
  {
    forall i :: 0 <= i < |summaries| ==>
      Latest(summaries, summaries[i].0).Some? &&
      Lookup(tree, Segments(summaries[i].0)) == Some(Leaf(Latest(summaries, summaries[i].0).value))
  }

  /** Every leaf of the tree sits at the path of some key. */
  ghost predicate LeavesAtKeys(tree: Level, summaries: seq<(string, string)>)
  {
    forall path :: |path| >= 1 && IsLeafAt(tree, path) ==>
      exists i :: 0 <= i < |summaries| && path == Segments(summaries[i].0)
  }

  /**
   * Without directory/file conflicts the builder never fails, following any
   * key's segments from the root reaches a leaf holding the last summary
   * stored for that key, and every leaf of the tree sits at some key's path.
   */
  lemma {:induction false} BuildWithoutConflicts(summaries: seq<(string, string)>)
    requires NoConflicts(summaries)
    ensures Build(summaries).Some?
    ensures KeysReachLatest(Build(summaries).value, summaries)
    ensures LeavesAtKeys(Build(summaries).value, summaries)
    decreases |summaries|
  {
    if summaries != [] {
      var n := |summaries| - 1;
      var front := summaries[..n];
      NoConflictsFront(summaries);
      BuildWithoutConflicts(front);
      var tree := Build(front).value;
      StepSucceeds(tree, summaries);
      StepKeys(tree, summaries);
      StepLeaves(tree, summaries);
    }
  }

  lemma NoConflictsFront(summaries: seq<(string, string)>)
    requires summaries != [] && NoConflicts(summaries)
    ensures NoConflicts(summaries[..|summaries| - 1])
  {
    var front := summaries[..|summaries| - 1];
    assert forall i :: 0 <= i < |front| ==> front[i] == summaries[i];
  }

  lemma StepSucceeds(tree: Level, summaries: seq<(string, string)>)
    requires summaries != [] && NoConflicts(summaries)
    requires LeavesAtKeys(tree, summaries[..|summaries| - 1])
    ensures Insert(tree, Segments(summaries[|summaries| - 1].0), summaries[|summaries| - 1].1).Some?
  {
    var n := |summaries| - 1;
    var front := summaries[..n];
    var parts := Segments(summaries[n].0);
    forall m | 1 <= m < |parts| ensures !IsLeafAt(tree, parts[..m]) {
      if IsLeafAt(tree, parts[..m]) {
        assert false;
      }
    }
    InsertSucceeds(tree, parts, summaries[n].1);
  }

  lemma StepKeys(tree: Level, summaries: seq<(string, string)>)
    requires summaries != [] && NoConflicts(summaries)
    requires KeysReachLatest(tree, summaries[..|summaries| - 1])
    requires Insert(tree, Segments(summaries[|summaries| - 1].0), summaries[|summaries| - 1].1).Some?
    ensures KeysReachLatest(Insert(tree, Segments(summaries[|summaries| - 1].0), summaries[|summaries| - 1].1).value, summaries)
  {
    var n := |summaries| - 1;
    var front := summaries[..n];
    var (key, summary) := summaries[n];
    var parts := Segments(key);
    var tree' := Insert(tree, parts, summary).value;
    InsertReaches(tree, parts, summary);
    forall i | 0 <= i < |summaries|
      ensures Latest(summaries, summaries[i].0).Some?
      ensures Lookup(tree', Segments(summaries[i].0)) == Some(Leaf(Latest(summaries, summaries[i].0).value))
    {
      var k := summaries[i].0;
      if k != key {
        assert i < n && front[i] == summaries[i];
        var p := Segments(k);
        if p == parts {
          SplitInjective(k, key, Sep);
        }
        assert !(p < parts) && !(parts < p);
        var m := FirstDifference(p, parts);
        InsertFrame(tree, parts, summary, p, m);
      }
    }
  }

  lemma StepLeaves(tree: Level, summaries: seq<(string, string)>)
    requires summaries != []
    requires LeavesAtKeys(tree, summaries[..|summaries| - 1])
    requires Insert(tree, Segments(summaries[|summaries| - 1].0), summaries[|summaries| - 1].1).Some?
    ensures LeavesAtKeys(Insert(tree, Segments(summaries[|summaries| - 1].0), summaries[|summaries| - 1].1).value, summaries)
  {
    var n := |summaries| - 1;
    var front := summaries[..n];
    var (key, summary) := summaries[n];
    var parts := Segments(key);
    var tree' := Insert(tree, parts, summary).value;
    forall path | |path| >= 1 && IsLeafAt(tree', path)
      ensures exists i :: 0 <= i < |summaries| && path == Segments(summaries[i].0)
    {
      if path == parts {
        assert path == Segments(summaries[n].0);
      } else if path < parts {
        assert path == parts[..|path|];
        InsertDirsAlong(tree, parts, summary, |path|);
        assert false;
      } else if parts < path {
        InsertCutsBelow(tree, parts, summary, path);
        assert false;
      } else {
        var m := FirstDifference(path, parts);
        InsertFrame(tree, parts, summary, path, m);
        var j :| 0 <= j < n && path == Segments(front[j].0);
        assert front[j] == summaries[j];
      }
    }
  }
}
