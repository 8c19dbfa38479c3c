/**
 * The directory renderer of tree_summary/main.py as its source spells it:
 * the two comprehensions that split a directory's children subscript the
 * dictionary with the whole (name, value) pair that `.items()` yields.
 */
module TreeRenderAsWritten {
  import opened Text
  import opened TreeBuild
  import opened TreeRender
  import opened Wrappers

  /** A key handed to a dictionary subscript: a name, or a (name, value) pair from `.items()`. */
  datatype PyKey = Str(name: string) | Pair(first: string, second: Node)

  /** The outcome of `d[key]`: the value, or the exception Python raises. */
  datatype Subscripted = Found(node: Node) | KeyError | TypeError

  /** A pair holding a dictionary cannot be hashed; a name or a pair of two strings can. */
  predicate Hashable(key: PyKey)
  {
    key.Str? || key.second.Leaf?
  }

  /**
   * `d[key]` on a directory dictionary, whose keys are names: an unhashable
   * key raises TypeError, a key that is not one of the names raises KeyError.
   */
  function Subscript(children: map<string, Node>, key: PyKey): (r: Subscripted)
    ensures r.Found? <==> key.Str? && key.name in children
    ensures r.Found? ==> r.node == children[key.name]
    ensures r == TypeError <==> !Hashable(key)
  {
    if !Hashable(key) then TypeError
    else if key.Str? && key.name in children then Found(children[key.name])
    else KeyError
  }

  /** `items` lists the (name, value) pairs of `children`, in some order. */
  predicate ItemsOf(children: map<string, Node>, items: seq<(string, Node)>)
  {
    && (forall k :: 0 <= k < |items| ==> items[k].0 in children && children[items[k].0] == items[k].1)
    && (forall n :: n in children ==> exists k :: 0 <= k < |items| && items[k].0 == n)
  }

  /** The outcome of one of the two list comprehensions. */
  datatype Filtered = Kept(items: seq<(string, Node)>) | Raised(error: Subscripted)

  /** The subscript as written: the whole pair. */
  function PairKey(item: (string, Node)): PyKey
  {
    Pair(item.0, item.1)
  }

  /** The subscript that was meant: the child's name. */
  function NameKey(item: (string, Node)): PyKey
  {
    Str(item.0)
  }

  /**
   * `[item for item in tree_node.items() if isinstance(tree_node[key(item)], dict)]`
   * when `dirs` holds, and the same with `not` otherwise. The source writes
   * `key(item)` as `item` itself (`PairKey`); the first exception ends the
   * comprehension.
   */
  function Filter(children: map<string, Node>, items: seq<(string, Node)>, dirs: bool,
                  key: ((string, Node)) -> PyKey): Filtered
    decreases |items|
  {
    if items == [] then Kept([])
    else
      match Subscript(children, key(items[0]))
      case Found(value) =>
        (match Filter(children, items[1..], dirs, key)
         case Raised(e) => Raised(e)
         case Kept(rest) => Kept((if value.Dir? == dirs then [items[0]] else []) + rest))
      case error => Raised(error)
  }

  /**
   * Subscripted by name, the comprehension never raises and keeps exactly
   * the directories (or exactly the files), in the order of `.items()`.
   */
  lemma {:induction false} FilterByName(children: map<string, Node>, items: seq<(string, Node)>, dirs: bool)
    requires forall k :: 0 <= k < |items| ==> items[k].0 in children && children[items[k].0] == items[k].1
    ensures Filter(children, items, dirs, NameKey).Kept?
    ensures forall p :: p in Filter(children, items, dirs, NameKey).items <==> p in items && p.1.Dir? == dirs
    decreases |items|
  {
    if items != [] {
      FilterByName(children, items[1..], dirs);
      assert forall p :: p in items <==> p == items[0] || p in items[1..];
    }
  }

  /**
   * The renderer as the source spells it: the directory filter runs first,
   * then the file filter; `None` is an exception out of either. Once both
   * return, the loop is the one `RenderDir` models.
   */
  function RenderAsWritten(node: Node, prefix: string, items: seq<(string, Node)>): Option<seq<string>>
    requires node.Dir?
  {
    match Filter(node.children, items, true, PairKey)
    case Raised(_) => None
    case Kept(_) =>
      match Filter(node.children, items, false, PairKey)
      case Raised(_) => None
      case Kept(_) => Some(RenderDir(node, prefix))
  }

  /**
   * Subscripted by the pair, a filter raises on its first pair: TypeError
   * when that child is a directory, KeyError when it is a file.
   */
  lemma FirstPairRaises(children: map<string, Node>, items: seq<(string, Node)>, dirs: bool)
    requires items != []
    ensures Filter(children, items, dirs, PairKey) == Raised(if items[0].1.Dir? then TypeError else KeyError)
  {
  }

  /**
   * On every non-empty directory the renderer as written raises, while the
   * intended renderer prints a connector line for each child.
   */
  lemma AsWrittenRaises(node: Node, prefix: string, items: seq<(string, Node)>)
    requires node.Dir? && node.children != map[] && ItemsOf(node.children, items)
    ensures items != []
    ensures Filter(node.children, items, true, PairKey) == Raised(if items[0].1.Dir? then TypeError else KeyError)
    ensures RenderAsWritten(node, prefix, items).None?
    ensures |Headers(RenderDir(node, prefix), prefix)| == |node.children| >= 1
  {
    ItemsNonEmpty(node.children, items);
    FirstPairRaises(node.children, items, true);
    RenderHeaders(node, prefix);
  }

  lemma ItemsNonEmpty(children: map<string, Node>, items: seq<(string, Node)>)
    requires children != map[] && ItemsOf(children, items)
    ensures items != []
  {
    var n :| n in children;
    assert exists k :: 0 <= k < |items| && items[k].0 == n;
  }

  /** The smallest input that shows it: one file in the root. */
  lemma AsWrittenRaisesOnOneFile()
    ensures RenderAsWritten(Dir(map["b.py" := Leaf("s1")]), "", [("b.py", Leaf("s1"))]).None?
    ensures RenderDir(Dir(map["b.py" := Leaf("s1")]), "") == [LastConnector + "b.py", LastIndent + "s1"]
  {
    var node := Dir(map["b.py" := Leaf("s1")]);
    FirstPairRaises(node.children, [("b.py", Leaf("s1"))], true);
    OneFileRendering();
  }

  lemma OneFileRendering()
    ensures RenderDir(Dir(map["b.py" := Leaf("s1")]), "") == [LastConnector + "b.py", LastIndent + "s1"]
  {
    assert HasContent("s1") by {
      assert !IsSpace("s1"[0]);
    }
    assert '\n' !in "s1";
    OneFile("b.py", "s1", "");
    assert "" + LastConnector + "b.py" == LastConnector + "b.py";
    assert "" + LastIndent + "s1" == LastIndent + "s1";
  }

  /** A directory holding one file with a one-line summary prints two lines. */
  lemma OneFile(name: string, summary: string, prefix: string)
    requires HasContent(summary) && '\n' !in summary
    ensures RenderDir(Dir(map[name := Leaf(summary)]), prefix) ==
            [prefix + LastConnector + name, prefix + LastIndent + summary]
  {
    var node := Dir(map[name := Leaf(summary)]);
    OnlyName(node.children, name);
    SingleChild(node, name, prefix);
    OneLine(summary, prefix + LastIndent);
  }

  /** A directory with a single child prints its line and what lies below it. */
  lemma SingleChild(node: Node, name: string, prefix: string)
    requires node.Dir? && name in node.children && OrderedChildren(node.children) == [name]
    ensures RenderDir(node, prefix) ==
            [prefix + LastConnector + name] + ChildLines(node.children[name], prefix + LastIndent)
  {
    var names := [name];
    assert RenderItems(node, names, 1, prefix) == [];
  }

  lemma OnlyName(children: map<string, Node>, name: string)
    requires children.Keys == {name}
    ensures OrderedChildren(children) == [name]
  {
    assert name in OrderedChildren(children);
  }

  lemma OneLine(summary: string, childPrefix: string)
    requires HasContent(summary) && '\n' !in summary
    ensures ChildLines(Leaf(summary), childPrefix) == [childPrefix + summary]
  {
    assert SummaryLines(summary) == [summary];
  }
}
