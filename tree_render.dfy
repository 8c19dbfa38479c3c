/**
 * The ASCII rendering of the summary tree in tree_summary/main.py. Each
 * `print` call becomes one element of the returned sequence of lines.
 *
 * The comprehensions that split a directory's children into directories and
 * files look the child up with `tree_node[item]`, where `item` is the
 * (name, value) pair produced by `.items()`. That lookup raises on every
 * non-empty directory (see module `TreeRenderAsWritten`). The model classifies each
 * child by its value instead, as the comment above those lines and the
 * `isinstance(value, dict)` test in the loop show was meant.
 */
module TreeRender {
  import opened Text
  import opened TreeBuild

  const LastConnector: string := "└── "
  const MidConnector: string := "├── "
  const LastIndent: string := "    "
  const MidIndent: string := "│   "
  const NoSummary: string := "No summary provided."
  const NoSummaries: string := "No summaries to display."

  function Connector(isLast: bool): string
  {
    if isLast then LastConnector else MidConnector
  }

  function Indent(isLast: bool): string
  {
    if isLast then LastIndent else MidIndent
  }

  /** The banner printed before the tree. */
  function Banner(projectName: string): string
  {
    "\n\n---Project Summaries: " + projectName + " ---"
  }

  /**
   * The order in which a directory's children are listed: the directories,
   * sorted by name, then the files, sorted by name.
   */
  function OrderedChildren(children: map<string, Node>): (names: seq<string>)
    ensures |names| == |children|
    ensures names == [] <==> children == map[]
    ensures forall n :: n in names <==> n in children
    ensures DirsFirstAscending(children, names)
  {
    var dirNames := set k | k in children && children[k].Dir?;
    var fileNames := set k | k in children && children[k].Leaf?;
    var names := SortedNames(dirNames) + SortedNames(fileNames);
    DirsThenFiles(children, dirNames, fileNames, SortedNames(dirNames), SortedNames(fileNames));
    names
  }

  /**
   * A listing of a directory's children: every directory before every file,
   * and names of the same kind in ascending order.
   */
  predicate DirsFirstAscending(children: map<string, Node>, names: seq<string>)
    requires forall n :: n in names ==> n in children
  {
    && (forall i, j :: 0 <= i < j < |names| && children[names[j]].Dir? ==> children[names[i]].Dir?)
    && (forall i, j :: 0 <= i < j < |names| && children[names[i]].Dir? == children[names[j]].Dir? ==>
          Below(names[i], names[j]))
  }

  lemma DirsThenFiles(children: map<string, Node>, dirNames: set<string>, fileNames: set<string>,
                      dirs: seq<string>, files: seq<string>)
    requires dirNames == set k | k in children && children[k].Dir?
    requires fileNames == set k | k in children && children[k].Leaf?
    requires |dirs| == |dirNames| && forall x :: x in dirs <==> x in dirNames
    requires |files| == |fileNames| && forall x :: x in files <==> x in fileNames
    requires forall i, j :: 0 <= i < j < |dirs| ==> Below(dirs[i], dirs[j])
    requires forall i, j :: 0 <= i < j < |files| ==> Below(files[i], files[j])
    ensures var names := dirs + files;
      && |names| == |children|
      && (names == [] <==> children == map[])
      && (forall n :: n in names <==> n in children)
      && DirsFirstAscending(children, names)
  {
    var names := dirs + files;
    assert dirNames + fileNames == children.Keys;
    assert dirNames !! fileNames;
    assert |children.Keys| == |dirNames| + |fileNames|;
    forall n ensures n in names <==> n in children {
      assert n in names <==> n in dirs || n in files;
    }
    if children != map[] {
      var n :| n in children;
      assert n in names;
    }
    forall k | 0 <= k < |names| ensures children[names[k]].Dir? <==> k < |dirs| {
      if k < |dirs| {
        assert names[k] == dirs[k] && dirs[k] in dirNames;
      } else {
        assert names[k] == files[k - |dirs|] && files[k - |dirs|] in fileNames;
      }
    }
    forall i, j | 0 <= i < j < |names| && children[names[i]].Dir? == children[names[j]].Dir?
      ensures Below(names[i], names[j])
    {
      if j < |dirs| {
        assert names[i] == dirs[i] && names[j] == dirs[j];
      } else {
        assert names[i] == files[i - |dirs|] && names[j] == files[j - |dirs|];
      }
    }
  }

  /** What `value and value.strip()` tests: the summary has a non-whitespace character. */
  predicate HasContent(summary: string)
  {
    exists k :: 0 <= k < |summary| && !IsSpace(summary[k])
  }

  /**
   * The body lines of a file: its summary split on line breaks, or the
   * placeholder when the summary is empty or whitespace only.
   */
  function SummaryLines(summary: string): (lines: seq<string>)
    ensures |lines| >= 1
    ensures !HasContent(summary) ==> lines == [NoSummary]
    ensures HasContent(summary) ==> Join(lines, '\n') == summary
    ensures forall k :: 0 <= k < |lines| ==> '\n' !in lines[k]
  {
    var content := if HasContent(summary) then summary else NoSummary;
    NoSummaryIsOneLine();
    JoinSplit(content, '\n');
    Split(content, '\n')
  }

  /** `value and value.strip()` is true exactly when the summary has content. */
  lemma HasContentIffStripped(summary: string)
    ensures HasContent(summary) <==> summary != [] && StripSpace(summary) != []
  {
    if StripSpace(summary) != [] {
      var k :| 0 <= k < |summary| && !IsSpace(summary[k]);
    }
  }

  lemma NoSummaryIsOneLine()
    ensures Split(NoSummary, '\n') == [NoSummary]
  {
    assert '\n' !in NoSummary;
  }

  /** Each line printed under `prefix`. */
  function PrefixLines(prefix: string, lines: seq<string>): (r: seq<string>)
    ensures |r| == |lines|
    ensures forall k :: 0 <= k < |r| ==> r[k] == prefix + lines[k]
  {
    seq(|lines|, k requires 0 <= k < |lines| => prefix + lines[k])
  }

  /**
   * `_recursive_print_tree_items` on a directory: every line it prints starts
   * with `prefix`, and a directory prints nothing exactly when it is empty.
   */
  function RenderDir(node: Node, prefix: string): (lines: seq<string>)
    requires node.Dir?
    ensures forall k :: 0 <= k < |lines| ==> prefix <= lines[k]
    ensures lines == [] <==> node.children == map[]
    decreases node, 1
  {
    var names := OrderedChildren(node.children);
    RenderItems(node, names, 0, prefix)
  }

  /** The loop over the ordered children from position `i` on. */
  function RenderItems(node: Node, names: seq<string>, i: nat, prefix: string): (lines: seq<string>)
    requires node.Dir? && i <= |names|
    requires forall k :: 0 <= k < |names| ==> names[k] in node.children
    ensures forall k :: 0 <= k < |lines| ==> prefix <= lines[k]
    ensures lines == [] <==> i == |names|
    decreases node, 0, |names| - i
  {
    if i == |names| then []
    else
      var isLast := i == |names| - 1;
      var below := ChildLines(node.children[names[i]], prefix + Indent(isLast));
      IndentedLinesKeepPrefix(prefix, Indent(isLast), below);
      [prefix + Connector(isLast) + names[i]] + below + RenderItems(node, names, i + 1, prefix)
  }

  /**
   * What is printed below a child's own line: a directory recursively, a
   * file as its summary lines, all under the child's prefix.
   */
  function ChildLines(value: Node, childPrefix: string): (lines: seq<string>)
    ensures forall k :: 0 <= k < |lines| ==> childPrefix <= lines[k]
    decreases value, 2
  {
    match value
    case Dir(_) => RenderDir(value, childPrefix)
    case Leaf(summary) => PrefixLines(childPrefix, SummaryLines(summary))
  }

  lemma IndentedLinesKeepPrefix(prefix: string, indent: string, lines: seq<string>)
    requires forall k :: 0 <= k < |lines| ==> prefix + indent <= lines[k]
    ensures forall k :: 0 <= k < |lines| ==> prefix <= lines[k]
  {
    forall k | 0 <= k < |lines| ensures prefix <= lines[k] {
      assert lines[k][..|prefix|] == (prefix + indent)[..|prefix|];
    }
  }

  /** `print_summaries_tree`: the lines it prints, and whether the builder raised. */
  method PrintSummariesTree(projectName: string, summaries: seq<(string, string)>)
    returns (output: seq<string>, raised: bool)
    requires DistinctKeys(summaries)
    ensures summaries == [] ==> output == [NoSummaries] && !raised
    ensures summaries != [] ==> raised == Build(summaries).None?
    ensures summaries != [] && raised ==> output == [Banner(projectName)]
    ensures summaries != [] && !raised ==>
              output == [Banner(projectName)] + RenderDir(Dir(Build(summaries).value), "")
    ensures summaries != [] && !raised ==> |output| >= 2
  {
    if summaries == [] {
      return [NoSummaries], false;
    }
    output := [Banner(projectName)];
    var tree := BuildFileTree(summaries);
    if tree.None? {
      return output, true;
    }
    BuildNonEmpty(summaries);
    output := output + RenderDir(Dir(tree.value), "");
    raised := false;
  }

  /** A non-empty mapping that builds gives a non-empty root. */
  lemma BuildNonEmpty(summaries: seq<(string, string)>)
    requires summaries != [] && Build(summaries).Some?
    ensures Build(summaries).value != map[]
  {
    var n := |summaries| - 1;
    var tree := Build(summaries[..n]).value;
  }

  // ---------------------------------------------------------------------
  // Connector lines
  // ---------------------------------------------------------------------

  /** A line that names a child of the directory printed under `prefix`. */
  predicate IsHeader(line: string, prefix: string)
  {
    |line| > |prefix| && prefix <= line && (line[|prefix|] == '├' || line[|prefix|] == '└')
  }

  function Headers(lines: seq<string>, prefix: string): (r: seq<string>)
    decreases |lines|
  {
    if lines == [] then []
    else (if IsHeader(lines[0], prefix) then [lines[0]] else []) + Headers(lines[1..], prefix)
  }

  lemma {:induction false} HeadersAppend(a: seq<string>, b: seq<string>, prefix: string)
    ensures Headers(a + b, prefix) == Headers(a, prefix) + Headers(b, prefix)
    decreases |a|
  {
    if a != [] {
      var first := if IsHeader(a[0], prefix) then [a[0]] else [];
      assert (a + b)[0] == a[0];
      assert (a + b)[1..] == a[1..] + b;
      assert Headers(a + b, prefix) == first + Headers(a[1..] + b, prefix);
      HeadersAppend(a[1..], b, prefix);
      assert Headers(a, prefix) == first + Headers(a[1..], prefix);
    } else {
      assert a + b == b;
    }
  }

  /** Lines indented below a child are never connector lines of the parent. */
  lemma {:induction false} IndentedHaveNoHeaders(lines: seq<string>, prefix: string, isLast: bool)
    requires forall k :: 0 <= k < |lines| ==> prefix + Indent(isLast) <= lines[k]
    ensures Headers(lines, prefix) == []
    decreases |lines|
  {
    if lines != [] {
      assert lines[0][|prefix|] == (prefix + Indent(isLast))[|prefix|];
      IndentedHaveNoHeaders(lines[1..], prefix, isLast);
    }
  }

  /** The line of a child is a connector line of its parent. */
  lemma ConnectorLineIsHeader(prefix: string, isLast: bool, name: string)
    ensures Headers([prefix + Connector(isLast) + name], prefix) == [prefix + Connector(isLast) + name]
  {
    var line := prefix + Connector(isLast) + name;
    assert line[|prefix|] == Connector(isLast)[0];
    assert line[..|prefix|] == prefix;
    assert IsHeader(line, prefix);
    var single: seq<string> := [line];
    assert single[1..] == [];
  }

  /** Of one child's lines, only its own line is a connector line of the parent. */
  lemma BlockHeaders(prefix: string, isLast: bool, name: string, below: seq<string>)
    requires forall k :: 0 <= k < |below| ==> prefix + Indent(isLast) <= below[k]
    ensures Headers([prefix + Connector(isLast) + name] + below, prefix) == [prefix + Connector(isLast) + name]
  {
    HeadersAppend([prefix + Connector(isLast) + name], below, prefix);
    ConnectorLineIsHeader(prefix, isLast, name);
    IndentedHaveNoHeaders(below, prefix, isLast);
  }

  /**
   * The connector line of each name in `names` under `prefix`: `└── ` for
   * the last one, `├── ` for every other one.
   */
  function ConnectorLines(names: seq<string>, prefix: string): seq<string>
  {
    seq(|names|, k requires 0 <= k < |names| => prefix + Connector(k == |names| - 1) + names[k])
  }

  /**
   * The connector lines of a directory name its children in listing order,
   * each once, the last one with `└── ` and every other one with `├── `.
   */
  lemma RenderHeaders(node: Node, prefix: string)
    requires node.Dir?
    ensures Headers(RenderDir(node, prefix), prefix) == ConnectorLines(OrderedChildren(node.children), prefix)
  {
    var names := OrderedChildren(node.children);
    DirListing(node, prefix);
    RenderItemsHeaders(node, names, 0, prefix);
    assert names[0..] == names;
  }

  lemma {:induction false} RenderItemsHeaders(node: Node, names: seq<string>, i: nat, prefix: string)
    requires node.Dir? && i <= |names|
    requires forall k :: 0 <= k < |names| ==> names[k] in node.children
    ensures Headers(RenderItems(node, names, i, prefix), prefix) == ConnectorLines(names[i..], prefix)
    decreases |names| - i
  {
    if i < |names| {
      var isLast := i == |names| - 1;
      var below := ChildLines(node.children[names[i]], prefix + Indent(isLast));
      var header := prefix + Connector(isLast) + names[i];
      var rest := RenderItems(node, names, i + 1, prefix);
      assert RenderItems(node, names, i, prefix) == [header] + below + rest;
      HeadersAppend([header] + below, rest, prefix);
      BlockHeaders(prefix, isLast, names[i], below);
      RenderItemsHeaders(node, names, i + 1, prefix);
      ConnectorLinesCons(names, i, prefix);
    } else {
      assert names[i..] == [];
    }
  }

  lemma ConnectorLinesCons(names: seq<string>, i: nat, prefix: string)
    requires i < |names|
    ensures ConnectorLines(names[i..], prefix)
            == [prefix + Connector(i == |names| - 1) + names[i]] + ConnectorLines(names[i + 1..], prefix)
  {
    var a := ConnectorLines(names[i..], prefix);
    var b := [prefix + Connector(i == |names| - 1) + names[i]] + ConnectorLines(names[i + 1..], prefix);
    assert |a| == |b|;
    forall k | 0 <= k < |a| ensures a[k] == b[k] {
      if k > 0 {
        assert names[i..][k] == names[i + 1..][k - 1];
      }
    }
  }

  // ---------------------------------------------------------------------
  // Continuation prefixes
  // ---------------------------------------------------------------------

  /** A line printed while further children of the directory follow. */
  predicate OpenLine(line: string, prefix: string)
  {
    prefix + MidConnector <= line || prefix + MidIndent <= line
  }

  /** A line printed below the last child of the directory. */
  predicate ClosedLine(line: string, prefix: string)
  {
    prefix + LastIndent <= line
  }

  /**
   * `lines[k]` is `header`; the lines before it are open lines and the
   * lines after it closed ones.
   */
  predicate SplitAt(lines: seq<string>, k: int, header: string, prefix: string)
  {
    && 0 <= k < |lines|
    && lines[k] == header
    && (forall j :: 0 <= j < k ==> OpenLine(lines[j], prefix))
    && (forall j :: k < j < |lines| ==> ClosedLine(lines[j], prefix))
  }

  /**
   * A non-empty directory prints, before the line of its last child, only
   * lines beginning with `├── ` or `│   ` after the prefix, and after it only
   * the last child's own lines, beginning with four spaces: the vertical bar
   * continues exactly while more children follow.
   */
  lemma RenderIndents(node: Node, prefix: string)
    requires node.Dir? && node.children != map[]
    ensures var names := OrderedChildren(node.children);
            var lines := RenderDir(node, prefix);
            SplitAt(lines, |lines| - 1 - |ClosingBlock(node, names, prefix)|,
                    prefix + LastConnector + names[|names| - 1], prefix)
  {
    var names := OrderedChildren(node.children);
    DirListing(node, prefix);
    RenderItemsIndents(node, names, 0, prefix);
    var lines := RenderDir(node, prefix);
    var k := |lines| - 1 - |ClosingBlock(node, names, prefix)|;
    assert 0 <= k < |lines|;
    assert lines[k] == prefix + LastConnector + names[|names| - 1];
    assert forall j :: 0 <= j < k ==> OpenLine(lines[j], prefix);
    assert forall j :: k < j < |lines| ==> ClosedLine(lines[j], prefix);
  }

  /** The listing of a directory is the loop over its ordered children from the first. */
  lemma DirListing(node: Node, prefix: string)
    requires node.Dir?
    ensures RenderDir(node, prefix) == RenderItems(node, OrderedChildren(node.children), 0, prefix)
  {
  }

  /** The lines printed below the child listed last. */
  function ClosingBlock(node: Node, names: seq<string>, prefix: string): seq<string>
    requires node.Dir? && |names| > 0 && names[|names| - 1] in node.children
  {
    ChildLines(node.children[names[|names| - 1]], prefix + LastIndent)
  }

  lemma {:induction false} RenderItemsIndents(node: Node, names: seq<string>, i: nat, prefix: string)
    requires node.Dir? && i < |names|
    requires forall k :: 0 <= k < |names| ==> names[k] in node.children
    ensures var lines := RenderItems(node, names, i, prefix);
            SplitAt(lines, |lines| - 1 - |ClosingBlock(node, names, prefix)|,
                    prefix + LastConnector + names[|names| - 1], prefix)
    decreases |names| - i
  {
    if i == |names| - 1 {
      LastItemIndents(node, names, i, prefix);
    } else {
      RenderItemsIndents(node, names, i + 1, prefix);
      ItemIndentsStep(node, names, i, prefix);
    }
  }

  lemma LastItemIndents(node: Node, names: seq<string>, i: nat, prefix: string)
    requires node.Dir? && i == |names| - 1
    requires forall k :: 0 <= k < |names| ==> names[k] in node.children
    ensures var lines := RenderItems(node, names, i, prefix);
            SplitAt(lines, |lines| - 1 - |ClosingBlock(node, names, prefix)|,
                    prefix + LastConnector + names[|names| - 1], prefix)
  {
    var below := ClosingBlock(node, names, prefix);
    var header := prefix + LastConnector + names[i];
    assert RenderItems(node, names, i + 1, prefix) == [];
    assert RenderItems(node, names, i, prefix) == [header] + below + [];
    LastChildLines(header, below, prefix);
  }

  lemma ItemIndentsStep(node: Node, names: seq<string>, i: nat, prefix: string)
    requires node.Dir? && i < |names| - 1
    requires forall k :: 0 <= k < |names| ==> names[k] in node.children
    requires var rest := RenderItems(node, names, i + 1, prefix);
             SplitAt(rest, |rest| - 1 - |ClosingBlock(node, names, prefix)|,
                     prefix + LastConnector + names[|names| - 1], prefix)
    ensures var lines := RenderItems(node, names, i, prefix);
            SplitAt(lines, |lines| - 1 - |ClosingBlock(node, names, prefix)|,
                    prefix + LastConnector + names[|names| - 1], prefix)
  {
    var below := ChildLines(node.children[names[i]], prefix + MidIndent);
    var header := prefix + MidConnector + names[i];
    var rest := RenderItems(node, names, i + 1, prefix);
    assert RenderItems(node, names, i, prefix) == [header] + below + rest;
    OpenChildLines(header, below, prefix, names[i]);
    ConcatLines([header] + below, rest, prefix, |rest| - 1 - |ClosingBlock(node, names, prefix)|,
                prefix + LastConnector + names[|names| - 1]);
  }

  /** The lines of the last child: its connector line, then closed lines. */
  lemma LastChildLines(header: string, below: seq<string>, prefix: string)
    requires forall k :: 0 <= k < |below| ==> prefix + LastIndent <= below[k]
    ensures SplitAt([header] + below, 0, header, prefix)
  {
    var lines := [header] + below;
    forall j | 0 < j < |lines| ensures ClosedLine(lines[j], prefix) {
      assert lines[j] == below[j - 1];
    }
  }

  /** The lines of a child other than the last: all open lines. */
  lemma OpenChildLines(header: string, below: seq<string>, prefix: string, name: string)
    requires header == prefix + MidConnector + name
    requires forall k :: 0 <= k < |below| ==> prefix + MidIndent <= below[k]
    ensures var lines := [header] + below;
            forall j :: 0 <= j < |lines| ==> OpenLine(lines[j], prefix)
  {
    var lines := [header] + below;
    assert header[..|prefix + MidConnector|] == prefix + MidConnector;
    assert OpenLine(lines[0], prefix);
    forall j | 0 < j < |lines| ensures OpenLine(lines[j], prefix) {
      assert lines[j] == below[j - 1];
    }
  }

  /** Open lines put in front of lines split at `k` move the split by their number. */
  lemma ConcatLines(block: seq<string>, rest: seq<string>, prefix: string, k: int, header: string)
    requires forall j :: 0 <= j < |block| ==> OpenLine(block[j], prefix)
    requires SplitAt(rest, k, header, prefix)
    ensures SplitAt(block + rest, |block| + k, header, prefix)
  {
    var lines := block + rest;
    forall j | |block| <= j < |lines| ensures lines[j] == rest[j - |block|] { }
  }
}
