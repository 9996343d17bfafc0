/**
 * The column-layout plugin: counting the columns of a CSS grid template,
 * inserting a layout container, growing or shrinking a container's items
 * when its template changes, the two node transforms that unwrap a
 * misplaced item or a malformed container, and the arrow-key escape out of
 * a container.
 *
 * The editor's node tree is a value: a node has a kind and a sequence of
 * children, and a node is identified by its path of child indices from the
 * root.
 */
module Layout {
  import opened Wrappers
  import JsText

  datatype Kind = Root | Paragraph | Text(text: string) | Container(template: string) | Item | Other(name: string)

  datatype Node = Node(kind: Kind, children: seq<Node>)

  predicate IsItem(n: Node) {
    n.kind == Item
  }

  predicate IsContainer(n: Node) {
    n.kind.Container?
  }

  /** A fresh layout item holding one empty paragraph. */
  function NewItem(): Node {
    Node(Item, [Node(Paragraph, [])])
  }

  // getItemsCountFromTemplate

  /** `template.trim().split(/\s+/).length`. */
  function ItemsCount(template: string): (n: nat)
    ensures n >= 1
  {
    JsText.PieceCount(template, JsText.IsSpace)
  }

  /** The count is the number of whitespace-separated tracks, and 1 for a blank template. */
  lemma ItemsCountIsTrackCount(template: string)
    ensures ItemsCount(template) == if JsText.RunCount(template, JsText.IsSpace) == 0 then 1
                                    else JsText.RunCount(template, JsText.IsSpace)
  {
    JsText.PieceCountIsWordCount(template, JsText.IsSpace);
  }

  /** Number of tracks in a template made of words separated by single spaces. */
  lemma {:induction false} TracksOfWords(words: seq<string>)
    requires forall k :: 0 <= k < |words| ==> words[k] != [] && JsText.NoSeparator(words[k], JsText.IsSpace)
    ensures JsText.RunCount(JoinWords(words), JsText.IsSpace) == |words|
  {
    if words != [] {
      var w := words[0];
      var s := JoinWords(words);
      JsText.RunStartsOverWord(s, |w|, JsText.IsSpace);
      if |words| > 1 {
        var rest := JoinWords(words[1..]);
        assert s == w + " " + rest;
        assert s[|w| + 1..] == rest;
        assert s[..|w| + 1] == w + " ";
        JsText.RunStartsShift(s, |w| + 1, |s|, JsText.IsSpace);
        JsText.RunStartsPrefix(s, |s|, |w| + 1, JsText.IsSpace);
        assert JsText.RunStarts(s, |w| + 1, JsText.IsSpace) == JsText.RunStarts(s, |w|, JsText.IsSpace);
        assert rest[..|s| - (|w| + 1)] == rest;
        TracksOfWords(words[1..]);
      } else {
        assert s == w;
      }
    }
  }

  function JoinWords(words: seq<string>): string {
    if words == [] then "" else if |words| == 1 then words[0] else words[0] + " " + JoinWords(words[1..])
  }

  /** The five templates offered by the insert dialog give 2, 2, 3, 3 and 4 columns. */
  lemma PresetCounts()
    ensures ItemsCount("1fr 1fr") == 2
    ensures ItemsCount("1fr 3fr") == 2
    ensures ItemsCount("1fr 1fr 1fr") == 3
    ensures ItemsCount("1fr 2fr 1fr") == 3
    ensures ItemsCount("1fr 1fr 1fr 1fr") == 4
  {
    TwoColumns('1', '1');
    TwoColumns('1', '3');
    ThreeColumns('1', '1', '1');
    ThreeColumns('1', '2', '1');
    FourColumns();
  }

  lemma TwoColumns(a: char, b: char)
    requires '0' <= a <= '9' && '0' <= b <= '9'
    ensures ItemsCount([a, 'f', 'r', ' ', b, 'f', 'r']) == 2
  {
    FractionWord(a);
    FractionWord(b);
    Preset([[a, 'f', 'r'], [b, 'f', 'r']], [a, 'f', 'r', ' ', b, 'f', 'r']);
  }

  lemma ThreeColumns(a: char, b: char, c: char)
    requires '0' <= a <= '9' && '0' <= b <= '9' && '0' <= c <= '9'
    ensures ItemsCount([a, 'f', 'r', ' ', b, 'f', 'r', ' ', c, 'f', 'r']) == 3
  {
    FractionWord(a);
    FractionWord(b);
    FractionWord(c);
    var words := [[a, 'f', 'r'], [b, 'f', 'r'], [c, 'f', 'r']];
    assert JoinWords(words[1..]) == [b, 'f', 'r', ' ', c, 'f', 'r'];
    Preset([[a, 'f', 'r'], [b, 'f', 'r'], [c, 'f', 'r']], [a, 'f', 'r', ' ', b, 'f', 'r', ' ', c, 'f', 'r']);
  }

  lemma FourColumns()
    ensures ItemsCount("1fr 1fr 1fr 1fr") == 4
  {
    FractionWord('1');
    Preset(["1fr", "1fr", "1fr", "1fr"], "1fr 1fr 1fr 1fr");
  }

  lemma Preset(words: seq<string>, template: string)
    requires words != [] && JoinWords(words) == template
    requires forall k :: 0 <= k < |words| ==> words[k] != [] && JsText.NoSeparator(words[k], JsText.IsSpace)
    ensures ItemsCount(template) == |words|
  {
    TracksOfWords(words);
    ItemsCountIsTrackCount(template);
  }

  lemma FractionWord(d: char)
    requires '0' <= d <= '9'
    ensures JsText.NoSeparator([d, 'f', 'r'], JsText.IsSpace)
  {
  }

  // INSERT_LAYOUT_COMMAND

  /** Copies of a new item. */
  function NewItems(n: nat): (items: seq<Node>)
    ensures |items| == n && forall k :: 0 <= k < n ==> items[k] == NewItem()
  {
    seq(n, _ => NewItem())
  }

  /** The container the insert command builds: one item, each with a paragraph, per track of the template. */
  method NewContainer(template: string) returns (container: Node)
    ensures container.kind == Container(template)
    ensures |container.children| == ItemsCount(template)
    ensures forall k :: 0 <= k < |container.children| ==> container.children[k] == NewItem()
  {
    var itemsCount := ItemsCount(template);
    var children: seq<Node> := [];
    for i := 0 to itemsCount
      invariant children == NewItems(i)
    {
      children := children + [NewItem()];
    }
    container := Node(Container(template), children);
  }

  // UPDATE_LAYOUT_COMMAND

  function Min(a: int, b: int): int {
    if a < b then a else b
  }

  /** The children of `s` that are not layout items, in order. */
  function NonItems(s: seq<Node>): (r: seq<Node>)
    ensures |r| <= |s|
  {
    if s == [] then [] else (if IsItem(s[0]) then [] else [s[0]]) + NonItems(s[1..])
  }

  lemma {:induction false} NonItemsSplit(s: seq<Node>, k: nat)
    requires k < |s|
    ensures NonItems(s[k..]) == (if IsItem(s[k]) then [] else [s[k]]) + NonItems(s[k + 1..])
  {
    assert s[k..][1..] == s[k + 1..];
  }

  /**
   * The children after an update from `prev` to `count` tracks: new items are
   * appended for a larger count; for a smaller count the items among the
   * positions `count .. prev - 1` are removed and everything else stays.
   */
  function ResizedChildren(c: seq<Node>, prev: nat, count: nat): seq<Node> {
    if count > prev then c + NewItems(count - prev)
    else if count < prev then
      var m := Min(prev, |c|);
      var b := Min(count, |c|);
      c[..b] + NonItems(c[b..m]) + c[m..]
    else c
  }

  /** The two loops of the update handler. */
  method ResizeItems(c: seq<Node>, prev: nat, count: nat) returns (r: seq<Node>)
    ensures r == ResizedChildren(c, prev, count)
  {
    r := c;
    if count > prev {
      for i := prev to count
        invariant r == c + NewItems(i - prev)
      {
        r := r + [NewItem()];
      }
    } else if count < prev {
      var m := Min(prev, |c|);
      var i: int := prev - 1;
      while i >= count
        invariant count - 1 <= i <= prev - 1
        invariant r == Shrunk(c, i + 1, m)
        decreases i
      {
        if i < |c| {
          ShrinkStep(c, i, m);
          if IsItem(r[i]) {
            r := r[..i] + r[i + 1..];
          }
        }
        i := i - 1;
      }
    }
  }

  /** The children once the positions from `b` up to `m` have been visited by the shrinking loop. */
  function Shrunk(c: seq<Node>, b: int, m: nat): seq<Node>
    requires m <= |c|
  {
    var b' := if b < 0 then 0 else Min(b, m);
    c[..b'] + NonItems(c[b'..m]) + c[m..]
  }

  lemma ShrinkStep(c: seq<Node>, i: nat, m: nat)
    requires i < m <= |c|
    ensures var r := Shrunk(c, i + 1, m);
      i < |r| && r[i] == c[i]
      && (IsItem(c[i]) ==> r[..i] + r[i + 1..] == Shrunk(c, i, m))
      && (!IsItem(c[i]) ==> r == Shrunk(c, i, m))
  {
    var a, x, mid, post := c[..i], c[i], c[i + 1..m], c[m..];
    ShrunkAt(c, i + 1, m);
    ShrunkAt(c, i, m);
    assert c[..i + 1] == a + [x];
    assert c[i..m] == [x] + mid;
    NonItemsStep([x] + mid);
    assert ([x] + mid)[1..] == mid;
    DropAt(a, x, NonItems(mid), post);
  }

  lemma ShrunkAt(c: seq<Node>, b: nat, m: nat)
    requires b <= m <= |c|
    ensures Shrunk(c, b, m) == c[..b] + NonItems(c[b..m]) + c[m..]
  {
  }

  lemma NonItemsStep(s: seq<Node>)
    requires s != []
    ensures NonItems(s) == (if IsItem(s[0]) then [] else [s[0]]) + NonItems(s[1..])
  {
  }

  /** Removing the element just after a prefix, or keeping it. */
  lemma DropAt<T>(a: seq<T>, x: T, n: seq<T>, post: seq<T>)
    ensures var r := a + [x] + n + post;
      |a| < |r| && r[|a|] == x && r[..|a|] + r[|a| + 1..] == a + ([] + n) + post && r == a + ([x] + n) + post
  {
    var r := a + [x] + n + post;
    assert r[..|a|] == a;
    assert r[|a| + 1..] == n + post;
  }

  /** No non-items among items. */
  lemma {:induction false} NonItemsOfItems(s: seq<Node>)
    requires forall k :: 0 <= k < |s| ==> IsItem(s[k])
    ensures NonItems(s) == []
  {
    if s != [] {
      NonItemsOfItems(s[1..]);
    }
  }

  /**
   * On a well-formed container, whose children are exactly `prev` items, the
   * update leaves exactly `count` items: the first `min(prev, count)` kept in
   * order and new ones appended.
   */
  lemma ResizeWellFormed(c: seq<Node>, prev: nat, count: nat)
    requires |c| == prev && forall k :: 0 <= k < |c| ==> IsItem(c[k])
    ensures var r := ResizedChildren(c, prev, count);
      |r| == count
      && (forall k :: 0 <= k < |r| ==> IsItem(r[k]))
      && r[..Min(prev, count)] == c[..Min(prev, count)]
      && forall k :: prev <= k < count ==> r[k] == NewItem()
  {
    if count < prev {
      NonItemsOfItems(c[count..prev]);
    }
  }

  // Nodes by path

  function NodeAt(n: Node, path: seq<nat>): Option<Node> {
    if path == [] then Some(n)
    else if path[0] < |n.children| then NodeAt(n.children[path[0]], path[1..])
    else None
  }

  function ReplaceAt(n: Node, path: seq<nat>, m: Node): Node
    requires NodeAt(n, path).Some?
  {
    if path == [] then m
    else n.(children := n.children[path[0] := ReplaceAt(n.children[path[0]], path[1..], m)])
  }

  /** After a replacement the path leads to the new node. */
  lemma {:induction false} ReplaceAtFinds(n: Node, path: seq<nat>, m: Node)
    requires NodeAt(n, path).Some?
    ensures NodeAt(ReplaceAt(n, path, m), path) == Some(m)
  {
    if path != [] {
      ReplaceAtFinds(n.children[path[0]], path[1..], m);
    }
  }

  /** A replacement leaves every node off the replaced path where it was. */
  lemma {:induction false} ReplaceAtElsewhere(n: Node, path: seq<nat>, m: Node, other: seq<nat>, k: nat)
    requires NodeAt(n, path).Some?
    requires k < |path| && k < |other| && path[..k] == other[..k] && path[k] != other[k]
    ensures NodeAt(ReplaceAt(n, path, m), other) == NodeAt(n, other)
  {
    if k > 0 {
      assert path[0] == path[..k][0] == other[..k][0] == other[0];
      assert path[1..][..k - 1] == path[..k][1..] && other[1..][..k - 1] == other[..k][1..];
      ReplaceAtElsewhere(n.children[path[0]], path[1..], m, other[1..], k - 1);
    }
  }

  /** A node's parent exists. */
  lemma {:induction false} NodeAtPrefix(n: Node, path: seq<nat>, k: nat)
    requires k <= |path| && NodeAt(n, path).Some?
    ensures NodeAt(n, path[..k]).Some?
  {
    if k > 0 {
      NodeAtPrefix(n.children[path[0]], path[1..], k - 1);
      assert path[..k][1..] == path[1..][..k - 1];
    }
  }

  lemma {:induction false} NodeAtChild(n: Node, path: seq<nat>)
    requires path != [] && NodeAt(n, path).Some?
    ensures NodeAt(n, path[..|path| - 1]).Some?
    ensures path[|path| - 1] < |NodeAt(n, path[..|path| - 1]).value.children|
    ensures NodeAt(n, path[..|path| - 1]).value.children[path[|path| - 1]] == NodeAt(n, path).value
  {
    if |path| > 1 {
      NodeAtChild(n.children[path[0]], path[1..]);
      assert path[1..][..|path[1..]| - 1] == path[..|path| - 1][1..];
    }
  }

  /**
   * The update command on the node with path `key`: a layout container gets
   * its items resized and the new template; any other node, or no node,
   * leaves the tree as it is. The command is always reported handled.
   */
  method UpdateLayout(root: Node, key: seq<nat>, template: string) returns (handled: bool, result: Node)
    ensures handled
    ensures NodeAt(root, key).None? || !IsContainer(NodeAt(root, key).value) ==> result == root
    ensures NodeAt(root, key).Some? && IsContainer(NodeAt(root, key).value) ==>
      var old_ := NodeAt(root, key).value;
      var updated := Node(Container(template),
        ResizedChildren(old_.children, ItemsCount(old_.kind.template), ItemsCount(template)));
      result == ReplaceAt(root, key, updated) && NodeAt(result, key) == Some(updated)
  {
    handled := true;
    result := root;
    var found := NodeAt(root, key);
    if found.None? || !IsContainer(found.value) {
      return;
    }
    var container := found.value;
    var itemsCount := ItemsCount(template);
    var prevItemsCount := ItemsCount(container.kind.template);
    var children := ResizeItems(container.children, prevItemsCount, itemsCount);
    var updated := Node(Container(template), children);
    result := ReplaceAt(root, key, updated);
    ReplaceAtFinds(root, key, updated);
  }

  // The node transforms

  /**
   * Moves every child of `siblings[i]` in front of it, in order, and removes
   * it: the loop of both transforms.
   */
  method Unwrap(siblings: seq<Node>, i: nat) returns (r: seq<Node>)
    requires i < |siblings|
    ensures r == siblings[..i] + siblings[i].children + siblings[i + 1..]
  {
    var node := siblings[i];
    var children := node.children;
    r := siblings;
    assert r == siblings[..i] + children[..0] + [node] + siblings[i + 1..];
    var at := i;
    for k := 0 to |children|
      invariant at == i + k
      invariant r == siblings[..i] + children[..k] + [node] + siblings[i + 1..]
    {
      assert children[..k + 1] == children[..k] + [children[k]];
      r := r[..at] + [children[k]] + r[at..];
      at := at + 1;
    }
    assert children[..|children|] == children;
    r := r[..at] + r[at + 1..];
  }

  /** The transform for a layout item: one whose parent is not a container is replaced by its children. */
  method TransformItem(parent: Node, i: nat) returns (result: Node)
    requires i < |parent.children| && IsItem(parent.children[i])
    ensures IsContainer(parent) ==> result == parent
    ensures !IsContainer(parent) ==>
      result == parent.(children := parent.children[..i] + parent.children[i].children + parent.children[i + 1..])
  {
    result := parent;
    if !IsContainer(parent) {
      var children := Unwrap(parent.children, i);
      result := parent.(children := children);
    }
  }

  predicate AllItems(s: seq<Node>) {
    forall k :: 0 <= k < |s| ==> IsItem(s[k])
  }

  /** The transform for a layout container: one with any child that is not an item is replaced by its children. */
  method TransformContainer(parent: Node, i: nat) returns (result: Node)
    requires i < |parent.children| && IsContainer(parent.children[i])
    ensures AllItems(parent.children[i].children) ==> result == parent
    ensures !AllItems(parent.children[i].children) ==>
      result == parent.(children := parent.children[..i] + parent.children[i].children + parent.children[i + 1..])
  {
    result := parent;
    if !AllItems(parent.children[i].children) {
      var children := Unwrap(parent.children, i);
      result := parent.(children := children);
    }
  }

  // The document text is what unwrapping must not lose.

  function TextOf(n: Node): string
    decreases n, 1
  {
    (if n.kind.Text? then n.kind.text else "") + TextOfAll(n.children)
  }

  function TextOfAll(s: seq<Node>): string
    decreases s, 0
  {
    if s == [] then "" else TextOf(s[0]) + TextOfAll(s[1..])
  }

  lemma {:induction false} TextOfAllConcat(a: seq<Node>, b: seq<Node>)
    ensures TextOfAll(a + b) == TextOfAll(a) + TextOfAll(b)
  {
    if a != [] {
      assert (a + b)[1..] == a[1..] + b;
      TextOfAllConcat(a[1..], b);
    } else {
      assert a + b == b;
    }
  }

  /** Unwrapping a node that holds no text of its own keeps the text of the siblings, in order. */
  lemma UnwrapKeepsText(siblings: seq<Node>, i: nat)
    requires i < |siblings| && !siblings[i].kind.Text?
    ensures TextOfAll(siblings[..i] + siblings[i].children + siblings[i + 1..]) == TextOfAll(siblings)
  {
    assert siblings == siblings[..i] + [siblings[i]] + siblings[i + 1..];
    UnwrapText(siblings[..i], siblings[i], siblings[i + 1..]);
  }

  lemma UnwrapText(pre: seq<Node>, node: Node, post: seq<Node>)
    requires !node.kind.Text?
    ensures TextOfAll(pre + node.children + post) == TextOfAll(pre + [node] + post)
  {
    var kids := node.children;
    assert pre + kids + post == pre + (kids + post);
    TextOfAllConcat(pre, kids + post);
    TextOfAllConcat(kids, post);
    assert pre + [node] + post == pre + ([node] + post);
    TextOfAllConcat(pre, [node] + post);
    TextOfAllCons(node, post);
    TextOfContainer(node);
  }

  lemma TextOfContainer(n: Node)
    requires !n.kind.Text?
    ensures TextOf(n) == TextOfAll(n.children)
  {
  }

  lemma TextOfAllCons(n: Node, s: seq<Node>)
    ensures TextOfAll([n] + s) == TextOf(n) + TextOfAll(s)
  {
    assert ([n] + s)[1..] == s;
  }

  // $onEscape

  datatype Selection = Selection(isRange: bool, collapsed: bool, anchor: seq<nat>, offset: nat)

  /** `$findMatchingParent(node, $isLayoutContainerNode)`: the node itself or its closest container ancestor. */
  function NearestContainer(root: Node, path: seq<nat>): (r: Option<seq<nat>>)
    ensures r.Some? ==> |r.value| <= |path| && r.value == path[..|r.value|]
    ensures r.Some? ==> NodeAt(root, r.value).Some? && IsContainer(NodeAt(root, r.value).value)
    ensures r.Some? ==> forall j :: |r.value| < j <= |path| ==>
      !(NodeAt(root, path[..j]).Some? && IsContainer(NodeAt(root, path[..j]).value))
    ensures r.None? ==> forall j :: 0 <= j <= |path| ==>
      !(NodeAt(root, path[..j]).Some? && IsContainer(NodeAt(root, path[..j]).value))
    decreases |path|
  {
    if NodeAt(root, path).Some? && IsContainer(NodeAt(root, path).value) then Some(path)
    else if path == [] then None
    else
      var parent := path[..|path| - 1];
      assert path[..|path|] == path;
      assert forall j :: 0 <= j <= |parent| ==> parent[..j] == path[..j];
      NearestContainer(root, parent)
  }

  /** Relative path of `getFirstDescendant()`, or of `getLastDescendant()`; none for a node without children. */
  function EdgeDescendant(n: Node, first: bool): Option<seq<nat>> {
    if n.children == [] then None
    else
      var k := if first then 0 else |n.children| - 1;
      match EdgeDescendant(n.children[k], first)
      case None => Some([k])
      case Some(p) => Some([k] + p)
  }

  /** Inserts `m` as child number `index` of the node at `parentPath`. */
  function InsertChild(root: Node, parentPath: seq<nat>, index: nat, m: Node): Node
    requires NodeAt(root, parentPath).Some? && index <= |NodeAt(root, parentPath).value.children|
  {
    var parent := NodeAt(root, parentPath).value;
    ReplaceAt(root, parentPath, parent.(children := parent.children[..index] + [m] + parent.children[index..]))
  }

  /** Where `$onEscape` would insert a paragraph: the parent's path and the index, if anywhere. */
  function EscapeTarget(root: Node, sel: Selection, before: bool): (t: Option<(seq<nat>, nat)>)
    ensures t.Some? ==> NodeAt(root, t.value.0).Some? && t.value.1 <= |NodeAt(root, t.value.0).value.children|
  {
    if !(sel.isRange && sel.collapsed && sel.offset == 0) then None
    else match NearestContainer(root, sel.anchor)
      case None => None
      case Some(cp) =>
        if cp == [] || NodeAt(root, cp).None? then None
        else
          NodeAtChild(root, cp);
          var parentPath := cp[..|cp| - 1];
          var index := cp[|cp| - 1];
          var parent := NodeAt(root, parentPath).value;
          var container := NodeAt(root, cp).value;
          var atEdge := if before then index == 0 else index == |parent.children| - 1;
          var descendant := EdgeDescendant(container, before);
          if atEdge && descendant.Some? && sel.anchor == cp + descendant.value then
            Some((parentPath, if before then index else index + 1))
          else None
  }

  /**
   * `$onEscape(before)`: inserts an empty paragraph before (after) the
   * container when the caret is at offset 0 on its first (last) descendant
   * and the container is its parent's first (last) child; never handles the
   * key.
   */
  function OnEscape(root: Node, sel: Selection, before: bool): (bool, Node) {
    match EscapeTarget(root, sel, before)
    case None => (false, root)
    case Some((parentPath, index)) => (false, InsertChild(root, parentPath, index, Node(Paragraph, [])))
  }

  /**
   * The key is never handled; the tree changes only for a collapsed range
   * caret at offset 0, and then by exactly one new paragraph, a sibling of
   * the container, next to it on the side of the key.
   */
  lemma OnEscapeEffect(root: Node, sel: Selection, before: bool)
    ensures !OnEscape(root, sel, before).0
    ensures !(sel.isRange && sel.collapsed && sel.offset == 0) ==> OnEscape(root, sel, before).1 == root
    ensures OnEscape(root, sel, before).1 != root ==>
      NearestContainer(root, sel.anchor).Some? && NearestContainer(root, sel.anchor).value != []
    ensures (OnEscape(root, sel, before).1 != root && NearestContainer(root, sel.anchor).Some?
             && NearestContainer(root, sel.anchor).value != []) ==>
      var cp := NearestContainer(root, sel.anchor).value;
      var parentPath := cp[..|cp| - 1];
      var at := if before then cp[|cp| - 1] else cp[|cp| - 1] + 1;
      NodeAt(OnEscape(root, sel, before).1, parentPath + [at]) == Some(Node(Paragraph, []))
      && NodeAt(root, parentPath).Some? && NodeAt(OnEscape(root, sel, before).1, parentPath).Some?
      && |NodeAt(OnEscape(root, sel, before).1, parentPath).value.children|
         == |NodeAt(root, parentPath).value.children| + 1
  {
    match EscapeTarget(root, sel, before)
    case None =>
    case Some((parentPath, index)) =>
      var parent := NodeAt(root, parentPath).value;
      var updated := parent.(children := parent.children[..index] + [Node(Paragraph, [])] + parent.children[index..]);
      ReplaceAtFinds(root, parentPath, updated);
      NodeAtAppend(OnEscape(root, sel, before).1, parentPath, index);
  }

  /**
   * The condition of `$onEscape` written out: a collapsed range caret at
   * offset 0, whose nearest container has a parent, is that parent's first
   * (last) child, and has the anchor as its first (last) descendant.
   */
  predicate EscapeApplies(root: Node, sel: Selection, before: bool) {
    sel.isRange && sel.collapsed && sel.offset == 0
    && match NearestContainer(root, sel.anchor)
       case None => false
       case Some(cp) =>
         cp != []
         && match (NodeAt(root, cp[..|cp| - 1]), NodeAt(root, cp))
            case (Some(parent), Some(container)) =>
              (before ==> cp[|cp| - 1] == 0)
              && (!before ==> cp[|cp| - 1] == |parent.children| - 1)
              && EdgeDescendant(container, before).Some?
              && sel.anchor == cp + EdgeDescendant(container, before).value
            case _ => false
  }

  /**
   * The tree changes exactly when the escape condition holds, and then by
   * an empty paragraph inserted right before (after) the container.
   */
  lemma OnEscapeExactly(root: Node, sel: Selection, before: bool)
    ensures OnEscape(root, sel, before).1 != root <==> EscapeApplies(root, sel, before)
    ensures EscapeApplies(root, sel, before) ==>
      var cp := NearestContainer(root, sel.anchor).value;
      var at := if before then cp[|cp| - 1] else cp[|cp| - 1] + 1;
      NodeAt(root, cp[..|cp| - 1]).Some? && at <= |NodeAt(root, cp[..|cp| - 1]).value.children|
      && OnEscape(root, sel, before).1 == InsertChild(root, cp[..|cp| - 1], at, Node(Paragraph, []))
  {
    match EscapeTarget(root, sel, before)
    case None =>
    case Some((parentPath, index)) =>
      var cp := NearestContainer(root, sel.anchor).value;
      NodeAtChild(root, cp);
      InsertChildChanges(root, parentPath, index, Node(Paragraph, []));
  }

  /** Inserting a child always changes the tree. */
  lemma InsertChildChanges(root: Node, parentPath: seq<nat>, index: nat, m: Node)
    requires NodeAt(root, parentPath).Some? && index <= |NodeAt(root, parentPath).value.children|
    ensures InsertChild(root, parentPath, index, m) != root
  {
    var parent := NodeAt(root, parentPath).value;
    var updated := parent.(children := parent.children[..index] + [m] + parent.children[index..]);
    ReplaceAtFinds(root, parentPath, updated);
    assert |updated.children| == |parent.children| + 1;
  }

  lemma {:induction false} NodeAtAppend(n: Node, path: seq<nat>, k: nat)
    requires NodeAt(n, path).Some? && k < |NodeAt(n, path).value.children|
    ensures NodeAt(n, path + [k]) == Some(NodeAt(n, path).value.children[k])
  {
    if path != [] {
      assert (path + [k])[1..] == path[1..] + [k];
      NodeAtAppend(n.children[path[0]], path[1..], k);
    }
  }
}
