/**
 * `CommonPrefixGrouper`: a prefix tree of the known activities that offers the ways a typed text
 * can be continued, and splits an activity into groups at the points where the known activities
 * branch. A node of the tree is named by the path of characters that leads to it from the root;
 * the terminator child that `insert` puts below a complete activity (the `null` key) is the
 * membership of that path in `words`.
 */
module PrefixGrouper {
  import opened Wrappers

  /** A key of a node's child map: a character, or the terminator `null`. */
  datatype Key = Char(c: char) | Terminator

  /** The tree's nodes by their paths, and the paths that end a complete activity. */
  datatype Trie = Trie(paths: set<string>, words: set<string>)

  /** The root exists, every node's parent exists, and only nodes are terminated. */
  ghost predicate Valid(t: Trie) {
    "" in t.paths
    && (forall q: string, c: char :: q + [c] in t.paths ==> q in t.paths)
    && t.words <= t.paths
  }

  const EmptyTrie := Trie({""}, {})

  lemma {:induction false} PrefixClosed(t: Trie, q: string, k: nat)
    requires Valid(t) && q in t.paths && k <= |q|
    ensures q[..k] in t.paths
    decreases |q| - k
  {
    if k < |q| {
      var parent := q[..|q| - 1];
      assert parent + [q[|q| - 1]] == q;
      PrefixClosed(t, parent, k);
      assert parent[..k] == q[..k];
    } else {
      assert q[..k] == q;
    }
  }

  /** `child(c)` of a node, or of no node. */
  function Child(t: Trie, node: Option<string>, c: char): (r: Option<string>)
    ensures r.Some? <==> node.Some? && node.value + [c] in t.paths
  {
    if node.Some? && node.value + [c] in t.paths then Some(node.value + [c]) else None
  }

  /** The keys of a node's child map. */
  function ChildKeys(t: Trie, p: string): set<Key> {
    (set q | q in t.paths && |q| == |p| + 1 && q[..|p|] == p :: Char(q[|p|]))
    + (if p in t.words then {Terminator} else {})
  }

  lemma ChildKeyIsChild(t: Trie, p: string, c: char)
    ensures Char(c) in ChildKeys(t, p) <==> p + [c] in t.paths
  {
    if p + [c] in t.paths {
      assert (p + [c])[..|p|] == p;
    }
    if Char(c) in ChildKeys(t, p) {
      var q :| q in t.paths && |q| == |p| + 1 && q[..|p|] == p && Char(q[|p|]) == Char(c);
      assert q == p + [c];
    }
  }

  lemma StrictSubset<T>(a: set<T>, b: set<T>, x: T)
    requires a <= b && x in b && x !in a
    ensures |a| < |b|
  {
    assert b == a + (b - a);
    assert |b - a| >= 1 by {
      assert {x} <= b - a;
    }
  }

  lemma OnlyKey(s: set<Key>, a: Key, b: Key)
    requires |s| == 1 && a in s && b in s
    ensures a == b
  {
    if a != b {
      StrictSubset({a}, s, b);
    }
  }

  /** The nodes deeper than `p`; it shrinks along every step down the tree. */
  function Deeper(t: Trie, p: string): set<string> {
    set q | q in t.paths && |q| > |p|
  }

  lemma DeeperShrinks(t: Trie, p: string, c: char)
    requires p + [c] in t.paths
    ensures |Deeper(t, p + [c])| < |Deeper(t, p)|
  {
    StrictSubset(Deeper(t, p + [c]), Deeper(t, p), p + [c]);
  }

  /** `anyChild()` of a node with a single child: that child's key. */
  ghost function TheKey(s: set<Key>): (k: Key)
    requires |s| == 1
    ensures s == {k}
  {
    var k :| k in s;
    forall k' | k' in s ensures k' == k {
      OnlyKey(s, k, k');
    }
    k
  }

  /**
   * The characters the expansion loop appends below the node `tree`: while the node has exactly
   * one child, step to it, appending its character unless it is the terminator.
   */
  ghost function Chain(t: Trie, tree: string): string
    requires tree in t.paths
    decreases |Deeper(t, tree)|
  {
    if |ChildKeys(t, tree)| != 1 then []
    else
      var k := TheKey(ChildKeys(t, tree));
      if k == Terminator then []
      else
        ChildKeyIsChild(t, tree, k.c);
        DeeperShrinks(t, tree, k.c);
        [k.c] + Chain(t, tree + [k.c])
  }

  /** One step of the chain, from the only child of a node. */
  lemma ChainStep(t: Trie, tree: string, k: Key)
    requires tree in t.paths && |ChildKeys(t, tree)| == 1 && k in ChildKeys(t, tree)
    ensures k.Char? ==> tree + [k.c] in t.paths && Chain(t, tree) == [k.c] + Chain(t, tree + [k.c])
    ensures k == Terminator ==> Chain(t, tree) == []
  {
    var only := TheKey(ChildKeys(t, tree));
    assert k == only;
    if k.Char? {
      ChildKeyIsChild(t, tree, k.c);
    }
  }

  /** The chain stops at a node with several children, with none, or whose only child is the terminator. */
  lemma {:induction false} ChainStops(t: Trie, tree: string)
    requires tree in t.paths
    ensures tree + Chain(t, tree) in t.paths
    ensures |ChildKeys(t, tree + Chain(t, tree))| != 1 || ChildKeys(t, tree + Chain(t, tree)) == {Terminator}
    decreases |Deeper(t, tree)|
  {
    if |ChildKeys(t, tree)| == 1 {
      var k := TheKey(ChildKeys(t, tree));
      ChainStep(t, tree, k);
      if k.Char? {
        DeeperShrinks(t, tree, k.c);
        var next := tree + [k.c];
        var rest := Chain(t, next);
        ChainStops(t, next);
        Associative(tree, [k.c], rest);
      } else {
        assert tree + [] == tree;
      }
    } else {
      assert tree + [] == tree;
    }
  }

  /** A chain that is not empty starts at the only child of its node. */
  lemma ChainHead(t: Trie, tree: string)
    requires tree in t.paths && Chain(t, tree) != []
    ensures var c := Chain(t, tree)[0];
      ChildKeys(t, tree) == {Char(c)} && tree + [c] in t.paths && Chain(t, tree) == [c] + Chain(t, tree + [c])
  {
    var k := TheKey(ChildKeys(t, tree));
    ChainStep(t, tree, k);
  }

  /** Every node the chain passes has the chain's next character as its only child. */
  lemma {:induction false} ChainFollowsSingleChildren(t: Trie, tree: string, j: nat)
    requires tree in t.paths && j < |Chain(t, tree)|
    ensures ChildKeys(t, tree + Chain(t, tree)[..j]) == {Char(Chain(t, tree)[j])}
    decreases j
  {
    ChainHead(t, tree);
    var w := Chain(t, tree);
    if j == 0 {
      assert tree + w[..0] == tree;
    } else {
      var next := tree + [w[0]];
      var rest := Chain(t, next);
      ChainFollowsSingleChildren(t, next, j - 1);
      assert w[..j] == [w[0]] + rest[..j - 1];
      Associative(tree, [w[0]], rest[..j - 1]);
    }
  }

  /** The text one child map entry contributes, as written: a `null` key appends `"null"`. */
  ghost function ExpansionAsWritten(t: Trie, p: string, k: Key): string
    requires p in t.paths && k in ChildKeys(t, p)
  {
    match k
    case Terminator => "null"
    case Char(c) =>
      ChildKeyIsChild(t, p, c);
      [c] + Chain(t, p + [c])
  }

  /** The text one child map entry contributes when the terminator appends nothing. */
  ghost function Expansion(t: Trie, p: string, k: Key): string
    requires p in t.paths && k in ChildKeys(t, p)
  {
    match k
    case Terminator => ""
    case Char(c) =>
      ChildKeyIsChild(t, p, c);
      [c] + Chain(t, p + [c])
  }

  /** Every expansion leads from the typed text to a node of the tree. */
  lemma ExpansionStaysInTree(t: Trie, p: string, k: Key)
    requires p in t.paths && k in ChildKeys(t, p)
    ensures p + Expansion(t, p, k) in t.paths
    ensures k.Char? ==> ExpansionAsWritten(t, p, k) == Expansion(t, p, k)
  {
    match k
    case Char(c) =>
      ChildKeyIsChild(t, p, c);
      var next := p + [c];
      var w := Chain(t, next);
      ChainStops(t, next);
      assert Expansion(t, p, k) == [c] + w;
      Associative(p, [c], w);
    case Terminator =>
      assert p + "" == p;
  }

  lemma Associative<T>(a: seq<T>, b: seq<T>, c: seq<T>)
    ensures a + (b + c) == (a + b) + c
  {
  }

  /**
   * As written, a typed text that is itself a known activity is offered the expansion `"null"`,
   * which leads nowhere in the tree: after inserting `"ab"`, the expansions of `"ab"` are `["null"]`.
   */
  lemma TerminatorExpandsToNull()
    ensures var t := Inserted(EmptyTrie, "ab");
      Valid(t) && "ab" in t.paths && ChildKeys(t, "ab") == {Terminator}
      && ExpansionAsWritten(t, "ab", Terminator) == "null" && "ab" + "null" !in t.paths
  {
    var t := Inserted(EmptyTrie, "ab");
    assert t.paths == {"", "a", "ab"} by {
      assert "ab"[..0] == "" && "ab"[..1] == "a" && "ab"[..2] == "ab";
    }
    InsertedValid(EmptyTrie, "ab");
    forall k | k in ChildKeys(t, "ab") ensures k == Terminator {
      if k.Char? {
        ChildKeyIsChild(t, "ab", k.c);
      }
    }
  }

  /** The prefixes of `s` of length up to `i`. */
  function PrefixesUpTo(s: string, i: nat): set<string> {
    set k | 0 <= k <= i && k <= |s| :: s[..k]
  }

  /** The tree after `insert(s)`: the nodes of all prefixes of `s`, and `s` terminated. */
  function Inserted(t: Trie, s: string): Trie {
    Trie(t.paths + PrefixesUpTo(s, |s|), t.words + {s})
  }

  lemma InsertedValid(t: Trie, s: string)
    requires Valid(t)
    ensures Valid(Inserted(t, s))
  {
    var u := Inserted(t, s);
    assert s[..0] == "";
    assert s[..|s|] == s;
    forall q: string, c: char | q + [c] in u.paths ensures q in u.paths {
      if q + [c] !in t.paths {
        var k :| 0 <= k <= |s| && q + [c] == s[..k];
        assert q == s[..k - 1];
      }
    }
  }

  /**
   * After `insert(s)` every prefix of `s` is a node with a child: the next character of `s` for a
   * proper prefix, the terminator for `s` itself; so each has an expansion.
   */
  lemma InsertedPrefixesExpand(t: Trie, s: string, k: nat)
    requires Valid(t) && k <= |s|
    ensures var u := Inserted(t, s);
      s[..k] in u.paths
      && (k < |s| ==> Char(s[k]) in ChildKeys(u, s[..k]))
      && (k == |s| ==> Terminator in ChildKeys(u, s[..k]))
  {
    var u := Inserted(t, s);
    if k < |s| {
      assert s[..k] + [s[k]] == s[..k + 1];
      ChildKeyIsChild(u, s[..k], s[k]);
    } else {
      assert s[..k] == s;
    }
  }

  /** Inserting an activity a second time leaves the tree as it is. */
  lemma InsertTwiceUnchanged(t: Trie, s: string)
    requires Valid(t)
    ensures Inserted(Inserted(t, s), s) == Inserted(t, s)
    ensures s in t.words ==> Inserted(t, s) == t
  {
    if s in t.words {
      forall q | q in PrefixesUpTo(s, |s|) ensures q in t.paths {
        var k :| 0 <= k <= |s| && q == s[..k];
        PrefixClosed(t, s, k);
      }
    }
  }

  /** The tree after inserting each of `ss` in turn. */
  function InsertedAll(t: Trie, ss: seq<string>): Trie
    decreases |ss|
  {
    if ss == [] then t else InsertedAll(Inserted(t, ss[0]), ss[1..])
  }

  // ---------------------------------------------------------------------------------------
  // Groups

  /** `Character.isWhitespace`: the ASCII controls and separators, and the Unicode separators that do not forbid a break. */
  predicate IsWhitespace(c: char) {
    var n := c as int;
    (9 <= n <= 13) || (28 <= n <= 32) || n == 0x1680 || (0x2000 <= n <= 0x2006)
    || (0x2008 <= n <= 0x200A) || n == 0x2028 || n == 0x2029 || n == 0x205F || n == 0x3000
  }

  predicate AllWhitespace(s: string) {
    forall k :: 0 <= k < |s| ==> IsWhitespace(s[k])
  }

  /** `MINIMUM_GROUP_LENGTH` */
  const MinimumGroupLength := 3

  datatype GroupType = Match | Remainder

  /** A `Group`: its type, its text, and the range of the text it covers. */
  datatype Group = Group(kind: GroupType, content: string, start: int, end: int)

  /** One group as `parse` makes it: a non-empty part of the text and its content. */
  predicate GroupOf(text: string, g: Group) {
    0 <= g.start < g.end <= |text| && g.content == text[g.start..g.end]
    && (g.kind == Match ==> g.end - g.start >= MinimumGroupLength || g.end == |text|)
    && (g.kind == Remainder ==> g.end == |text|)
  }

  /**
   * The groups cover the text in order: each is a part of it, a match is at least
   * `MINIMUM_GROUP_LENGTH` long unless it runs to the end, only the last may be the remainder, and
   * between the groups and after the last there is only whitespace.
   */
  predicate Grouped(text: string, g: seq<Group>) {
    (forall k | 0 <= k < |g| :: GroupOf(text, g[k]) && (g[k].kind == Remainder ==> k == |g| - 1))
    && (forall k | 0 <= k < |g| - 1 :: g[k].end <= g[k + 1].start && AllWhitespace(text[g[k].end..g[k + 1].start]))
    && (g == [] <==> text == [])
    && (g != [] ==> g[0].start == 0 && AllWhitespace(text[g[|g| - 1].end..]))
  }

  /** `GroupHelper`: a single pass over a text that follows the tree while it can. */
  class GroupHelper {
    const text: string
    const root: Trie
    var node: Option<string>
    var groups: seq<Group>
    var i: int
    var start: int
    var lastGood: int

    constructor (text: string, root: Trie)
      ensures this.text == text && this.root == root && node == Some("")
      ensures groups == [] && i == 0 && start == 0 && lastGood == 0
    {
      this.text := text;
      this.root := root;
      node := Some("");
      groups := [];
      i := 0;
      start := 0;
      lastGood := 0;
    }

    /** The number of children of the current node. */
    function NumChildren(): nat
      reads this
      requires node.Some?
    {
      |ChildKeys(root, node.value)|
    }

    /**
     * `parseToNextBranch`: step along the text while the node has at most one child; `lastGood`
     * marks the last character that is not whitespace.
     */
    method ParseToNextBranch()
      requires 0 <= start <= lastGood == i < |text| && node.Some?
      modifies this
      ensures start == old(start) && groups == old(groups)
      ensures start < i <= |text| && start <= lastGood < i
      ensures forall k :: lastGood < k < i ==> IsWhitespace(text[k])
    {
      if !IsWhitespace(text[i]) {
        lastGood := i;
      }
      node := Child(root, node, text[i]);
      i := i + 1;
      while i < |text| && node.Some? && NumChildren() <= 1
        invariant start == old(start) && groups == old(groups)
        invariant start < i <= |text| && start <= lastGood < i
        invariant forall k :: lastGood < k < i ==> IsWhitespace(text[k])
        decreases |text| - i
      {
        if !IsWhitespace(text[i]) {
          lastGood := i;
        }
        node := Child(root, node, text[i]);
        i := i + 1;
      }
    }

    /**
     * `setLastGoodToNextWhitespace`: move `lastGood` on to the next whitespace that is at least
     * `MINIMUM_GROUP_LENGTH` past the group's start, or to the end; the node follows past `i`.
     */
    method SetLastGoodToNextWhitespace()
      requires 0 <= start <= lastGood < i <= |text|
      requires forall k :: lastGood < k < i ==> IsWhitespace(text[k])
      modifies this
      ensures i == old(i) && start == old(start) && groups == old(groups)
      ensures start < lastGood <= |text|
      ensures lastGood - start >= MinimumGroupLength || lastGood == |text|
      ensures forall k :: lastGood <= k < i ==> IsWhitespace(text[k])
    {
      lastGood := lastGood + 1;
      while lastGood < |text| && (!IsWhitespace(text[lastGood]) || lastGood - start < MinimumGroupLength)
        invariant i == old(i) && start == old(start) && groups == old(groups)
        invariant start < lastGood <= |text|
        invariant forall k :: lastGood <= k < i ==> IsWhitespace(text[k])
        decreases |text| - lastGood
      {
        if lastGood >= i && node.Some? {
          node := Child(root, node, text[lastGood]);
        }
        lastGood := lastGood + 1;
      }
    }

    /** `skipWhitespace`: step over whitespace, the node following. */
    method SkipWhitespace()
      requires 0 <= i <= |text|
      modifies this
      ensures old(i) <= i <= |text| && (i < |text| ==> !IsWhitespace(text[i]))
      ensures forall k :: old(i) <= k < i ==> IsWhitespace(text[k])
      ensures start == old(start) && lastGood == old(lastGood) && groups == old(groups)
    {
      while i < |text| && IsWhitespace(text[i])
        invariant old(i) <= i <= |text|
        invariant forall k :: old(i) <= k < i ==> IsWhitespace(text[k])
        invariant start == old(start) && lastGood == old(lastGood) && groups == old(groups)
        decreases |text| - i
      {
        if node.Some? {
          node := Child(root, node, text[i]);
        }
        i := i + 1;
      }
    }

    /** One round of `parse`: the next match group, from `start` to `lastGood`. */
    method ParseGroup()
      requires Partial(text, groups, start) && i == start < |text| && node.Some?
      modifies this
      ensures Partial(text, groups, start) && i == start > old(start)
    {
      lastGood := start;
      ParseToNextBranch();
      SetLastGoodToNextWhitespace();
      if i < lastGood {
        i := lastGood;
      }
      SkipWhitespace();
      AppendMatch(text, groups, old(start), lastGood, i);
      groups := groups + [Group(Match, text[start..lastGood], start, lastGood)];
      start := i;
    }

    /** `parse`: match groups while the tree follows the text, then the rest as the remainder. */
    method Parse() returns (result: seq<Group>)
      requires groups == [] && i == 0 && start == 0 && node == Some("")
      modifies this
      ensures result == groups && Grouped(text, result)
    {
      while i < |text| && node.Some?
        invariant Partial(text, groups, start) && i == start
        invariant node.None? ==> start > 0
        decreases |text| - i
      {
        ParseGroup();
      }
      FinishGroups(text, groups, start);
      if start < |text| {
        groups := groups + [Group(Remainder, text[start..], start, |text|)];
      }
      result := groups;
    }
  }

  /** The groups `parse` has made before reaching `start`: matches, in order, whitespace between. */
  predicate Partial(text: string, g: seq<Group>, start: int) {
    0 <= start <= |text| && (g == [] <==> start == 0)
    && (forall k | 0 <= k < |g| :: GroupOf(text, g[k]) && g[k].kind == Match)
    && (forall k | 0 <= k < |g| - 1 :: g[k].end <= g[k + 1].start && AllWhitespace(text[g[k].end..g[k + 1].start]))
    && (g != [] ==> g[0].start == 0 && g[|g| - 1].end <= start && AllWhitespace(text[g[|g| - 1].end..start]))
  }

  lemma AppendMatch(text: string, g: seq<Group>, start: int, lastGood: int, next: int)
    requires Partial(text, g, start) && start < lastGood <= next <= |text|
    requires lastGood - start >= MinimumGroupLength || lastGood == |text|
    requires forall k :: lastGood <= k < next ==> IsWhitespace(text[k])
    ensures Partial(text, g + [Group(Match, text[start..lastGood], start, lastGood)], next)
  {
    var h := g + [Group(Match, text[start..lastGood], start, lastGood)];
    assert AllWhitespace(text[lastGood..next]) by {
      forall k | 0 <= k < next - lastGood ensures IsWhitespace(text[lastGood..next][k]) {
        assert text[lastGood..next][k] == text[lastGood + k];
      }
    }
    forall k | 0 <= k < |h| - 1
      ensures h[k].end <= h[k + 1].start && AllWhitespace(text[h[k].end..h[k + 1].start])
    {
      assert h[k] == g[k];
      if k < |g| - 1 {
        assert h[k + 1] == g[k + 1];
      }
    }
  }

  lemma FinishGroups(text: string, g: seq<Group>, start: int)
    requires Partial(text, g, start) && (start == 0 ==> text == [])
    ensures start < |text| ==> Grouped(text, g + [Group(Remainder, text[start..], start, |text|)])
    ensures start == |text| ==> Grouped(text, g)
  {
    if start < |text| {
      var h := g + [Group(Remainder, text[start..], start, |text|)];
      forall k | 0 <= k < |h| - 1
        ensures h[k].end <= h[k + 1].start && AllWhitespace(text[h[k].end..h[k + 1].start])
      {
        assert h[k] == g[k];
        if k < |g| - 1 {
          assert h[k + 1] == g[k + 1];
        }
      }
      assert text[h[|h| - 1].end..] == [];
      forall k | 0 <= k < |h|
        ensures GroupOf(text, h[k]) && (h[k].kind == Remainder ==> k == |h| - 1)
      {
        if k < |g| {
          assert h[k] == g[k];
        }
      }
    } else if g != [] {
      assert text[g[|g| - 1].end..start] == text[g[|g| - 1].end..];
    }
  }

  /** The prefix grouper: its tree, filled from the stored activities and a base line on first use. */
  class CommonPrefixGrouper {
    var paths: set<string>
    var words: set<string>
    var initialized: bool

    function Tree(): Trie
      reads this
    {
      Trie(paths, words)
    }

    constructor ()
      ensures Tree() == EmptyTrie && !initialized && Valid(Tree())
    {
      paths := {""};
      words := {};
      initialized := false;
    }

    /** `insert`: follow the existing nodes, add the missing ones, then terminate the last. */
    method Insert(item: string)
      requires Valid(Tree())
      modifies `paths, `words
      ensures Tree() == Inserted(old(Tree()), item) && Valid(Tree())
    {
      var i := 0;
      var n := |item|;
      while i < n && item[..i + 1] in paths
        invariant 0 <= i <= n && item[..i] in paths
        decreases n - i
      {
        i := i + 1;
      }
      assert PrefixesUpTo(item, i) <= paths by {
        forall q | q in PrefixesUpTo(item, i) ensures q in paths {
          var k :| 0 <= k <= i && k <= n && q == item[..k];
          PrefixClosed(Tree(), item[..i], k);
          assert item[..i][..k] == q;
        }
      }
      while i < n
        invariant 0 <= i <= n
        invariant paths == old(paths) + PrefixesUpTo(item, i) && words == old(words)
        decreases n - i
      {
        assert PrefixesUpTo(item, i + 1) == PrefixesUpTo(item, i) + {item[..i + 1]};
        paths := paths + {item[..i + 1]};
        i := i + 1;
      }
      words := words + {item};
      InsertedValid(old(Tree()), item);
    }

    /** `checkInitialized`: on first use, insert the stored activities and then the base line. */
    method CheckInitialized(activities: seq<string>, baseLine: seq<string>)
      requires Valid(Tree())
      modifies this
      ensures initialized && Valid(Tree())
      ensures Tree() == if old(initialized) then old(Tree()) else InsertedAll(old(Tree()), activities + baseLine)
    {
      if initialized {
        return;
      }
      initialized := true;
      var all := activities + baseLine;
      var j := 0;
      while j < |all|
        invariant 0 <= j <= |all| && Valid(Tree()) && initialized
        invariant InsertedAll(Tree(), all[j..]) == InsertedAll(old(Tree()), all)
        decreases |all| - j
      {
        assert all[j..][1..] == all[j + 1..];
        Insert(all[j]);
        j := j + 1;
      }
    }

    /** Follows one child map entry down its chain of single children, starting with the entry's key. */
    method Follow(p: string, key: Key) returns (current: string)
      requires p in paths && key in ChildKeys(Tree(), p)
      ensures current == ExpansionAsWritten(Tree(), p, key)
    {
      var t := Tree();
      var tree: Option<string>;
      if key.Char? {
        current := [key.c];
        ChildKeyIsChild(t, p, key.c);
        tree := Some(p + [key.c]);
      } else {
        current := "null";
        tree := None;
      }
      while tree.Some? && |ChildKeys(t, tree.value)| == 1
        invariant tree.Some? ==> tree.value in t.paths
        invariant if tree.Some? then current + Chain(t, tree.value) == ExpansionAsWritten(t, p, key)
                  else current == ExpansionAsWritten(t, p, key)
        decreases if tree.Some? then |Deeper(t, tree.value)| + 1 else 0
      {
        var node := tree.value;
        var childChar :| childChar in ChildKeys(t, node);
        ChainStep(t, node, childChar);
        if childChar.Char? {
          DeeperShrinks(t, node, childChar.c);
          Associative(current, [childChar.c], Chain(t, node + [childChar.c]));
          tree := Some(node + [childChar.c]);
          current := current + [childChar.c];
        } else {
          tree := None;
        }
      }
      if tree.Some? {
        assert Chain(t, tree.value) == [];
      }
    }

    /** The walk of `getPossibleExpansions` down the tree along the typed text. */
    method Walk(text: string) returns (node: Option<string>)
      requires Valid(Tree())
      ensures node.Some? <==> text in paths
      ensures node.Some? ==> node.value == text
    {
      node := Some("");
      var i := 0;
      var n := |text|;
      while i < n && node.Some?
        invariant 0 <= i <= n
        invariant node.Some? ==> node == Some(text[..i]) && text[..i] in paths
        invariant node.None? ==> text !in paths
        decreases n - i
      {
        assert text[..i] + [text[i]] == text[..i + 1];
        node := Child(Tree(), node, text[i]);
        if node.None? && text in paths {
          PrefixClosed(Tree(), text, i + 1);
        }
        i := i + 1;
      }
      if node.Some? {
        assert text[..n] == text;
      }
    }

    /**
     * `getPossibleExpansions`: walk the typed text down the tree; no node gives no expansions,
     * otherwise one expansion per entry of the node's child map, in the map's order.
     */
    method GetPossibleExpansions(text: string) returns (r: seq<string>, ghost keys: seq<Key>)
      requires Valid(Tree())
      ensures text !in paths ==> r == []
      ensures text in paths ==>
        |keys| == |r| && (forall k :: k in keys <==> k in ChildKeys(Tree(), text))
        && (forall a, b :: 0 <= a < b < |keys| ==> keys[a] != keys[b])
        && (forall a :: 0 <= a < |r| ==> r[a] == ExpansionAsWritten(Tree(), text, keys[a]))
    {
      var node := Walk(text);
      if node.None? {
        r, keys := [], [];
      } else {
        r, keys := ExpandEntries(text);
      }
    }

    /** The expansions of the entries of the child map of the node `p`, in the map's order. */
    method ExpandEntries(p: string) returns (r: seq<string>, ghost keys: seq<Key>)
      requires p in paths
      ensures |keys| == |r| && (forall k :: k in keys <==> k in ChildKeys(Tree(), p))
      ensures forall a, b :: 0 <= a < b < |keys| ==> keys[a] != keys[b]
      ensures forall a :: 0 <= a < |r| ==> r[a] == ExpansionAsWritten(Tree(), p, keys[a])
    {
      r, keys := [], [];
      var remaining := ChildKeys(Tree(), p);
      while remaining != {}
        invariant remaining <= ChildKeys(Tree(), p)
        invariant |keys| == |r|
        invariant forall k :: k in keys <==> k in ChildKeys(Tree(), p) && k !in remaining
        invariant forall a, b :: 0 <= a < b < |keys| ==> keys[a] != keys[b]
        invariant forall a :: 0 <= a < |r| ==> r[a] == ExpansionAsWritten(Tree(), p, keys[a])
        decreases |remaining|
      {
        var key :| key in remaining;
        var expansion := Follow(p, key);
        r := r + [expansion];
        keys := keys + [key];
        remaining := remaining - {key};
      }
    }
  }

  /** `invoke`: fill the tree on first use, then group the text along it. */
  method Groups(grouper: CommonPrefixGrouper, activities: seq<string>, baseLine: seq<string>, text: string)
    returns (groups: seq<Group>)
    requires Valid(grouper.Tree())
    modifies grouper
    ensures Grouped(text, groups)
  {
    grouper.CheckInitialized(activities, baseLine);
    var helper := new GroupHelper(text, grouper.Tree());
    groups := helper.Parse();
  }
}
