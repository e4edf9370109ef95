/** The name index of GraphDB: the `cleanString` normaliser and the
    character trie (`Trie` and its `Trienode`s) behind prefix lookup of
    location names. */
module NameIndex {
  import opened Wrappers

  // ---------------------------------------------------------------------
  // cleanString: keep ASCII letters and spaces, then lower-case them
  // ---------------------------------------------------------------------

  /** The characters matched by the class `[a-zA-Z ]`, which survive the filter. */
  predicate IsKept(c: char) {
    'a' <= c <= 'z' || 'A' <= c <= 'Z' || c == ' '
  }

  /** A character that may appear in a cleaned string. */
  predicate IsClean(c: char) {
    'a' <= c <= 'z' || c == ' '
  }

  /** `toLowerCase` on the characters that survive the filter. */
  function ToLower(c: char): char {
    if 'A' <= c <= 'Z' then (c as int + 32) as char else c
  }

  /** GraphDB.cleanString: removes every character outside `[a-zA-Z ]` and
      lower-cases what is left. */
  function CleanString(s: string): (r: string)
    ensures |r| <= |s|
    ensures forall i :: 0 <= i < |r| ==> IsClean(r[i])
  {
    if s == [] then []
    else (if IsKept(s[0]) then [ToLower(s[0])] else []) + CleanString(s[1..])
  }

  /** Cleaning distributes over concatenation. */
  lemma {:induction false} CleanStringAppend(a: string, b: string)
    ensures CleanString(a + b) == CleanString(a) + CleanString(b)
  {
    if a == [] {
      assert a + b == b;
    } else {
      assert (a + b)[1..] == a[1..] + b;
      CleanStringAppend(a[1..], b);
    }
  }

  /** Each character contributes at its own place: its lower-case form if it
      is a letter or a space, nothing otherwise. So the letters and spaces of
      the input are kept, in order, and nothing else is. */
  lemma {:induction false} CleanStringInOrder(a: string, c: char, b: string)
    ensures CleanString(a + [c] + b) ==
            CleanString(a) + (if IsKept(c) then [ToLower(c)] else []) + CleanString(b)
  {
    CleanStringAppend(a + [c], b);
    CleanStringAppend(a, [c]);
    assert [c][1..] == [];
  }

  /** A string that is already clean is left as it is. */
  lemma {:induction false} CleanStringFixesClean(s: string)
    requires forall i :: 0 <= i < |s| ==> IsClean(s[i])
    ensures CleanString(s) == s
  {
    if s != [] {
      CleanStringFixesClean(s[1..]);
    }
  }

  /** Cleaning twice is cleaning once. */
  lemma {:induction false} CleanStringIdempotent(s: string)
    ensures CleanString(CleanString(s)) == CleanString(s)
  {
    CleanStringFixesClean(CleanString(s));
  }

  // ---------------------------------------------------------------------
  // Trienode
  // ---------------------------------------------------------------------

  /** A trie node: its character, whether a word ends here, and its child
      list in insertion order. */
  datatype TrieNode = TrieNode(content: char, isEnd: bool, children: seq<TrieNode>)

  /** The position of the first child carrying `c`, the child that the loop
      of `Trienode.subNode` returns. */
  function FirstChild(cs: seq<TrieNode>, c: char): (r: Option<nat>)
    ensures r.Some? ==> r.value < |cs| && cs[r.value].content == c
    ensures r.Some? ==> forall j :: 0 <= j < r.value ==> cs[j].content != c
    ensures r.None? ==> forall j :: 0 <= j < |cs| ==> cs[j].content != c
  {
    if cs == [] then None
    else if cs[0].content == c then Some(0)
    else match FirstChild(cs[1..], c)
      case None => None
      case Some(i) => Some(i + 1)
  }

  /** The first match depends only on the characters of the children. */
  lemma {:induction false} FirstChildSameContents(cs: seq<TrieNode>, ds: seq<TrieNode>, c: char)
    requires |cs| == |ds|
    requires forall j :: 0 <= j < |cs| ==> cs[j].content == ds[j].content
    ensures FirstChild(cs, c) == FirstChild(ds, c)
  {
    var f, g := FirstChild(cs, c), FirstChild(ds, c);
    if f.Some? { assert ds[f.value].content == c; }
    if g.Some? { assert cs[g.value].content == c; }
  }

  /** Appending a child matters only when no earlier child carries `c`. */
  lemma {:induction false} FirstChildAppend(cs: seq<TrieNode>, x: TrieNode, c: char)
    ensures FirstChild(cs + [x], c) == match FirstChild(cs, c)
                                       case Some(i) => Some(i)
                                       case None => if x.content == c then Some(|cs|) else None
  {
    var f, g := FirstChild(cs, c), FirstChild(cs + [x], c);
    if f.Some? { assert (cs + [x])[f.value] == cs[f.value]; }
    if g.Some? && g.value < |cs| { assert (cs + [x])[g.value] == cs[g.value]; }
    if x.content == c { assert (cs + [x])[|cs|] == x; }
  }

  /** Trienode.subNode: the first child carrying `c`, or null. */
  function SubNode(n: TrieNode, c: char): (r: Option<TrieNode>)
    ensures r.Some? ==> r.value in n.children && r.value.content == c
    ensures r.None? <==> forall j :: 0 <= j < |n.children| ==> n.children[j].content != c
  {
    match FirstChild(n.children, c)
    case None => None
    case Some(i) => Some(n.children[i])
  }

  /** No two children of any node carry the same character. */
  ghost predicate Distinct(n: TrieNode) {
    && (forall i, j :: 0 <= i < j < |n.children| ==> n.children[i].content != n.children[j].content)
    && (forall i :: 0 <= i < |n.children| ==> Distinct(n.children[i]))
  }

  /** The node reached from `n` by taking `subNode` for each character of `w`. */
  function Reach(n: TrieNode, w: string): Option<TrieNode>
    decreases |w|
  {
    if w == [] then Some(n)
    else match SubNode(n, w[0])
      case None => None
      case Some(child) => Reach(child, w[1..])
  }

  /** What `Trie.search` answers: the path for `w` exists and ends at a
      node marked as the end of a word. */
  predicate Contains(n: TrieNode, w: string) {
    var r := Reach(n, w);
    r.Some? && r.value.isEnd
  }

  /** Following `p + s` is following `p`, then `s`. */
  lemma {:induction false} ReachAppend(n: TrieNode, p: string, s: string)
    ensures Reach(n, p + s) == match Reach(n, p)
                               case None => None
                               case Some(t) => Reach(t, s)
    decreases |p|
  {
    if p == [] {
      assert p + s == s;
    } else {
      assert (p + s)[0] == p[0];
      assert (p + s)[1..] == p[1..] + s;
      match SubNode(n, p[0])
      case None =>
      case Some(child) => ReachAppend(child, p[1..], s);
    }
  }

  /** One more character is one more `subNode` step. */
  lemma {:induction false} ReachSnoc(n: TrieNode, p: string, c: char)
    ensures Reach(n, p + [c]) == match Reach(n, p)
                                 case None => None
                                 case Some(t) => SubNode(t, c)
  {
    ReachAppend(n, p, [c]);
    match Reach(n, p)
    case None =>
    case Some(t) =>
      assert [c][1..] == [];
  }

  /** Every node reached from a node with distinct siblings has them too. */
  lemma {:induction false} ReachDistinct(n: TrieNode, p: string)
    requires Distinct(n)
    requires Reach(n, p).Some?
    ensures Distinct(Reach(n, p).value)
    decreases |p|
  {
    if p != [] {
      var i := FirstChild(n.children, p[0]).value;
      ReachDistinct(n.children[i], p[1..]);
    }
  }

  /** A node without children and without end mark holds no word. */
  lemma {:induction false} EmptyNodeHoldsNothing(c: char, w: string)
    ensures !Contains(TrieNode(c, false, []), w)
  {
  }

  // ---------------------------------------------------------------------
  // Trie.insert, on the value of the root
  // ---------------------------------------------------------------------

  /** The effect of the loop of `Trie.insert`: walk down along `w`, taking the
      first child with the next character or appending a new node for it at
      the end of the child list, and mark the last node as the end of a word. */
  function InsertPath(n: TrieNode, w: string): (r: TrieNode)
    ensures r.content == n.content
    decreases |w|
  {
    if w == [] then n.(isEnd := true)
    else match FirstChild(n.children, w[0])
      case Some(i) => n.(children := n.children[i := InsertPath(n.children[i], w[1..])])
      case None => n.(children := n.children + [InsertPath(TrieNode(w[0], false, []), w[1..])])
  }

  /** A non-empty word is held when the first child carrying its first
      character holds the rest. */
  lemma {:induction false} ContainsStep(m: TrieNode, u: string)
    requires u != []
    ensures Contains(m, u) <==>
            var f := FirstChild(m.children, u[0]);
            f.Some? && Contains(m.children[f.value], u[1..])
  {
  }

  /** Two non-empty words are equal when their heads and tails are. */
  lemma {:induction false} ConsEqual(u: string, w: string)
    requires u != [] && w != []
    ensures u == w <==> u[0] == w[0] && u[1..] == w[1..]
  {
    if u[0] == w[0] && u[1..] == w[1..] {
      assert u == [u[0]] + u[1..] && w == [w[0]] + w[1..];
    }
  }

  /** After inserting `w`, exactly the words held before and `w` itself are
      held: `w` is found, and no proper prefix of `w` is marked as a word. */
  lemma {:induction false} InsertPathContains(n: TrieNode, w: string, u: string)
    ensures Contains(InsertPath(n, w), u) <==> Contains(n, u) || u == w
    decreases |w|, 1
  {
    if w == [] {
      if u != [] {
        ContainsStep(n, u);
        ContainsStep(InsertPath(n, w), u);
      }
    } else if u != [] {
      ConsEqual(u, w);
      if FirstChild(n.children, w[0]).Some? {
        InsertIntoChild(n, w, u);
      } else {
        InsertNewChild(n, w, u);
      }
    }
  }

  /** The case where a child already carries the first character of `w`. */
  lemma {:induction false} InsertIntoChild(n: TrieNode, w: string, u: string)
    requires w != [] && u != []
    requires FirstChild(n.children, w[0]).Some?
    ensures Contains(InsertPath(n, w), u) <==> Contains(n, u) || (u[0] == w[0] && u[1..] == w[1..])
    decreases |w|, 0
  {
    var cs := n.children;
    var i := FirstChild(cs, w[0]).value;
    var x := InsertPath(cs[i], w[1..]);
    var r := InsertPath(n, w);
    assert r.children == cs[i := x];
    FirstChildSameContents(cs, cs[i := x], u[0]);
    ContainsStep(n, u);
    ContainsStep(r, u);
    if u[0] == w[0] {
      InsertPathContains(cs[i], w[1..], u[1..]);
    }
  }

  /** The case where no child carries the first character of `w`. */
  lemma {:induction false} InsertNewChild(n: TrieNode, w: string, u: string)
    requires w != [] && u != []
    requires FirstChild(n.children, w[0]).None?
    ensures Contains(InsertPath(n, w), u) <==> Contains(n, u) || (u[0] == w[0] && u[1..] == w[1..])
    decreases |w|, 0
  {
    var cs := n.children;
    var leaf := TrieNode(w[0], false, []);
    var x := InsertPath(leaf, w[1..]);
    var r := InsertPath(n, w);
    assert r.children == cs + [x];
    FirstChildAppend(cs, x, u[0]);
    ContainsStep(n, u);
    ContainsStep(r, u);
    if u[0] == w[0] {
      assert (cs + [x])[|cs|] == x;
      InsertPathContains(leaf, w[1..], u[1..]);
      EmptyNodeHoldsNothing(w[0], u[1..]);
    } else if FirstChild(cs, u[0]).Some? {
      var j := FirstChild(cs, u[0]).value;
      assert (cs + [x])[j] == cs[j];
    }
  }

  /** Inserting never makes two siblings carry the same character. */
  lemma {:induction false} InsertPathDistinct(n: TrieNode, w: string)
    requires Distinct(n)
    ensures Distinct(InsertPath(n, w))
    decreases |w|
  {
    if w != [] {
      var cs := n.children;
      match FirstChild(cs, w[0])
      case Some(i) =>
        InsertPathDistinct(cs[i], w[1..]);
      case None =>
        InsertPathDistinct(TrieNode(w[0], false, []), w[1..]);
    }
  }

  // ---------------------------------------------------------------------
  // findbyprefix
  // ---------------------------------------------------------------------

  /** What `Trienode.findbyprefix(prefix)` returns: the words strictly below
      `n`, each spelled after `prefix`, in depth-first order of child insertion. */
  function Completions(n: TrieNode, prefix: string): seq<string>
    decreases n, |n.children| + 1
  {
    ChildCompletions(n, |n.children|, prefix)
  }

  /** What that loop has collected after the first `k` children. */
  function ChildCompletions(n: TrieNode, k: nat, prefix: string): seq<string>
    requires k <= |n.children|
    decreases n, k
  {
    if k == 0 then []
    else ChildCompletions(n, k - 1, prefix) + ChildPart(n.children[k - 1], prefix)
  }

  /** What one child `tn` adds: `prefix + tn.content` if a word ends there,
      then what lies below it. */
  function ChildPart(tn: TrieNode, prefix: string): seq<string>
    decreases tn, |tn.children| + 2
  {
    (if tn.isEnd then [prefix + [tn.content]] else [])
    + (if |tn.children| != 0 then Completions(tn, prefix + [tn.content]) else [])
  }

  /** Trienode.findbyprefix. */
  method NodeFindByPrefix(n: TrieNode, prefix: string) returns (result: seq<string>)
    ensures result == Completions(n, prefix)
    decreases n
  {
    result := [];
    var i := 0;
    while i < |n.children|
      invariant 0 <= i <= |n.children|
      invariant result == ChildCompletions(n, i, prefix)
    {
      var tn := n.children[i];
      if tn.isEnd {
        result := result + [prefix + [tn.content]];
      }
      if |tn.children| != 0 {
        var below := NodeFindByPrefix(tn, prefix + [tn.content]);
        result := result + below;
      }
      i := i + 1;
    }
  }

  /** With distinct siblings, the completions below `n` are exactly the
      strict extensions of `prefix` whose remainder `n` holds. */
  lemma {:induction false} CompletionsMember(n: TrieNode, prefix: string, w: string)
    requires Distinct(n)
    ensures w in Completions(n, prefix) <==> prefix < w && Contains(n, w[|prefix|..])
    decreases n, |n.children| + 1
  {
    ChildCompletionsMember(n, |n.children|, prefix, w);
  }

  lemma {:induction false} ChildCompletionsMember(n: TrieNode, k: nat, prefix: string, w: string)
    requires Distinct(n)
    requires k <= |n.children|
    ensures w in ChildCompletions(n, k, prefix) <==>
            && prefix < w
            && Contains(n, w[|prefix|..])
            && (var f := FirstChild(n.children, w[|prefix|]); f.Some? && f.value < k)
    decreases n, k
  {
    if k > 0 {
      var tn := n.children[k - 1];
      ChildCompletionsMember(n, k - 1, prefix, w);
      ChildPartMember(tn, prefix, w);
      if prefix < w {
        var s := w[|prefix|..];
        ContainsStep(n, s);
        assert s[0] == w[|prefix|] && s[1..] == w[|prefix| + 1..];
        if s[0] == tn.content {
          assert prefix + [tn.content] <= w by {
            assert w[..|prefix| + 1] == prefix + [tn.content];
          }
          assert FirstChild(n.children, s[0]) == Some(k - 1);
        } else {
          assert !(prefix + [tn.content] <= w);
        }
      } else {
        assert !(prefix + [tn.content] <= w);
      }
    }
  }

  lemma {:induction false} ChildPartMember(tn: TrieNode, prefix: string, w: string)
    requires Distinct(tn)
    ensures w in ChildPart(tn, prefix) <==>
            prefix + [tn.content] <= w && Contains(tn, w[|prefix| + 1..])
    decreases tn, |tn.children| + 2
  {
    var p := prefix + [tn.content];
    if |tn.children| != 0 {
      CompletionsMember(tn, p, w);
    }
    if p <= w {
      if |w| == |p| {
        assert w == p;
        assert w[|prefix| + 1..] == [];
      } else {
        assert p < w;
        assert w[|p|..] == w[|prefix| + 1..];
      }
    }
  }

  /** What `Trie.findbyprefix(prefix)` returns: nothing when the path for
      `prefix` is missing, otherwise the completions below its node. */
  function Prefixed(root: TrieNode, prefix: string): seq<string> {
    match Reach(root, prefix)
    case None => []
    case Some(t) => Completions(t, prefix)
  }

  /** With distinct siblings, `Trie.findbyprefix(p)` lists exactly the held
      words that strictly extend `p`; `p` itself is never listed. */
  lemma {:induction false} PrefixedMember(root: TrieNode, p: string, w: string)
    requires Distinct(root)
    ensures w in Prefixed(root, p) <==> p < w && Contains(root, w)
  {
    if p < w {
      assert w == p + w[|p|..];
      ReachAppend(root, p, w[|p|..]);
    }
    match Reach(root, p)
    case None =>
    case Some(t) =>
      ReachDistinct(root, p);
      CompletionsMember(t, p, w);
  }

  /** No word is listed twice. */
  ghost predicate NoDuplicates(ws: seq<string>) {
    forall i, j :: 0 <= i < j < |ws| ==> ws[i] != ws[j]
  }

  lemma {:induction false} NoDuplicatesAppend(a: seq<string>, b: seq<string>)
    requires NoDuplicates(a) && NoDuplicates(b)
    requires forall w :: w in a ==> w !in b
    ensures NoDuplicates(a + b)
  {
    forall i, j | 0 <= i < j < |a + b|
      ensures (a + b)[i] != (a + b)[j]
    {
      if i < |a| && j >= |a| {
        assert (a + b)[i] in a && (a + b)[j] == b[j - |a|];
      }
    }
  }

  /** With distinct siblings, `Trienode.findbyprefix` lists each word once. */
  lemma {:induction false} CompletionsNoDuplicates(n: TrieNode, prefix: string)
    requires Distinct(n)
    ensures NoDuplicates(Completions(n, prefix))
    decreases n, |n.children| + 1
  {
    ChildCompletionsNoDuplicates(n, |n.children|, prefix);
  }

  lemma {:induction false} ChildCompletionsNoDuplicates(n: TrieNode, k: nat, prefix: string)
    requires Distinct(n)
    requires k <= |n.children|
    ensures NoDuplicates(ChildCompletions(n, k, prefix))
    decreases n, k
  {
    if k > 0 {
      var tn := n.children[k - 1];
      var a, b := ChildCompletions(n, k - 1, prefix), ChildPart(tn, prefix);
      ChildCompletionsNoDuplicates(n, k - 1, prefix);
      ChildPartNoDuplicates(tn, prefix);
      forall w | w in a
        ensures w !in b
      {
        ChildCompletionsMember(n, k - 1, prefix, w);
        ChildPartMember(tn, prefix, w);
      }
      NoDuplicatesAppend(a, b);
    }
  }

  lemma {:induction false} ChildPartNoDuplicates(tn: TrieNode, prefix: string)
    requires Distinct(tn)
    ensures NoDuplicates(ChildPart(tn, prefix))
    decreases tn, |tn.children| + 2
  {
    var p := prefix + [tn.content];
    if |tn.children| != 0 {
      var below := Completions(tn, p);
      CompletionsNoDuplicates(tn, p);
      forall w | w in [p]
        ensures w !in below
      {
        CompletionsMember(tn, p, w);
      }
      if tn.isEnd {
        NoDuplicatesAppend([p], below);
      }
    }
  }

  /** With distinct siblings, `Trie.findbyprefix(p)` lists each word once. */
  lemma {:induction false} PrefixedNoDuplicates(root: TrieNode, p: string)
    requires Distinct(root)
    ensures NoDuplicates(Prefixed(root, p))
  {
    match Reach(root, p)
    case None =>
    case Some(t) =>
      ReachDistinct(root, p);
      CompletionsNoDuplicates(t, p);
  }

  /** A new chain of nodes spelling `c` then `rest` holds that one word. */
  lemma {:induction false} FreshChainPart(c: char, rest: string, q: string)
    ensures ChildPart(InsertPath(TrieNode(c, false, []), rest), q) == [q + [c] + rest]
    decreases |rest|
  {
    if rest == [] {
      assert q + [c] + rest == q + [c];
    } else {
      var child := InsertPath(TrieNode(rest[0], false, []), rest[1..]);
      var t := InsertPath(TrieNode(c, false, []), rest);
      assert t == TrieNode(c, false, [child]);
      FreshChainPart(rest[0], rest[1..], q + [c]);
      assert ChildCompletions(t, 1, q + [c]) == ChildPart(child, q + [c]);
      assert q + [c] + [rest[0]] + rest[1..] == q + [c] + rest;
    }
  }

  /** Completions depend only on the children scanned so far. */
  lemma {:induction false} ChildCompletionsPrefix(n: TrieNode, m: TrieNode, k: nat, prefix: string)
    requires k <= |n.children| && k <= |m.children|
    requires n.children[..k] == m.children[..k]
    ensures ChildCompletions(n, k, prefix) == ChildCompletions(m, k, prefix)
    decreases k
  {
    if k > 0 {
      assert n.children[k - 1] == n.children[..k][k - 1] == m.children[k - 1];
      assert n.children[..k - 1] == n.children[..k][..k - 1];
      assert m.children[..k - 1] == m.children[..k][..k - 1];
      ChildCompletionsPrefix(n, m, k - 1, prefix);
    }
  }

  /** A word whose first character is new below `n` is listed after all the
      completions listed before, as its branch is the last child. */
  lemma {:induction false} InsertNewLast(n: TrieNode, w: string, prefix: string)
    requires w != [] && FirstChild(n.children, w[0]).None?
    ensures Completions(InsertPath(n, w), prefix) == Completions(n, prefix) + [prefix + w]
  {
    var cs := n.children;
    var x := InsertPath(TrieNode(w[0], false, []), w[1..]);
    var r := InsertPath(n, w);
    assert r.children == cs + [x];
    assert r.children[..|cs|] == cs[..|cs|];
    ChildCompletionsPrefix(n, r, |cs|, prefix);
    FreshChainPart(w[0], w[1..], prefix);
    assert prefix + [w[0]] + w[1..] == prefix + w;
  }

  /** Inserting along an existing path `p` rebuilds the node at `p` by
      inserting the rest of the word there. */
  lemma {:induction false} ReachInsertPath(root: TrieNode, p: string, s: string)
    requires Reach(root, p).Some?
    ensures Reach(InsertPath(root, p + s), p) == Some(InsertPath(Reach(root, p).value, s))
    decreases |p|
  {
    if p == [] {
      assert p + s == s;
    } else {
      var cs := root.children;
      var i := FirstChild(cs, p[0]).value;
      assert (p + s)[0] == p[0] && (p + s)[1..] == p[1..] + s;
      var y := InsertPath(cs[i], p[1..] + s);
      assert InsertPath(root, p + s).children == cs[i := y];
      FirstChildSameContents(cs, cs[i := y], p[0]);
      ReachInsertPath(cs[i], p[1..], s);
    }
  }

  /** `Trie.findbyprefix(p)` after inserting a word that opens a new branch
      below `p`: the earlier results in their order, then the new word. */
  lemma {:induction false} PrefixedInsertNewLast(root: TrieNode, p: string, c: char, rest: string)
    requires Reach(root, p).Some?
    requires FirstChild(Reach(root, p).value.children, c).None?
    ensures Prefixed(InsertPath(root, p + [c] + rest), p) == Prefixed(root, p) + [p + [c] + rest]
  {
    var t := Reach(root, p).value;
    assert p + [c] + rest == p + ([c] + rest);
    ReachInsertPath(root, p, [c] + rest);
    assert ([c] + rest)[0] == c && ([c] + rest)[1..] == rest;
    InsertNewLast(t, [c] + rest, p);
  }

  /** Inserting "ab" and then "ac" into a new trie: findbyprefix("a") lists
      them in insertion order. */
  lemma {:induction false} PrefixedInsertionOrder()
    ensures var t := InsertPath(InsertPath(TrieNode(' ', false, []), "ab"), "ac");
            Prefixed(t, "a") == ["ab", "ac"]
  {
    var t1 := InsertPath(TrieNode(' ', false, []), "ab");
    var a := TrieNode('a', false, [TrieNode('b', true, [])]);
    assert t1 == TrieNode(' ', false, [a]) by {
      assert "ab"[0] == 'a' && "ab"[1..] == "b" && "b"[0] == 'b' && "b"[1..] == "";
      assert InsertPath(TrieNode('b', false, []), "") == TrieNode('b', true, []);
      assert InsertPath(TrieNode('a', false, []), "b") == a;
    }
    assert Reach(t1, "a") == Some(a) by {
      assert "a"[1..] == [];
    }
    assert Prefixed(t1, "a") == ["ab"] by {
      assert ChildCompletions(a, 1, "a") == ChildPart(TrieNode('b', true, []), "a");
      assert ChildPart(TrieNode('b', true, []), "a") == ["a" + ['b']];
      assert "a" + ['b'] == "ab";
    }
    PrefixedInsertNewLast(t1, "a", 'c', "");
    assert "a" + ['c'] + "" == "ac";
  }

  // ---------------------------------------------------------------------
  // Trie
  // ---------------------------------------------------------------------

  class Trie {
    var root: TrieNode

    /** Siblings carry distinct characters throughout the trie. */
    ghost predicate Valid()
      reads this
    {
      Distinct(root)
    }

    /** The root carries a blank and holds no word. */
    constructor ()
      ensures Valid()
      ensures root == TrieNode(' ', false, [])
    {
      root := TrieNode(' ', false, []);
    }

    /** Trie.search. */
    method Search(word: string) returns (found: bool)
      ensures found == Contains(root, word)
    {
      var current := root;
      for i := 0 to |word|
        invariant Reach(root, word[..i]) == Some(current)
      {
        var sub := SubNode(current, word[i]);
        ReachSnoc(root, word[..i], word[i]);
        assert word[..i] + [word[i]] == word[..i + 1];
        if sub.None? {
          ReachAppend(root, word[..i + 1], word[i + 1..]);
          assert word[..i + 1] + word[i + 1..] == word;
          return false;
        }
        current := sub.value;
      }
      assert word[..|word|] == word;
      found := current.isEnd;
    }

    /** Trie.findbyprefix. */
    method FindByPrefix(prefix: string) returns (result: seq<string>)
      ensures result == Prefixed(root, prefix)
    {
      var current := root;
      for i := 0 to |prefix|
        invariant Reach(root, prefix[..i]) == Some(current)
      {
        var sub := SubNode(current, prefix[i]);
        ReachSnoc(root, prefix[..i], prefix[i]);
        assert prefix[..i] + [prefix[i]] == prefix[..i + 1];
        if sub.None? {
          ReachAppend(root, prefix[..i + 1], prefix[i + 1..]);
          assert prefix[..i + 1] + prefix[i + 1..] == prefix;
          return [];
        }
        current := sub.value;
      }
      assert prefix[..|prefix|] == prefix;
      result := NodeFindByPrefix(current, prefix);
    }

    /** Trie.insert: a word already held changes nothing; otherwise exactly
        `word` is added to the held words. */
    method Insert(word: string)
      requires Valid()
      modifies this
      ensures Valid()
      ensures old(Contains(root, word)) ==> root == old(root)
      ensures !old(Contains(root, word)) ==> root == InsertPath(old(root), word)
      ensures forall u :: Contains(root, u) <==> old(Contains(root, u)) || u == word
    {
      var present := Search(word);
      if present {
        return;
      }
      root := InsertPath(root, word);
      InsertPathDistinct(old(root), word);
      forall u
        ensures Contains(root, u) <==> old(Contains(root, u)) || u == word
      {
        InsertPathContains(old(root), word, u);
      }
    }
  }
}
