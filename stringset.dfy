/** StringSetImpl: a set of strings kept as a trie over the 127 ASCII codes.
    Every node has one child slot per code, a link to its parent, a flag
    saying whether the string spelled from the root to it is stored, and a
    count of stored strings in its subtree.

    The nodes live in an arena: node `n` is the n-th entry of the parallel
    sequences `children`, `parent`, `isFinal` and `count`, and a link is a node
    number, or `Null`. The root is node 0. */
module StringSet {
  const AlphabetSize: int := 127
  const Null: int := -1
  /** The children array of a new node. */
  const EmptySlots: seq<int> := seq(AlphabetSize, _ => Null)

  /** Every character is a valid child slot; any other string makes the walk
      index past the end of a children array. */
  predicate InAlphabet(s: string) {
    forall k :: 0 <= k < |s| ==> s[k] as int < AlphabetSize
  }

  /** The prefixes of `s`, `s` itself included. */
  ghost function Prefixes(s: string): set<string> {
    set k | 0 <= k <= |s| :: s[..k]
  }

  /** The prefixes of one letter more are those of `s[..pos]` and
      `s[..pos + 1]` itself. */
  lemma PrefixesStep(s: string, pos: nat)
    requires pos < |s|
    ensures Prefixes(s[..pos + 1]) == Prefixes(s[..pos]) + {s[..pos + 1]}
  {
    var longer, shorter := s[..pos + 1], s[..pos];
    forall w | w in Prefixes(longer) ensures w in Prefixes(shorter) + {longer} {
      var k :| 0 <= k <= |longer| && w == longer[..k];
      if k <= pos {
        assert w == shorter[..k];
      } else {
        assert w == longer;
      }
    }
    forall w | w in Prefixes(shorter) ensures w in Prefixes(longer) {
      var k :| 0 <= k <= |shorter| && w == shorter[..k];
      assert w == longer[..k];
    }
    assert longer == longer[..|longer|];
  }

  /** The strings of `strings` that start with `p` (`<=` on sequences is
      "is a prefix of"). */
  ghost function Starting(strings: set<string>, p: string): set<string> {
    set s | s in strings && p <= s
  }

  /** How many entries of `h` start with `p`. */
  function CountStarting(h: seq<string>, p: string): (r: nat)
    ensures r <= |h|
  {
    if h == [] then 0
    else CountStarting(h[..|h| - 1], p) + (if p <= h[|h| - 1] then 1 else 0)
  }

  /** `p <= s` on sequences is "p is a prefix of s". */
  lemma PrefixBySlice(p: string, s: string)
    ensures p <= s <==> |p| <= |s| && s[..|p|] == p
  {
  }

  lemma StartingInsert(strings: set<string>, p: string, s: string)
    requires s !in strings
    ensures |Starting(strings + {s}, p)| == |Starting(strings, p)| + (if p <= s then 1 else 0)
  {
    if p <= s {
      assert Starting(strings + {s}, p) == Starting(strings, p) + {s};
    } else {
      assert Starting(strings + {s}, p) == Starting(strings, p);
    }
  }

  lemma StartingDelete(strings: set<string>, p: string, s: string)
    requires s in strings
    ensures |Starting(strings - {s}, p)| == |Starting(strings, p)| - (if p <= s then 1 else 0)
  {
    if p <= s {
      assert Starting(strings - {s}, p) + {s} == Starting(strings, p);
    } else {
      assert Starting(strings - {s}, p) == Starting(strings, p);
    }
  }

  /** Every string starts with the empty prefix. */
  lemma StartingEmptyPrefix(strings: set<string>, h: seq<string>)
    ensures Starting(strings, []) == strings
    ensures CountStarting(h, []) == |h|
  {
    if h != [] {
      StartingEmptyPrefix(strings, h[..|h| - 1]);
    }
  }

  lemma CountStartingAppend(h: seq<string>, p: string, s: string)
    ensures CountStarting(h + [s], p) == CountStarting(h, p) + (if p <= s then 1 else 0)
  {
    assert (h + [s])[..|h|] == h;
  }

  lemma {:induction false} CountStartingNone(h: seq<string>, p: string)
    requires forall k :: 0 <= k < |h| ==> !(p <= h[k])
    ensures CountStarting(h, p) == 0
  {
    if h != [] {
      CountStartingNone(h[..|h| - 1], p);
    }
  }

  /** The root spells "", and every other node's parent comes before it
      and spells its string less the last letter. */
  ghost predicate Linked(parent: seq<int>, path: seq<string>) {
    && |parent| == |path| > 0
    && parent[0] == Null && path[0] == []
    && forall n {:trigger parent[n]} :: 0 < n < |path| ==>
         0 <= parent[n] < n && |path[n]| > 0 && path[parent[n]] == path[n][..|path[n]| - 1]
  }

  /** Nodes and the strings they spell correspond one to one, and the
      strings that have nodes are closed under prefixes. */
  ghost predicate Indexed(path: seq<string>, index: map<string, nat>) {
    && (forall s :: s in index ==> index[s] < |path| && path[index[s]] == s)
    && (forall n :: 0 <= n < |path| ==> path[n] in index && index[path[n]] == n)
    && (forall s, k :: s in index && 0 <= k <= |s| ==> s[..k] in index)
  }

  /** Every node has a slot per character; a filled slot holds a later node
      spelling one letter more, and an empty slot means no node spells
      that extension. */
  ghost predicate Slots(children: seq<seq<int>>, path: seq<string>, index: map<string, nat>) {
    && |children| == |path|
    && (forall n :: 0 <= n < |path| ==> |children[n]| == AlphabetSize)
    && (forall n, c :: 0 <= n < |path| && 0 <= c < AlphabetSize && children[n][c] != Null ==>
          0 < children[n][c] < |path| && path[children[n][c]] == path[n] + [c as char])
    && (forall n, c :: 0 <= n < |path| && 0 <= c < AlphabetSize && children[n][c] == Null ==>
          path[n] + [c as char] !in index)
  }

  /** The extension by one letter of a node's string with an empty slot
      has no node, and all its proper prefixes do. */
  lemma ExtensionIsNew(path: seq<string>, index: map<string, nat>, children: seq<seq<int>>, n: int, c: int)
    requires Indexed(path, index) && Slots(children, path, index)
    requires 0 <= n < |path| && 0 <= c < AlphabetSize && children[n][c] == Null
    ensures path[n] + [c as char] !in index
  {
  }

  lemma GrowIndexed(path: seq<string>, index: map<string, nat>, children: seq<seq<int>>, n: int, c: int)
    requires Indexed(path, index) && Slots(children, path, index)
    requires 0 <= n < |path| && 0 <= c < AlphabetSize && children[n][c] == Null
    ensures Indexed(path + [path[n] + [c as char]], index[path[n] + [c as char] := |path|])
  {
    var spelled := path[n] + [c as char];
    ExtensionIsNew(path, index, children, n, c);
    var path', index' := path + [spelled], index[spelled := |path|];
    forall s, k | s in index' && 0 <= k <= |s| ensures s[..k] in index' {
      if s == spelled {
        if k == |s| {
          assert s[..k] == s;
        } else {
          assert s[..k] == path[n][..k];
        }
      }
    }
    forall i | 0 <= i < |path'| ensures path'[i] in index' && index'[path'[i]] == i {
      if i < |path| {
        assert path'[i] == path[i] && path[i] in index;
      }
    }
  }

  lemma GrowSlots(path: seq<string>, index: map<string, nat>, children: seq<seq<int>>, n: int, c: int)
    requires Indexed(path, index) && Slots(children, path, index)
    requires 0 <= n < |path| && 0 <= c < AlphabetSize && children[n][c] == Null
    ensures Slots(children[n := children[n][c := |path|]] + [EmptySlots],
                  path + [path[n] + [c as char]], index[path[n] + [c as char] := |path|])
  {
    var m := |path|;
    var spelled := path[n] + [c as char];
    ExtensionIsNew(path, index, children, n, c);
    var children' := children[n := children[n][c := m]] + [EmptySlots];
    var path', index' := path + [spelled], index[spelled := m];
    forall n', c' | 0 <= n' < |path'| && 0 <= c' < AlphabetSize && children'[n'][c'] == Null
      ensures path'[n'] + [c' as char] !in index'
    {
      var ext := path'[n'] + [c' as char];
      if n' == m {
        assert ext[..|spelled|] == spelled;
      } else {
        assert children'[n'][c'] == children[n'][c'] && path'[n'] == path[n'];
        if |ext| == |spelled| {
          assert ext[..|path[n']|] == path[n'] && spelled[..|path[n]|] == path[n];
          assert index[path[n']] == n' && index[path[n]] == n;
        }
      }
    }
    forall n', c' | 0 <= n' < |path'| && 0 <= c' < AlphabetSize && children'[n'][c'] != Null
      ensures 0 < children'[n'][c'] < |path'| && path'[children'[n'][c']] == path'[n'] + [c' as char]
    {
      if n' != m && !(n' == n && c' == c) {
        assert children'[n'][c'] == children[n'][c'];
      }
    }
  }

  /** The flags mark exactly the stored strings, and every stored or
      counted-out string has a node. */
  ghost predicate Marks(isFinal: seq<bool>, path: seq<string>, contents: set<string>, index: map<string, nat>, phantom: seq<string>) {
    && |isFinal| == |path|
    && (forall n {:trigger isFinal[n]} :: 0 <= n < |path| ==> (isFinal[n] <==> path[n] in contents))
    && (forall s :: s in contents ==> s in index)
    && (forall k :: 0 <= k < |phantom| ==> phantom[k] in index)
  }

  /** A node's count is the number of stored strings below it, less the
      strings counted out below it. */
  ghost predicate Counts(count: seq<int>, path: seq<string>, contents: set<string>, phantom: seq<string>) {
    && |count| == |path|
    && forall n {:trigger count[n]} :: 0 <= n < |path| ==>
         count[n] == |Starting(contents, path[n])| - CountStarting(phantom, path[n])
  }

  /** A string with no node has no stored or counted-out string below it. */
  lemma NothingBelowMissing(index: map<string, nat>, contents: set<string>, phantom: seq<string>, p: string)
    requires forall s, k :: s in index && 0 <= k <= |s| ==> s[..k] in index
    requires forall s :: s in contents ==> s in index
    requires forall k :: 0 <= k < |phantom| ==> phantom[k] in index
    requires p !in index
    ensures Starting(contents, p) == {}
    ensures CountStarting(phantom, p) == 0
  {
    forall s | s in contents ensures !(p <= s) {
      PrefixBySlice(p, s);
      if |p| <= |s| {
        assert s[..|p|] in index;
      }
    }
    forall k | 0 <= k < |phantom| ensures !(p <= phantom[k]) {
      PrefixBySlice(p, phantom[k]);
      if |p| <= |phantom[k]| {
        assert phantom[k][..|p|] in index;
      }
    }
    CountStartingNone(phantom, p);
  }

  lemma GrowMarks(isFinal: seq<bool>, path: seq<string>, contents: set<string>, index: map<string, nat>, phantom: seq<string>, spelled: string)
    requires Marks(isFinal, path, contents, index, phantom) && spelled !in index
    ensures Marks(isFinal + [false], path + [spelled], contents, index[spelled := |path|], phantom)
  {
  }

  lemma GrowCounts(count: seq<int>, path: seq<string>, contents: set<string>, index: map<string, nat>, phantom: seq<string>, spelled: string)
    requires Counts(count, path, contents, phantom)
    requires forall s, k :: s in index && 0 <= k <= |s| ==> s[..k] in index
    requires forall s :: s in contents ==> s in index
    requires forall k :: 0 <= k < |phantom| ==> phantom[k] in index
    requires spelled !in index
    ensures Counts(count + [0], path + [spelled], contents, phantom)
  {
    NothingBelowMissing(index, contents, phantom, spelled);
    var count', path' := count + [0], path + [spelled];
    forall n | 0 <= n < |path'|
      ensures count'[n] == |Starting(contents, path'[n])| - CountStarting(phantom, path'[n])
    {
      if n < |path| {
        assert count'[n] == count[n] && path'[n] == path[n];
      }
    }
  }

  lemma GrowLinked(parent: seq<int>, path: seq<string>, n: int, spelled: string)
    requires Linked(parent, path) && 0 <= n < |path| && |spelled| > 0 && spelled[..|spelled| - 1] == path[n]
    ensures Linked(parent + [n], path + [spelled])
  {
    var parent', path' := parent + [n], path + [spelled];
    forall i | 0 < i < |path'|
      ensures 0 <= parent'[i] < i && |path'[i]| > 0 && path'[parent'[i]] == path'[i][..|path'[i]| - 1]
    {
      if i < |path| {
        assert parent'[i] == parent[i] && path'[i] == path[i] && path'[parent[i]] == path[parent[i]];
      }
    }
  }

  /** Marking or unmarking the node of one string stores or drops exactly
      that string. */
  lemma Remark(isFinal: seq<bool>, path: seq<string>, contents: set<string>, index: map<string, nat>, phantom: seq<string>, end: int, flag: bool)
    requires Marks(isFinal, path, contents, index, phantom) && Indexed(path, index) && 0 <= end < |path|
    ensures Marks(isFinal[end := flag], path, if flag then contents + {path[end]} else contents - {path[end]}, index, phantom)
  {
    var contents' := if flag then contents + {path[end]} else contents - {path[end]};
    forall n | 0 <= n < |path| ensures isFinal[end := flag][n] <==> path[n] in contents' {
      assert index[path[n]] == n && index[path[end]] == end;
    }
  }

  /** After the walk up from the node of a string newly stored, every count
      is right again. */
  lemma RecountInsert(count: seq<int>, count': seq<int>, path: seq<string>, contents: set<string>, phantom: seq<string>, end: int)
    requires Counts(count, path, contents, phantom) && 0 <= end < |path| && path[end] !in contents
    requires |count'| == |path|
    requires forall n :: 0 <= n < |path| ==> count'[n] == count[n] + (if path[n] <= path[end] then 1 else 0)
    ensures Counts(count', path, contents + {path[end]}, phantom)
  {
    forall n | 0 <= n < |path|
      ensures count'[n] == |Starting(contents + {path[end]}, path[n])| - CountStarting(phantom, path[n])
    {
      StartingInsert(contents, path[n], path[end]);
    }
  }

  /** After the walk up from the node of a string just dropped, every count
      is right again. */
  lemma RecountDelete(count: seq<int>, count': seq<int>, path: seq<string>, contents: set<string>, phantom: seq<string>, end: int)
    requires Counts(count, path, contents, phantom) && 0 <= end < |path| && path[end] in contents
    requires |count'| == |path|
    requires forall n :: 0 <= n < |path| ==> count'[n] == count[n] + (if path[n] <= path[end] then -1 else 0)
    ensures Counts(count', path, contents - {path[end]}, phantom)
  {
    forall n | 0 <= n < |path|
      ensures count'[n] == |Starting(contents - {path[end]}, path[n])| - CountStarting(phantom, path[n])
    {
      StartingDelete(contents, path[n], path[end]);
    }
  }

  /** After the source's remove has walked up from an unmarked node, the
      counts are right once that string is counted out. */
  lemma RecountPhantom(count: seq<int>, count': seq<int>, path: seq<string>, contents: set<string>, phantom: seq<string>, end: int)
    requires Counts(count, path, contents, phantom) && 0 <= end < |path|
    requires |count'| == |path|
    requires forall n :: 0 <= n < |path| ==> count'[n] == count[n] + (if path[n] <= path[end] then -1 else 0)
    ensures Counts(count', path, contents, phantom + [path[end]])
  {
    forall n | 0 <= n < |path|
      ensures count'[n] == |Starting(contents, path[n])| - CountStarting(phantom + [path[end]], path[n])
    {
      CountStartingAppend(phantom, path[n], path[end]);
    }
  }

  class Trie {
    /** `children[n][c]`: the child of node n for the character with code c. */
    var children: seq<seq<int>>
    var parent: seq<int>
    var isFinal: seq<bool>
    var count: seq<int>
    /** The string spelled by the path from the root to each node. */
    ghost var path: seq<string>
    /** The node of each string that has one. */
    ghost var index: map<string, nat>
    /** The strings the set holds. */
    ghost var contents: set<string>
    /** The strings the `remove` of the source has counted out of the
        subtree counts without unmarking them (empty unless RemoveAsWritten
        was used). */
    ghost var phantom: seq<string>

    /** The trie's shape (see Linked, Indexed and Slots). */
    ghost predicate Shape()
      reads this`children, this`parent, this`path, this`index
    {
      Linked(parent, path) && Indexed(path, index) && Slots(children, path, index)
    }

    ghost predicate Stored()
      reads this`isFinal, this`path, this`contents, this`index, this`phantom
    {
      Marks(isFinal, path, contents, index, phantom)
    }

    ghost predicate Counted()
      reads this`count, this`path, this`contents, this`phantom
    {
      Counts(count, path, contents, phantom)
    }

    ghost predicate Valid()
      reads this
    {
      Shape() && Stored() && Counted()
    }

    /** An empty set: the root alone. */
    constructor ()
      ensures Valid() && contents == {} && phantom == []
      ensures index == map[[] := 0]
    {
      children := [EmptySlots];
      parent := [Null];
      isFinal := [false];
      count := [0];
      path := [[]];
      index := map[[] := 0];
      contents := {};
      phantom := [];
      new;
      assert Starting({}, []) == {};
    }

    /** Walking from a node to its parent keeps every other node's relation
        "is a prefix of this node's string". */
    lemma PrefixOfParent(n: int, node: int)
      requires Shape() && 0 <= n < |path| && 0 < node < |path| && n != node
      ensures path[n] <= path[node] <==> path[n] <= path[parent[node]]
    {
      assert index[path[n]] == n && index[path[node]] == node;
      var w, q := path[node], path[n];
      PrefixBySlice(q, w);
      PrefixBySlice(q, path[parent[node]]);
      if |q| <= |w| - 1 {
        assert path[parent[node]][..|q|] == w[..|q|];
      } else if |q| == |w| {
        assert w[..|q|] == w;
      }
    }

    /** The walk down `s` reads a child slot for every character whose
        prefix has a node, and stops at the first one without; each such
        character has a slot. After a missing node nothing more is read. */
    ghost predicate Walkable(s: string)
      reads this`index
    {
      forall k :: 0 <= k < |s| && s[..k] in index ==> s[k] as int < AlphabetSize
    }

    /** The downward walk shared by contains, remove and
        howManyStartsWithPrefix: the node spelling `s`, or Null when the
        path breaks off. */
    method Descend(s: string) returns (node: int)
      requires Shape() && Walkable(s)
      ensures node == Null <==> s !in index
      ensures node != Null ==> 0 <= node < |path| && path[node] == s
    {
      node := 0;
      var pos := 0;
      while pos != |s|
        invariant 0 <= pos <= |s| && 0 <= node < |path| && path[node] == s[..pos]
      {
        assert s[..pos] in index;
        var c := s[pos] as int;
        if children[node][c] == Null {
          assert s[..pos + 1] == path[node] + [c as char];
          assert s[..pos + 1] !in index;
          return Null;
        }
        assert s[..pos + 1] == path[node] + [c as char];
        node := children[node][c];
        pos := pos + 1;
      }
      assert s[..pos] == s;
    }

    /** A new node under `n` for the character with code `c`, the
        `new TrieNode(node)` of the source's add. */
    method NewChild(n: int, c: int) returns (m: int)
      requires Valid() && 0 <= n < |path| && 0 <= c < AlphabetSize && children[n][c] == Null
      modifies this`children, this`parent, this`isFinal, this`count, this`path, this`index
      ensures Valid() && contents == old(contents) && phantom == old(phantom)
      ensures m == |old(path)| && path == old(path) + [old(path[n]) + [c as char]]
      ensures index == old(index)[path[m] := m]
      ensures children == old(children)[n := old(children[n])[c := m]] + [EmptySlots]
      ensures parent == old(parent) + [n] && isFinal == old(isFinal) + [false] && count == old(count) + [0]
    {
      ghost var spelled := path[n] + [c as char];
      assert spelled[..|spelled| - 1] == path[n];
      ExtensionIsNew(path, index, children, n, c);
      GrowLinked(parent, path, n, spelled);
      GrowIndexed(path, index, children, n, c);
      GrowSlots(path, index, children, n, c);
      GrowMarks(isFinal, path, contents, index, phantom, spelled);
      GrowCounts(count, path, contents, index, phantom, spelled);
      m := |parent|;
      assert m == |path|;
      children := children[n := children[n][c := m]] + [EmptySlots];
      parent := parent + [n];
      isFinal := isFinal + [false];
      count := count + [0];
      path := path + [spelled];
      index := index[spelled := m];
    }

    /** The walk up from `end` to the root, adding `delta` to every count on
        the way: exactly the nodes whose strings are prefixes of `end`'s. */
    method Bump(end: int, delta: int)
      requires Shape() && 0 <= end < |path| && |count| == |path|
      modifies this`count
      ensures |count| == |path|
      ensures forall n :: 0 <= n < |path| ==>
                count[n] == old(count[n]) + (if path[n] <= path[end] then delta else 0)
    {
      var node := end;
      while node != Null
        invariant |count| == |path|
        invariant node == Null || (0 <= node < |path| && path[node] <= path[end])
        invariant forall n :: 0 <= n < |path| ==>
                    count[n] == old(count[n]) +
                      (if path[n] <= path[end] && (node == Null || !(path[n] <= path[node])) then delta else 0)
        decreases node + 1
      {
        forall n | 0 <= n < |path| && n != node && node > 0
          ensures path[n] <= path[node] <==> path[n] <= path[parent[node]]
        {
          PrefixOfParent(n, node);
        }
        forall n | 0 <= n < |path| && n != node && node == 0
          ensures !(path[n] <= path[node])
        {
          assert index[path[n]] == n;
        }
        count := count[node := count[node] + delta];
        node := parent[node];
      }
    }

    /** Setting the flag of `node`: its string becomes stored or not. */
    method Mark(node: int, flag: bool)
      requires Shape() && Stored() && 0 <= node < |path|
      modifies this`isFinal, this`contents
      ensures Stored()
      ensures isFinal == old(isFinal)[node := flag]
      ensures contents == if flag then old(contents) + {path[node]} else old(contents) - {path[node]}
    {
      Remark(isFinal, path, contents, index, phantom, node, flag);
      isFinal := isFinal[node := flag];
      contents := if flag then contents + {path[node]} else contents - {path[node]};
    }

    /** Records that the source's remove counted `s` out of the counts. */
    ghost method CountOut(s: string)
      requires Stored() && s in index
      modifies this`phantom
      ensures Stored() && phantom == old(phantom) + [s]
    {
      phantom := phantom + [s];
    }

    /** The tail of add: mark the node and count its string in on the way
        up. */
    method Store(node: int)
      requires Valid() && 0 <= node < |path| && !isFinal[node]
      modifies this`isFinal, this`count, this`contents
      ensures Stored() && Counted() && contents == old(contents) + {path[node]}
    {
      ghost var before := count;
      Bump(node, 1);
      RecountInsert(before, count, path, contents, phantom, node);
      Mark(node, true);
    }

    /** The tail of the corrected remove: unmark the node and count its
        string out on the way up. */
    method Unstore(node: int)
      requires Valid() && 0 <= node < |path| && isFinal[node]
      modifies this`isFinal, this`count, this`contents
      ensures Stored() && Counted() && contents == old(contents) - {path[node]}
    {
      ghost var before := count;
      Bump(node, -1);
      RecountDelete(before, count, path, contents, phantom, node);
      Mark(node, false);
    }

    /** The tail of the source's remove, reached only on an unmarked node:
        clearing the flag changes nothing, as it is already clear, and the
        counts on the way up drop by one. */
    method Discount(node: int)
      requires Valid() && 0 <= node < |path| && !isFinal[node]
      modifies this`count, this`phantom
      ensures Stored() && Counted()
      ensures phantom == old(phantom) + [path[node]]
    {
      ghost var before := count;
      Bump(node, -1);
      RecountPhantom(before, count, path, contents, phantom, node);
      CountOut(path[node]);
    }

    /** The downward walk of add: follow `s` from the root, creating every
        missing node on the way; nothing stored changes. */
    method Locate(s: string) returns (node: int)
      requires Valid() && InAlphabet(s)
      modifies this`children, this`parent, this`isFinal, this`count, this`path, this`index
      ensures Valid() && contents == old(contents) && phantom == old(phantom)
      ensures 0 <= node < |path| && path[node] == s
      ensures index.Keys == old(index).Keys + Prefixes(s)
      ensures forall w :: w in old(index) ==> index[w] == old(index)[w]
    {
      node := 0;
      var pos := 0;
      assert Prefixes(s[..0]) == {[]} by {
        assert s[..0][..0] == [];
      }
      while pos != |s|
        invariant Valid() && contents == old(contents) && phantom == old(phantom)
        invariant 0 <= pos <= |s| && 0 <= node < |path| && path[node] == s[..pos]
        invariant index.Keys == old(index).Keys + Prefixes(s[..pos])
        invariant forall w :: w in old(index) ==> w in index && index[w] == old(index)[w]
      {
        var c := s[pos] as int;
        assert s[..pos + 1] == path[node] + [c as char];
        PrefixesStep(s, pos);
        if children[node][c] == Null {
          node := NewChild(node, c);
        } else {
          node := children[node][c];
        }
        pos := pos + 1;
      }
      assert s[..pos] == s;
    }

    /** `add`: walk down creating missing nodes; a string already stored is
        refused; otherwise it is marked and every count on its path goes
        up by one. */
    method Add(s: string) returns (added: bool)
      requires Valid() && InAlphabet(s)
      modifies this
      ensures Valid()
      ensures added <==> s !in old(contents)
      ensures contents == old(contents) + {s} && phantom == old(phantom)
      ensures index.Keys == old(index).Keys + Prefixes(s)
      ensures forall w :: w in old(index) ==> index[w] == old(index)[w]
    {
      var node := Locate(s);
      if isFinal[node] {
        return false;
      }
      Store(node);
      added := true;
    }

    /** `contains`: the path exists and its last node is marked. */
    method Contains(s: string) returns (r: bool)
      requires Valid() && Walkable(s)
      ensures r <==> s in contents
    {
      var node := Descend(s);
      if node == Null {
        return false;
      }
      r := isFinal[node];
    }

    /** `remove` exactly as the source writes it: it gives up on a node that
        IS marked, "unmarks" one that is not, and then counts the string
        out of every count on its path. So it never removes anything, and it
        succeeds exactly for strings with a node that are not stored. */
    method RemoveAsWritten(s: string) returns (removed: bool)
      requires Valid() && Walkable(s)
      modifies this
      ensures Valid()
      ensures removed <==> s in old(index) && s !in old(contents)
      ensures contents == old(contents)
      ensures phantom == old(phantom) + (if removed then [s] else [])
      ensures index == old(index)
    {
      var node := Descend(s);
      if node == Null {
        return false;
      }
      if isFinal[node] {
        return false;
      }
      Discount(node);
      removed := true;
    }

    /** `remove` as the StringSet interface documents it: true iff the
        string was stored, and it is no longer stored afterwards. The guard
        is the negation of the source's. */
    method Remove(s: string) returns (removed: bool)
      requires Valid() && Walkable(s)
      modifies this
      ensures Valid()
      ensures removed <==> s in old(contents)
      ensures contents == old(contents) - {s} && phantom == old(phantom)
      ensures index == old(index)
    {
      var node := Descend(s);
      if node == Null {
        return false;
      }
      if !isFinal[node] {
        return false;
      }
      Unstore(node);
      removed := true;
    }

    /** `howManyStartsWithPrefix`: the count of the prefix's node, 0 when it
        has none. With no strings counted out, that is the number of stored
        strings with that prefix. */
    method HowManyStartsWithPrefix(p: string) returns (r: int)
      requires Valid() && Walkable(p)
      ensures r == |Starting(contents, p)| - CountStarting(phantom, p)
      ensures phantom == [] ==> r == |Starting(contents, p)|
    {
      var node := Descend(p);
      if node == Null {
        NothingBelowMissing(index, contents, phantom, p);
        return 0;
      }
      r := count[node];
    }

    /** `size`: the root's count, which is the number of stored strings. */
    method Size() returns (r: int)
      requires Valid()
      ensures r == |contents| - |phantom|
      ensures phantom == [] ==> r == |contents|
    {
      StartingEmptyPrefix(contents, phantom);
      r := HowManyStartsWithPrefix("");
    }
  }

  /** With the source's remove, a stored string cannot be removed: remove
      answers false and the string is still there. */
  method RemoveAsWrittenKeepsElement() returns (t: Trie, added: bool, removed: bool, stillThere: bool)
    ensures added && !removed && stillThere
  {
    t := new Trie();
    added := t.Add("a");
    removed := t.RemoveAsWritten("a");
    stillThere := t.Contains("a");
  }

  /** With the source's remove, removing "" from an empty set succeeds and
      makes the size -1. */
  method RemoveAsWrittenOnEmpty() returns (t: Trie, removed: bool, size: int)
    ensures removed && size == -1
  {
    t := new Trie();
    assert [] in t.index;
    removed := t.RemoveAsWritten("");
    size := t.Size();
  }

  /** The walk stops at the first missing node: on a set without "b", a
      string going on past "b" with a character that has no child slot is
      simply not contained, and its prefix count is 0. */
  method ContainsPastMissingChild() returns (t: Trie, r: bool, n: int)
    ensures !r && n == 0
  {
    t := new Trie();
    assert "b\U{FF}"[..1] == "b" && "b\U{FF}"[..2] == "b\U{FF}";
    r := t.Contains("b\U{FF}");
    n := t.HowManyStartsWithPrefix("b\U{FF}");
  }

  /** Operations chain on the nodes `add` leaves: after adding "ab", a walk
      down "b\U{FF}" stops at the missing "b", and the source's remove of the
      unstored prefix "a" reports success and counts "a" out, which leaves
      the size at 0 with "ab" still stored. */
  method WalksAfterAdd() returns (t: Trie, r: bool, removed: bool, stillThere: bool, size: int)
    ensures !r && removed && stillThere && size == 0
  {
    t := new Trie();
    var added := t.Add("ab");
    assert Prefixes("ab") == {"", "a", "ab"} by {
      assert "ab"[..0] == "" && "ab"[..1] == "a" && "ab"[..2] == "ab";
    }
    assert "b\U{FF}"[..1] == "b" && "b\U{FF}"[..2] == "b\U{FF}";
    r := t.Contains("b\U{FF}");
    removed := t.RemoveAsWritten("a");
    stillThere := t.Contains("ab");
    size := t.Size();
  }

  /** With the corrected remove the round trip of the documentation holds:
      a string added and then removed is gone, and remove said so. */
  method RemoveAfterAdd() returns (t: Trie, added: bool, removed: bool, stillThere: bool, size: int)
    ensures added && removed && !stillThere && size == 0
  {
    t := new Trie();
    added := t.Add("a");
    removed := t.Remove("a");
    stillThere := t.Contains("a");
    size := t.Size();
  }
}
