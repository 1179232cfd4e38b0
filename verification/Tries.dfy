/**
 The prefix tree of the routing table: linked, mutable nodes that refine a finite
 map from strings to values.

 The ghost field `at` names every node by the path of characters that leads to it.
 The children of a node are a dictionary, so they have an order: that of their insertion.
 */
module Tries {

  import opened Collections

  /** A Python dictionary: its items, and its keys in the order of their insertion. */
  datatype Dict<+T> = Dict(items: map<char, T>, order: seq<char>)

  ghost predicate Consistent<T>(d: Dict<T>) {
    NoDuplicates(d.order) && Elements(d.order) == d.items.Keys
  }

  type Children<+T> = d: Dict<T> | Consistent(d) witness Dict(map[], [])

  /** d[c] = x for a key that is new. */
  function Added<T>(d: Children<T>, c: char, x: T): (r: Children<T>)
    requires c !in d.items
    ensures r.items == d.items[c := x] && r.order == d.order + [c]
  {
    assert c !in Elements(d.order);
    ElementsJoin(d.order, [c]);
    JoinDistinct(d.order, [c]);
    Dict(d.items[c := x], d.order + [c])
  }

  /** d.pop(c). */
  function Dropped<T>(d: Children<T>, c: char): (r: Children<T>)
    ensures r.items == d.items - {c} && r.order == Without(d.order, c)
  {
    WithoutKeeps(d.order, c);
    Dict(d.items - {c}, Without(d.order, c))
  }

  class TrieNode<V> {
    var value: Option<V>
    var children: Children<TrieNode<V>>
    ghost const path: string

    constructor (ghost path: string)
      ensures value == None && children == Dict(map[], []) && this.path == path
    {
      this.path := path;
      value := None;
      children := Dict(map[], []);
    }
  }

  ghost function Parent(p: string): (q: string)
    requires p != ""
    ensures p == q + [p[|p| - 1]]
  {
    p[..|p| - 1]
  }

  ghost function Child(p: string, c: char): (q: string)
    ensures q != "" && Parent(q) == p && q[|q| - 1] == c
  {
    p + [c]
  }

  lemma ChildOfPrefix(key: string, i: nat)
    requires i < |key|
    ensures Child(key[..i], key[i]) == key[..i + 1] && Parent(key[..i + 1]) == key[..i]
  {
  }

  /** No character of the key is outside the alphabet. */
  ghost predicate Spellable(key: string, alphabet: string) {
    forall i :: 0 <= i < |key| ==> key[i] in alphabet
  }

  lemma SpellStart(key: string, alphabet: string)
    ensures Spellable(key[..0], alphabet)
  {
  }

  lemma SpellStep(key: string, alphabet: string, i: nat)
    requires i < |key| && Spellable(key[..i], alphabet)
    ensures if key[i] in alphabet then Spellable(key[..i + 1], alphabet) else !Spellable(key, alphabet)
  {
  }

  lemma ChildPrefix(path: string, c: char, q: string)
    ensures Child(path, c) <= q <==> path <= q && |path| < |q| && q[|path|] == c
  {
    if path <= q && |path| < |q| && q[|path|] == c {
      assert Child(path, c) == q[..|path| + 1];
    }
  }

  lemma RemoveLast<V>(m: map<string, V>, key: string)
    requires key in m
    ensures m - {key} == map[] <==> m.Keys == {key}
  {
    var rest := m - {key};
    assert rest.Keys == m.Keys - {key};
    assert rest == map[] <==> rest.Keys == {};
  }

  /** The stack that Delete builds: one (character, parent) pair per prefix, above the root sentinel. */
  ghost predicate StackOf<V>(stack: seq<(string, TrieNode<V>)>, at: map<string, TrieNode<V>>, key: string, depth: nat) {
    && |stack| == depth + 1 && depth <= |key| && "" in at && stack[0] == ("", at[""])
    && forall j :: 0 < j <= depth ==> StackEntry(stack[j], at, key, j)
  }

  ghost predicate StackEntry<V>(entry: (string, TrieNode<V>), at: map<string, TrieNode<V>>, key: string, j: nat)
    requires 0 < j <= |key|
  {
    key[..j - 1] in at && entry == ([key[j - 1]], at[key[..j - 1]])
  }

  lemma StackPop<V>(stack: seq<(string, TrieNode<V>)>, at: map<string, TrieNode<V>>, key: string, depth: nat)
    requires depth > 0 && StackOf(stack, at, key, depth)
    ensures StackOf(stack[..depth], at - {key[..depth]}, key, depth - 1)
  {
    forall j | 0 < j < depth ensures StackEntry(stack[..depth][j], at - {key[..depth]}, key, j) {
      assert StackEntry(stack[j], at, key, j) && |key[..j - 1]| < |key[..depth]|;
    }
  }

  lemma StackPush<V>(stack: seq<(string, TrieNode<V>)>, at: map<string, TrieNode<V>>, key: string, depth: nat)
    requires depth < |key| && StackOf(stack, at, key, depth) && key[..depth] in at
    ensures StackOf(stack + [([key[depth]], at[key[..depth]])], at, key, depth + 1)
  {
  }

  // ------------------------------------------------------ alphabetic order

  ghost predicate Increasing(s: seq<char>) {
    forall i, j :: 0 <= i < j < |s| ==> s[i] < s[j]
  }

  lemma LastIncreasing<T>(d: Children<T>, c: char)
    requires Increasing(d.order) && forall e :: e in d.items ==> e < c
    ensures Increasing(d.order + [c])
  {
    forall i | 0 <= i < |d.order| ensures d.order[i] < c { assert d.order[i] in Elements(d.order); }
  }

  function Without(s: seq<char>, c: char): (r: seq<char>) {
    Filter(s, d => d != c)
  }

  lemma {:induction false} WithoutKeeps(s: seq<char>, c: char)
    ensures Elements(Without(s, c)) == Elements(s) - {c}
    ensures NoDuplicates(s) ==> NoDuplicates(Without(s, c))
    ensures Increasing(s) ==> Increasing(Without(s, c))
  {
    FilterMembers(s, d => d != c);
    if s != [] {
      WithoutKeeps(s[1..], c);
      var rest := Without(s[1..], c);
      assert s == [s[0]] + s[1..];
      forall d | d in rest ensures d in s[1..] { assert d in Elements(rest); }
      assert Without(s, c) == if s[0] != c then [s[0]] + rest else rest;
      if NoDuplicates(s) {
        assert s[0] !in s[1..];
        JoinDistinct([s[0]], rest);
      }
      if Increasing(s) {
        forall j | 0 <= j < |rest| ensures s[0] < rest[j] { assert rest[j] in s[1..]; }
      }
    }
  }

  ghost function Lookup<V>(m: map<string, V>, p: string): Option<V> {
    if p in m then Some(m[p]) else None
  }

  class Trie<V> {
    const alphabet: string
    const root: TrieNode<V>
    /** The finite map that the tree stands for. */
    ghost var contents: map<string, V>
    ghost var at: map<string, TrieNode<V>>
    ghost var nodes: set<TrieNode<V>>

    ghost predicate Valid()
      reads this, nodes
    {
      Carries() && LinksDown() && LinksUp()
    }

    /** The names lead to nodes that carry the values of the map. */
    ghost predicate Carries()
      reads this, nodes
    {
      && "" in at && at[""] == root && contents.Keys <= at.Keys
      && (forall p :: p in at ==> at[p] in nodes && at[p].path == p && at[p].value == Lookup(contents, p))
    }

    /** Every child has the name one character longer. */
    ghost predicate LinksDown()
      reads this, nodes
    {
      forall p, c :: p in at && at[p] in nodes && c in at[p].children.items ==>
        Child(p, c) in at && at[Child(p, c)] == at[p].children.items[c]
    }

    /** Every name below the root is that of a child. */
    ghost predicate LinksUp()
      reads this, nodes
    {
      forall p {:trigger Parent(p)} :: p in at && p != "" ==>
        Parent(p) in at && at[Parent(p)] in nodes && p[|p| - 1] in at[Parent(p)].children.items
    }

    /** Every node lists its children alphabetically. */
    ghost predicate Ascending()
      reads this, nodes
    {
      forall p :: p in at && at[p] in nodes ==> Increasing(at[p].children.order)
    }

    /** A child for c is there, or would come last alphabetically. */
    ghost predicate Room(node: TrieNode<V>, c: char)
      reads node
    {
      c in node.children.items || forall d :: d in node.children.items ==> d < c
    }

    /** There is room for what is left of the key behind its first i characters. */
    ghost predicate RoomFrom(key: string, i: nat)
      reads this, nodes
    {
      forall j :: i <= j < |key| && key[..j] in at && at[key[..j]] in nodes ==> Room(at[key[..j]], key[j])
    }

    /** Every node below the root carries a value or leads to another node. */
    ghost predicate NoDeadBranches()
      reads this, nodes
    {
      NoDeadBranchesExcept("")
    }

    ghost predicate NoDeadBranchesExcept(hole: string)
      reads this, nodes
    {
      forall p :: p in at && at[p] in nodes && p != "" && p != hole ==>
        at[p].value.Some? || at[p].children.items != map[]
    }

    constructor (alphabet: string)
      ensures Valid() && NoDeadBranches() && Ascending() && contents == map[]
      ensures fresh(nodes) && this.alphabet == alphabet
    {
      this.alphabet := alphabet;
      var r := new TrieNode<V>("");
      root := r;
      at := map["" := r];
      nodes := {r};
      contents := map[];
    }

    /** Every prefix of a path in the tree is in the tree, and is linked to the next. */
    lemma {:induction false} PathStep(p: string, i: nat)
      requires Valid() && p in at && i < |p|
      ensures p[..i] in at && p[..i + 1] in at
      ensures p[i] in at[p[..i]].children.items && at[p[..i]].children.items[p[i]] == at[p[..i + 1]]
      decreases |p| - i
    {
      if i + 1 < |p| {
        PathStep(p, i + 1);
      } else {
        assert p[..i + 1] == p;
      }
      ChildOfPrefix(p, i);
    }

    /** _find. */
    method FindNode(key: string) returns (node: Option<TrieNode<V>>)
      requires Valid()
      ensures node == if key in at then Some(at[key]) else None
    {
      var current := root;
      for i := 0 to |key|
        invariant key[..i] in at && current == at[key[..i]]
      {
        if key in at { PathStep(key, i); }
        if key[i] !in current.children.items {
          return None;
        }
        current := current.children.items[key[i]];
        ChildOfPrefix(key, i);
      }
      assert key[..|key|] == key;
      return Some(current);
    }

    /** trie[key]; None stands for the KeyError. */
    method Get(key: string) returns (v: Option<V>)
      requires Valid()
      ensures v == if key in contents then Some(contents[key]) else None
    {
      var node := FindNode(key);
      match node
      case None => return None;
      case Some(n) => return n.value;
    }

    /** trie[key] = v; `ok` is false when a DHTError is raised for a character outside the alphabet. */
    method Set(key: string, v: V) returns (ok: bool)
      requires Valid()
      modifies this`at, this`nodes, this`contents, nodes
      ensures Valid() && fresh(nodes - old(nodes))
      ensures ok <==> Spellable(key, alphabet)
      ensures contents == if ok then old(contents)[key := v] else old(contents)
      ensures ok && old(NoDeadBranches()) ==> NoDeadBranches()
      ensures old(NoDeadBranches() && Ascending()) && ComesLast(old(contents), key) ==> Ascending()
    {
      SetStart(key);
      hide Valid, Reached, Alive, Tidy, NoDeadBranches, Ascending, RoomFrom, ComesLast, Spellable;
      var node := MakePath(key);
      if node.None? {
        return false;
      }
      Store(node.value, key, v);
      ok := true;
    }

    /** The first i characters of the key lead to the node. */
    ghost predicate Reached(key: string, i: nat, node: TrieNode<V>)
      requires i <= |key|
      reads this
    {
      key[..i] in at && at[key[..i]] == node && node in nodes
    }

    /** No branch is dead, unless it is the one that is being made for the key. */
    ghost predicate Alive(key: string, i: nat)
      requires i <= |key|
      reads this, nodes
    {
      NoDeadBranchesExcept(key[..i])
    }

    ghost predicate Tidy(key: string, i: nat)
      reads this, nodes
    {
      Ascending() && RoomFrom(key, i)
    }

    /** The loop of Set: the node of the whole key, or None at the first character outside the alphabet. */
    method MakePath(key: string) returns (r: Option<TrieNode<V>>)
      requires Valid()
      modifies this`at, this`nodes, nodes
      ensures Valid() && fresh(nodes - old(nodes))
      ensures r.Some? <==> Spellable(key, alphabet)
      ensures r.Some? ==> r.value in nodes && Reached(key, |key|, r.value)
      ensures r.Some? && old(Alive(key, 0)) ==> Alive(key, |key|)
      ensures old(Tidy(key, 0)) ==> Ascending()
    {
      var node := root;
      assert Reached(key, 0, node);
      SpellStart(key, alphabet);
      hide Valid, Reached, Alive, Tidy, Spellable;
      for i := 0 to |key|
        invariant Valid() && fresh(nodes - old(nodes)) && node in nodes && Reached(key, i, node)
        invariant Spellable(key[..i], alphabet)
        invariant old(Alive(key, 0)) ==> Alive(key, i)
        invariant old(Tidy(key, 0)) ==> Tidy(key, i)
      {
        SpellStep(key, alphabet, i);
        if key[i] !in alphabet {
          TidyAscends(key, i);
          return None;
        }
        node := Descend(node, key, i);
      }
      assert key[..|key|] == key;
      TidyAscends(key, |key|);
      r := Some(node);
    }

    lemma TidyAscends(key: string, i: nat)
      ensures Tidy(key, i) ==> Ascending()
    {
    }

    /** What changes when a node takes or loses a value, and what does not. */
    twostate predicate Revalued(new node: TrieNode<V>, new path: string, new v: Option<V>)
      reads this, nodes
    {
      && old(Valid()) && path in at && at[path] == node && at == old(at) && nodes == old(nodes) && node.value == v
      && contents.Keys <= at.Keys
      && (forall p :: p in at ==> Lookup(contents, p) == if p == path then v else old(Lookup(contents, p)))
      && forall n :: n in nodes ==> n.children == old(n.children) && (n != node ==> n.value == old(n.value))
    }

    twostate lemma RevalueCarries(new node: TrieNode<V>, new path: string, new v: Option<V>)
      requires Revalued(node, path, v)
      ensures Carries()
    {
    }

    twostate lemma RevalueLinks(new node: TrieNode<V>, new path: string, new v: Option<V>)
      requires Revalued(node, path, v)
      ensures LinksDown() && LinksUp() && (old(Ascending()) ==> Ascending())
    {
    }

    twostate lemma RevalueAlive(new node: TrieNode<V>, new path: string, new v: Option<V>)
      requires Revalued(node, path, v)
      ensures old(NoDeadBranchesExcept(path)) ==> NoDeadBranchesExcept(path) && (v.Some? ==> NoDeadBranches())
    {
    }

    /** The end of Set: the node of the whole key takes the value. */
    method Store(node: TrieNode<V>, key: string, v: V)
      requires Valid() && Reached(key, |key|, node)
      modifies this`contents, node`value
      ensures Valid() && contents == old(contents)[key := v]
      ensures old(Alive(key, |key|)) ==> NoDeadBranches()
      ensures old(Ascending()) ==> Ascending()
    {
      assert key[..|key|] == key;
      hide Consistent, LinksDown, LinksUp, NoDeadBranchesExcept, NoDeadBranches, Ascending;
      node.value := Some(v);
      contents := contents[key := v];
      RevalueCarries(node, key, Some(v));
      RevalueLinks(node, key, Some(v));
      RevalueAlive(node, key, Some(v));
    }

    /** One step of Set: the child for the next character, made on the spot when it is missing. */
    method Descend(node: TrieNode<V>, key: string, i: nat) returns (next: TrieNode<V>)
      requires Valid() && i < |key| && Reached(key, i, node)
      modifies this`at, this`nodes, node`children
      ensures Valid() && fresh(nodes - old(nodes)) && next in nodes && Reached(key, i + 1, next)
      ensures old(Alive(key, i)) ==> Alive(key, i + 1)
      ensures old(Tidy(key, i)) ==> Tidy(key, i + 1)
    {
      ghost var path, c := key[..i], key[i];
      ChildOfPrefix(key, i);
      if key[i] in node.children.items {
        return node.children.items[key[i]];
      }
      next := AddChild(node, path, key[i]);
      HangAscends(node, path, c, next, key);
    }

    /** What changes when a new leaf is hung on, and what does not. */
    twostate predicate Hung(new node: TrieNode<V>, new path: string, new c: char, new next: TrieNode<V>)
      reads this, nodes, next
    {
      && old(Valid()) && path in old(at) && old(at[path]) == node && node in old(nodes) && next !in old(nodes)
      && c !in old(node.children.items) && Child(path, c) !in old(at)
      && at == old(at)[Child(path, c) := next] && nodes == old(nodes) + {next} && contents == old(contents)
      && next.children == Dict(map[], []) && next.value == None && next.path == Child(path, c)
      && node.children == Added(old(node.children), c, next)
      && forall n :: n in old(nodes) ==> n.value == old(n.value) && (n != node ==> n.children == old(n.children))
    }

    twostate lemma HangCarries(new node: TrieNode<V>, new path: string, new c: char, new next: TrieNode<V>)
      requires Hung(node, path, c, next)
      ensures Carries()
    {
    }

    twostate lemma HangDown(new node: TrieNode<V>, new path: string, new c: char, new next: TrieNode<V>)
      requires Hung(node, path, c, next)
      ensures LinksDown()
    {
    }

    twostate lemma HangUp(new node: TrieNode<V>, new path: string, new c: char, new next: TrieNode<V>)
      requires Hung(node, path, c, next)
      ensures LinksUp()
    {
    }

    /** A leaf that is hung on where there is room keeps the alphabetic order and the room below. */
    twostate lemma HangAscends(new node: TrieNode<V>, new path: string, new c: char, new next: TrieNode<V>,
                               new key: string)
      requires Hung(node, path, c, next) && Child(path, c) <= key
      ensures old(Tidy(key, |path|)) ==> Tidy(key, |path| + 1)
    {
      if old(Tidy(key, |path|)) {
        assert key[..|path|] == path && key[|path|] == c && old(Room(node, c));
        LastIncreasing(old(node.children), c);
        assert key[..|path| + 1] == Child(path, c);
      }
    }

    method AddChild(node: TrieNode<V>, ghost path: string, c: char) returns (next: TrieNode<V>)
      requires Valid() && path in at && at[path] == node && c !in node.children.items
      modifies this`at, this`nodes, node`children
      ensures Valid() && fresh(nodes - old(nodes)) && Hung(node, path, c, next)
      ensures old(NoDeadBranchesExcept(path)) ==> NoDeadBranchesExcept(Child(path, c))
    {
      hide Consistent, LinksDown;
      ghost var child := Child(path, c);
      assert child !in at by { assert Parent(child) == path; }
      next := new TrieNode<V>(child);
      node.children := Added(node.children, c, next);
      at := at[child := next];
      nodes := nodes + {next};
      HangCarries(node, path, c, next);
      HangDown(node, path, c, next);
      HangUp(node, path, c, next);
    }

    /** del trie[key]; `ok` is false when a KeyError is raised, which may be after the removal. */
    method Delete(key: string) returns (ok: bool)
      requires Valid()
      modifies this`at, this`contents, nodes
      ensures Valid()
      ensures contents == old(contents) - {key}
      ensures key !in old(contents) ==> !ok
      ensures old(NoDeadBranches()) ==> NoDeadBranches()
      ensures old(NoDeadBranches()) ==> (ok <==> key in old(contents) && old(contents).Keys != {key})
      ensures old(Ascending()) ==> Ascending()
    {
      var found, toremove := Walk(key);
      if found.None? || found.value.value.None? {
        return false;
      }
      hide Consistent, Ascending;
      RemoveLast(contents, key);
      assert key[..|key|] == key;
      Erase(found.value, key);
      ok := Prune(found.value, key, toremove);
    }

    /** The descent of Delete, which remembers the way back. */
    method Walk(key: string) returns (found: Option<TrieNode<V>>, toremove: seq<(string, TrieNode<V>)>)
      requires Valid()
      ensures found == if key in at then Some(at[key]) else None
      ensures found.Some? ==> StackOf(toremove, at, key, |key|)
    {
      toremove := [("", root)];
      var node := root;
      for i := 0 to |key|
        invariant key[..i] in at && node == at[key[..i]]
        invariant StackOf(toremove, at, key, i)
      {
        if key in at { PathStep(key, i); }
        StackPush(toremove, at, key, i);
        toremove := toremove + [([key[i]], node)];
        if key[i] !in node.children.items {
          return None, toremove;
        }
        node := node.children.items[key[i]];
        ChildOfPrefix(key, i);
      }
      assert key[..|key|] == key;
      found := Some(node);
    }

    method Erase(node: TrieNode<V>, ghost path: string)
      requires Valid() && path in at && at[path] == node
      modifies this`contents, node`value
      ensures Valid() && contents == old(contents) - {path} && node.value == None
      ensures old(NoDeadBranches()) ==> NoDeadBranchesExcept(path)
      ensures old(Ascending()) ==> Ascending()
    {
      hide Consistent, LinksDown, LinksUp, Ascending;
      node.value := None;
      contents := contents - {path};
      RevalueCarries(node, path, None);
      RevalueLinks(node, path, None);
    }

    /** The pruning loop of Delete; it fails when it reaches the sentinel. */
    method Prune(node: TrieNode<V>, key: string, stack: seq<(string, TrieNode<V>)>) returns (ok: bool)
      requires Valid() && Pruning(node, stack, key, |key|)
      modifies this`at, nodes
      ensures Valid()
      ensures old(NoDeadBranchesExcept(key)) ==> NoDeadBranches() && (ok <==> contents != map[])
      ensures old(Ascending()) ==> Ascending()
    {
      var current, toremove := node, stack;
      ghost var m := |key|;
      assert key[..m] == key;
      hide Parent, Child, Consistent, Ascending;
      while current.value.None? && current.children.items == map[] && toremove != []
        invariant Valid() && Pruning(current, toremove, key, m)
        invariant old(NoDeadBranchesExcept(key)) ==> NoDeadBranchesExcept(key[..m])
        invariant old(Ascending()) ==> Ascending()
        decreases |toremove|
      {
        var (c, parent) := toremove[|toremove| - 1];
        if c == "" || c[0] !in parent.children.items {
          if m > 0 { LastStep(key, m); }
          RootOnly();
          return false;
        }
        PruneLeaf(current, toremove, parent, c[0], key, m);
        current, toremove, m := parent, toremove[..|toremove| - 1], m - 1;
      }
      if NoDeadBranchesExcept(key[..m]) {
        var q := StoredBelow(key[..m]);
      }
      ok := true;
    }

    /** Pruning has climbed to the prefix of length m, and the stack leads from there to the root. */
    ghost predicate Pruning(current: TrieNode<V>, stack: seq<(string, TrieNode<V>)>, key: string, m: int)
      reads this
    {
      0 <= m <= |key| && key[..m] in at && current == at[key[..m]] && StackOf(stack, at, key, m)
    }

    method PruneLeaf(current: TrieNode<V>, stack: seq<(string, TrieNode<V>)>, parent: TrieNode<V>, c: char,
                     ghost key: string, ghost m: nat)
      requires Valid() && Pruning(current, stack, key, m) && m > 0 && stack[m] == ([c], parent)
      requires current.value == None && current.children.items == map[]
      modifies this`at, parent`children
      ensures Valid() && Pruning(parent, stack[..|stack| - 1], key, m - 1)
      ensures old(NoDeadBranchesExcept(key[..m])) ==> NoDeadBranchesExcept(key[..m - 1])
      ensures old(Ascending()) ==> Ascending()
    {
      LastStep(key, m);
      StackPop(stack, at, key, m);
      Unlink(parent, key[..m - 1], c);
      CutAscends(parent, key[..m - 1], c);
    }

    lemma LastStep(key: string, m: nat)
      requires Valid() && 0 < m <= |key| && key[..m] in at
      ensures key[..m - 1] in at && key[m - 1] in at[key[..m - 1]].children.items
      ensures Child(key[..m - 1], key[m - 1]) == key[..m]
    {
      ChildOfPrefix(key, m - 1);
    }

    /** What changes when a leaf without a value is cut off, and what does not. */
    twostate predicate CutOff(new parent: TrieNode<V>, new path: string, new c: char)
      reads this, nodes
    {
      && old(Valid()) && path in old(at) && old(at[path]) == parent && c in old(parent.children.items)
      && old(at[Child(path, c)].value) == None && old(at[Child(path, c)].children.items) == map[]
      && at == old(at) - {Child(path, c)} && nodes == old(nodes) && contents == old(contents)
      && parent.children == Dropped(old(parent.children), c)
      && forall n :: n in nodes ==> n.value == old(n.value) && (n != parent ==> n.children == old(n.children))
    }

    twostate lemma CutCarries(new parent: TrieNode<V>, new path: string, new c: char)
      requires CutOff(parent, path, c)
      ensures Carries()
    {
    }

    twostate lemma CutDown(new parent: TrieNode<V>, new path: string, new c: char)
      requires CutOff(parent, path, c)
      ensures LinksDown()
    {
    }

    twostate lemma CutUp(new parent: TrieNode<V>, new path: string, new c: char)
      requires CutOff(parent, path, c)
      ensures LinksUp()
    {
    }

    twostate lemma CutAscends(new parent: TrieNode<V>, new path: string, new c: char)
      requires CutOff(parent, path, c)
      ensures old(Ascending()) ==> Ascending()
    {
      WithoutKeeps(old(parent.children.order), c);
    }

    /** Detach a leaf without a value from its parent. */
    method Unlink(parent: TrieNode<V>, ghost path: string, c: char)
      requires Valid() && path in at && at[path] == parent && c in parent.children.items
      requires at[Child(path, c)].value == None && at[Child(path, c)].children.items == map[]
      modifies this`at, parent`children
      ensures Valid() && CutOff(parent, path, c)
      ensures old(NoDeadBranchesExcept(Child(path, c))) ==> NoDeadBranchesExcept(path)
    {
      parent.children := Dropped(parent.children, c);
      at := at - {Child(path, c)};
      CutCarries(parent, path, c);
      CutDown(parent, path, c);
      CutUp(parent, path, c);
    }

    /** A tree whose root has no child is just its root. */
    lemma RootOnly()
      requires Valid() && root.children.items == map[]
      ensures at.Keys == {""}
      ensures root.value == None ==> contents == map[] && NoDeadBranches()
    {
      forall p | p in at ensures p == "" {
        if p != "" { PathStep(p, 0); }
      }
    }

    /** In a tree without dead branches, some stored key lies below every node that is not empty itself. */
    lemma {:induction false} StoredBelow(p: string) returns (q: string)
      requires Valid() && p in at && NoDeadBranchesExcept(p)
      requires at[p].value.Some? || at[p].children.items != map[]
      ensures q in contents && p <= q
      decreases set r | r in at && p <= r
    {
      if at[p].value.Some? {
        q := p;
      } else {
        var c :| c in at[p].children.items;
        var child := Child(p, c);
        FewerBelow(p, c);
        q := StoredBelow(child);
      }
    }

    lemma SetStart(key: string)
      requires Valid()
      ensures Alive(key, 0) == NoDeadBranches()
      ensures NoDeadBranches() && Ascending() && ComesLast(contents, key) ==> Tidy(key, 0)
    {
      assert key[..0] == "";
      if NoDeadBranches() && Ascending() && ComesLast(contents, key) { RoomForAll(key); }
    }

    /** In a tree without dead branches the stored keys tell where there is room. */
    lemma RoomForAll(key: string)
      requires Valid() && NoDeadBranches() && ComesLast(contents, key)
      ensures RoomFrom(key, 0)
    {
      forall j | 0 <= j < |key| && key[..j] in at ensures Room(at[key[..j]], key[j]) {
        var path, c := key[..j], key[j];
        assert LastAt(contents, key, j);
        if q :| q in contents && key[..j + 1] <= q {
          BelowChild(path, q);
        } else {
          forall d | d in at[path].children.items ensures d < c {
            var q := StoredBelow(Child(path, d));
            assert path <= q && q[j] == d;
          }
        }
      }
    }

    lemma FewerBelow(p: string, c: char)
      requires p in at
      ensures (set r | r in at && Child(p, c) <= r) < (set r | r in at && p <= r)
    {
      var below := set r | r in at && p <= r;
      assert p in below && !(Child(p, c) <= p);
    }

    /** Whatever lies below a node lies below one of its children. */
    lemma BelowChild(path: string, q: string)
      requires Valid() && q in at && path <= q && path != q
      ensures path in at && q[|path|] in at[path].children.items
    {
      PathStep(q, |path|);
      assert q[..|path|] == path;
    }

    ghost predicate IsLongest(key: string, i: nat, r: Option<(string, V)>)
      requires Valid()
      reads this, nodes
    {
      && (r.Some? ==>
            && r.value.0 in contents && contents[r.value.0] == r.value.1
            && r.value.0 <= key && r.value.0 != "")
      && (forall q :: q in contents && q <= key && 0 < |q| <= i ==> r.Some? && |q| <= |r.value.0|)
    }

    /** longest_prefix_item; None is the case in which the default is returned or a KeyError raised. */
    method LongestPrefixItem(key: string) returns (r: Option<(string, V)>)
      requires Valid()
      ensures r.None? ==> forall q :: q in contents && q <= key ==> q == ""
      ensures r.Some? ==>
        && r.value.0 in contents && contents[r.value.0] == r.value.1
        && r.value.0 <= key && r.value.0 != ""
        && forall q :: q in contents && q <= key ==> |q| <= |r.value.0|
    {
      r := None;
      var node := root;
      assert key[..0] == "" && key[..|key|] == key;
      hide Valid, Consistent;
      LongestStart(key);
      hide IsLongest;
      for i := 0 to |key|
        invariant key[..i] in at && node == at[key[..i]]
        invariant IsLongest(key, i, r)
      {
        LongestNext(key, i, r);
        if key[i] !in node.children.items {
          LongestMeans(key, r);
          return;
        }
        node := node.children.items[key[i]];
        if node.value.Some? {
          r := Some((key[..i + 1], node.value.value));
        }
      }
      LongestMeans(key, r);
    }

    lemma LongestStart(key: string)
      requires Valid()
      ensures "" in at && at[""] == root && IsLongest(key, 0, None)
    {
    }

    /** One step down: the prefix one longer, if it is stored, or the end of all stored prefixes. */
    lemma LongestNext(key: string, i: nat, r: Option<(string, V)>)
      requires Valid() && i < |key| && key[..i] in at && IsLongest(key, i, r)
      ensures key[i] !in at[key[..i]].children.items ==> IsLongest(key, |key|, r)
      ensures key[i] in at[key[..i]].children.items ==>
        && key[..i + 1] in at && at[key[..i + 1]] == at[key[..i]].children.items[key[i]]
        && var v := at[key[..i + 1]].value;
           IsLongest(key, i + 1, if v.Some? then Some((key[..i + 1], v.value)) else r)
    {
      hide Consistent, LinksUp;
      ChildOfPrefix(key, i);
      assert forall q :: q <= key && |q| == i + 1 ==> q == key[..i + 1];
      if key[i] !in at[key[..i]].children.items {
        forall q | q in contents && q <= key ensures |q| <= i {
          if |q| > i { BelowChild(key[..i], q); }
        }
      }
    }

    lemma LongestMeans(key: string, r: Option<(string, V)>)
      requires Valid() && IsLongest(key, |key|, r)
      ensures r.None? ==> forall q :: q in contents && q <= key ==> q == ""
      ensures r.Some? ==>
        && r.value.0 in contents && contents[r.value.0] == r.value.1
        && r.value.0 <= key && r.value.0 != ""
        && forall q :: q in contents && q <= key ==> |q| <= |r.value.0|
    {
    }

    /** values(): every stored value once, together with the key it is stored under. */
    method Values() returns (vals: seq<V>, ghost keys: seq<string>)
      requires Valid()
      ensures NoDuplicates(keys) && (set k | k in keys) == contents.Keys
      ensures |vals| == |keys| && forall i :: 0 <= i < |keys| ==> vals[i] == contents[keys[i]]
      ensures |vals| == |contents| && forall v :: v in vals <==> exists k :: k in contents && contents[k] == v
    {
      vals, keys := ValuesBelow(root, "");
      ValuesListed(contents, keys, vals);
    }

    method ValuesBelow(node: TrieNode<V>, ghost path: string) returns (vals: seq<V>, ghost keys: seq<string>)
      requires Valid() && path in at && at[path] == node
      ensures Listed(contents, path, {}, keys, vals)
      decreases set r | r in at && path <= r
    {
      vals, keys := [], [];
      if node.value.Some? {
        vals, keys := [node.value.value], [path];
      }
      forall q | q in at && path <= q && q != path ensures q[|path|] in Elements(node.children.order) {
        BelowChild(path, q);
      }
      ghost var m := contents;
      var rest := node.children.order;
      assert Listed(m, path, Elements(rest), keys, vals);
      while rest != []
        invariant Elements(rest) <= node.children.items.Keys && NoDuplicates(rest)
        invariant Listed(m, path, Elements(rest), keys, vals)
        decreases |rest|
      {
        var c := rest[0];
        HeadIsNew(rest);
        FewerBelow(path, c);
        var more; ghost var moreKeys;
        more, moreKeys := ValuesBelow(node.children.items[c], Child(path, c));
        ListedStep(m, path, Elements(rest), c, keys, vals, moreKeys, more);
        rest, vals, keys := rest[1..], vals + more, keys + moreKeys;
      }
    }

    /**
     suffixes(key): what remains of each stored extension of the key, once each, and in alphabetic order when the
     children are.
     */
    method Suffixes(key: string) returns (suffixes: seq<string>)
      requires Valid()
      ensures NoDuplicates(suffixes)
      ensures forall s :: s in suffixes <==> key + s in contents
      ensures Ascending() ==> LexAscending(suffixes)
      decreases set r | r in at && key <= r, 0
    {
      suffixes := [];
      var found := FindNode(key);
      hide Valid, Consistent, Ascending, InStep, LexAscending;
      if found.None? {
        NothingBelow(key);
        return;
      }
      var node := found.value;
      if node.value.Some? {
        suffixes := suffixes + [""];
      }
      var rest := node.children.order;
      SuffixesStart(key, suffixes);
      while rest != []
        invariant Elements(rest) <= node.children.items.Keys && NoDuplicates(rest)
        invariant SuffixesListed(contents, key, Elements(rest), suffixes)
        invariant Ascending() ==> InStep(suffixes, rest)
        decreases |rest|
      {
        HeadIsNew(rest);
        FewerBelow(key, rest[0]);
        suffixes := SuffixesThrough(node, key, rest[0], suffixes, rest);
        rest := rest[1..];
      }
      InStepMeans(suffixes, rest);
    }

    /** One turn of its loop: the suffixes that begin with c, the first of the children that are left. */
    method SuffixesThrough(node: TrieNode<V>, key: string, c: char, suffixes: seq<string>, ghost rest: seq<char>)
      returns (r: seq<string>)
      requires Valid() && key in at && at[key] == node && c in node.children.items
      requires rest != [] && rest[0] == c && NoDuplicates(rest)
      requires SuffixesListed(contents, key, Elements(rest), suffixes)
      requires Ascending() ==> InStep(suffixes, rest)
      ensures SuffixesListed(contents, key, Elements(rest[1..]), r)
      ensures Ascending() ==> InStep(r, rest[1..])
      decreases set r | r in at && Child(key, c) <= r, 1
    {
      HeadIsNew(rest);
      ChildStored(key, c);
      hide Valid, Consistent, Ascending, InStep, LexAscending, ComeBefore, Child;
      var listed := suffixes;
      if node.children.items[c].value.Some? {
        listed := listed + [[c]];
      }
      var nested := Suffixes(key + [c]);
      if Ascending() { BeforeNested(suffixes, rest, listed, nested); }
      r := AppendNew(listed, c, nested);
      if Ascending() { StayInStep(listed, rest, nested, r); }
      SuffixesStep(contents, key, Elements(rest), c, nested, r);
    }

    lemma ChildStored(path: string, c: char)
      requires Valid() && path in at && c in at[path].children.items
      ensures Child(path, c) == path + [c]
      ensures at[path].children.items[c].value.Some? <==> path + [c] in contents
    {
    }

    lemma NothingBelow(key: string)
      requires Valid() && key !in at
      ensures LexAscending([]) && forall s :: key + s !in contents
    {
      forall s ensures key + s !in at {
        if key + s in at && s != "" { BelowChild(key, key + s); }
        assert key + "" == key;
      }
    }

    lemma SuffixesStart(key: string, suffixes: seq<string>)
      requires Valid() && key in at && suffixes == (if at[key].value.Some? then [""] else [])
      ensures SuffixesListed(contents, key, Elements(at[key].children.order), suffixes)
      ensures NoDuplicates(at[key].children.order) && Elements(at[key].children.order) == at[key].children.items.Keys
      ensures Ascending() ==> InStep(suffixes, at[key].children.order)
    {
      forall s | key + s in at && s != "" ensures s[0] in Elements(at[key].children.order) { BelowChild(key, key + s); }
      assert key + "" == key;
    }
  }

  /** A new key hangs, wherever it leaves the stored keys, behind all of them. */
  ghost predicate ComesLast<V>(m: map<string, V>, key: string) {
    forall i :: 0 <= i < |key| ==> LastAt(m, key, i)
  }

  ghost predicate LastAt<V>(m: map<string, V>, key: string, i: nat)
    requires i < |key|
  {
    (exists q :: q in m && key[..i + 1] <= q) || (forall q :: q in m && key[..i] <= q && |q| > i ==> q[i] < key[i])
  }

  lemma HeadIsNew<T>(s: seq<T>)
    requires s != [] && NoDuplicates(s)
    ensures NoDuplicates(s[1..]) && Elements(s[1..]) == Elements(s) - {s[0]} && s[0] in Elements(s)
  {
    HeadElements(s);
  }

  /** What is listed is in order, and so is what is left, which starts with later characters. */
  ghost predicate InStep(suffixes: seq<string>, rest: seq<char>) {
    Increasing(rest) && LexAscending(suffixes) && forall s, c :: s in suffixes && c in rest ==> s == "" || s[0] < c
  }

  lemma InStepMeans(suffixes: seq<string>, rest: seq<char>)
    ensures InStep(suffixes, rest) ==> LexAscending(suffixes)
  {
  }

  /** The suffixes through the next child come after what is listed; the child itself may be listed already. */
  lemma BeforeNested(suffixes: seq<string>, rest: seq<char>, listed: seq<string>, nested: seq<string>)
    requires InStep(suffixes, rest) && rest != [] && (listed == suffixes || listed == suffixes + [[rest[0]]])
    ensures LexAscending(listed) && ComeBefore(listed, rest[0], nested) && Increasing(rest)
    ensures forall s, c :: s in listed && c in rest[1..] ==> s == "" || s[0] < c
  {
    var c := rest[0];
    assert c in rest;
    forall n | n in nested ensures [c] == [c] + n || LexLess([c], [c] + n) {
      LexCons(c, "", n);
      assert [c] + "" == [c];
    }
  }

  lemma StayInStep(listed: seq<string>, rest: seq<char>, nested: seq<string>, r: seq<string>)
    requires rest != [] && Increasing(rest) && LexAscending(r)
    requires forall s :: s in r ==> s in listed || (s != "" && s[0] == rest[0])
    requires forall s, c :: s in listed && c in rest[1..] ==> s == "" || s[0] < c
    ensures InStep(r, rest[1..])
  {
    forall c | c in rest[1..] ensures rest[0] < c {
      var i :| 0 <= i < |rest| - 1 && rest[1..][i] == c;
      assert rest[i + 1] == c;
    }
  }

  ghost predicate ComeBefore(listed: seq<string>, c: char, nested: seq<string>) {
    forall s, n :: s in listed && n in nested ==> s == [c] + n || LexLess(s, [c] + n)
  }

  /** The keys of m below `path`, except those that continue with a character of `rest`, with their values. */
  ghost predicate Listed<V>(m: map<string, V>, path: string, rest: set<char>, keys: seq<string>, vals: seq<V>) {
    && NoDuplicates(keys)
    && (forall q :: q in keys <==> q in m && path <= q && (q == path || q[|path|] !in rest))
    && |vals| == |keys| && forall i :: 0 <= i < |keys| ==> vals[i] == m[keys[i]]
  }

  lemma ValuesListed<V>(m: map<string, V>, keys: seq<string>, vals: seq<V>)
    requires Listed(m, "", {}, keys, vals)
    ensures |vals| == |m| && forall v :: v in vals <==> exists k :: k in m && m[k] == v
  {
    assert Elements(keys) == m.Keys;
    DistinctCount(keys);
    forall k | k in m ensures m[k] in vals {
      var i :| 0 <= i < |keys| && keys[i] == k;
      assert vals[i] == m[k];
    }
  }

  lemma ListedStep<V>(m: map<string, V>, path: string, rest: set<char>, c: char,
                      keys: seq<string>, vals: seq<V>, moreKeys: seq<string>, more: seq<V>)
    requires c in rest && Listed(m, path, rest, keys, vals) && Listed(m, Child(path, c), {}, moreKeys, more)
    ensures Listed(m, path, rest - {c}, keys + moreKeys, vals + more)
  {
    forall q ensures q in moreKeys <==> q in m && path <= q && q != path && q[|path|] == c {
      ChildPrefix(path, c, q);
    }
    JoinDistinct(keys, moreKeys);
  }

  ghost predicate SuffixesListed<V>(m: map<string, V>, key: string, rest: set<char>, suffixes: seq<string>) {
    && NoDuplicates(suffixes)
    && forall s :: s in suffixes <==> key + s in m && (s == "" || s[0] !in rest)
  }

  lemma SuffixesStep<V>(m: map<string, V>, key: string, rest: set<char>, c: char,
                        nested: seq<string>, suffixes: seq<string>)
    requires NoDuplicates(suffixes) && forall s :: s in nested <==> key + [c] + s in m
    requires forall s :: s in suffixes <==>
      || (key + s in m && (s == "" || s[0] !in rest))
      || (s == [c] && key + s in m)
      || (s != "" && s[0] == c && s[1..] in nested)
    ensures SuffixesListed(m, key, rest - {c}, suffixes)
  {
    forall s | s != "" && s[0] == c ensures s[1..] in nested <==> key + s in m {
      assert key + s == key + [c] + s[1..];
    }
  }

  /** The inner loop of `suffixes`: prefix each nested suffix and keep the ones not yet listed. */
  method AppendNew(suffixes: seq<string>, c: char, nested: seq<string>) returns (r: seq<string>)
    requires NoDuplicates(suffixes)
    ensures NoDuplicates(r)
    ensures forall s :: s in r <==> s in suffixes || (s != "" && s[0] == c && s[1..] in nested)
    ensures LexAscending(suffixes) && LexAscending(nested) && ComeBefore(suffixes, c, nested) ==> LexAscending(r)
  {
    r := suffixes;
    ghost var ascends := LexAscending(suffixes) && LexAscending(nested) && ComeBefore(suffixes, c, nested);
    assert nested[0..] == nested;
    for i := 0 to |nested|
      invariant NoDuplicates(r)
      invariant forall s :: s in r <==> s in suffixes || (s != "" && s[0] == c && s[1..] in nested[..i])
      invariant ascends ==> LexAscending(r) && ComeBefore(r, c, nested[i..])
    {
      var suffix := [c] + nested[i];
      assert suffix[1..] == nested[i];
      assert forall s :: s != "" && s[0] == c && s[1..] == nested[i] ==> s == suffix;
      assert nested[..i + 1] == nested[..i] + [nested[i]];
      if ascends { NextInOrder(r, c, nested, i); }
      if suffix !in r {
        r := r + [suffix];
      }
    }
    assert nested[..|nested|] == nested;
  }

  lemma NextInOrder(r: seq<string>, c: char, nested: seq<string>, i: nat)
    requires i < |nested| && LexAscending(r) && LexAscending(nested) && ComeBefore(r, c, nested[i..])
    ensures ComeBefore(r, c, nested[i + 1..])
    ensures [c] + nested[i] !in r ==>
      LexAscending(r + [[c] + nested[i]]) && ComeBefore(r + [[c] + nested[i]], c, nested[i + 1..])
  {
    assert nested[i..][0] == nested[i] && nested[i] in nested[i..];
    forall n | n in nested[i + 1..] ensures n in nested[i..] && LexLess([c] + nested[i], [c] + n) {
      var j :| 0 <= j < |nested[i + 1..]| && nested[i + 1..][j] == n;
      assert nested[i..][j + 1] == n && nested[i + 1 + j] == n;
      LexCons(c, nested[i], n);
    }
    var next := [c] + nested[i];
    if next !in r {
      forall k | 0 <= k < |r| ensures LexLess(r[k], next) { assert r[k] in r; }
    }
  }
}
