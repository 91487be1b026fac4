/** Reference resolution: the names a declaration's subtree mentions, in the
    visitor's pre-order, and the dependency edges they give. */
module Resolver {
  import opened Lists
  import opened Symbols
  import opened Syntax

  /** The identifiers of a tree in visiting order. */
  function Names(t: Tree): seq<string>
    decreases t
  {
    match t
    case Name(id) => [id]
    case Node(children) => NamesList(children)
  }

  function NamesList(ts: seq<Tree>): seq<string>
    decreases ts
  {
    if ts == [] then [] else NamesList(ts[..|ts| - 1]) + Names(ts[|ts| - 1])
  }

  /** The identifiers that become dependencies: keys of the table other than
      the root's own name, in order, repetitions kept. */
  function Relevant(names: seq<string>, keys: set<string>, root: string): seq<string> {
    if names == [] then []
    else
      var last := names[|names| - 1];
      Relevant(names[..|names| - 1], keys, root) + (if last in keys && last != root then [last] else [])
  }

  function References(t: Tree, keys: set<string>, root: string): seq<string> {
    Relevant(Names(t), keys, root)
  }

  lemma {:induction false} RelevantMembers(names: seq<string>, keys: set<string>, root: string)
    ensures forall x :: x in Relevant(names, keys, root) <==> x in names && x in keys && x != root
  {
    if names != [] {
      RelevantMembers(names[..|names| - 1], keys, root);
      assert names == names[..|names| - 1] + [names[|names| - 1]];
    }
  }

  lemma {:induction false} RelevantConcat(a: seq<string>, b: seq<string>, keys: set<string>, root: string)
    ensures Relevant(a + b, keys, root) == Relevant(a, keys, root) + Relevant(b, keys, root)
  {
    if b == [] {
      assert a + b == a;
    } else {
      RelevantConcat(a, b[..|b| - 1], keys, root);
      assert (a + b)[..|a + b| - 1] == a + b[..|b| - 1];
    }
  }

  /** Resolving a declaration named `root` against table `t`: every
      relevant identifier of its tree is offered to `root`'s dependency list.
      A root that is not a key changes nothing (the first offer would raise). */
  function Resolve(t: Table, root: string, tree: Tree): Table {
    if root !in t.entries then t
    else
      var e := t.entries[root];
      Table(t.order, t.entries[root := Entry(e.kind, AppendAll(e.deps, References(tree, t.entries.Keys, root)))])
  }

  /** Resolution keeps the table's shape, adds only keys to the root's list,
      never the root itself, and leaves every other entry alone. */
  lemma ResolveSound(t: Table, root: string, tree: Tree)
    requires Valid(t)
    ensures Valid(Resolve(t, root, tree))
    ensures DepsClosed(t) ==> DepsClosed(Resolve(t, root, tree))
    ensures NoSelfDeps(t) ==> NoSelfDeps(Resolve(t, root, tree))
    ensures Resolve(t, root, tree).order == t.order
    ensures Resolve(t, root, tree).entries.Keys == t.entries.Keys
    ensures forall k :: k in t.entries && k != root ==> Resolve(t, root, tree).entries[k] == t.entries[k]
    ensures root in t.entries ==> Resolve(t, root, tree).entries[root].kind == t.entries[root].kind
    ensures root in t.entries ==> forall d :: d in Resolve(t, root, tree).entries[root].deps ==>
      d in t.entries[root].deps || (d in t.entries && d != root)
  {
    if root in t.entries {
      var refs := References(tree, t.entries.Keys, root);
      var deps := t.entries[root].deps;
      AppendAllDistinct(deps, refs);
      AppendAllMembers(deps, refs);
      RelevantMembers(Names(tree), t.entries.Keys, root);
    }
  }

  /** The root's new list keeps its old entries first and then holds every
      relevant identifier not already there, once each, in the order the walk
      first meets it. */
  lemma ResolveOrder(t: Table, root: string, tree: Tree)
    requires Valid(t) && root in t.entries
    ensures var old_deps := t.entries[root].deps;
      var deps := Resolve(t, root, tree).entries[root].deps;
      var names := Names(tree);
      && |old_deps| <= |deps| && deps[..|old_deps|] == old_deps
      && Distinct(deps)
      && (forall x :: x in deps <==> x in old_deps || (x in names && x in t.entries && x != root))
      && InFirstSeenOrder(References(tree, t.entries.Keys, root), deps, |old_deps|)
  {
    var refs := References(tree, t.entries.Keys, root);
    var d := t.entries[root].deps;
    AppendAllPrefix(d, refs);
    AppendAllDistinct(d, refs);
    AppendAllMembers(d, refs);
    RelevantMembers(Names(tree), t.entries.Keys, root);
    AppendAllFirstSeen(d, refs);
  }

  /** Resolving the same declaration twice gives what resolving it once gives. */
  lemma ResolveIdempotent(t: Table, root: string, tree: Tree)
    ensures Resolve(Resolve(t, root, tree), root, tree) == Resolve(t, root, tree)
  {
    if root in t.entries {
      var refs := References(tree, t.entries.Keys, root);
      AppendAllIdempotent(t.entries[root].deps, refs);
      var r := Resolve(t, root, tree);
      assert r.entries.Keys == t.entries.Keys;
      assert r.entries[root := r.entries[root]] == r.entries;
    }
  }

  lemma NamesListSnoc(cs: seq<Tree>, i: nat)
    requires i < |cs|
    ensures NamesList(cs[..i + 1]) == NamesList(cs[..i]) + Names(cs[i])
  {
    assert cs[..i + 1][..i] == cs[..i];
  }

  lemma ReferencesNodeSnoc(keys: set<string>, root: string, cs: seq<Tree>, i: nat)
    requires i < |cs|
    ensures References(Node(cs[..i + 1]), keys, root) == References(Node(cs[..i]), keys, root) + References(cs[i], keys, root)
  {
    NamesListSnoc(cs, i);
    RelevantConcat(NamesList(cs[..i]), Names(cs[i]), keys, root);
  }

  /** Resolving against the references of `a + b` is resolving against those
      of `a`, then those of `b`. */
  lemma ResolveSplit(t: Table, root: string, whole: Tree, first: Tree, second: Tree)
    requires References(whole, t.entries.Keys, root) == References(first, t.entries.Keys, root) + References(second, t.entries.Keys, root)
    ensures Resolve(t, root, whole) == Resolve(Resolve(t, root, first), root, second)
  {
    if root in t.entries {
      var keys := t.entries.Keys;
      var t1 := Resolve(t, root, first);
      assert t1.entries.Keys == keys;
      AppendAllConcat(t.entries[root].deps, References(first, keys, root), References(second, keys, root));
    }
  }

  /** Walking the children one after another: the first `i + 1` children
      resolve like the first `i` followed by child `i`. */
  lemma ResolveNodeSnoc(t: Table, root: string, cs: seq<Tree>, i: nat)
    requires i < |cs|
    ensures References(Node(cs[..i + 1]), t.entries.Keys, root)
      == References(Node(cs[..i]), t.entries.Keys, root) + References(cs[i], t.entries.Keys, root)
    ensures Resolve(t, root, Node(cs[..i + 1])) == Resolve(Resolve(t, root, Node(cs[..i])), root, cs[i])
  {
    ReferencesNodeSnoc(t.entries.Keys, root, cs, i);
    ResolveSplit(t, root, Node(cs[..i + 1]), Node(cs[..i]), cs[i]);
  }

  lemma ReferencesOfNodeSuffix(t: Table, root: string, cs: seq<Tree>, i: nat)
    requires i <= |cs|
    ensures References(Node(cs[..i]), t.entries.Keys, root) != [] ==> References(Node(cs), t.entries.Keys, root) != []
    decreases |cs| - i
  {
    if i < |cs| {
      ResolveNodeSnoc(t, root, cs, i);
      ReferencesOfNodeSuffix(t, root, cs, i + 1);
    } else {
      assert cs[..i] == cs;
    }
  }

  lemma ReferencesOfName(id: string, keys: set<string>, root: string)
    ensures References(Name(id), keys, root) == if id in keys && id != root then [id] else []
  {
    var names := [id];
    assert Names(Name(id)) == names;
    assert names[..|names| - 1] == [];
    assert Relevant(names, keys, root) == Relevant([], keys, root) + (if id in keys && id != root then [id] else []);
  }

  /** A walk that meets no relevant identifier changes nothing. */
  lemma ResolveNothing(t: Table, root: string, tree: Tree)
    requires References(tree, t.entries.Keys, root) == []
    ensures Resolve(t, root, tree) == t
  {
    if root in t.entries {
      assert t.entries[root := t.entries[root]] == t.entries;
    }
  }
}
