/** The symbol table's value: what the scope dictionary holds, how it is
    updated, and the import text generated from it. */
module Symbols {
  import opened Wrappers
  import opened Lists
  import opened Text

  /** What a top-level name is; only `Constant` is routed differently. */
  datatype Kind = Constant | Function | Class

  /** A scope entry: the name's kind and the names it depends on, in the
      order they were recorded. */
  datatype Entry = Entry(kind: Kind, deps: seq<string>)

  /** The scope dictionary: its keys in insertion order and its entries. */
  datatype Table = Table(order: seq<string>, entries: map<string, Entry>)

  /** The only error the table raises: a lookup of a missing key. */
  datatype ScopeError = KeyError

  const Empty: Table := Table([], map[])

  /** The dictionary's shape: `order` lists each key once, and every
      dependency list is duplicate-free. */
  ghost predicate Valid(t: Table) {
    && Distinct(t.order)
    && (forall k :: k in t.entries <==> k in t.order)
    && (forall k :: k in t.entries ==> Distinct(t.entries[k].deps))
  }

  /** Every dependency is itself a key. */
  predicate DepsClosed(t: Table) {
    forall k, d :: k in t.entries && d in t.entries[k].deps ==> d in t.entries
  }

  /** No entry depends on itself. */
  predicate NoSelfDeps(t: Table) {
    forall k :: k in t.entries ==> k !in t.entries[k].deps
  }

  /** A fresh entry: the given kind and no dependencies yet. */
  function ConstructObject(kind: Kind): (r: Entry)
    ensures r.kind == kind && r.deps == []
  {
    Entry(kind, [])
  }

  /** `scope[name] = construct_object(kind)`: a new key goes to the end, a
      key already present keeps its place and gets a fresh entry. */
  function Register(t: Table, name: string, kind: Kind): (r: Table)
    ensures name in r.entries && r.entries[name] == Entry(kind, [])
    ensures r.entries.Keys == t.entries.Keys + {name}
    ensures forall k :: k in t.entries && k != name ==> r.entries[k] == t.entries[k]
    ensures name in t.entries ==> r.order == t.order
    ensures name !in t.entries ==> r.order == t.order + [name]
  {
    Table(if name in t.entries then t.order else t.order + [name],
          t.entries[name := ConstructObject(kind)])
  }

  lemma RegisterValid(t: Table, name: string, kind: Kind)
    requires Valid(t)
    ensures Valid(Register(t, name, kind))
    ensures DepsClosed(t) ==> DepsClosed(Register(t, name, kind))
    ensures NoSelfDeps(t) ==> NoSelfDeps(Register(t, name, kind))
  {
    var r := Register(t, name, kind);
    if name !in t.entries {
      assert name !in t.order;
      forall i, j | 0 <= i < j < |r.order| ensures r.order[i] != r.order[j] {
        if j == |t.order| {
          assert r.order[i] == t.order[i];
        }
      }
    }
  }

  /** `update_dependencie(owner, dep)`: a missing owner is a `KeyError`;
      otherwise `dep` is appended to the owner's list unless already there. */
  function AddDep(t: Table, owner: string, dep: string): (r: Result<Table, ScopeError>)
    ensures r.Err? <==> owner !in t.entries
    ensures r.Ok? ==>
      && r.value.order == t.order
      && r.value.entries.Keys == t.entries.Keys
      && (forall k :: k in t.entries && k != owner ==> r.value.entries[k] == t.entries[k])
      && r.value.entries[owner].kind == t.entries[owner].kind
      && dep in r.value.entries[owner].deps
      && (dep in t.entries[owner].deps ==> r.value.entries[owner].deps == t.entries[owner].deps)
      && (dep !in t.entries[owner].deps ==> r.value.entries[owner].deps == t.entries[owner].deps + [dep])
  {
    if owner !in t.entries then Err(KeyError)
    else
      var e := t.entries[owner];
      Ok(Table(t.order, t.entries[owner := Entry(e.kind, AppendNew(e.deps, dep))]))
  }

  /** The table's shape survives every update; a dependency that is a key and
      not the owner keeps the dependencies closed and free of self-edges. */
  lemma AddDepValid(t: Table, owner: string, dep: string)
    requires Valid(t) && owner in t.entries
    ensures Valid(AddDep(t, owner, dep).value)
    ensures DepsClosed(t) && dep in t.entries ==> DepsClosed(AddDep(t, owner, dep).value)
    ensures NoSelfDeps(t) && dep != owner ==> NoSelfDeps(AddDep(t, owner, dep).value)
  {
    var r := AddDep(t, owner, dep).value;
    var d := t.entries[owner].deps;
    if dep !in d {
      forall i, j | 0 <= i < j < |d + [dep]| ensures (d + [dep])[i] != (d + [dep])[j] {
        if j == |d| {
          assert (d + [dep])[i] == d[i];
        }
      }
    }
  }

  /** A second identical `update_dependencie` changes nothing. */
  lemma AddDepIdempotent(t: Table, owner: string, dep: string)
    requires owner in t.entries
    ensures AddDep(AddDep(t, owner, dep).value, owner, dep) == AddDep(t, owner, dep)
  {
    var r := AddDep(t, owner, dep).value;
    assert r.entries[owner := r.entries[owner]] == r.entries;
  }

  /** The import of a constant. */
  function ConstantLine(name: string): string {
    "from .constant import " + name + "\n"
  }

  /** The import of a function or class from its own module. */
  function ModuleLine(name: string): string {
    "from ." + name + " import " + name + "\n"
  }

  /** The import line for a name of the given kind. */
  function RouteLine(kind: Kind, name: string): string {
    if kind == Constant then ConstantLine(name) else ModuleLine(name)
  }

  lemma RouteLineIsLine(kind: Kind, name: string)
    requires IsName(name)
    ensures IsLine(RouteLine(kind, name))
  {
    var l := RouteLine(kind, name);
    assert l[..|l| - 1] == if kind == Constant then "from .constant import " + name
                           else "from ." + name + " import " + name;
  }

  /** A line imports from the constants module exactly for constants, and for
      a function or class that is itself called `constant` (whose own module
      has the same name). */
  lemma {:induction false} RouteLineToConstant(kind: Kind, name: string)
    ensures RouteLine(kind, name) == ConstantLine(name) <==> kind == Constant || name == "constant"
  {
    if kind != Constant && ModuleLine(name) == ConstantLine(name) {
      assert |name| == 8;
      assert ModuleLine(name)[6..14] == name;
      assert ConstantLine(name)[6..14] == "constant";
    }
  }

  /** The import lines, one per name, in order. */
  function RouteLines(t: Table, names: seq<string>): (r: seq<string>)
    requires forall n :: n in names ==> n in t.entries
  {
    seq(|names|, i requires 0 <= i < |names| => RouteLine(t.entries[names[i]].kind, names[i]))
  }

  lemma RouteLinesSnoc(t: Table, names: seq<string>, i: nat)
    requires i < |names| && forall j :: 0 <= j <= i ==> names[j] in t.entries
    ensures RouteLines(t, names[..i + 1]) == RouteLines(t, names[..i]) + [RouteLine(t.entries[names[i]].kind, names[i])]
  {
    var a := RouteLines(t, names[..i + 1]);
    var b := RouteLines(t, names[..i]) + [RouteLine(t.entries[names[i]].kind, names[i])];
    assert |a| == |b|;
    forall j | 0 <= j < |a| ensures a[j] == b[j] {
      assert names[..i + 1][j] == names[j];
    }
  }

  lemma RouteLinesAreLines(t: Table, names: seq<string>)
    requires forall n :: n in names ==> n in t.entries && IsName(n)
    ensures forall i :: 0 <= i < |names| ==> IsLine(RouteLines(t, names)[i])
  {
    forall i | 0 <= i < |names| ensures IsLine(RouteLines(t, names)[i]) {
      RouteLineIsLine(t.entries[names[i]].kind, names[i]);
    }
  }

  /** `make_dependencies(name)`: nothing for an unknown name, else one import
      line per dependency; a dependency that is not a key raises. */
  function DependencyText(t: Table, name: string): Result<string, ScopeError> {
    if name !in t.entries then Ok("")
    else if forall d :: d in t.entries[name].deps ==> d in t.entries
    then Ok(Concat(RouteLines(t, t.entries[name].deps)))
    else Err(KeyError)
  }

  /** Registered names have keys without line breaks. */
  predicate NamesReadable(t: Table) {
    forall k :: k in t.entries ==> IsName(k)
  }

  /** The dependency header of a registered name reads back as one line per
      dependency, in list order, each routed by the dependency's kind. */
  lemma DependencyTextLines(t: Table, name: string)
    requires DepsClosed(t) && NamesReadable(t) && name in t.entries
    ensures DependencyText(t, name).Ok?
    ensures var deps := t.entries[name].deps;
      var lines := SplitLines(DependencyText(t, name).value);
      && |lines| == |deps|
      && forall i :: 0 <= i < |deps| ==> lines[i] == RouteLine(t.entries[deps[i]].kind, deps[i])
  {
    var deps := t.entries[name].deps;
    RouteLinesAreLines(t, deps);
    SplitLinesConcat(RouteLines(t, deps));
  }

  /** With closed dependencies `make_dependencies` never raises. */
  lemma DependencyTextTotal(t: Table, name: string)
    requires DepsClosed(t)
    ensures DependencyText(t, name).Ok?
    ensures name !in t.entries ==> DependencyText(t, name) == Ok("")
  {
  }

  /** `import_init()`: one import line per key, in insertion order. */
  function InitText(t: Table): string
    requires Valid(t)
  {
    Concat(RouteLines(t, t.order))
  }

  lemma {:induction false} DistinctCard(s: seq<string>)
    requires Distinct(s)
    ensures |set x | x in s| == |s|
  {
    if s != [] {
      var init := s[..|s| - 1];
      DistinctCard(init);
      assert s == init + [s[|s| - 1]];
      assert (set x | x in s) == (set x | x in init) + {s[|s| - 1]};
    }
  }

  /** A valid table has as many keys as its order lists. */
  lemma ValidCard(t: Table)
    requires Valid(t)
    ensures |t.entries| == |t.order|
  {
    DistinctCard(t.order);
    assert t.entries.Keys == set x | x in t.order;
  }

  /** The init text reads back as one line per key, in insertion order,
      routed by each key's kind. */
  lemma InitTextLines(t: Table)
    requires Valid(t) && NamesReadable(t)
    ensures var lines := SplitLines(InitText(t));
      && |lines| == |t.order|
      && forall i :: 0 <= i < |t.order| ==> lines[i] == RouteLine(t.entries[t.order[i]].kind, t.order[i])
  {
    RouteLinesAreLines(t, t.order);
    SplitLinesConcat(RouteLines(t, t.order));
  }

  /** As many lines as keys, and a line names the constants module exactly
      when its key is a constant (or is itself called `constant`). */
  lemma InitTextLineCount(t: Table)
    requires Valid(t) && NamesReadable(t)
    ensures |SplitLines(InitText(t))| == |t.order| == |t.entries|
    ensures forall i :: 0 <= i < |t.order| ==>
      (SplitLines(InitText(t))[i] == ConstantLine(t.order[i]) <==>
       t.entries[t.order[i]].kind == Constant || t.order[i] == "constant")
  {
    InitTextLines(t);
    ValidCard(t);
    forall i | 0 <= i < |t.order|
      ensures SplitLines(InitText(t))[i] == ConstantLine(t.order[i]) <==>
        t.entries[t.order[i]].kind == Constant || t.order[i] == "constant"
    {
      RouteLineToConstant(t.entries[t.order[i]].kind, t.order[i]);
    }
  }
}
