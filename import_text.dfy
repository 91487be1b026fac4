/** Canonical import text: one imported name, and one whole from-import
    statement with its names in set order. */
module ImportText {
  import opened Wrappers
  import opened Lists
  import opened Text
  import opened Syntax

  /** A plain import with an alias reads `name as alias`, one without reads
      `name`. */
  function MakeImportStatement(alias: Alias): (r: string)
    ensures alias.name <= r
    ensures alias.asname.None? <==> r == alias.name
    ensures alias.asname.Some? ==> r[|alias.name|..] == " as " + alias.asname.value
  {
    if alias.asname.Some? then alias.name + " as " + alias.asname.value else alias.name
  }

  /** Both names of an alias are names. */
  predicate WellFormed(alias: Alias) {
    IsName(alias.name) && (alias.asname.Some? ==> IsName(alias.asname.value))
  }

  /** Reads an import statement back: the text up to the first space is the
      imported name, and ` as ` after it introduces the alias. */
  function ParseImportStatement(s: string): Alias {
    if ' ' !in s then Alias(s, None)
    else
      var i := IndexOf(s, ' ');
      if i + 4 <= |s| && s[i..i + 4] == " as " then Alias(s[..i], Some(s[i + 4..])) else Alias(s, None)
  }

  lemma NameHasNoSpace(s: string)
    requires IsName(s)
    ensures ' ' !in s && ',' !in s
  {
  }

  /** An import statement names its alias: reading it back gives the alias. */
  lemma ImportStatementRoundTrip(alias: Alias)
    requires IsName(alias.name)
    ensures ParseImportStatement(MakeImportStatement(alias)) == alias
    ensures alias.asname.Some? ==> MakeImportStatement(alias) == alias.name + " as " + alias.asname.value
    ensures alias.asname.None? ==> MakeImportStatement(alias) == alias.name
  {
    var s := MakeImportStatement(alias);
    NameHasNoSpace(alias.name);
    if alias.asname.Some? {
      var a := alias.asname.value;
      assert s == alias.name + [' '] + ("as " + a);
      IndexOfAfter(alias.name, ' ', "as " + a);
      var i := |alias.name|;
      assert s[..i] == alias.name;
      assert s[i + 4..] == a;
    }
  }

  lemma StatementHasNoComma(alias: Alias)
    requires WellFormed(alias)
    ensures ',' !in MakeImportStatement(alias)
  {
    NameHasNoSpace(alias.name);
    if alias.asname.Some? {
      NameHasNoSpace(alias.asname.value);
    }
  }

  /** The set a from-import statement's names are collected into. */
  function Statements(names: seq<Alias>): set<string> {
    set a | a in names :: MakeImportStatement(a)
  }

  /** `members` lists the elements of `s`, each once, in some order. */
  ghost predicate Enumerates(members: seq<string>, s: set<string>) {
    Distinct(members) && forall x :: x in members <==> x in s
  }

  function FromImportText(moduleName: string, members: seq<string>): string {
    moduleName + " import (" + Join(',', members) + ")"
  }

  /** `r` is one of the texts a from-import of `names` from `moduleName` can
      produce: the members come in whatever order the set yields. */
  ghost predicate PossibleFromImport(moduleName: string, names: seq<Alias>, r: string) {
    exists members :: Enumerates(members, Statements(names)) && r == FromImportText(moduleName, members)
  }

  /** The elements of a set in an order the model leaves open. */
  method IterationOrder(s: set<string>) returns (r: seq<string>)
    ensures Enumerates(r, s)
  {
    r := [];
    var rest := s;
    while rest != {}
      invariant Distinct(r)
      invariant forall x :: x in s <==> x in r || x in rest
      invariant forall x :: x in r ==> x !in rest
      decreases |rest|
    {
      var x :| x in rest;
      r := r + [x];
      rest := rest - {x};
    }
  }

  method MakeFromImportStatement(node: Stmt) returns (r: string)
    requires node.ImportFrom?
    ensures PossibleFromImport(node.moduleName, node.names, r)
    ensures |r| >= |node.moduleName| + 10
    ensures r[..|node.moduleName| + 9] == node.moduleName + " import ("
    ensures r[|r| - 1] == ')'
  {
    var moduleName := node.moduleName;
    var fullImport := moduleName + " import (";
    var buffer: set<string> := {};
    for i := 0 to |node.names|
      invariant buffer == Statements(node.names[..i])
    {
      assert node.names[..i + 1] == node.names[..i] + [node.names[i]];
      buffer := buffer + {MakeImportStatement(node.names[i])};
    }
    assert node.names[..|node.names|] == node.names;
    var members := IterationOrder(buffer);
    r := fullImport + Join(',', members) + ")";
    assert r == FromImportText(moduleName, members);
  }

  /** The text between the parentheses splits at commas into the canonical
      statements of the imported names, each once. */
  lemma FromImportMembers(moduleName: string, names: seq<Alias>, r: string)
    requires names != [] && forall i :: 0 <= i < |names| ==> WellFormed(names[i])
    requires PossibleFromImport(moduleName, names, r)
    ensures |r| >= |moduleName| + 10
    ensures var members := Split(',', r[|moduleName| + 9..|r| - 1]);
      Distinct(members) && forall x :: x in members <==> x in Statements(names)
  {
    var members :| Enumerates(members, Statements(names)) && r == FromImportText(moduleName, members);
    var head := moduleName + " import (";
    var inner := Join(',', members);
    assert r == head + inner + ")";
    assert r[|head|..|r| - 1] == inner;
    assert MakeImportStatement(names[0]) in Statements(names);
    assert members != [];
    forall i | 0 <= i < |members| ensures ',' !in members[i] {
      assert members[i] in Statements(names);
      var a :| a in names && MakeImportStatement(a) == members[i];
      StatementHasNoComma(a);
    }
    SplitJoin(',', members);
  }

  /** Importing the same names, in any order and with any repetitions, can
      produce the same texts: a name listed twice counts once. */
  lemma FromImportIgnoresRepeats(moduleName: string, names: seq<Alias>, names': seq<Alias>, r: string)
    requires forall a :: a in names <==> a in names'
    ensures PossibleFromImport(moduleName, names, r) <==> PossibleFromImport(moduleName, names', r)
  {
    assert Statements(names) == Statements(names');
  }
}
