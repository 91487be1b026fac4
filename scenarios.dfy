/** Small worked files: what the scan and the resolution give for them. */
module Scenarios {
  import opened Wrappers
  import opened Syntax
  import opened Symbols
  import opened Scanner
  import opened Resolver
  import opened Lists
  import opened Text
  import Splitter

  lemma DeclsPair(a: Stmt, b: Stmt)
    ensures Decls([a, b]) == StmtDecls(a) + StmtDecls(b)
  {
    var code := [a, b];
    assert code[..1] == [a] && code[..1][..0] == [];
    assert Decls(code[..1]) == StmtDecls(a);
  }

  lemma RegisterPair(da: Decl, db: Decl)
    ensures RegisterAll(Empty, [da, db]) == Register(Register(Empty, da.name, da.kind), db.name, db.kind)
  {
    var ds := [da, db];
    assert ds[..1] == [da] && ds[..1][..0] == [];
    assert RegisterAll(Empty, ds[..1]) == Register(Empty, da.name, da.kind);
  }

  /** The table a scan of two single-name declarations builds. */
  lemma TwoDecls(a: Stmt, b: Stmt, da: Decl, db: Decl)
    requires StmtDecls(a) == [da] && StmtDecls(b) == [db] && da.name != db.name
    ensures var t := RegisterAll(Empty, Decls([a, b]));
      && t.order == [da.name, db.name]
      && t.entries == map[da.name := Entry(da.kind, []), db.name := Entry(db.kind, [])]
  {
    DeclsPair(a, b);
    TwoRegistrations(da, db);
  }

  lemma TwoRegistrations(da: Decl, db: Decl)
    requires da.name != db.name
    ensures var t := RegisterAll(Empty, [da, db]);
      && t.order == [da.name, db.name]
      && t.entries == map[da.name := Entry(da.kind, []), db.name := Entry(db.kind, [])]
  {
    RegisterPair(da, db);
    var t1 := Register(Empty, da.name, da.kind);
    assert t1 == Table([da.name], map[da.name := Entry(da.kind, [])]);
  }

  /** A declaration whose body mentions one other key `x`, once, depends
      on `x` alone, and its header is the one import line for `x`. */
  lemma SingleUse(t: Table, root: string, body: Tree, x: string)
    requires root in t.entries && t.entries[root].deps == []
    requires x in t.entries && x != root && Names(body) == [x]
    ensures var r := Resolve(t, root, body);
      && r.entries[root].deps == [x]
      && DependencyText(r, root) == Ok(RouteLine(t.entries[x].kind, x))
  {
    var xs := [x];
    OneReference(t, root, body, x);
    assert xs[..0] == [];
    assert AppendAll([], xs) == AppendNew(AppendAll([], []), x);
    var r := Resolve(t, root, body);
    assert r.entries[x] == t.entries[x];
    var lines := RouteLines(r, xs);
    assert lines == [RouteLine(t.entries[x].kind, x)];
    assert lines[1..] == [];
    assert DependencyText(r, root) == Ok(Concat(lines));
    assert r.entries[root].deps == [x];
    assert Concat(lines) == RouteLine(t.entries[x].kind, x);
  }

  /** `X = 1` then `def f(): return X`: the table holds the constant `X`
      and the function `f`, in that order; `f` depends on `X`, and its header
      imports `X` from the constants module. */
  lemma ConstantUse(x: string, f: string, value: Tree, body: Tree, srcX: string, srcF: string)
    requires x != f && Names(body) == [x]
    ensures var code := [Assign([x], value, srcX), FunctionDef(f, body, srcF)];
      var t := RegisterAll(Empty, Decls(code));
      var r := Resolve(t, f, body);
      && t.order == [x, f]
      && t.entries == map[x := Entry(Constant, []), f := Entry(Function, [])]
      && r.entries[f].deps == [x]
      && DependencyText(r, f) == Ok(ConstantLine(x))
  {
    var a, b := Assign([x], value, srcX), FunctionDef(f, body, srcF);
    assert StmtDecls(a) == [Decl(x, Constant)];
    TwoDecls(a, b, Decl(x, Constant), Decl(f, Function));
    SingleUse(RegisterAll(Empty, Decls([a, b])), f, body, x);
  }

  /** `class A` then `class B(A)`: `B` depends on `A`, and its header imports
      `A` from `A`'s own module. */
  lemma BaseClass(a: string, b: string, bodyA: Tree, bodyB: Tree, srcA: string, srcB: string)
    requires a != b && Names(bodyB) == [a]
    ensures var code := [ClassDef(a, bodyA, srcA), ClassDef(b, bodyB, srcB)];
      var t := RegisterAll(Empty, Decls(code));
      var r := Resolve(t, b, bodyB);
      && t.order == [a, b]
      && r.entries[b].deps == [a]
      && DependencyText(r, b) == Ok(ModuleLine(a))
  {
    var sa, sb := ClassDef(a, bodyA, srcA), ClassDef(b, bodyB, srcB);
    TwoDecls(sa, sb, Decl(a, Class), Decl(b, Class));
    SingleUse(RegisterAll(Empty, Decls([sa, sb])), b, bodyB, a);
  }

  lemma ImportNamesPair(a: Stmt, b: Stmt)
    ensures ImportNames([a, b]) == StmtImports(a) + StmtImports(b)
  {
    var code := [a, b];
    assert code[..1] == [a] && code[..1][..0] == [];
    assert ImportNames(code[..1]) == StmtImports(a);
  }

  lemma RegisterOne(d: Decl)
    ensures RegisterAll(Empty, [d]) == Register(Empty, d.name, d.kind)
  {
    var ds := [d];
    assert ds[..0] == [];
  }

  /** `import os` then `def g(): return os.getcwd()`: `os` is recorded as a
      plain import and is no key, so `g` gets no dependency and its file
      starts with `import os` followed directly by the separator. */
  lemma PlainImportUse(m: string, g: string, body: Tree, srcG: string, code: string)
    requires m != g && Names(body) == [m]
    ensures var prog := [Import([Alias(m, None)]), FunctionDef(g, body, srcG)];
      var t := RegisterAll(Empty, Decls(prog));
      var r := Resolve(t, g, body);
      && ImportNames(prog) == [m]
      && t.order == [g]
      && r.entries[g].deps == []
      && DependencyText(r, g) == Ok("")
      && Splitter.FileContent(Splitter.GlobalImportText(ImportNames(prog)), "", code) == "import " + m + "\n" + "\n\n\n\n" + code
  {
    var si, sg := Import([Alias(m, None)]), FunctionDef(g, body, srcG);
    ImportNamesPair(si, sg);
    assert StmtImports(si) == [m];
    DeclsPair(si, sg);
    assert Decls([si, sg]) == [Decl(g, Function)];
    RegisterOne(Decl(g, Function));
    var t := Register(Empty, g, Function);
    assert t == Table([g], map[g := Entry(Function, [])]);
    NoReference(t, g, body, m);
    ResolveNothing(t, g, body);
    assert RouteLines(t, []) == [];
    OneImportHeader(m, code);
  }

  lemma OneImportHeader(m: string, code: string)
    ensures Splitter.FileContent(Splitter.GlobalImportText([m]), "", code) == "import " + m + "\n" + "\n\n\n\n" + code
  {
    var lines := Splitter.GlobalImportLines([m]);
    assert lines == ["import " + m + "\n"] && lines[1..] == [];
    var h := Splitter.GlobalImportText([m]);
    assert h == lines[0] + Concat(lines[1..]);
    assert h == "import " + m + "\n";
    assert h + "" == h;
  }

  lemma OneReference(t: Table, root: string, body: Tree, x: string)
    requires Names(body) == [x] && x in t.entries && x != root
    ensures References(body, t.entries.Keys, root) == [x]
  {
    var xs := [x];
    assert xs[..0] == [];
    assert Relevant(xs, t.entries.Keys, root) == Relevant([], t.entries.Keys, root) + [x];
  }

  lemma NoReference(t: Table, root: string, body: Tree, m: string)
    requires Names(body) == [m] && m !in t.entries
    ensures References(body, t.entries.Keys, root) == []
  {
    var ms := [m];
    assert ms[..0] == [];
    assert Relevant(ms, t.entries.Keys, root) == Relevant([], t.entries.Keys, root);
  }

  /** `X = 1` then `X = 2`: both statements are kept, each with its own
      text, so the constants file holds both lines in order, while the table
      holds `X` once, as a constant. */
  lemma RepeatedConstant(x: string, v1: Tree, v2: Tree, src1: string, src2: string, unparse: Stmt -> string)
    requires src1 != src2
    ensures var a, b := Assign([x], v1, src1), Assign([x], v2, src2);
      var t := RegisterAll(Empty, Decls([a, b]));
      && a != b
      && OfKind([a, b], Constant) == [a, b]
      && t.order == [x]
      && t.entries == map[x := Entry(Constant, [])]
      && Splitter.ConstantText(OfKind([a, b], Constant), unparse) == unparse(a) + "\n" + unparse(b) + "\n"
  {
    var a, b := Assign([x], v1, src1), Assign([x], v2, src2);
    var code := [a, b];
    assert code[..1] == [a] && code[..1][..0] == [];
    assert OfKind(code[..1], Constant) == [a];
    assert StmtDecls(a) == [Decl(x, Constant)] && StmtDecls(b) == [Decl(x, Constant)];
    DeclsPair(a, b);
    RegisterPair(Decl(x, Constant), Decl(x, Constant));
    var t1 := Register(Empty, x, Constant);
    assert t1 == Table([x], map[x := Entry(Constant, [])]);
    var lines := Splitter.ConstantLines([a, b], unparse);
    assert lines[1..][1..] == [];
    assert Concat(lines[1..]) == lines[1] + "";
    assert lines[1] + "" == lines[1];
    assert Concat(lines) == lines[0] + Concat(lines[1..]);
  }
}
