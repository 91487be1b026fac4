/** The splitting run. The module-level state of the tool (its symbol
    table and its lists of functions, classes, constants and imports) is
    held by one context object, `Splitter`, created once per run. */
module Splitter {
  import opened Wrappers
  import opened Lists
  import opened Text
  import opened Syntax
  import opened Symbols
  import opened Scope
  import opened Scanner
  import opened Resolver

  /** A generated file: its name and its text. */
  datatype File = File(path: string, content: string)

  /** One `import` line per recorded import, in list order. */
  function GlobalImportLines(imports: seq<string>): seq<string> {
    seq(|imports|, i requires 0 <= i < |imports| => "import " + imports[i] + "\n")
  }

  function GlobalImportText(imports: seq<string>): string {
    Concat(GlobalImportLines(imports))
  }

  lemma GlobalImportLinesAreLines(imports: seq<string>)
    requires forall i :: 0 <= i < |imports| ==> IsName(imports[i])
    ensures forall i :: 0 <= i < |imports| ==> IsLine(GlobalImportLines(imports)[i])
  {
    forall i | 0 <= i < |imports| ensures IsLine(GlobalImportLines(imports)[i]) {
      var l := GlobalImportLines(imports)[i];
      assert l[..|l| - 1] == "import " + imports[i];
    }
  }

  /** The global header reads back as one `import im` line per recorded
      import, in list order. */
  lemma GlobalImportTextLines(imports: seq<string>)
    requires forall i :: 0 <= i < |imports| ==> IsName(imports[i])
    ensures var lines := SplitLines(GlobalImportText(imports));
      |lines| == |imports| && forall i :: 0 <= i < |imports| ==> lines[i] == "import " + imports[i] + "\n"
  {
    GlobalImportLinesAreLines(imports);
    SplitLinesConcat(GlobalImportLines(imports));
  }

  /** The text of a declaration's file: the global imports, the dependency
      imports, four line breaks, then the declaration's code. */
  function FileContent(globalImports: string, deps: string, code: string): string {
    globalImports + deps + "\n\n\n\n" + code
  }

  /** The four line breaks between header and code, as lines. */
  const Separator: seq<string> := ["\n", "\n", "\n", "\n"]

  /** A declaration's file is a header followed by its code, and the header
      reads back as the global import lines, then one import line per
      dependency, then four empty lines. */
  lemma FileContentLayout(imports: seq<string>, t: Table, name: string, code: string)
    requires forall i :: 0 <= i < |imports| ==> IsName(imports[i])
    requires DepsClosed(t) && NamesReadable(t) && name in t.entries
    ensures DependencyText(t, name).Ok?
    ensures var content := FileContent(GlobalImportText(imports), DependencyText(t, name).value, code);
      exists header ::
        && content == header + code
        && SplitLines(header) == GlobalImportLines(imports) + RouteLines(t, t.entries[name].deps) + Separator
  {
    var deps := t.entries[name].deps;
    var g := GlobalImportLines(imports);
    var d := RouteLines(t, deps);
    GlobalImportLinesAreLines(imports);
    RouteLinesAreLines(t, deps);
    var lines := g + d + Separator;
    forall i | 0 <= i < |lines| ensures IsLine(lines[i]) {
      if i < |g| {
        assert lines[i] == g[i];
      } else if i < |g| + |d| {
        assert lines[i] == d[i - |g|];
      } else {
        assert lines[i] == "\n";
      }
    }
    SplitLinesConcat(lines);
    ConcatAppend(g + d, Separator);
    ConcatAppend(g, d);
    assert Concat(Separator) == "\n\n\n\n";
    var header := Concat(lines);
    assert FileContent(GlobalImportText(imports), DependencyText(t, name).value, code) == header + code;
  }

  /** The file a declaration gets after its own resolution: `<name>.py`. */
  function DeclFile(t: Table, imports: seq<string>, s: Stmt, unparse: Stmt -> string): File
    requires s.IsDecl() && DepsClosed(t)
  {
    File(s.name + ".py", FileContent(GlobalImportText(imports), DependencyText(t, s.name).value, unparse(s)))
  }

  /** The table after resolving each declaration of `arr` in turn. */
  ghost function ResolveAll(t: Table, arr: seq<Stmt>): (r: Table)
    requires AllDecls(arr)
    ensures r.entries.Keys == t.entries.Keys
    ensures Valid(t) ==> Valid(r)
    ensures Valid(t) && DepsClosed(t) ==> DepsClosed(r)
    ensures Valid(t) && NoSelfDeps(t) ==> NoSelfDeps(r)
  {
    if arr == [] then t
    else
      assert AllDecls(arr[..|arr| - 1]);
      var s := arr[|arr| - 1];
      var t1 := ResolveAll(t, arr[..|arr| - 1]);
      if Valid(t1) then ResolveSound(t1, s.name, s.tree); Resolve(t1, s.name, s.tree)
      else ResolveUnknown(t1, s.name, s.tree); Resolve(t1, s.name, s.tree)
  }

  lemma ResolveAllSnoc(t: Table, arr: seq<Stmt>, i: nat)
    requires AllDecls(arr) && i < |arr|
    ensures AllDecls(arr[..i]) && AllDecls(arr[..i + 1])
    ensures ResolveAll(t, arr[..i + 1]) == Resolve(ResolveAll(t, arr[..i]), arr[i].name, arr[i].tree)
  {
    assert arr[..i + 1][..i] == arr[..i];
  }

  /** `files` holds, for each declaration of `arr`, the file produced right
      after that declaration's resolution. */
  ghost predicate Created(t0: Table, imports: seq<string>, arr: seq<Stmt>, files: seq<File>, unparse: Stmt -> string)
    requires Valid(t0) && DepsClosed(t0) && AllDecls(arr)
  {
    && |files| == |arr|
    && (arr != [] ==>
          && AllDecls(arr[..|arr| - 1])
          && Created(t0, imports, arr[..|arr| - 1], files[..|arr| - 1], unparse)
          && files[|arr| - 1] == DeclFile(ResolveAll(t0, arr), imports, arr[|arr| - 1], unparse))
  }

  lemma CreatedSnoc(t0: Table, imports: seq<string>, arr: seq<Stmt>, i: nat, files: seq<File>, file: File, unparse: Stmt -> string)
    requires Valid(t0) && DepsClosed(t0) && AllDecls(arr) && i < |arr|
    requires AllDecls(arr[..i]) && AllDecls(arr[..i + 1])
    requires Created(t0, imports, arr[..i], files, unparse)
    requires file == DeclFile(ResolveAll(t0, arr[..i + 1]), imports, arr[i], unparse)
    ensures Created(t0, imports, arr[..i + 1], files + [file], unparse)
  {
    assert arr[..i + 1][..i] == arr[..i];
    assert (files + [file])[..i] == files;
  }

  /** The per-declaration reading of `Created`: file `j` is the file of
      declaration `j`, built from the table as it stands once the first
      `j + 1` declarations are resolved. */
  lemma {:induction false} CreatedAt(t0: Table, imports: seq<string>, arr: seq<Stmt>, files: seq<File>, unparse: Stmt -> string, j: nat)
    requires Valid(t0) && DepsClosed(t0) && AllDecls(arr)
    requires Created(t0, imports, arr, files, unparse)
    requires j < |arr|
    ensures |files| == |arr|
    ensures AllDecls(arr[..j + 1])
    ensures files[j] == DeclFile(ResolveAll(t0, arr[..j + 1]), imports, arr[j], unparse)
    decreases |arr|
  {
    if j == |arr| - 1 {
      assert arr[..j + 1] == arr;
    } else {
      var p := arr[..|arr| - 1];
      CreatedAt(t0, imports, p, files[..|arr| - 1], unparse, j);
      assert p[..j + 1] == arr[..j + 1];
    }
  }

  lemma ResolveUnknown(t: Table, root: string, tree: Tree)
    ensures Resolve(t, root, tree).entries.Keys == t.entries.Keys
  {
  }

  /** A key no declaration of `arr` names keeps its entry. */
  lemma {:induction false} ResolveAllUntouched(t: Table, arr: seq<Stmt>, k: string)
    requires AllDecls(arr) && k in t.entries
    requires forall i :: 0 <= i < |arr| ==> arr[i].name != k
    ensures ResolveAll(t, arr).entries[k] == t.entries[k]
  {
    if arr != [] {
      var init := arr[..|arr| - 1];
      assert AllDecls(init);
      forall i | 0 <= i < |init| ensures init[i].name != k {
        assert init[i] == arr[i];
      }
      ResolveAllUntouched(t, init, k);
    }
  }

  /** The entry of declaration `i`, when names are distinct, is what
      resolving that declaration alone gives. */
  lemma {:induction false} ResolveAllEntry(t: Table, arr: seq<Stmt>, i: nat)
    requires AllDecls(arr) && i < |arr|
    requires forall j :: 0 <= j < |arr| ==> arr[j].name in t.entries
    requires forall j, l :: 0 <= j < l < |arr| ==> arr[j].name != arr[l].name
    ensures ResolveAll(t, arr).entries[arr[i].name] == Resolve(t, arr[i].name, arr[i].tree).entries[arr[i].name]
  {
    var init := arr[..|arr| - 1];
    var s := arr[|arr| - 1];
    assert AllDecls(init);
    var t1 := ResolveAll(t, init);
    if i == |arr| - 1 {
      forall j | 0 <= j < |init| ensures init[j].name != s.name {
        assert init[j] == arr[j];
      }
      ResolveAllUntouched(t, init, s.name);
      assert t1.entries.Keys == t.entries.Keys;
    } else {
      assert init[i] == arr[i];
      forall j | 0 <= j < |init| ensures init[j].name in t.entries {
        assert init[j] == arr[j];
      }
      forall j, l | 0 <= j < l < |init| ensures init[j].name != init[l].name {
        assert init[j] == arr[j] && init[l] == arr[l];
      }
      ResolveAllEntry(t, init, i);
    }
  }

  /** Resolving declarations with different names one after another: each
      declaration's list is its old list extended by its own references, as
      if it were resolved alone, and every other entry is left alone. */
  lemma ResolveAllEntries(t: Table, arr: seq<Stmt>)
    requires AllDecls(arr)
    requires forall i :: 0 <= i < |arr| ==> arr[i].name in t.entries
    requires forall i, j :: 0 <= i < j < |arr| ==> arr[i].name != arr[j].name
    ensures forall i :: 0 <= i < |arr| ==>
      ResolveAll(t, arr).entries[arr[i].name] == Resolve(t, arr[i].name, arr[i].tree).entries[arr[i].name]
    ensures forall k :: k in t.entries && (forall i :: 0 <= i < |arr| ==> arr[i].name != k) ==>
      ResolveAll(t, arr).entries[k] == t.entries[k]
  {
    forall i | 0 <= i < |arr|
      ensures ResolveAll(t, arr).entries[arr[i].name] == Resolve(t, arr[i].name, arr[i].tree).entries[arr[i].name]
    {
      ResolveAllEntry(t, arr, i);
    }
    forall k | k in t.entries && (forall i :: 0 <= i < |arr| ==> arr[i].name != k)
      ensures ResolveAll(t, arr).entries[k] == t.entries[k]
    {
      ResolveAllUntouched(t, arr, k);
    }
  }

  function ConstantLines(constants: seq<Stmt>, unparse: Stmt -> string): seq<string> {
    seq(|constants|, i requires 0 <= i < |constants| => unparse(constants[i]) + "\n")
  }

  /** The constants file: each constant's code on a line of its own. */
  function ConstantText(constants: seq<Stmt>, unparse: Stmt -> string): string {
    Concat(ConstantLines(constants, unparse))
  }

  /** Constants that unparse to one line each give one line per constant, in
      scan order. */
  lemma ConstantTextLines(constants: seq<Stmt>, unparse: Stmt -> string)
    requires forall i :: 0 <= i < |constants| ==> '\n' !in unparse(constants[i])
    ensures var lines := SplitLines(ConstantText(constants, unparse));
      |lines| == |constants| && forall i :: 0 <= i < |constants| ==> lines[i] == unparse(constants[i]) + "\n"
  {
    var ls := ConstantLines(constants, unparse);
    forall i | 0 <= i < |ls| ensures IsLine(ls[i]) {
      assert ls[i][..|ls[i]| - 1] == unparse(constants[i]);
    }
    SplitLinesConcat(ls);
  }

  /** The table `t` and the lists `f, c, k, m` are what scanning `code`
      from `t0, f0, c0, k0, m0` yields. */
  predicate ScannedFrom(code: seq<Stmt>, t0: Table, f0: seq<Stmt>, c0: seq<Stmt>, k0: seq<Stmt>, m0: seq<string>,
                        t: Table, f: seq<Stmt>, c: seq<Stmt>, k: seq<Stmt>, m: seq<string>)
  {
    && t == RegisterAll(t0, Decls(code))
    && f == f0 + OfKind(code, Function)
    && c == c0 + OfKind(code, Class)
    && k == k0 + OfKind(code, Constant)
    && m == m0 + ImportNames(code)
  }

  lemma ScannedStep(code: seq<Stmt>, i: nat, t0: Table, f0: seq<Stmt>, c0: seq<Stmt>, k0: seq<Stmt>, m0: seq<string>,
                    t: Table, f: seq<Stmt>, c: seq<Stmt>, k: seq<Stmt>, m: seq<string>)
    requires i < |code| && ScannedFrom(code[..i], t0, f0, c0, k0, m0, t, f, c, k, m)
    ensures ScannedFrom(code[..i + 1], t0, f0, c0, k0, m0, RegisterAll(t, StmtDecls(code[i])),
                        f + Picked(code[i], Function), c + Picked(code[i], Class),
                        k + Picked(code[i], Constant), m + StmtImports(code[i]))
  {
    RegisterAllStep(t0, code, i);
    ListStep(code, i, Function, f0, f);
    ListStep(code, i, Class, c0, c);
    ListStep(code, i, Constant, k0, k);
    ImportsStep(code, i, m0, m);
  }

  lemma SeqAssoc<T>(a: seq<T>, b: seq<T>, c: seq<T>)
    ensures a + b + c == a + (b + c)
  {
  }

  lemma ListStep(code: seq<Stmt>, i: nat, k: Kind, l0: seq<Stmt>, l: seq<Stmt>)
    requires i < |code| && l == l0 + OfKind(code[..i], k)
    ensures l + Picked(code[i], k) == l0 + OfKind(code[..i + 1], k)
  {
    OfKindSnoc(code, i, k);
    SeqAssoc(l0, OfKind(code[..i], k), Picked(code[i], k));
  }

  lemma ImportsStep(code: seq<Stmt>, i: nat, m0: seq<string>, m: seq<string>)
    requires i < |code| && m == m0 + ImportNames(code[..i])
    ensures m + StmtImports(code[i]) == m0 + ImportNames(code[..i + 1])
  {
    ImportNamesSnoc(code, i);
    SeqAssoc(m0, ImportNames(code[..i]), StmtImports(code[i]));
  }

  class Splitter {
    const scope: SymbolTable
    var functions: seq<Stmt>
    var classes: seq<Stmt>
    var constants: seq<Stmt>
    var imports: seq<string>

    ghost predicate Valid()
      reads this, scope
    {
      scope.Valid() && DepsClosed(scope.Value()) && NoSelfDeps(scope.Value())
    }

    constructor ()
      ensures Valid() && fresh(scope) && scope.Value() == Empty
      ensures functions == [] && classes == [] && constants == [] && imports == []
    {
      scope := new SymbolTable();
      functions, classes, constants, imports := [], [], [], [];
    }

    /** Registers each target of an assignment as a constant. */
    method RegisterTargets(targets: seq<string>)
      requires Valid()
      modifies scope
      ensures Valid()
      ensures scope.Value() == RegisterAll(old(scope.Value()), TargetDecls(targets))
    {
      ghost var t0 := scope.Value();
      for j := 0 to |targets|
        invariant Valid()
        invariant scope.Value() == RegisterAll(t0, TargetDecls(targets[..j]))
      {
        assert TargetDecls(targets[..j + 1])[..j] == TargetDecls(targets[..j]);
        RegisterValid(scope.Value(), targets[j], Constant);
        scope.AddConstant(targets[j]);
      }
      assert targets[..|targets|] == targets;
    }

    /** Records the names of a plain import. */
    method RecordImport(names: seq<Alias>)
      modifies this
      ensures imports == old(imports) + StmtImports(Import(names))
      ensures functions == old(functions) && classes == old(classes) && constants == old(constants)
    {
      for j := 0 to |names|
        invariant imports == old(imports) + StmtImports(Import(names[..j]))
        invariant functions == old(functions) && classes == old(classes) && constants == old(constants)
      {
        imports := imports + [names[j].name];
      }
      assert names[..|names|] == names;
    }

    /** Records `module.name` for each name of a from-import. */
    method RecordFromImport(moduleName: string, names: seq<Alias>)
      modifies this
      ensures imports == old(imports) + StmtImports(ImportFrom(moduleName, names))
      ensures functions == old(functions) && classes == old(classes) && constants == old(constants)
    {
      for j := 0 to |names|
        invariant imports == old(imports) + StmtImports(ImportFrom(moduleName, names[..j]))
        invariant functions == old(functions) && classes == old(classes) && constants == old(constants)
      {
        imports := imports + [moduleName + "." + names[j].name];
      }
      assert names[..|names|] == names;
    }

    /** The body of the scan loop, for one top-level statement. */
    method ScanStatement(node: Stmt)
      requires Valid()
      modifies this, scope
      ensures Valid()
      ensures scope.Value() == RegisterAll(old(scope.Value()), StmtDecls(node))
      ensures functions == old(functions) + Picked(node, Function)
      ensures classes == old(classes) + Picked(node, Class)
      ensures constants == old(constants) + Picked(node, Constant)
      ensures imports == old(imports) + StmtImports(node)
    {
      match node
      case FunctionDef(name, _, _) =>
        functions := functions + [node];
        RegisterValid(scope.Value(), name, Function);
        scope.AddFunction(name);
      case ClassDef(name, _, _) =>
        classes := classes + [node];
        RegisterValid(scope.Value(), name, Class);
        scope.AddClass(name);
      case Assign(targets, _, _) =>
        constants := constants + [node];
        RegisterTargets(targets);
      case Import(names) =>
        RecordImport(names);
      case ImportFrom(moduleName, names) =>
        RecordFromImport(moduleName, names);
      case Other(_) =>
    }

    /** One pass over the top-level statements: registers every declaration
        and collects the statements and import names in source order. */
    method ScanFile(code: seq<Stmt>)
      requires Valid()
      modifies this, scope
      ensures Valid()
      ensures scope.Value() == RegisterAll(old(scope.Value()), Decls(code))
      ensures functions == old(functions) + OfKind(code, Function)
      ensures classes == old(classes) + OfKind(code, Class)
      ensures constants == old(constants) + OfKind(code, Constant)
      ensures imports == old(imports) + ImportNames(code)
    {
      ghost var t0, f0, c0, k0, m0 := scope.Value(), functions, classes, constants, imports;
      for i := 0 to |code|
        invariant Valid()
        invariant Scanned(code[..i], t0, f0, c0, k0, m0)
      {
        ScanNext(code, i, t0, f0, c0, k0, m0);
      }
      assert code[..|code|] == code;
    }

    /** The state after scanning `code` from the state `t0, f0, c0, k0, m0`. */
    ghost predicate Scanned(code: seq<Stmt>, t0: Table, f0: seq<Stmt>, c0: seq<Stmt>, k0: seq<Stmt>, m0: seq<string>)
      reads this, scope
    {
      ScannedFrom(code, t0, f0, c0, k0, m0, scope.Value(), functions, classes, constants, imports)
    }

    /** One iteration of the scanning loop. */
    method ScanNext(code: seq<Stmt>, i: nat, ghost t0: Table, ghost f0: seq<Stmt>, ghost c0: seq<Stmt>, ghost k0: seq<Stmt>, ghost m0: seq<string>)
      requires i < |code| && Valid() && Scanned(code[..i], t0, f0, c0, k0, m0)
      modifies this, scope
      ensures Valid() && Scanned(code[..i + 1], t0, f0, c0, k0, m0)
    {
      ghost var t1, f1, c1, k1, m1 := scope.Value(), functions, classes, constants, imports;
      ScanStatement(code[i]);
      ScannedStep(code, i, t0, f0, c0, k0, m0, t1, f1, c1, k1, m1);
    }

    /** The visitor's walk over one node, for the declaration named `root`.
        Returns false where the walk raises, which is when `root` is not a key
        and an identifier that is would be recorded. */
    method Visit(root: string, t: Tree) returns (ok: bool)
      requires Valid()
      modifies scope
      decreases t
      ensures Valid()
      ensures scope.Value() == Resolve(old(scope.Value()), root, t)
      ensures ok <==> root in old(scope.Value()).entries || References(t, old(scope.Value()).entries.Keys, root) == []
    {
      ghost var t0 := scope.Value();
      match t
      case Name(id) =>
        ok := true;
        ReferencesOfName(id, t0.entries.Keys, root);
        if scope.Contains(id) && id != root {
          if root in scope.entries {
            AddDepValid(scope.Value(), root, id);
            assert AppendAll(t0.entries[root].deps, [id]) == AppendNew(t0.entries[root].deps, id);
          }
          var outcome := scope.UpdateDependency(root, id);
          ok := outcome.Pass?;
        }
      case Node(children) =>
        ok := true;
        var i := 0;
        assert Names(Node(children[..0])) == [];
        ResolveNothing(t0, root, Node(children[..0]));
        while i < |children|
          invariant 0 <= i <= |children|
          invariant Valid()
          invariant scope.Value() == Resolve(t0, root, Node(children[..i]))
          invariant root !in t0.entries ==> References(Node(children[..i]), t0.entries.Keys, root) == []
        {
          ResolveNodeSnoc(t0, root, children, i);
          ok := Visit(root, children[i]);
          if !ok {
            ReferencesOfNodeSuffix(t0, root, children, i + 1);
            return;
          }
          i := i + 1;
        }
        assert children[..|children|] == children;
    }

    /** Resolves the dependencies of one declaration. */
    method ExtractImports(node: Stmt) returns (ok: bool)
      requires Valid() && node.IsDecl()
      modifies scope
      ensures Valid()
      ensures scope.Value() == Resolve(old(scope.Value()), node.name, node.tree)
      ensures ok <==> node.name in old(scope.Value()).entries || References(node.tree, old(scope.Value()).entries.Keys, node.name) == []
    {
      ok := Visit(node.name, node.tree);
    }

    /** The global import header. The source caches it; it is only computed
        once scanning is over, so the cache always holds this value. */
    method MakeGlobalImport() returns (r: string)
      ensures r == GlobalImportText(imports)
    {
      r := "";
      for i := 0 to |imports|
        invariant r == Concat(GlobalImportLines(imports[..i]))
      {
        assert GlobalImportLines(imports[..i + 1]) == GlobalImportLines(imports[..i]) + ["import " + imports[i] + "\n"];
        ConcatSnoc(GlobalImportLines(imports[..i]), "import " + imports[i] + "\n");
        r := r + "import " + imports[i] + "\n";
      }
      assert imports[..|imports|] == imports;
    }

    /** One step of the file loop: resolves `chunk` and produces its file. */
    method CreateOne(chunk: Stmt, globalImports: string, unparse: Stmt -> string) returns (file: File)
      requires Valid() && chunk.IsDecl() && chunk.name in scope.Value().entries
      requires globalImports == GlobalImportText(imports)
      modifies scope
      ensures Valid()
      ensures scope.Value() == Resolve(old(scope.Value()), chunk.name, chunk.tree)
      ensures file == DeclFile(scope.Value(), imports, chunk, unparse)
    {
      var chunkCode := unparse(chunk);
      var _ := ExtractImports(chunk);
      var deps := scope.MakeDependencies(chunk.name);
      chunkCode := globalImports + deps.value + "\n\n\n\n" + chunkCode;
      file := File(chunk.name + ".py", chunkCode);
    }

    /** Resolves each declaration of `arr` in turn and produces its file. */
    method CreateFile(arr: seq<Stmt>, unparse: Stmt -> string) returns (files: seq<File>)
      requires Valid() && AllDecls(arr)
      requires forall i :: 0 <= i < |arr| ==> arr[i].name in scope.Value().entries
      modifies scope
      ensures Valid()
      ensures scope.Value() == ResolveAll(old(scope.Value()), arr)
      ensures Created(old(scope.Value()), imports, arr, files, unparse)
    {
      ghost var t0 := scope.Value();
      var globalImports := MakeGlobalImport();
      files := [];
      for i := 0 to |arr|
        invariant Valid()
        invariant AllDecls(arr[..i])
        invariant scope.Value() == ResolveAll(t0, arr[..i])
        invariant Created(t0, imports, arr[..i], files, unparse)
      {
        ResolveAllSnoc(t0, arr, i);
        var file := CreateOne(arr[i], globalImports, unparse);
        CreatedSnoc(t0, imports, arr, i, files, file, unparse);
        files := files + [file];
      }
      assert arr[..|arr|] == arr;
    }

    /** The constants file's text; none when there are no constants. */
    method MakeConstantFile(unparse: Stmt -> string) returns (text: Option<string>)
      ensures constants == [] ==> text == None
      ensures constants != [] ==> text == Some(ConstantText(constants, unparse))
    {
      var pp := "";
      for i := 0 to |constants|
        invariant pp == Concat(ConstantLines(constants[..i], unparse))
      {
        assert ConstantLines(constants[..i + 1], unparse) == ConstantLines(constants[..i], unparse) + [unparse(constants[i]) + "\n"];
        ConcatSnoc(ConstantLines(constants[..i], unparse), unparse(constants[i]) + "\n");
        pp := pp + unparse(constants[i]) + "\n";
      }
      assert constants[..|constants|] == constants;
      if |constants| > 0 {
        text := Some(pp);
      } else {
        text := None;
      }
    }

    /** The package's init file text. */
    method MakeInit() returns (text: string)
      requires Valid()
      ensures text == InitText(scope.Value())
    {
      text := scope.ImportInit();
    }

    /** The whole split of one parsed file, in the tool's order: the scan,
        the function files, the class files, the constants file and the
        init file. */
    method Run(code: seq<Stmt>, unparse: Stmt -> string)
      returns (functionFiles: seq<File>, classFiles: seq<File>, constantText: Option<string>, initText: string)
      requires Valid() && scope.Value() == Empty
      requires functions == [] && classes == [] && constants == [] && imports == []
      modifies this, scope
      ensures var t1 := RegisterAll(Empty, Decls(code));
        var fs, cs, ks := OfKind(code, Function), OfKind(code, Class), OfKind(code, Constant);
        && Symbols.Valid(t1) && DepsClosed(t1) && NoSelfDeps(t1) && AllDecls(fs) && AllDecls(cs)
        && Created(t1, ImportNames(code), fs, functionFiles, unparse)
        && var t2 := ResolveAll(t1, fs);
        && Created(t2, ImportNames(code), cs, classFiles, unparse)
        && constantText == (if ks == [] then None else Some(ConstantText(ks, unparse)))
        && initText == InitText(ResolveAll(t2, cs))
      ensures Valid()
      ensures functions == OfKind(code, Function) && classes == OfKind(code, Class)
      ensures constants == OfKind(code, Constant) && imports == ImportNames(code)
      ensures scope.Value() == ResolveAll(ResolveAll(RegisterAll(Empty, Decls(code)), OfKind(code, Function)), OfKind(code, Class))
    {
      ScanFile(code);
      ghost var t1 := scope.Value();
      assert t1 == RegisterAll(Empty, Decls(code));
      assert functions == OfKind(code, Function) && classes == OfKind(code, Class);
      assert constants == OfKind(code, Constant) && imports == ImportNames(code);
      ScannedDeclsRegistered(Empty, code, Function);
      ScannedDeclsRegistered(Empty, code, Class);
      functionFiles := CreateFile(functions, unparse);
      ghost var t2 := scope.Value();
      assert t2 == ResolveAll(t1, functions);
      classFiles := CreateFile(classes, unparse);
      constantText := MakeConstantFile(unparse);
      initText := MakeInit();
    }
  }
}
