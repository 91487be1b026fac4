/** The declaration scan: which names a file's top-level statements
    register, with which kind, and which import names they record. */
module Scanner {
  import opened Wrappers
  import opened Lists
  import opened Symbols
  import opened Syntax

  /** One registration: a name and the kind it is registered with. */
  datatype Decl = Decl(name: string, kind: Kind)

  /** The kind a statement is collected under, if any. */
  function DeclKind(s: Stmt): Option<Kind> {
    match s
    case FunctionDef(_, _, _) => Some(Function)
    case ClassDef(_, _, _) => Some(Class)
    case Assign(_, _, _) => Some(Constant)
    case _ => None
  }

  function TargetDecls(targets: seq<string>): seq<Decl> {
    seq(|targets|, i requires 0 <= i < |targets| => Decl(targets[i], Constant))
  }

  /** The registrations one statement makes, in order. */
  function StmtDecls(s: Stmt): seq<Decl> {
    match s
    case FunctionDef(name, _, _) => [Decl(name, Function)]
    case ClassDef(name, _, _) => [Decl(name, Class)]
    case Assign(targets, _, _) => TargetDecls(targets)
    case _ => []
  }

  /** The registrations a whole file makes, in source order. */
  function Decls(code: seq<Stmt>): seq<Decl> {
    if code == [] then [] else Decls(code[..|code| - 1]) + StmtDecls(code[|code| - 1])
  }

  function DeclNames(ds: seq<Decl>): seq<string> {
    seq(|ds|, i requires 0 <= i < |ds| => ds[i].name)
  }

  /** The table after making the registrations `ds` in order. */
  function RegisterAll(t: Table, ds: seq<Decl>): Table {
    if ds == [] then t else var d := ds[|ds| - 1]; Register(RegisterAll(t, ds[..|ds| - 1]), d.name, d.kind)
  }

  /** The statements of a file collected under kind `k`, in source order. */
  function OfKind(code: seq<Stmt>, k: Kind): seq<Stmt> {
    if code == [] then [] else OfKind(code[..|code| - 1], k) + Picked(code[|code| - 1], k)
  }

  /** `[s]` when `s` declares something of kind `k`, else nothing. */
  function Picked(s: Stmt, k: Kind): seq<Stmt> {
    if DeclKind(s) == Some(k) then [s] else []
  }

  /** The import names one statement records: a plain import records each
      imported name (its alias is dropped), a from-import records
      `module.name` for each name. */
  function StmtImports(s: Stmt): seq<string> {
    match s
    case Import(names) => seq(|names|, j requires 0 <= j < |names| => names[j].name)
    case ImportFrom(m, names) => seq(|names|, j requires 0 <= j < |names| => m + "." + names[j].name)
    case _ => []
  }

  function ImportNames(code: seq<Stmt>): seq<string> {
    if code == [] then [] else ImportNames(code[..|code| - 1]) + StmtImports(code[|code| - 1])
  }

  /** The kind of the last registration of `k`. */
  function LastKind(ds: seq<Decl>, k: string): Kind
    requires k in DeclNames(ds)
  {
    var d := ds[|ds| - 1];
    if d.name == k then d.kind
    else
      assert DeclNames(ds) == DeclNames(ds[..|ds| - 1]) + [d.name];
      LastKind(ds[..|ds| - 1], k)
  }

  lemma DeclNamesSnoc(ds: seq<Decl>)
    requires ds != []
    ensures DeclNames(ds) == DeclNames(ds[..|ds| - 1]) + [ds[|ds| - 1].name]
  {
  }

  lemma {:induction false} RegisterAllConcat(t: Table, a: seq<Decl>, b: seq<Decl>)
    ensures RegisterAll(t, a + b) == RegisterAll(RegisterAll(t, a), b)
  {
    if b == [] {
      assert a + b == a;
    } else {
      RegisterAllConcat(t, a, b[..|b| - 1]);
      assert (a + b)[..|a + b| - 1] == a + b[..|b| - 1];
      assert (a + b)[|a + b| - 1] == b[|b| - 1];
    }
  }

  /** Registration keeps the table valid, its dependencies closed and free of
      self-edges. */
  lemma {:induction false} RegisterAllValid(t: Table, ds: seq<Decl>)
    requires Valid(t)
    ensures Valid(RegisterAll(t, ds))
    ensures DepsClosed(t) ==> DepsClosed(RegisterAll(t, ds))
    ensures NoSelfDeps(t) ==> NoSelfDeps(RegisterAll(t, ds))
  {
    if ds != [] {
      RegisterAllValid(t, ds[..|ds| - 1]);
      var d := ds[|ds| - 1];
      RegisterValid(RegisterAll(t, ds[..|ds| - 1]), d.name, d.kind);
    }
  }

  /** Keys are ordered by their first registration: a name registered again
      keeps its place. */
  lemma {:induction false} RegisterAllOrder(t: Table, ds: seq<Decl>)
    requires Valid(t)
    ensures RegisterAll(t, ds).order == AppendAll(t.order, DeclNames(ds))
  {
    if ds != [] {
      var init := ds[..|ds| - 1];
      RegisterAllOrder(t, init);
      RegisterAllValid(t, init);
      DeclNamesSnoc(ds);
      assert DeclNames(ds)[..|DeclNames(ds)| - 1] == DeclNames(init);
    }
  }

  lemma {:induction false} RegisterAllKeys(t: Table, ds: seq<Decl>)
    ensures forall k :: k in RegisterAll(t, ds).entries <==> k in t.entries || k in DeclNames(ds)
  {
    if ds != [] {
      RegisterAllKeys(t, ds[..|ds| - 1]);
      DeclNamesSnoc(ds);
    }
  }

  lemma {:induction false} RegisterAllEntry(t: Table, ds: seq<Decl>, k: string)
    ensures k in DeclNames(ds) ==> k in RegisterAll(t, ds).entries && RegisterAll(t, ds).entries[k] == Entry(LastKind(ds, k), [])
    ensures k in t.entries && k !in DeclNames(ds) ==> k in RegisterAll(t, ds).entries && RegisterAll(t, ds).entries[k] == t.entries[k]
  {
    if ds != [] {
      var init := ds[..|ds| - 1];
      RegisterAllEntry(t, init, k);
      DeclNamesSnoc(ds);
    }
  }

  /** After the registrations, each registered name has the kind of its last
      registration and an empty dependency list; every other entry is as it
      was. */
  lemma RegisterAllEntries(t: Table, ds: seq<Decl>)
    ensures var r := RegisterAll(t, ds);
      && (forall k :: k in r.entries <==> k in t.entries || k in DeclNames(ds))
      && (forall k :: k in DeclNames(ds) ==> r.entries[k] == Entry(LastKind(ds, k), []))
      && (forall k :: k in t.entries && k !in DeclNames(ds) ==> r.entries[k] == t.entries[k])
  {
    RegisterAllKeys(t, ds);
    forall k | k in DeclNames(ds) || k in t.entries
      ensures k in RegisterAll(t, ds).entries
      ensures k in DeclNames(ds) ==> RegisterAll(t, ds).entries[k] == Entry(LastKind(ds, k), [])
      ensures k in t.entries && k !in DeclNames(ds) ==> RegisterAll(t, ds).entries[k] == t.entries[k]
    {
      RegisterAllEntry(t, ds, k);
    }
  }

  /** Declarations that all have different names yield exactly one entry
      per declaration, in source order. */
  lemma RegisterDistinctNames(ds: seq<Decl>)
    requires Distinct(DeclNames(ds))
    ensures RegisterAll(Empty, ds).order == DeclNames(ds)
    ensures |RegisterAll(Empty, ds).entries| == |ds|
  {
    assert Valid(Empty);
    RegisterAllOrder(Empty, ds);
    assert [] + DeclNames(ds) == DeclNames(ds);
    AppendAllFresh([], DeclNames(ds));
    RegisterAllValid(Empty, ds);
    ValidCard(RegisterAll(Empty, ds));
  }

  /** What the first `i + 1` statements contribute, from what the first `i` do. */
  lemma DeclsSnoc(code: seq<Stmt>, i: nat)
    requires i < |code|
    ensures Decls(code[..i + 1]) == Decls(code[..i]) + StmtDecls(code[i])
  {
    assert code[..i + 1][..i] == code[..i];
  }

  lemma ImportNamesSnoc(code: seq<Stmt>, i: nat)
    requires i < |code|
    ensures ImportNames(code[..i + 1]) == ImportNames(code[..i]) + StmtImports(code[i])
  {
    assert code[..i + 1][..i] == code[..i];
  }

  lemma OfKindSnoc(code: seq<Stmt>, i: nat, k: Kind)
    requires i < |code|
    ensures OfKind(code[..i + 1], k) == OfKind(code[..i], k) + Picked(code[i], k)
  {
    assert code[..i + 1][..i] == code[..i];
  }

  lemma RegisterAllStep(t: Table, code: seq<Stmt>, i: nat)
    requires i < |code|
    ensures RegisterAll(t, Decls(code[..i + 1])) == RegisterAll(RegisterAll(t, Decls(code[..i])), StmtDecls(code[i]))
  {
    DeclsSnoc(code, i);
    RegisterAllConcat(t, Decls(code[..i]), StmtDecls(code[i]));
  }

  /** The statements collected under `k` are exactly the file's statements
      of kind `k`. */
  lemma {:induction false} OfKindMembers(code: seq<Stmt>, k: Kind)
    ensures forall s :: s in OfKind(code, k) <==> s in code && DeclKind(s) == Some(k)
  {
    if code != [] {
      var init := code[..|code| - 1];
      var last := code[|code| - 1];
      OfKindMembers(init, k);
      assert code == init + [last];
      assert OfKind(code, k) == OfKind(init, k) + Picked(last, k);
    }
  }

  /** Every function and class name, and every assignment target, is among
      the file's registrations. */
  lemma {:induction false} DeclsCover(code: seq<Stmt>)
    ensures forall s :: s in code && s.IsDecl() ==> s.name in DeclNames(Decls(code))
    ensures forall s, x :: s in code && s.Assign? && x in s.targets ==> x in DeclNames(Decls(code))
  {
    if code != [] {
      var init := code[..|code| - 1];
      var last := code[|code| - 1];
      DeclsCover(init);
      assert code == init + [last];
      var a, b := Decls(init), StmtDecls(last);
      assert DeclNames(a + b) == DeclNames(a) + DeclNames(b);
      if last.IsDecl() {
        assert DeclNames(b) == [last.name];
      }
      if last.Assign? {
        assert DeclNames(b) == last.targets;
      }
    }
  }

  /** Every function (or class) the scan collects is a declaration whose
      name the scan registered. */
  lemma ScannedDeclsRegistered(t: Table, code: seq<Stmt>, k: Kind)
    requires k != Constant
    ensures AllDecls(OfKind(code, k))
    ensures forall i :: 0 <= i < |OfKind(code, k)| ==> OfKind(code, k)[i].name in RegisterAll(t, Decls(code)).entries
  {
    var got := OfKind(code, k);
    var ds := Decls(code);
    OfKindMembers(code, k);
    DeclsCover(code);
    RegisterAllEntries(t, ds);
    forall i | 0 <= i < |got| ensures got[i].IsDecl() && got[i].name in RegisterAll(t, ds).entries {
      var s := got[i];
      assert s in got;
      assert s.name in DeclNames(ds);
    }
  }
}
