# modularize, modelled in Dafny

`modularize` splits one Python source file into a package with one module
per top-level function or class, a `constant.py` holding every top-level
assignment, and an `__init__.py` that re-exports every name. This project
models the bookkeeping between parsing and writing files:

- the **symbol table** (`GlobalScope`). It is a dictionary from top-level name
  to its kind (constant, function or class) and its dependency list. Python
  dicts keep insertion order, so it is modelled as a key order plus a map
  (`Symbols.Table`). The `Scope.SymbolTable` class updates it in place.
  `Scope.ImportScope` is the newer copy in `global_scope.py`: the same table
  plus a set of plain imports and a set of from-imports.
- the **declaration scan** (`scan_file`). One pass over the top-level
  statements fills the table and the lists of functions, classes, constants
  and import names (`Scanner`, `Splitter.Splitter.ScanFile`).
- the **reference resolver** (`Something.visit_Name`). It walks a
  declaration's identifier tree. Every identifier that is a key and not the
  declaration's own name becomes a dependency, once, in first-seen order
  (`Resolver`, `Splitter.Splitter.Visit`).
- the **text** the tool writes:
  - the global import header;
  - each declaration's dependency imports;
  - a declaration file's layout `global + deps + "\n\n\n\n" + code`;
  - the constants file;
  - the init file;
  - the canonical import strings of `utils.py` (`ImportText`).

In the source, the table and the lists are module-level globals. Here they
live in one context object, `Splitter.Splitter`, created once per run.
`Splitter.Splitter.Run` performs the run in the tool's order: scan, function
files, class files, constants file, init file.

The model follows the code as written, including these behaviours:

- Registering a name that is already a key overwrites its entry silently. The
  dependency list becomes empty again, and the key keeps its place in the
  insertion order.
- The plain-import record is a list that keeps repetitions.
- In that list an aliased import `import a as b` is recorded as `a`, and a
  from-import `from m import x` is recorded as `m.x`. The header therefore
  reads `import a` and `import m.x`.
- Names are routed to import lines by their kind. A function or class that is
  itself called `constant` gets the same line as a constant
  (`Symbols.RouteLineToConstant`).

`global_scope.py:17-64` repeats `modularize.py:19-66` line for line, so
one set of table members models both copies.

## Model

| member | source | states |
|---|---|---|
| `Scope.SymbolTable.constructor` | modularize.py:9-10 | a new table is valid and empty |
| `Symbols.ConstructObject` | modularize.py:13-17 | a fresh entry has the given kind and no dependencies |
| `Symbols.Register` | modularize.py:13-29 | the name maps to the given kind with an empty list; the key set gains only the name; every other entry is unchanged; a new name is appended to the order, and an existing one keeps its place |
| `Symbols.RegisterValid` | modularize.py:20-29 | registration keeps the order duplicate-free and in step with the keys, keeps every list duplicate-free, and keeps dependencies closed and free of self-edges |
| `Scope.SymbolTable.AddConstant` | modularize.py:20-21 | the table afterwards is the old table with the name registered as a constant |
| `Scope.SymbolTable.AddFunction` | modularize.py:24-25 | the table afterwards is the old table with the name registered as a function |
| `Scope.SymbolTable.AddClass` | modularize.py:28-29 | the table afterwards is the old table with the name registered as a class |
| `Symbols.AddDep` | modularize.py:32-37 | an unknown owner is a `KeyError`; otherwise the order and keys are kept, every other entry is unchanged, `dep` is in the owner's list afterwards, and the list grows by `dep` at the end exactly when `dep` was absent |
| `Symbols.AddDepValid` | global_scope.py:30-35 | an update keeps the table valid and the owner's list duplicate-free; a key dependency keeps dependencies closed; a dependency other than the owner keeps them free of self-edges |
| `Symbols.AddDepIdempotent` | modularize.py:35-37 | a second identical update changes nothing |
| `Scope.SymbolTable.UpdateDependency` | modularize.py:32-37 | fails exactly for an unknown owner and then changes nothing; otherwise the new table is the `AddDep` result |
| `Scope.SymbolTable.Contains` | modularize.py:40-41 | true exactly when the key is in the table |
| `Scope.SymbolTable.Get` | modularize.py:44-45 | returns the key's entry when it is present, and the missing-key error otherwise |
| `Scope.SymbolTable.MakeDependencies` | modularize.py:48-56 | returns the dependency text of the name: empty for an unknown name, a `KeyError` when a dependency is not a key, else one routed line per dependency in list order |
| `Symbols.DependencyTextLines` | modularize.py:48-56 | for a registered name with closed dependencies, the text splits into exactly one line per dependency, in list order, each routed by that dependency's kind |
| `Symbols.DependencyTextTotal` | global_scope.py:46-54 | with closed dependencies the text never fails, and it is empty for an unregistered name |
| `Symbols.RouteLineToConstant` | modularize.py:52-55 | a line imports from `.constant` exactly when the name is a constant or is itself called `constant` |
| `Scope.SymbolTable.ImportInit` | modularize.py:59-66 | returns the init text of the table |
| `Symbols.InitTextLines` | modularize.py:59-66 | the init text splits into one line per key, in insertion order, each routed by the key's kind |
| `Symbols.InitTextLineCount` | global_scope.py:57-64 | the init text has as many lines as the table has keys, and line `i` routes to `.constant` exactly when key `i` is a constant (or is called `constant`) |
| `Scope.ImportScope.constructor` | global_scope.py:5-8 | a new scope has an empty table, no plain imports and no from-imports |
| `Scope.ImportScope.AddImport` | global_scope.py:66-68 | the import set gains the value unless it is `None`; the from-import set and the table are unchanged |
| `Scope.ImportScope.AddFromImport` | global_scope.py:70-72 | the from-import set gains the value unless it is `None`; the import set and the table are unchanged |
| `Scope.WithValueSpec` | global_scope.py:66-72 | `None` changes nothing; otherwise exactly the value is added; adding twice equals adding once |
| `Resolver.RelevantMembers` | modularize.py:79-80 | an identifier is offered as a dependency exactly when it occurs in the tree, is a key and differs from the root |
| `Resolver.ReferencesOfName` | modularize.py:78-81 | a `Name` node offers its identifier exactly when it is a key other than the root |
| `Resolver.ResolveNodeSnoc` | modularize.py:82 | visiting the children one after another resolves like visiting the first ones, then the next one |
| `Resolver.ResolveSound` | modularize.py:78-82 | resolution keeps the table valid, its order and keys, and every other entry; it keeps dependencies closed and free of self-edges; the root's kind is kept; every new dependency is a key other than the root |
| `Resolver.ResolveOrder` | modularize.py:78-82 | the root's new list begins with its old list; it is duplicate-free; it holds exactly the old entries plus the tree's key identifiers other than the root; the new ones come in first-seen walk order |
| `Resolver.ResolveIdempotent` | modularize.py:78-82 | visiting the same declaration twice gives the table of visiting it once |
| `Resolver.ResolveNothing` | modularize.py:79-81 | a walk that meets no relevant identifier leaves the table unchanged |
| `Splitter.Splitter.Visit` | modularize.py:78-82 | the table afterwards is the resolution of the tree for the root; the walk succeeds exactly when the root is a key or the tree offers nothing |
| `Splitter.Splitter.ExtractImports` | modularize.py:85-88 | the walk of a declaration's own node, for its own name, with the same result |
| `Scanner.RegisterAllValid` | modularize.py:107-117 | the scan's registrations keep the table valid, its dependencies closed and free of self-edges |
| `Scanner.RegisterAllOrder` | modularize.py:107-117 | keys are ordered by their first registration |
| `Scanner.RegisterAllEntries` | modularize.py:107-117 | the keys afterwards are the old ones plus the registered names; each registered name has the kind of its last registration and an empty list; other entries are unchanged |
| `Scanner.RegisterDistinctNames` | modularize.py:107-117 | declarations with distinct names give exactly one entry each, in source order |
| `Scanner.OfKindMembers` | modularize.py:108-115 | a statement is in a collected list exactly when it is a statement of the file of that list's kind |
| `Scanner.DeclsCover` | modularize.py:108-117 | every function and class of the file is registered under its name, and so is every assignment target |
| `Scanner.ScannedDeclsRegistered` | modularize.py:108-113 | the collected functions (classes) are all declarations whose names are keys after the scan |
| `Splitter.Splitter.constructor` | modularize.py:99-102 | the run starts with an empty table and empty lists |
| `Splitter.Splitter.RegisterTargets` | modularize.py:116-117 | each assignment target is registered as a constant, in order |
| `Splitter.Splitter.RecordImport` | modularize.py:118-120 | each imported name is appended to the import list, its alias dropped; the other lists are unchanged |
| `Splitter.Splitter.RecordFromImport` | modularize.py:121-124 | `module.name` is appended for each imported name; the other lists are unchanged |
| `Splitter.Splitter.ScanStatement` | modularize.py:107-124 | one statement is appended to the list of its kind, its names are registered, its imports are recorded; any other statement changes nothing |
| `Splitter.Splitter.ScanFile` | modularize.py:105-124 | after the scan: the table is the old one with every declaration registered in source order; each list is extended by the file's statements of its kind, in source order; the import list is extended by the file's import names |
| `Splitter.Splitter.MakeGlobalImport` | modularize.py:92-96 | returns the global import header of the import list |
| `Splitter.GlobalImportTextLines` | modularize.py:92-96 | the header splits into one `import im` line per recorded import, in list order |
| `Splitter.FileContentLayout` | modularize.py:133 | a declaration's file is a header followed by its code; the header's lines are the global import lines, then one routed line per dependency, then four empty lines |
| `Splitter.Splitter.CreateOne` | modularize.py:129-134 | resolves the declaration, then returns `<name>.py` with the content built from the resolved table |
| `Splitter.ResolveAllSnoc` | modularize.py:129-131 | the declarations are resolved one after another, in list order |
| `Splitter.ResolveAllEntries` | modularize.py:129-131 | for declarations with distinct names, each one's final list is what resolving it alone gives; entries no declaration names are unchanged |
| `Splitter.Splitter.CreateFile` | modularize.py:127-136 | the table ends up with every declaration resolved in order; there is one file per declaration, built right after its own resolution |
| `Splitter.CreatedAt` | modularize.py:129-134 | file `j` is declaration `j`'s file, computed from the table once the first `j + 1` declarations are resolved |
| `Splitter.ConstantTextLines` | modularize.py:141-143 | one-line constants give one line per constant, in scan order |
| `Splitter.Splitter.MakeConstantFile` | modularize.py:139-146 | no text when there are no constants, else each constant's code on a line of its own |
| `Splitter.Splitter.MakeInit` | modularize.py:149-152 | the init file's text is the table's init text |
| `Splitter.Splitter.Run` | modularize.py:170-174 | scans a file into a fresh context, then produces: the function files against the scanned table; the class files against the table after the functions' resolution; the constants text; the init text of the final table; afterwards the context is valid (every dependency a key, none a self-edge), the lists are the scanned ones and the table is the scanned table with the functions, then the classes, resolved |
| `Scenarios.SingleUse` | modularize.py:78-82 | a declaration mentioning one other key once depends on it alone and gets that key's single routed import line |
| `Scenarios.ConstantUse` | modularize.py:105-133 | `X = 1; def f(): return X` gives the table `{X: constant, f: function}` in that order; `f` depends on `[X]`; its header is `from .constant import X` |
| `Scenarios.BaseClass` | modularize.py:105-133 | `class A; class B(A)` makes `B` depend on `[A]`, so its header is `from .A import A` |
| `Scenarios.RepeatedConstant` | modularize.py:114-143 | `X = 1; X = 2` keeps both assignments as constants, so the constants text has both lines in order, while the table holds `X` once, as a constant |
| `Scenarios.PlainImportUse` | modularize.py:92-133 | `import os; def g(): os.getcwd()` records `os` as an import and gives `g` no dependency; `g`'s file is `import os` followed directly by the separator |
| `ImportText.MakeImportStatement` | utils.py:1-7 | the statement begins with the imported name; it is the name alone exactly when there is no alias, and otherwise continues with ` as ` and the alias |
| `ImportText.ImportStatementRoundTrip` | utils.py:1-7 | the statement is `name as asname` with an alias and `name` without, and reading it back gives the alias |
| `ImportText.StatementHasNoComma` | utils.py:1-7 | the statement of a well-formed alias contains no comma |
| `ImportText.IterationOrder` | utils.py:12-17 | lists every element of the set exactly once, in an order left open |
| `ImportText.MakeFromImportStatement` | utils.py:9-18 | the result is one of the texts the statement can give (members in some order of the set); it starts with `module import (` and ends with `)` |
| `ImportText.FromImportMembers` | utils.py:12-17 | the text between the parentheses splits at commas into a duplicate-free list that equals, as a set, the statements of the imported names |
| `ImportText.FromImportIgnoresRepeats` | utils.py:13-15 | two from-imports of the same names, in any order and with any repetitions, can produce exactly the same texts |

## Left out

- The command line and all I/O: `main`, argument parsing, reading the input
  file, creating the directory, and the final message
  (modularize.py:155-181). `Splitter.Splitter.Run` stands for the calls in
  `main`.
- Writing files (modularize.py:135-136, 145-146, 150-152). The model returns
  each file's name (`<name>.py`, without the package directory that
  modularize.py:135 joins in front) and its text as a value. When two
  declarations share a name, `CreateFile` and `Run` return several files with
  the same name; on disk the later write replaces the earlier one, and the
  model does not capture that only the last one survives.
- Parsing and unparsing. Statements and identifier trees arrive as
  datatypes. Each function, class and assignment statement carries its own
  text (`source`), so statements that differ only in literals or operators
  are distinct values. `unparse` is a parameter `Stmt -> string` that the
  model treats as an arbitrary function.
- The visitor's dispatch over node types. A tree keeps only its `Name`
  leaves; every other node is a generic node whose children come in the
  visitor's field order.
- The `lru_cache` on `make_global_import`. The model computes the header from
  the import list. This is what the cache holds, because the header is only
  built once scanning is over.
- Python set iteration order (global_scope.py sets, utils.py:12). It is left
  open (`ImportText.IterationOrder`), and from-import text is specified up to
  that order (`ImportText.PossibleFromImport`).
- Assignment targets other than plain names, which crash the source at
  modularize.py:117. Targets are modelled as names.
- The `level` and possible `None` module of a from-import. The module is
  always a string, so the `None.x` record the source makes for `from . import x`
  is not modelled.
- `Splitter.Splitter.Visit`: the `KeyError` that `update_dependencie` raises
  when the root is not a key becomes a `false` result that ends the walk.
  Raising stops `create_file` and the run, whereas `Run` never calls `Visit`
  on such a root, because every scanned declaration is a key.
- `Splitter.Splitter.CreateFile`: requires that every declaration's name is a
  key. The only callers pass the scanned functions and classes, which
  `Scanner.ScannedDeclsRegistered` shows are keys. An unregistered name makes
  the source raise as soon as the walk meets a key other than that name
  (`Splitter.Splitter.Visit`); without one, the source writes the file with
  no dependency lines.
- `ImportText.MakeFromImportStatement`: requires a from-import statement, the
  only kind the source passes to it.
