/** The parts of a parsed source file the splitter looks at. Parsing and
    unparsing are done by the language's own parser; these datatypes are
    what the core receives from it. */
module Syntax {
  import opened Wrappers

  /** An imported name with its optional `as` name. */
  datatype Alias = Alias(name: string, asname: Option<string>)

  /** The identifier references of a node: each `Name` node is a leaf, every
      other node keeps its children in the visitor's field order. */
  datatype Tree = Name(id: string) | Node(children: seq<Tree>)

  /** A top-level statement. `tree` is the whole statement node as the
      visitor walks it (decorators, arguments, bases, body). Assignment
      targets are plain names. `source` is the statement's own text: the
      parts a `Tree` forgets (literals, operators, parameters) live there, so
      `X = 1` and `X = 2` are different statements and the unparser may tell
      them apart. */
  datatype Stmt =
    | FunctionDef(name: string, tree: Tree, source: string)
    | ClassDef(name: string, tree: Tree, source: string)
    | Assign(targets: seq<string>, tree: Tree, source: string)
    | Import(names: seq<Alias>)
    | ImportFrom(moduleName: string, names: seq<Alias>)
    | Other(tree: Tree)
  {
    /** A declaration that gets a file of its own. */
    predicate IsDecl() {
      FunctionDef? || ClassDef?
    }
  }

  /** Every statement of `arr` is a declaration. */
  predicate AllDecls(arr: seq<Stmt>) {
    forall i :: 0 <= i < |arr| ==> arr[i].FunctionDef? || arr[i].ClassDef?
  }
}
