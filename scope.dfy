/** The symbol table objects. `SymbolTable` is the table class the tool
    uses; `ImportScope` is the newer table class that adds two import sets
    and shares every other operation with it. */
module Scope {
  import opened Wrappers
  import opened Text
  import opened Symbols

  /** The scope dictionary, kept as its keys in insertion order and its
      entries. */
  class SymbolTable {
    var order: seq<string>
    var entries: map<string, Entry>

    function Value(): Table
      reads this
    {
      Table(order, entries)
    }

    ghost predicate Valid()
      reads this
    {
      Symbols.Valid(Value())
    }

    constructor ()
      ensures Valid() && Value() == Empty
    {
      order := [];
      entries := map[];
    }

    /** `self.scope[name] = self.construct_object(kind)`. */
    method Store(name: string, kind: Kind)
      requires Valid()
      modifies this
      ensures Valid() && Value() == Register(old(Value()), name, kind)
    {
      RegisterValid(Value(), name, kind);
      if name !in entries {
        order := order + [name];
      }
      entries := entries[name := ConstructObject(kind)];
    }

    method AddConstant(name: string)
      requires Valid()
      modifies this
      ensures Valid() && Value() == Register(old(Value()), name, Constant)
    {
      Store(name, Constant);
    }

    method AddFunction(name: string)
      requires Valid()
      modifies this
      ensures Valid() && Value() == Register(old(Value()), name, Function)
    {
      Store(name, Function);
    }

    method AddClass(name: string)
      requires Valid()
      modifies this
      ensures Valid() && Value() == Register(old(Value()), name, Class)
    {
      Store(name, Class);
    }

    /** Raises (returns `Fail`) for an unknown owner and then changes nothing;
        otherwise appends `dep` to the owner's list unless it is there. */
    method UpdateDependency(name: string, dep: string) returns (r: Outcome<ScopeError>)
      requires Valid()
      modifies this
      ensures Valid()
      ensures r.Fail? <==> name !in old(entries)
      ensures r.Fail? ==> Value() == old(Value())
      ensures r.Pass? ==> Value() == AddDep(old(Value()), name, dep).value
    {
      if name !in entries {
        return Fail(KeyError);
      }
      AddDepValid(Value(), name, dep);
      var arr := entries[name].deps;
      if dep !in arr {
        entries := entries[name := Entry(entries[name].kind, arr + [dep])];
      }
      return Pass;
    }

    /** `key in table`. */
    function Contains(key: string): (r: bool)
      reads this
      ensures r <==> key in Value().entries
    {
      key in entries
    }

    /** `table.get(key)`; `None` stands for the `KeyError` it raises. */
    function Get(key: string): (r: Option<Entry>)
      reads this
      ensures r.Some? <==> Contains(key)
      ensures r.Some? ==> r.value == Value().entries[key]
    {
      if key in entries then Some(entries[key]) else None
    }

    method MakeDependencies(nodeName: string) returns (r: Result<string, ScopeError>)
      requires Valid()
      ensures r == DependencyText(Value(), nodeName)
    {
      ghost var t := Value();
      var imports := "";
      if nodeName in entries {
        var deps := entries[nodeName].deps;
        var i := 0;
        while i < |deps|
          invariant 0 <= i <= |deps|
          invariant forall j :: 0 <= j < i ==> deps[j] in entries
          invariant imports == Concat(RouteLines(t, deps[..i]))
        {
          var dep := deps[i];
          if dep !in entries {
            return Err(KeyError);
          }
          var line;
          if entries[dep].kind == Constant {
            line := "from .constant import " + dep + "\n";
          } else {
            line := "from ." + dep + " import " + dep + "\n";
          }
          assert line == RouteLine(t.entries[dep].kind, dep);
          RouteLinesSnoc(t, deps, i);
          ConcatSnoc(RouteLines(t, deps[..i]), line);
          imports := imports + line;
          i := i + 1;
        }
        assert deps[..|deps|] == deps;
      }
      return Ok(imports);
    }

    method ImportInit() returns (r: string)
      requires Valid()
      ensures r == InitText(Value())
    {
      ghost var t := Value();
      r := "";
      var i := 0;
      while i < |order|
        invariant 0 <= i <= |order|
        invariant r == Concat(RouteLines(t, order[..i]))
      {
        var node := order[i];
        var line;
        if entries[node].kind == Constant {
          line := "from .constant import " + node + "\n";
        } else {
          line := "from ." + node + " import " + node + "\n";
        }
        assert line == RouteLine(t.entries[node].kind, node);
        RouteLinesSnoc(t, order, i);
        ConcatSnoc(RouteLines(t, order[..i]), line);
        r := r + line;
        i := i + 1;
      }
      assert order[..|order|] == order;
    }
  }

  /** Adding a possibly-absent value to an import set: `None` is ignored. */
  function WithValue(s: set<string>, value: Option<string>): set<string> {
    if value.Some? && value.value !in s then s + {value.value} else s
  }

  /** `None` changes nothing; otherwise the value is in the set afterwards,
      nothing else is added or lost, and adding it again changes nothing. */
  lemma WithValueSpec(s: set<string>, value: Option<string>)
    ensures value.None? ==> WithValue(s, value) == s
    ensures value.Some? ==> WithValue(s, value) == s + {value.value}
    ensures WithValue(WithValue(s, value), value) == WithValue(s, value)
  {
  }

  /** The newer table class: the scope dictionary with the same operations,
      plus the set of plain imports and the set of from-imports. */
  class ImportScope {
    const scope: SymbolTable
    var imports: set<string>
    var fromImport: set<string>

    ghost predicate Valid()
      reads this, scope
    {
      scope.Valid()
    }

    constructor ()
      ensures Valid() && fresh(scope)
      ensures scope.Value() == Empty && imports == {} && fromImport == {}
    {
      scope := new SymbolTable();
      imports := {};
      fromImport := {};
    }

    method AddImport(value: Option<string>)
      modifies this
      ensures imports == WithValue(old(imports), value)
      ensures fromImport == old(fromImport) && unchanged(scope)
    {
      if value.Some? && value.value !in imports {
        imports := imports + {value.value};
      }
    }

    method AddFromImport(value: Option<string>)
      modifies this
      ensures fromImport == WithValue(old(fromImport), value)
      ensures imports == old(imports) && unchanged(scope)
    {
      if value.Some? && value.value !in fromImport {
        fromImport := fromImport + {value.value};
      }
    }
  }
}
