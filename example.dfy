/**
 * The pass on one small program, end to end:
 *
 *     class A { int x; void f() { return x; } }
 *
 * with the class, the field and the method numbered 1, 2 and 3. After
 * `Program::BuildDecls`, lookup from the scope of the returned expression `x`
 * walks from the method body's block scope through the method's scope (which
 * holds no name) to the class scope, where it finds the field.
 */
module BindingExample {
  import opened Wrappers
  import opened SymbolTable
  import opened Scopes
  import opened Ast
  import opened ScopeTree
  import opened Binder

  /**
   * Lookup from the block scope falls through two empty tables to the class
   * scope, which holds the field and the method, and then to the global
   * scope, which holds the class.
   */
  lemma NestedLookups(g: Scope, classScope: Scope, fnScope: Scope, blockScope: Scope)
    requires g.Valid() && g.IsGlobal() && g.symtab.tab == map["A" := 1]
    requires Opens(classScope, g, Some(1), map["x" := 2, "f" := 3])
    requires Opens(fnScope, classScope, Some(3), map[])
    requires Opens(blockScope, fnScope, None, map[])
    ensures Resolve(blockScope, "x") == Some(2) && Resolve(blockScope, "f") == Some(3)
    ensures Resolve(blockScope, "A") == Some(1) && Resolve(blockScope, "y") == None
  {
    assert forall n :: Resolve(blockScope, n) == Resolve(fnScope, n) == Resolve(classScope, n);
    assert Resolve(classScope, "A") == Resolve(g, "A") == Some(1);
    assert Resolve(classScope, "y") == Resolve(g, "y") == None;
  }

  method ClassFieldSeenFromMethod() returns (x: Option<DeclId>, f: Option<DeclId>, a: Option<DeclId>, y: Option<DeclId>)
    ensures x == Some(2) && f == Some(3) && a == Some(1) && y == None
  {
    var g := NewGlobalScope();
    var body := Block(None, [], [Return(None, Expr(None))]);
    var cls := Class(None, 1, "A", [Variable(VarDecl(None, 2, "x")), Function(None, 3, "f", [], Some(body))]);
    var p := Program(None, [cls]);
    var r := BuildProgram(p, g);

    // The global scope holds the class.
    assert DeclEntries(p.decls) == [("A", 1)];
    assert g.symtab.tab == map["A" := 1];

    // The class scope holds the field and the method.
    var rc := r.decls[0];
    assert ScopedDecl(rc, g) && BoundDecl(rc, cls);
    assert rc.Class? && BoundDecls(rc.members, cls.members) && |rc.members| == 2;
    assert BoundDecl(rc.members[0], cls.members[0]) && BoundDecl(rc.members[1], cls.members[1]);
    assert ScopedMembers(rc.members, g, 1);
    var classScope := rc.members[0].GetScope().value;
    assert DeclEntries(rc.members) == [("x", 2), ("f", 3)];
    assert [("x", 2), ("f", 3)][..1] == [("x", 2)];
    assert AddAll(map[], [("x", 2)]) == map["x" := 2];
    assert Opens(classScope, g, Some(1), map["x" := 2, "f" := 3]);

    // The method scope is a child of the class scope and holds no name.
    var rf := rc.members[1];
    assert ScopedDecl(rf, classScope) && rf.Function? && BoundOptStmt(rf.body, Some(body));
    assert rf.formals == [] && rf.body.Some? && BoundStmt(rf.body.value, body);
    var fnScope := rf.body.value.scope.value;
    assert Opens(fnScope, classScope, Some(3), map[]);

    // The body's block scope is a child of the method scope; `return x` is bound in it.
    var rb := rf.body.value;
    assert ScopedStmt(rb, fnScope) && rb.Block? && BoundStmts(rb.stmts, body.stmts);
    assert |rb.stmts| == 1 && BoundStmt(rb.stmts[0], body.stmts[0]) && rb.decls == [];
    var blockScope := rb.stmts[0].scope.value;
    assert Opens(blockScope, fnScope, None, map[]);
    assert ScopedStmt(rb.stmts[0], blockScope);
    var e := rb.stmts[0].expr;
    assert e.scope == Some(blockScope);

    NestedLookups(g, classScope, fnScope, blockScope);
    x := blockScope.FindSym("x");
    f := blockScope.FindSym("f");
    a := blockScope.FindSym("A");
    y := blockScope.FindSym("y");
  }

  /**
   * `{ { return e; } { return e; } }`: the two inner blocks are the same
   * syntax, but each `StmtBlock::BuildDecls` allocates its own scope.
   */
  method SiblingBlocksOpenDistinctScopes() returns (distinct: bool)
    ensures distinct
  {
    var g := NewGlobalScope();
    var b := Block(None, [], [Return(None, Expr(None))]);
    var outer := Block(None, [], [b, b]);
    var r := BuildStmt(outer, g);
    assert r.Block? && BoundStmts(r.stmts, outer.stmts) && |r.stmts| == 2;
    var r0, r1 := r.stmts[0], r.stmts[1];
    assert BoundStmt(r0, b) && BoundStmt(r1, b);
    assert r0.Block? && |r0.stmts| == 1 && r1.Block? && |r1.stmts| == 1;
    assert DisjointStmts(r.stmts);
    assert BlockScope(r0.decls, r0.stmts) == r0.stmts[0].scope;
    assert BlockScope(r1.decls, r1.stmts) == r1.stmts[0].scope;
    assert r0.stmts[0].scope.value in StmtOpened(r0);
    assert r1.stmts[0].scope.value in StmtOpened(r1);
    distinct := r0.stmts[0].scope.value != r1.stmts[0].scope.value;
  }

  /**
   * `for (e; e; e) { return e; }`: the header scope of `ForStmt::BuildDecls`
   * and the scope the body's block opens are two different scopes, both
   * children of the loop's scope.
   */
  method ForHeaderDistinctFromBodyScope() returns (distinct: bool)
    ensures distinct
  {
    var g := NewGlobalScope();
    var e := Expr(None);
    var s := For(None, e, e, e, Block(None, [], [Return(None, e)]));
    var r := BuildStmt(s, g);
    assert r.For? && BoundStmt(r.body, s.body);
    assert r.body.Block? && BoundVars(r.body.decls, []) && BoundStmts(r.body.stmts, s.body.stmts);
    assert |r.body.stmts| == 1 && r.body.decls == [] && BoundStmt(r.body.stmts[0], s.body.stmts[0]);
    assert BlockScope(r.body.decls, r.body.stmts) == r.body.stmts[0].scope;
    assert r.body.stmts[0].scope.value in StmtOpened(r.body);
    assert r.init.scope.value in ScopeObjects(r.init.scope);
    distinct := r.init.scope.value != r.body.stmts[0].scope.value;
  }
}
