/**
 * The declaration-binding pass, `BuildDecls`, once per node kind
 * (pp3/ast_decl.cc, pp3/ast_stmt.cc). Each method receives `cur`, the scope
 * the node is bound in: the one its parent gave it with `SetScope`, or, where
 * the parent gave none, its nearest ancestor's (that is what `GetScope` is
 * taken to return). It returns the node with its scope and its children's
 * scopes filled in. The frames say which tables may change: a declaration
 * may change only the table of the scope it is declared in; a statement may
 * change no table that existed before it was processed.
 */
module Binder {
  import opened Wrappers
  import opened SymbolTable
  import opened Scopes
  import opened Ast
  import opened ScopeTree

  /** An expression bound in `s`; expressions enter nothing in any table. */
  function BindExpr(e: Expr, s: Scope): Expr {
    e.(scope := Some(s))
  }

  /**
   * Lookup from a scope whose own table holds exactly the entries `es`, added
   * in order: a name with an entry resolves to its last entry, whatever the
   * enclosing scopes bind; any other name resolves as it does from the parent.
   */
  lemma OpenedScopeLookup(inner: Scope, es: seq<Entry>)
    requires inner.Valid() && inner.parent != null
    requires inner.symtab.tab == AddAll(map[], es)
    ensures forall n, i :: LastFor(es, n, i) ==> Resolve(inner, n) == Some(es[i].1)
    ensures forall n :: (forall i :: 0 <= i < |es| ==> es[i].0 != n) ==>
              Resolve(inner, n) == Resolve(inner.parent, n)
  {
    forall n, i | LastFor(es, n, i) ensures Resolve(inner, n) == Some(es[i].1) {
      AddAllLookup(map[], es, n);
    }
    forall n | forall i :: 0 <= i < |es| ==> es[i].0 != n
      ensures Resolve(inner, n) == Resolve(inner.parent, n)
    {
      AddAllLookup(map[], es, n);
    }
  }

  // Declarations (pp3/ast_decl.cc)

  /** `VarDecl::BuildDecls`: the variable names itself in the scope it is bound in. */
  method BuildVarDecl(v: VarDecl, cur: Scope) returns (r: VarDecl)
    requires cur.Valid()
    modifies cur.symtab
    ensures cur.symtab.tab == old(cur.symtab.tab)[v.name := v.id]
    ensures Resolve(cur, v.name) == Some(v.id)
    ensures r == v.(scope := Some(cur))
  {
    cur.AddSym(v.name, v.id);
    r := v.(scope := Some(cur));
  }

  /** Binds each declaration of `ds` in scope `s`, first to last. */
  method BuildDeclList(ds: seq<Decl>, s: Scope) returns (rs: seq<Decl>)
    requires s.Valid()
    modifies s.symtab
    decreases ds, 2
    ensures s.symtab.tab == AddAll(old(s.symtab.tab), DeclEntries(ds))
    ensures BoundDecls(rs, ds)
    ensures forall i :: 0 <= i < |rs| ==> ScopedDecl(rs[i], s)
    ensures fresh(DeclsOpened(rs)) && allocated(DeclsOpened(rs))
    ensures DisjointDecls(rs)
  {
    rs := [];
    for i := 0 to |ds|
      invariant s.symtab.tab == AddAll(old(s.symtab.tab), DeclEntries(ds[..i]))
      invariant |rs| == i
      invariant forall j :: 0 <= j < i ==> BoundDecl(rs[j], ds[j]) && ScopedDecl(rs[j], s)
      invariant forall j :: 0 <= j < i ==> fresh(DeclOpened(rs[j])) && allocated(DeclOpened(rs[j]))
      invariant DisjointDecls(rs)
    {
      var r := BuildDecl(ds[i], s);
      forall j | 0 <= j < i ensures DeclOpened(rs[j]) !! DeclOpened(r) {
        assert allocated(DeclOpened(rs[j]));
      }
      assert DeclEntries(ds[..i + 1])[..i] == DeclEntries(ds[..i]);
      rs := rs + [r];
    }
    assert ds[..|ds|] == ds;
  }

  /**
   * `ClassDecl::BuildDecls`: the class names itself in the enclosing scope,
   * then opens one scope owned by the class, in which every member is bound
   * and named; of two members with the same name the later one is kept.
   */
  method BuildClass(d: Decl, cur: Scope) returns (r: Decl, inner: Scope)
    requires d.Class? && cur.Valid()
    modifies cur.symtab
    decreases d, 0
    ensures cur.symtab.tab == old(cur.symtab.tab)[d.name := d.id]
    ensures fresh(inner) && fresh(inner.symtab) && inner.Valid()
    ensures inner.parent == cur && inner.GetDecl() == Some(d.id)
    ensures inner.symtab.tab == AddAll(map[], DeclEntries(d.members))
    ensures forall n, i :: LastFor(DeclEntries(d.members), n, i) ==> Resolve(inner, n) == Some(d.members[i].Id())
    ensures forall n :: (forall i :: 0 <= i < |d.members| ==> d.members[i].GetName() != n) ==>
              Resolve(inner, n) == Resolve(cur, n)
    ensures r.Class? && r.scope == Some(cur) && BoundDecl(r, d)
    ensures forall i :: 0 <= i < |r.members| ==> r.members[i].GetScope() == Some(inner)
    ensures ScopedDecl(r, cur) && fresh(DeclOpened(r)) && allocated(DeclOpened(r))
  {
    cur.AddSym(d.name, d.id);
    inner := new Scope(cur);
    inner.SetDecl(d.id);
    var ms := BuildDeclList(d.members, inner);
    OpenedScopeLookup(inner, DeclEntries(d.members));
    assert DeclEntries(ms) == DeclEntries(d.members);
    r := Class(Some(cur), d.id, d.name, ms);
  }

  /** `InterfaceDecl::BuildDecls`: the same steps as for a class. */
  method BuildInterface(d: Decl, cur: Scope) returns (r: Decl, inner: Scope)
    requires d.Interface? && cur.Valid()
    modifies cur.symtab
    decreases d, 0
    ensures cur.symtab.tab == old(cur.symtab.tab)[d.name := d.id]
    ensures fresh(inner) && fresh(inner.symtab) && inner.Valid()
    ensures inner.parent == cur && inner.GetDecl() == Some(d.id)
    ensures inner.symtab.tab == AddAll(map[], DeclEntries(d.members))
    ensures forall n, i :: LastFor(DeclEntries(d.members), n, i) ==> Resolve(inner, n) == Some(d.members[i].Id())
    ensures forall n :: (forall i :: 0 <= i < |d.members| ==> d.members[i].GetName() != n) ==>
              Resolve(inner, n) == Resolve(cur, n)
    ensures r.Interface? && r.scope == Some(cur) && BoundDecl(r, d)
    ensures forall i :: 0 <= i < |r.members| ==> r.members[i].GetScope() == Some(inner)
    ensures ScopedDecl(r, cur) && fresh(DeclOpened(r)) && allocated(DeclOpened(r))
  {
    cur.AddSym(d.name, d.id);
    inner := new Scope(cur);
    inner.SetDecl(d.id);
    var ms := BuildDeclList(d.members, inner);
    OpenedScopeLookup(inner, DeclEntries(d.members));
    assert DeclEntries(ms) == DeclEntries(d.members);
    r := Interface(Some(cur), d.id, d.name, ms);
  }

  /**
   * `FnDecl::BuildDecls`: the function names itself in the enclosing scope and
   * opens one scope owned by the function. The formals and the body are bound
   * in it, but no formal is entered in its table, so a lookup from the
   * function's scope sees exactly what the enclosing scope sees.
   */
  method BuildFunction(d: Decl, cur: Scope) returns (r: Decl, inner: Scope)
    requires d.Function? && cur.Valid()
    modifies cur.symtab
    ensures cur.symtab.tab == old(cur.symtab.tab)[d.name := d.id]
    ensures fresh(inner) && fresh(inner.symtab) && inner.Valid()
    ensures inner.parent == cur && inner.GetDecl() == Some(d.id)
    ensures inner.symtab.tab == map[]
    ensures forall n :: Resolve(inner, n) == Resolve(cur, n)
    ensures r.Function? && r.scope == Some(cur) && BoundDecl(r, d)
    ensures forall i :: 0 <= i < |r.formals| ==> r.formals[i] == d.formals[i].(scope := Some(inner))
    ensures r.body.Some? ==> r.body.value.scope == Some(inner)
    ensures ScopedDecl(r, cur) && fresh(DeclOpened(r)) && allocated(DeclOpened(r))
  {
    cur.AddSym(d.name, d.id);
    inner := new Scope(cur);
    inner.SetDecl(d.id);
    var fs: seq<VarDecl> := [];
    for i := 0 to |d.formals|
      invariant |fs| == i
      invariant forall j :: 0 <= j < i ==> fs[j] == d.formals[j].(scope := Some(inner))
    {
      fs := fs + [d.formals[i].(scope := Some(inner))];
    }
    var body: Option<Stmt> := None;
    if d.body.Some? {
      var b := BuildStmt(d.body.value, inner);
      body := Some(b);
    }
    r := Function(Some(cur), d.id, d.name, fs, body);
  }

  /** `Decl::BuildDecls`, dispatched on the kind of declaration. */
  method BuildDecl(d: Decl, cur: Scope) returns (r: Decl)
    requires cur.Valid()
    modifies cur.symtab
    decreases d, 1
    ensures cur.symtab.tab == old(cur.symtab.tab)[d.GetName() := d.Id()]
    ensures BoundDecl(r, d) && ScopedDecl(r, cur) && fresh(DeclOpened(r)) && allocated(DeclOpened(r))
  {
    match d
    case Variable(v) =>
      var rv := BuildVarDecl(v, cur);
      r := Variable(rv);
    case Class(_, _, _, _) =>
      var inner;
      r, inner := BuildClass(d, cur);
    case Interface(_, _, _, _) =>
      var inner;
      r, inner := BuildInterface(d, cur);
    case Function(_, _, _, _, _) =>
      var inner;
      r, inner := BuildFunction(d, cur);
  }

  // Statements (pp3/ast_stmt.cc)

  /**
   * `Program::BuildDecls`: the program is bound in the global scope, and so is
   * every top-level declaration, which names itself there, in source order.
   */
  method BuildProgram(p: Program, global: Scope) returns (r: Program)
    requires global.Valid() && global.IsGlobal()
    modifies global.symtab
    ensures global.symtab.tab == AddAll(old(global.symtab.tab), DeclEntries(p.decls))
    ensures BoundProgram(r, p) && r.scope == Some(global)
    ensures forall i :: 0 <= i < |r.decls| ==> ScopedDecl(r.decls[i], global)
    ensures DisjointDecls(r.decls)
    ensures fresh(DeclsOpened(r.decls)) && allocated(DeclsOpened(r.decls))
  {
    var ds := BuildDeclList(p.decls, global);
    r := Program(Some(global), ds);
  }

  /**
   * `StmtBlock::BuildDecls`: opens one scope whose parent is the block's scope;
   * each local variable is bound and named there, never in the enclosing
   * scope; then every statement is bound in it, in order.
   */
  method BuildBlock(s: Stmt, cur: Scope) returns (r: Stmt, inner: Scope)
    requires s.Block? && cur.Valid()
    decreases s, 0
    ensures fresh(inner) && fresh(inner.symtab) && inner.Valid()
    ensures inner.parent == cur && inner.GetDecl() == None
    ensures inner.symtab.tab == AddAll(map[], VarEntries(s.decls))
    ensures forall n, i :: LastFor(VarEntries(s.decls), n, i) ==> Resolve(inner, n) == Some(s.decls[i].id)
    ensures forall n :: (forall i :: 0 <= i < |s.decls| ==> s.decls[i].name != n) ==>
              Resolve(inner, n) == Resolve(cur, n)
    ensures r.Block? && r.scope == Some(cur) && BoundStmt(r, s)
    ensures forall i :: 0 <= i < |r.decls| ==> r.decls[i] == s.decls[i].(scope := Some(inner))
    ensures forall i :: 0 <= i < |r.stmts| ==> r.stmts[i].scope == Some(inner)
    ensures ScopedStmt(r, cur) && fresh(StmtOpened(r)) && allocated(StmtOpened(r))
  {
    inner := new Scope(cur);
    var ds: seq<VarDecl> := [];
    for i := 0 to |s.decls|
      invariant inner.symtab.tab == AddAll(map[], VarEntries(s.decls[..i]))
      invariant inner.GetDecl() == None
      invariant |ds| == i
      invariant forall j :: 0 <= j < i ==> ds[j] == s.decls[j].(scope := Some(inner))
    {
      var v := BuildVarDecl(s.decls[i], inner);
      assert VarEntries(s.decls[..i + 1])[..i] == VarEntries(s.decls[..i]);
      ds := ds + [v];
    }
    assert s.decls[..|s.decls|] == s.decls;
    var ss := BuildStmtList(s.stmts, inner);
    OpenedScopeLookup(inner, VarEntries(s.decls));
    assert VarEntries(ds) == VarEntries(s.decls);
    r := Block(Some(cur), ds, ss);
  }

  /**
   * Binds each statement of `ss` in scope `s`, first to last, as the loops of
   * `StmtBlock::BuildDecls` and `SwitchCase::BuildDecls` do; each opens its
   * own new scopes, shared with no sibling.
   */
  method BuildStmtList(ss: seq<Stmt>, s: Scope) returns (rs: seq<Stmt>)
    requires s.Valid()
    decreases ss, 2
    ensures BoundStmts(rs, ss)
    ensures forall i :: 0 <= i < |rs| ==> ScopedStmt(rs[i], s)
    ensures forall i :: 0 <= i < |rs| ==> fresh(StmtOpened(rs[i])) && allocated(StmtOpened(rs[i]))
    ensures DisjointStmts(rs)
  {
    rs := [];
    for i := 0 to |ss|
      invariant |rs| == i
      invariant forall j :: 0 <= j < i ==> BoundStmt(rs[j], ss[j]) && ScopedStmt(rs[j], s)
      invariant forall j :: 0 <= j < i ==> fresh(StmtOpened(rs[j])) && allocated(StmtOpened(rs[j]))
      invariant DisjointStmts(rs)
    {
      var st := BuildStmt(ss[i], s);
      forall j | 0 <= j < i ensures StmtOpened(rs[j]) !! StmtOpened(st) {
        assert allocated(StmtOpened(rs[j]));
      }
      rs := rs + [st];
    }
  }

  /** `ConditionalStmt::BuildDecls` for a while loop: test, then body, in the loop's own scope. */
  method BuildWhile(s: Stmt, cur: Scope) returns (r: Stmt)
    requires s.While? && cur.Valid()
    decreases s, 0
    ensures r.While? && r.scope == Some(cur) && BoundStmt(r, s)
    ensures r.test.scope == Some(cur) && r.body.scope == Some(cur)
    ensures ScopedStmt(r, cur) && fresh(StmtOpened(r)) && allocated(StmtOpened(r))
  {
    var test := BindExpr(s.test, cur);
    var body := BuildStmt(s.body, cur);
    r := While(Some(cur), test, body);
  }

  /**
   * `ForStmt::BuildDecls`: opens one header scope, child of the loop's scope,
   * shared by init, test and step. The body is given no scope, so it is bound
   * in the loop's own scope, not in the header scope.
   */
  method BuildFor(s: Stmt, cur: Scope) returns (r: Stmt, header: Scope)
    requires s.For? && cur.Valid()
    decreases s, 0
    ensures fresh(header) && fresh(header.symtab) && header.Valid()
    ensures header.parent == cur && header.GetDecl() == None && header.symtab.tab == map[]
    ensures r.For? && r.scope == Some(cur) && BoundStmt(r, s)
    ensures r.init.scope == Some(header) && r.test.scope == Some(header) && r.step.scope == Some(header)
    ensures r.body.scope == Some(cur)
    ensures ScopedStmt(r, cur) && fresh(StmtOpened(r)) && allocated(StmtOpened(r))
  {
    header := new Scope(cur);
    var init := BindExpr(s.init, header);
    var test := BindExpr(s.test, header);
    var step := BindExpr(s.step, header);
    var body := BuildStmt(s.body, cur);
    r := For(Some(cur), init, test, step, body);
  }

  /** `IfStmt::BuildDecls`: test, then-branch and, when there is one, else-branch, all in the if's scope. */
  method BuildIf(s: Stmt, cur: Scope) returns (r: Stmt)
    requires s.If? && cur.Valid()
    decreases s, 0
    ensures r.If? && r.scope == Some(cur) && BoundStmt(r, s)
    ensures r.test.scope == Some(cur) && r.thenBody.scope == Some(cur)
    ensures r.elseBody.Some? ==> r.elseBody.value.scope == Some(cur)
    ensures ScopedStmt(r, cur) && fresh(StmtOpened(r)) && allocated(StmtOpened(r))
  {
    var test := BindExpr(s.test, cur);
    var thenBody := BuildStmt(s.thenBody, cur);
    var elseBody: Option<Stmt> := None;
    if s.elseBody.Some? {
      var e := BuildStmt(s.elseBody.value, cur);
      assert allocated(StmtOpened(thenBody));
      elseBody := Some(e);
    }
    r := If(Some(cur), test, thenBody, elseBody);
  }

  /** `SwitchCase::BuildDecls`: the case label, then each statement, in the case's scope. */
  method BuildCase(c: Case, cur: Scope) returns (r: Case)
    requires cur.Valid()
    decreases c, 0
    ensures BoundCase(r, c) && r.scope == Some(cur) && r.test.scope == Some(cur)
    ensures forall i :: 0 <= i < |r.stmts| ==> r.stmts[i].scope == Some(cur)
    ensures ScopedCase(r, cur) && fresh(CaseOpened(r)) && allocated(CaseOpened(r))
  {
    var test := BindExpr(c.test, cur);
    var ss := BuildStmtList(c.stmts, cur);
    r := Case(Some(cur), test, ss, c.isDefault);
  }

  /**
   * `SwitchStmt::BuildDecls`: the subject, then each case in order, then the
   * default case if there is one; neither the switch nor a case opens a scope.
   */
  method BuildSwitch(s: Stmt, cur: Scope) returns (r: Stmt)
    requires s.Switch? && cur.Valid()
    decreases s, 0
    ensures r.Switch? && r.scope == Some(cur) && BoundStmt(r, s)
    ensures r.test.scope == Some(cur)
    ensures forall i :: 0 <= i < |r.cases| ==> r.cases[i].scope == Some(cur)
    ensures r.defaultCase.Some? ==> r.defaultCase.value.scope == Some(cur)
    ensures ScopedStmt(r, cur) && fresh(StmtOpened(r)) && allocated(StmtOpened(r))
  {
    var test := BindExpr(s.test, cur);
    var cs: seq<Case> := [];
    for i := 0 to |s.cases|
      invariant |cs| == i
      invariant forall j :: 0 <= j < i ==> BoundCase(cs[j], s.cases[j]) && ScopedCase(cs[j], cur)
      invariant forall j :: 0 <= j < i ==> fresh(CaseOpened(cs[j])) && allocated(CaseOpened(cs[j]))
      invariant DisjointCases(cs)
    {
      var c := BuildCase(s.cases[i], cur);
      forall j | 0 <= j < i ensures CaseOpened(cs[j]) !! CaseOpened(c) {
        assert allocated(CaseOpened(cs[j]));
      }
      cs := cs + [c];
    }
    var dc: Option<Case> := None;
    if s.defaultCase.Some? {
      var c := BuildCase(s.defaultCase.value, cur);
      forall j | 0 <= j < |cs| ensures CaseOpened(cs[j]) !! CaseOpened(c) {
        assert allocated(CaseOpened(cs[j]));
      }
      dc := Some(c);
    }
    r := Switch(Some(cur), test, cs, dc);
  }

  /** `ReturnStmt::BuildDecls`: the returned expression, in the statement's scope. */
  method BuildReturn(s: Stmt, cur: Scope) returns (r: Stmt)
    requires s.Return? && cur.Valid()
    ensures r.Return? && r.scope == Some(cur) && r.expr.scope == Some(cur) && BoundStmt(r, s)
    ensures ScopedStmt(r, cur)
  {
    r := Return(Some(cur), BindExpr(s.expr, cur));
  }

  /** `PrintStmt::BuildDecls`: each argument in order, in the statement's scope. */
  method BuildPrint(s: Stmt, cur: Scope) returns (r: Stmt)
    requires s.Print? && cur.Valid()
    ensures r.Print? && r.scope == Some(cur) && BoundStmt(r, s)
    ensures forall i :: 0 <= i < |r.args| ==> r.args[i].scope == Some(cur)
    ensures ScopedStmt(r, cur)
  {
    var args: seq<Expr> := [];
    for i := 0 to |s.args|
      invariant |args| == i
      invariant forall j :: 0 <= j < i ==> args[j].scope == Some(cur)
    {
      args := args + [BindExpr(s.args[i], cur)];
    }
    r := Print(Some(cur), args);
  }

  /** `Stmt::BuildDecls`, dispatched on the kind of statement. */
  method BuildStmt(s: Stmt, cur: Scope) returns (r: Stmt)
    requires cur.Valid()
    decreases s, 1
    ensures BoundStmt(r, s) && ScopedStmt(r, cur) && fresh(StmtOpened(r)) && allocated(StmtOpened(r))
  {
    match s
    case Block(_, _, _) =>
      var inner;
      r, inner := BuildBlock(s, cur);
    case While(_, _, _) =>
      r := BuildWhile(s, cur);
    case If(_, _, _, _) =>
      r := BuildIf(s, cur);
    case For(_, _, _, _, _) =>
      var inner;
      r, inner := BuildFor(s, cur);
    case Switch(_, _, _, _) =>
      r := BuildSwitch(s, cur);
    case Return(_, _) =>
      r := BuildReturn(s, cur);
    case Print(_, _) =>
      r := BuildPrint(s, cur);
  }
}
