/**
 * The syntax tree the binding pass walks (the declaration and statement node
 * classes of pp3/ast_decl.cc and pp3/ast_stmt.cc). Every node carries the
 * scope `Node::SetScope` gives it; the parser hands over a tree in which the
 * pass has not yet set them. A `Decl*` pointer is the declaration's `id`.
 */
module Ast {
  import opened Wrappers
  import opened SymbolTable
  import opened Scopes

  /** An expression. Its own pass is not part of this model; only its scope is kept. */
  datatype Expr = Expr(scope: Option<Scope>)

  datatype VarDecl = VarDecl(scope: Option<Scope>, id: DeclId, name: string)

  datatype Decl =
    | Variable(v: VarDecl)
    | Class(scope: Option<Scope>, id: DeclId, name: string, members: seq<Decl>)
    | Interface(scope: Option<Scope>, id: DeclId, name: string, members: seq<Decl>)
    /** `body` is None until `SetFunctionBody` has been called (a prototype). */
    | Function(scope: Option<Scope>, id: DeclId, name: string, formals: seq<VarDecl>, body: Option<Stmt>)
  {
    function Id(): DeclId {
      if Variable? then v.id else id
    }

    function GetName(): string {
      if Variable? then v.name else name
    }

    function GetScope(): Option<Scope> {
      if Variable? then v.scope else scope
    }
  }

  datatype Stmt =
    | Block(scope: Option<Scope>, decls: seq<VarDecl>, stmts: seq<Stmt>)
    | While(scope: Option<Scope>, test: Expr, body: Stmt)
    | If(scope: Option<Scope>, test: Expr, thenBody: Stmt, elseBody: Option<Stmt>)
    | For(scope: Option<Scope>, init: Expr, test: Expr, step: Expr, body: Stmt)
    | Switch(scope: Option<Scope>, test: Expr, cases: seq<Case>, defaultCase: Option<Case>)
    | Return(scope: Option<Scope>, expr: Expr)
    | Print(scope: Option<Scope>, args: seq<Expr>)

  datatype Case = Case(scope: Option<Scope>, test: Expr, stmts: seq<Stmt>, isDefault: bool)

  datatype Program = Program(scope: Option<Scope>, decls: seq<Decl>)

  /*
   * `r` is `s` with a scope attached to every node: the same tree, the same
   * names and identities, and no node left without a scope.
   */

  predicate BoundExpr(r: Expr, s: Expr) {
    r.scope.Some?
  }

  predicate BoundExprs(rs: seq<Expr>, ss: seq<Expr>) {
    |rs| == |ss| && forall i :: 0 <= i < |ss| ==> BoundExpr(rs[i], ss[i])
  }

  predicate BoundVar(r: VarDecl, s: VarDecl) {
    r.scope.Some? && r.id == s.id && r.name == s.name
  }

  predicate BoundVars(rs: seq<VarDecl>, ss: seq<VarDecl>) {
    |rs| == |ss| && forall i :: 0 <= i < |ss| ==> BoundVar(rs[i], ss[i])
  }

  predicate BoundDecl(r: Decl, s: Decl)
    decreases s
  {
    match s
    case Variable(v) => r.Variable? && BoundVar(r.v, v)
    case Class(_, id, name, ms) =>
      r.Class? && r.scope.Some? && r.id == id && r.name == name && BoundDecls(r.members, ms)
    case Interface(_, id, name, ms) =>
      r.Interface? && r.scope.Some? && r.id == id && r.name == name && BoundDecls(r.members, ms)
    case Function(_, id, name, fs, b) =>
      r.Function? && r.scope.Some? && r.id == id && r.name == name &&
      BoundVars(r.formals, fs) && BoundOptStmt(r.body, b)
  }

  predicate BoundDecls(rs: seq<Decl>, ss: seq<Decl>)
    decreases ss
  {
    |rs| == |ss| && forall i :: 0 <= i < |ss| ==> BoundDecl(rs[i], ss[i])
  }

  predicate BoundStmt(r: Stmt, s: Stmt)
    decreases s
  {
    r.scope.Some? &&
    match s
    case Block(_, ds, ss) => r.Block? && BoundVars(r.decls, ds) && BoundStmts(r.stmts, ss)
    case While(_, t, b) => r.While? && BoundExpr(r.test, t) && BoundStmt(r.body, b)
    case If(_, t, tb, eb) =>
      r.If? && BoundExpr(r.test, t) && BoundStmt(r.thenBody, tb) && BoundOptStmt(r.elseBody, eb)
    case For(_, i, t, st, b) =>
      r.For? && BoundExpr(r.init, i) && BoundExpr(r.test, t) && BoundExpr(r.step, st) &&
      BoundStmt(r.body, b)
    case Switch(_, t, cs, dc) =>
      r.Switch? && BoundExpr(r.test, t) && BoundCases(r.cases, cs) &&
      (dc.None? <==> r.defaultCase.None?) &&
      (dc.Some? && r.defaultCase.Some? ==> BoundCase(r.defaultCase.value, dc.value))
    case Return(_, e) => r.Return? && BoundExpr(r.expr, e)
    case Print(_, args) => r.Print? && BoundExprs(r.args, args)
  }

  predicate BoundOptStmt(r: Option<Stmt>, s: Option<Stmt>)
    decreases s
  {
    (s.None? <==> r.None?) && (s.Some? && r.Some? ==> BoundStmt(r.value, s.value))
  }

  predicate BoundStmts(rs: seq<Stmt>, ss: seq<Stmt>)
    decreases ss
  {
    |rs| == |ss| && forall i :: 0 <= i < |ss| ==> BoundStmt(rs[i], ss[i])
  }

  predicate BoundCase(r: Case, s: Case)
    decreases s
  {
    r.scope.Some? && r.isDefault == s.isDefault && BoundExpr(r.test, s.test) &&
    BoundStmts(r.stmts, s.stmts)
  }

  predicate BoundCases(rs: seq<Case>, ss: seq<Case>)
    decreases ss
  {
    |rs| == |ss| && forall i :: 0 <= i < |ss| ==> BoundCase(rs[i], ss[i])
  }

  predicate BoundProgram(r: Program, s: Program) {
    r.scope.Some? && BoundDecls(r.decls, s.decls)
  }

  /** A table binding: a name and the declaration it denotes. */
  type Entry = (string, DeclId)

  function DeclEntries(ds: seq<Decl>): seq<Entry> {
    seq(|ds|, i requires 0 <= i < |ds| => (ds[i].GetName(), ds[i].Id()))
  }

  function VarEntries(vs: seq<VarDecl>): seq<Entry> {
    seq(|vs|, i requires 0 <= i < |vs| => (vs[i].name, vs[i].id))
  }

  /** Table `t` after `SymTab::Add` of each entry of `es`, first to last. */
  function AddAll(t: map<string, DeclId>, es: seq<Entry>): map<string, DeclId>
    decreases |es|
  {
    if es == [] then t else AddAll(t, es[..|es| - 1])[es[|es| - 1].0 := es[|es| - 1].1]
  }

  /** Entry `i` is the last one of `es` for `name`. */
  predicate LastFor(es: seq<Entry>, name: string, i: int) {
    0 <= i < |es| && es[i].0 == name && forall j :: i < j < |es| ==> es[j].0 != name
  }

  /**
   * After adding `es` in order, a name is bound exactly when it was bound
   * before or some entry names it; the last entry for a name wins, and a
   * name no entry mentions keeps its old binding.
   */
  lemma {:induction false} AddAllLookup(t: map<string, DeclId>, es: seq<Entry>, name: string)
    ensures name in AddAll(t, es) <==> name in t || exists i :: 0 <= i < |es| && es[i].0 == name
    ensures forall i :: LastFor(es, name, i) ==>
              name in AddAll(t, es) && AddAll(t, es)[name] == es[i].1
    ensures (forall i :: 0 <= i < |es| ==> es[i].0 != name) && name in t ==>
              name in AddAll(t, es) && AddAll(t, es)[name] == t[name]
    decreases |es|
  {
    if es != [] {
      var init, last := es[..|es| - 1], es[|es| - 1];
      AddAllLookup(t, init, name);
      if exists i :: 0 <= i < |es| && es[i].0 == name {
        var i :| 0 <= i < |es| && es[i].0 == name;
        if last.0 != name {
          assert init[i] == es[i];
        }
      }
      forall i | LastFor(es, name, i)
        ensures name in AddAll(t, es) && AddAll(t, es)[name] == es[i].1
      {
        if i < |es| - 1 {
          assert es[|es| - 1].0 != name;
          assert init[i] == es[i];
          assert LastFor(init, name, i);
        }
      }
      if exists i :: 0 <= i < |init| && init[i].0 == name {
        var i :| 0 <= i < |init| && init[i].0 == name;
        assert es[i] == init[i];
      }
    }
  }
}
