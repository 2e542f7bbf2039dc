/**
 * Which scope each node of a bound tree is in, for the whole tree: every scope
 * the pass opens is a child of the scope its node is bound in, owned by the
 * right declaration and holding exactly the names declared directly in it.
 * A scope the source keeps in a local variable (`blockScope`, `newScope`,
 * `forStepScope`) is read back from the children it was given to.
 */
module ScopeTree {
  import opened Wrappers
  import opened SymbolTable
  import opened Scopes
  import opened Ast

  /** The scope a block opened, as its first child records it; None for an empty block. */
  function BlockScope(ds: seq<VarDecl>, ss: seq<Stmt>): Option<Scope> {
    if |ds| > 0 then ds[0].scope else if |ss| > 0 then ss[0].scope else None
  }

  /** The scope a class or interface opened, as its first member records it. */
  function MembersScope(ms: seq<Decl>): Option<Scope> {
    if |ms| > 0 then ms[0].GetScope() else None
  }

  /** The scope a function opened, as its first formal or else its body records it. */
  function FunctionScope(fs: seq<VarDecl>, body: Option<Stmt>): Option<Scope> {
    if |fs| > 0 then fs[0].scope else if body.Some? then body.value.scope else None
  }

  /** A scope together with its table. */
  ghost function ScopeObjects(o: Option<Scope>): set<object> {
    if o.Some? then {o.value, o.value.symtab} else {}
  }

  /*
   * The scopes (and their tables) opened inside a node, not counting the scope
   * the node itself is bound in. The pass allocates all of them.
   */

  ghost function StmtOpened(r: Stmt): set<object>
    decreases r
  {
    match r
    case Block(_, ds, ss) => ScopeObjects(BlockScope(ds, ss)) + StmtsOpened(ss)
    case While(_, _, b) => StmtOpened(b)
    case If(_, _, tb, eb) => StmtOpened(tb) + OptStmtOpened(eb)
    case For(_, init, _, _, b) => ScopeObjects(init.scope) + StmtOpened(b)
    case Switch(_, _, cs, dc) => CasesOpened(cs) + OptCaseOpened(dc)
    case Return(_, _) => {}
    case Print(_, _) => {}
  }

  ghost function StmtsOpened(ss: seq<Stmt>): set<object>
    decreases ss
  {
    set i, o | 0 <= i < |ss| && o in StmtOpened(ss[i]) :: o
  }

  /** What statement `i` opens is among what the list opens (true whenever `i` is an index). */
  ghost predicate InStmts(ss: seq<Stmt>, i: int)
    requires 0 <= i < |ss|
  {
    StmtOpened(ss[i]) <= StmtsOpened(ss)
  }

  ghost function OptStmtOpened(s: Option<Stmt>): set<object>
    decreases s
  {
    match s
    case None => {}
    case Some(st) => StmtOpened(st)
  }

  ghost function CaseOpened(c: Case): set<object>
    decreases c
  {
    StmtsOpened(c.stmts)
  }

  ghost function CasesOpened(cs: seq<Case>): set<object>
    decreases cs
  {
    set i, o | 0 <= i < |cs| && o in CaseOpened(cs[i]) :: o
  }

  ghost predicate InCases(cs: seq<Case>, i: int)
    requires 0 <= i < |cs|
  {
    CaseOpened(cs[i]) <= CasesOpened(cs)
  }

  ghost function OptCaseOpened(c: Option<Case>): set<object>
    decreases c
  {
    match c
    case None => {}
    case Some(cc) => CaseOpened(cc)
  }

  ghost function DeclOpened(r: Decl): set<object>
    decreases r
  {
    match r
    case Variable(_) => {}
    case Class(_, _, _, ms) => ScopeObjects(MembersScope(ms)) + DeclsOpened(ms)
    case Interface(_, _, _, ms) => ScopeObjects(MembersScope(ms)) + DeclsOpened(ms)
    case Function(_, _, _, fs, b) => ScopeObjects(FunctionScope(fs, b)) + OptStmtOpened(b)
  }

  ghost function DeclsOpened(ds: seq<Decl>): set<object>
    decreases ds
  {
    set i, o | 0 <= i < |ds| && o in DeclOpened(ds[i]) :: o
  }

  /*
   * Siblings open different scopes: each `new Scope` of the pass is a
   * distinct object, so what one node opens shares nothing with what a
   * sibling opens.
   */

  ghost predicate DisjointStmts(ss: seq<Stmt>) {
    forall j, k :: 0 <= j < k < |ss| ==> StmtOpened(ss[j]) !! StmtOpened(ss[k])
  }

  ghost predicate DisjointCases(cs: seq<Case>) {
    forall j, k :: 0 <= j < k < |cs| ==> CaseOpened(cs[j]) !! CaseOpened(cs[k])
  }

  ghost predicate DisjointDecls(ds: seq<Decl>) {
    forall j, k :: 0 <= j < k < |ds| ==> DeclOpened(ds[j]) !! DeclOpened(ds[k])
  }

  /** `o` is a valid child of `cur` with owner `owner` whose table is exactly `t`. */
  ghost predicate Opens(o: Scope, cur: Scope, owner: Option<DeclId>, t: map<string, DeclId>)
    reads o, o.symtab
  {
    o.Valid() && o.parent == cur && o.GetDecl() == owner && o.symtab.tab == t
  }

  /**
   * `r` is bound in `cur`, and so is every node under it down to the next
   * scope it opens; each opened scope is a valid child of `cur` with the
   * owner and the table the pass gives it, and the nodes under it are bound
   * in it in the same way.
   *  - A block's locals and statements share one scope without an owner,
   *    holding the locals in order.
   *  - A for loop's init, test and step share one empty header scope; its
   *    body is bound in the loop's own scope and opens scopes other than it.
   *  - While, if, switch, case, return and print open no scope: their
   *    children are bound in `cur`.
   * Sibling statements, cases and branches open pairwise different scopes.
   */
  ghost predicate ScopedStmt(r: Stmt, cur: Scope)
    reads StmtOpened(r)
    decreases r
  {
    r.scope == Some(cur) &&
    match r
    case Block(_, ds, ss) =>
      var b := BlockScope(ds, ss);
      b.Some? ==>
        Opens(b.value, cur, None, AddAll(map[], VarEntries(ds))) &&
        (forall i :: 0 <= i < |ds| ==> ds[i].scope == b) &&
        (forall i :: 0 <= i < |ss| ==> InStmts(ss, i) && ScopedStmt(ss[i], b.value)) &&
        DisjointStmts(ss)
    case While(_, t, b) => t.scope == Some(cur) && ScopedStmt(b, cur)
    case If(_, t, tb, eb) =>
      t.scope == Some(cur) && ScopedStmt(tb, cur) && ScopedOptStmt(eb, cur) &&
      StmtOpened(tb) !! OptStmtOpened(eb)
    case For(_, init, t, st, b) =>
      init.scope.Some? && Opens(init.scope.value, cur, None, map[]) &&
      t.scope == init.scope && st.scope == init.scope && ScopedStmt(b, cur) &&
      ScopeObjects(init.scope) !! StmtOpened(b)
    case Switch(_, t, cs, dc) =>
      t.scope == Some(cur) && (forall i :: 0 <= i < |cs| ==> InCases(cs, i) && ScopedCase(cs[i], cur)) &&
      ScopedOptCase(dc, cur) && DisjointCases(cs) &&
      (forall i :: 0 <= i < |cs| ==> CaseOpened(cs[i]) !! OptCaseOpened(dc))
    case Return(_, e) => e.scope == Some(cur)
    case Print(_, args) => forall i :: 0 <= i < |args| ==> args[i].scope == Some(cur)
  }

  ghost predicate ScopedOptStmt(s: Option<Stmt>, cur: Scope)
    reads OptStmtOpened(s)
    decreases s
  {
    match s
    case None => true
    case Some(st) => ScopedStmt(st, cur)
  }

  /** A case, its label and its statements are bound in `cur`. */
  ghost predicate ScopedCase(c: Case, cur: Scope)
    reads CaseOpened(c)
    decreases c
  {
    c.scope == Some(cur) && c.test.scope == Some(cur) &&
    (forall i :: 0 <= i < |c.stmts| ==> InStmts(c.stmts, i) && ScopedStmt(c.stmts[i], cur)) &&
    DisjointStmts(c.stmts)
  }

  ghost predicate ScopedOptCase(c: Option<Case>, cur: Scope)
    reads OptCaseOpened(c)
    decreases c
  {
    match c
    case None => true
    case Some(cc) => ScopedCase(cc, cur)
  }

  /**
   * `r` is bound in `cur`. A class or an interface opens one scope owned by
   * it, holding its members' names in order, in which every member is bound;
   * a function opens one scope owned by it, in which its formals and its body
   * are bound but which holds no name.
   */
  ghost predicate ScopedDecl(r: Decl, cur: Scope)
    reads DeclOpened(r)
    decreases r
  {
    r.GetScope() == Some(cur) &&
    match r
    case Variable(_) => true
    case Class(_, id, _, ms) => ScopedMembers(ms, cur, id)
    case Interface(_, id, _, ms) => ScopedMembers(ms, cur, id)
    case Function(_, id, _, fs, b) =>
      var f := FunctionScope(fs, b);
      f.Some? ==>
        Opens(f.value, cur, Some(id), map[]) &&
        (forall i :: 0 <= i < |fs| ==> fs[i].scope == f) &&
        ScopedOptStmt(b, f.value)
  }

  ghost predicate ScopedMembers(ms: seq<Decl>, cur: Scope, owner: DeclId)
    reads ScopeObjects(MembersScope(ms)) + DeclsOpened(ms)
    decreases ms
  {
    var m := MembersScope(ms);
    m.Some? ==>
      Opens(m.value, cur, Some(owner), AddAll(map[], DeclEntries(ms))) &&
      (forall i :: 0 <= i < |ms| ==> ScopedDecl(ms[i], m.value)) &&
      DisjointDecls(ms)
  }
}
