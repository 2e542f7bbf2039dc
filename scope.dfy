/**
 * Lexical scopes (pp3/scope.h, pp3/scope.cc). A scope has a parent fixed at
 * construction, an optional owning declaration and its own symbol table.
 * Lookup walks outward along the parent chain; the nearest binding wins.
 */
module Scopes {
  import opened Wrappers
  import opened SymbolTable

  class Scope {
    /** The enclosing scope; null only for a root such as the global scope. */
    const parent: Scope?
    /** The class, interface or function that owns this scope, once set. */
    var decl: Option<DeclId>
    /** This scope's own table, allocated by the constructor and never shared. */
    const symtab: SymTab

    /** Distance to the root of the parent chain; it proves that lookup ends. */
    ghost const depth: nat
    /** The tables of this scope and all of its ancestors. */
    ghost const tables: set<SymTab>

    /**
     * Every parent is strictly closer to the root, and every scope on a chain
     * owns a table of its own. Reads only constant fields, so once a
     * constructor establishes it, it holds for the lifetime of the object.
     */
    ghost predicate Valid()
      decreases depth
    {
      symtab in tables &&
      if parent == null then
        depth == 0 && tables == {symtab}
      else
        parent.depth < depth && symtab !in parent.tables &&
        tables == parent.tables + {symtab} && parent.Valid()
    }

    /** `new Scope(p)`: parent `p`, a fresh empty table, no owning declaration yet. */
    constructor (p: Scope?)
      requires p != null ==> p.Valid()
      ensures Valid() && parent == p && decl == None
      ensures fresh(symtab) && symtab.tab == map[]
      ensures IsGlobal() <==> p == null
    {
      var t := new SymTab();
      parent := p;
      decl := None;
      symtab := t;
      depth := if p == null then 0 else p.depth + 1;
      tables := if p == null then {t} else p.tables + {t};
    }

    /** The scope has no parent: it is a root, like the global scope. */
    predicate IsGlobal()
      ensures IsGlobal() <==> parent == null
    {
      parent == null
    }

    /** The owning declaration given by the last `SetDecl`, if any. */
    function GetDecl(): (d: Option<DeclId>)
      reads this
      ensures d == decl
    {
      decl
    }

    method SetDecl(d: DeclId)
      modifies this
      ensures GetDecl() == Some(d)
    {
      decl := Some(d);
    }

    /**
     * Enters `name` in this scope's own table. No other table changes, so a
     * lookup starting at the parent sees exactly what it saw before, while a
     * lookup starting here now finds `d` for `name`, whatever the ancestors bind.
     */
    method AddSym(name: string, d: DeclId)
      requires Valid()
      modifies symtab
      ensures symtab.tab == old(symtab.tab)[name := d]
      ensures Resolve(this, name) == Some(d)
      ensures forall n :: n != name ==> Resolve(this, n) == old(Resolve(this, n))
      ensures parent != null ==> forall n :: Resolve(parent, n) == old(Resolve(parent, n))
    {
      symtab.Add(name, d);
    }

    /**
     * Looks `name` up in this scope, then in each ancestor in turn, and
     * returns the first binding found, or None when no scope on the chain
     * binds it. Each table is consulted with `Find`.
     */
    method FindSym(name: string) returns (d: Option<DeclId>)
      requires Valid()
      ensures d == Resolve(this, name)
    {
      var cur: Scope? := this;
      while cur != null
        invariant cur != null ==> cur.Valid() && Resolve(cur, name) == Resolve(this, name)
        invariant cur == null ==> Resolve(this, name) == None
        decreases if cur == null then 0 else cur.depth + 1
      {
        d := cur.symtab.Find(name);
        if d.Some? {
          return;
        }
        cur := cur.parent;
      }
      d := None;
    }
  }

  /** `Scope::globalScope = new Scope(NULL)`: the root every program is bound in. */
  method NewGlobalScope() returns (g: Scope)
    ensures fresh(g) && fresh(g.symtab) && g.Valid()
    ensures g.IsGlobal() && g.GetDecl() == None && g.symtab.tab == map[]
  {
    g := new Scope(null);
  }

  /** The result of looking `name` up from `s`: nearest binding on the parent chain. */
  ghost function Resolve(s: Scope, name: string): Option<DeclId>
    requires s.Valid()
    reads s.tables
    decreases s.depth
  {
    if name in s.symtab.tab then Some(s.symtab.tab[name])
    else if s.parent == null then None
    else Resolve(s.parent, name)
  }

  /** `s`, its parent, its grandparent, ..., up to the root. */
  ghost function Chain(s: Scope): (c: seq<Scope>)
    requires s.Valid()
    decreases s.depth
    ensures |c| > 0 && c[0] == s && c[|c| - 1].IsGlobal()
    ensures forall k :: 0 <= k < |c| ==> c[k].Valid()
    ensures forall k :: 0 <= k < |c| - 1 ==> c[k + 1] == c[k].parent
  {
    if s.parent == null then [s] else [s] + Chain(s.parent)
  }

  /**
   * A root scope is the whole of its own chain, so lookup from it consults its
   * own table only; any other scope has at least one ancestor to fall back on.
   */
  lemma GlobalIsRoot(s: Scope)
    requires s.Valid()
    ensures s.IsGlobal() <==> |Chain(s)| == 1
    ensures s.IsGlobal() ==> forall n :: Resolve(s, n) == s.symtab.Find(n)
  {
  }

  /** Scope number `k` on the chain from `s` binds `name`, and none before it does. */
  ghost predicate NearestBinder(s: Scope, name: string, k: int)
    requires s.Valid()
    reads set t | t in Chain(s) :: t.symtab
  {
    0 <= k < |Chain(s)| && name in Chain(s)[k].symtab.tab &&
    forall j :: 0 <= j < k ==> name !in Chain(s)[j].symtab.tab
  }

  /** Some scope on the chain from `s` binds `name`. */
  ghost predicate BoundOnChain(s: Scope, name: string)
    requires s.Valid()
    reads set t | t in Chain(s) :: t.symtab
  {
    exists k :: 0 <= k < |Chain(s)| && name in Chain(s)[k].symtab.tab
  }

  /** Lookup finds nothing exactly when no scope on the chain binds the name. */
  lemma {:induction false} ResolveNoneIff(s: Scope, name: string)
    requires s.Valid()
    ensures Resolve(s, name).None? <==> !BoundOnChain(s, name)
    decreases s.depth
  {
    var c := Chain(s);
    if name in s.symtab.tab {
      assert name in c[0].symtab.tab;
    } else if s.parent == null {
      assert c == [s];
    } else {
      var pc := Chain(s.parent);
      ResolveNoneIff(s.parent, name);
      assert c == [s] + pc;
      if BoundOnChain(s, name) {
        var k :| 0 <= k < |c| && name in c[k].symtab.tab;
        assert k > 0 && pc[k - 1] == c[k];
      }
      if BoundOnChain(s.parent, name) {
        var k :| 0 <= k < |pc| && name in pc[k].symtab.tab;
        assert c[k + 1] == pc[k];
      }
    }
  }

  /** When scope number `k` is the nearest to bind the name, lookup returns its binding. */
  lemma {:induction false} NearestBinderIsFound(s: Scope, name: string, k: int)
    requires s.Valid() && NearestBinder(s, name, k)
    ensures Resolve(s, name) == Some(Chain(s)[k].symtab.tab[name])
    decreases s.depth
  {
    if k > 0 {
      assert name !in Chain(s)[0].symtab.tab;
      var p := s.parent;
      assert Chain(s) == [s] + Chain(p);
      forall j | 0 <= j < k - 1 ensures name !in Chain(p)[j].symtab.tab {
        assert Chain(p)[j] == Chain(s)[j + 1];
      }
      assert NearestBinder(p, name, k - 1);
      NearestBinderIsFound(p, name, k - 1);
    }
  }

  /** Whatever lookup returns comes from the nearest scope on the chain that binds the name. */
  lemma {:induction false} FoundIsNearestBinder(s: Scope, name: string)
    requires s.Valid() && Resolve(s, name).Some?
    ensures exists k :: NearestBinder(s, name, k) &&
                        Resolve(s, name) == Some(Chain(s)[k].symtab.tab[name])
    decreases s.depth
  {
    if name in s.symtab.tab {
      assert NearestBinder(s, name, 0);
    } else {
      var p := s.parent;
      FoundIsNearestBinder(p, name);
      var k :| NearestBinder(p, name, k) && Resolve(p, name) == Some(Chain(p)[k].symtab.tab[name]);
      assert Chain(s) == [s] + Chain(p);
      assert NearestBinder(s, name, k + 1);
    }
  }

  /** Outcome of a call that may not return: `Diverged` when it runs out of fuel. */
  datatype Outcome = Returned(d: Option<DeclId>) | Diverged

  /**
   * `Scope::FindSym` exactly as pp3/scope.cc writes it: the loop body calls
   * `curScope->FindSym(name)`, i.e. itself, rather than the table's `Find`.
   * `fuel` bounds the nesting of calls; a call that exhausts it is `Diverged`.
   */
  function FindSymAsWritten(s: Scope, name: string, fuel: nat): (o: Outcome)
    requires s.Valid()
    decreases fuel, 0, 0
    ensures o.Returned? ==> fuel > 0
  {
    if fuel == 0 then Diverged else WalkAsWritten(s, name, fuel - 1)
  }

  /**
   * The `while (curScope != NULL)` loop of the as-written `FindSym`; past the
   * root the loop does not run and the lookup returns NULL.
   */
  function WalkAsWritten(cur: Scope?, name: string, fuel: nat): (o: Outcome)
    requires cur != null ==> cur.Valid()
    decreases fuel, 1, if cur == null then 0 else cur.depth + 1
    ensures cur == null ==> o == Returned(None)
  {
    if cur == null then Returned(None)
    else
      match FindSymAsWritten(cur, name, fuel)
      case Diverged => Diverged
      case Returned(Some(d)) => Returned(Some(d))
      case Returned(None) => WalkAsWritten(cur.parent, name, fuel)
  }

  /** However much fuel it is given, the as-written lookup never returns. */
  lemma {:induction false} AsWrittenNeverReturns(s: Scope, name: string, fuel: nat)
    requires s.Valid()
    ensures FindSymAsWritten(s, name, fuel) == Diverged
  {
    if fuel > 0 {
      AsWrittenNeverReturns(s, name, fuel - 1);
    }
  }
}
