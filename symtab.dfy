/**
 * The per-scope symbol table (pp3/symtab.h): a mapping from identifier to the
 * declaration that introduced it. The hash table behind it is modelled as a
 * finite map; `Add` overwrites an existing binding.
 */
module SymbolTable {
  import opened Wrappers

  /** Identity of a declaration node (the `Decl*` pointer a table stores). */
  type DeclId = nat

  class SymTab {
    var tab: map<string, DeclId>

    /** A fresh table binds no names. */
    constructor ()
      ensures tab == map[]
    {
      tab := map[];
    }

    /** The declaration bound to `name`, or None (NULL) when the name is unbound. */
    function Find(name: string): (d: Option<DeclId>)
      reads this
      ensures d.Some? <==> name in tab
      ensures d.Some? ==> d.value == tab[name]
    {
      if name in tab then Some(tab[name]) else None
    }

    /** Binds `name` to `decl`, replacing any earlier binding of `name`. */
    method Add(name: string, decl: DeclId)
      modifies this
      ensures tab == old(tab)[name := decl]
      ensures Find(name) == Some(decl)
      ensures forall n :: n != name ==> Find(n) == old(Find(n))
    {
      tab := tab[name := decl];
    }
  }
}
