# Declaration binding in the Decaf front end (pp3)

This project models the declaration-binding pass of a Decaf compiler front end, together with the
scopes and symbol tables it builds. The pass makes one recursive walk over an already-parsed syntax
tree. It attaches a scope to every node. Each class, interface, function, block and for-loop header
gets a new child scope. Each declaration's name goes into the table of the scope it is declared in,
except formal parameters, which get the function's scope but are entered in no table.
Lookup, as intended, walks outward along the parent chain, so the nearest scope wins (as written,
`Scope::FindSym` calls itself instead; see "## Findings").

Files:

- `wrappers.dfy`: `Option`, which stands for a pointer that may be NULL.
- `symtab.dfy` (`SymbolTable`): class `SymTab`. Its hash table is a `map` from names to declaration
  identities. `Add` overwrites an existing binding.
- `scope.dfy` (`Scopes`): class `Scope`. `parent` is a `const`, so no member can change it. `decl`
  starts as `None`. Each scope owns its own `SymTab`. A ghost `depth` shows that every parent is
  closer to the root, which makes lookup terminate. `Resolve` is the lookup as a function. The lemmas
  characterise it by the parent chain. The file also holds the lookup as the source writes it.
- `ast.dfy` (`Ast`): the tree as datatypes. Every node has a `scope` field that stands for
  `Node::SetScope`/`GetScope`. `BoundDecl`/`BoundStmt`/... hold when a result is the input tree with
  a scope on every node. `AddAll` is a table after adding a list of names in order.
- `scoped.dfy` (`ScopeTree`): `ScopedStmt`/`ScopedDecl`/... say, for a whole bound tree, which scope
  each node is in: every scope the pass opens is a valid child of the scope its node is bound in, has
  the right owner and holds exactly the names declared directly in it. Sibling nodes open pairwise
  different scopes. A scope the source keeps only in a local variable is read back from the first
  child it was given to.
- `example.dfy` (`BindingExample`): the pass applied to `class A { int x; void f() { return x; } }`, with
  the lookups from inside `f`'s body, to two identical sibling blocks, and to a for loop whose body is a block.
- `binder.dfy` (`Binder`): `BuildDecls`, one method per node kind. The frames state the pass's effect
  on tables. A declaration method `modifies` only the table of the scope it is declared in. A
  statement method has no `modifies` clause, so it cannot change any table that existed before the
  call. Every entry it makes goes into scopes it creates.

Assumptions the model states:

- `Node::GetScope` is not part of this model. A node that was never given a scope with `SetScope` is
  taken to use its nearest ancestor's scope. Each method's `cur` parameter is that scope, and the
  scope stored in each result node is what `GetScope` returns for it. This matters at the call sites
  that bind children without `SetScope`: the top-level declarations (pp3/ast_stmt.cc:26), the test
  and body of a conditional (67-68), the for body (93), the else branch (115), case contents
  (149-152), the switch subject, cases and default case (157-163), the returned expression (177)
  and the print arguments (192).
- The for loop gives init, test and step the header scope but never gives the body a scope
  (pp3/ast_stmt.cc:93). Under the assumption above the body is bound in the loop's own scope, and a
  block body opens its scope under that one, so nothing in the header scope is visible from the
  body. The model follows the code.
- The global scope is a value created once (`NewGlobalScope`) and passed to `BuildProgram`. It is not
  read from a static.

## Model

| member | source | states |
|---|---|---|
| `SymbolTable.SymTab.constructor` | pp3/symtab.h:12 | a new table binds no name |
| `SymbolTable.SymTab.Find` | pp3/symtab.h:13 | returns the bound declaration; returns None (NULL) exactly when the name is unbound; only reads the table |
| `SymbolTable.SymTab.Add` | pp3/symtab.h:14 | afterwards `Find(name)` gives the new declaration, replacing any old binding; every other name keeps its binding |
| `Scopes.Scope.constructor` | pp3/scope.h:14-18 | the new scope has parent `p`, its own fresh empty table and no owning declaration; `IsGlobal()` holds exactly when `p` is NULL |
| `Scopes.Scope.IsGlobal` | pp3/scope.h:18 | true exactly when the scope has no parent |
| `Scopes.GlobalIsRoot` | pp3/scope.h:18 | a scope is global exactly when its chain is itself alone, and lookup from a global scope consults only its own table |
| `Scopes.Scope.GetDecl` | pp3/scope.h:20 | returns the stored owner: the declaration given to the last `SetDecl`, or None if none was set |
| `Scopes.Scope.SetDecl` | pp3/scope.h:19-20 | `GetDecl()` afterwards returns the declaration just set |
| `Scopes.Scope.AddSym` | pp3/scope.h:23 | writes only this scope's table (frame `modifies symtab`); lookup from this scope then finds the new binding, shadowing ancestors, and changes for no other name; lookup from the parent is unchanged |
| `Scopes.NewGlobalScope` | pp3/scope.cc:3 | the global scope has no parent, so `IsGlobal()` holds; its table is empty |
| `Scopes.Scope.FindSym` | pp3/scope.cc:5-16 | the outward walk returns exactly `Resolve`: the own table's binding if any, otherwise the parent's lookup; it ends and changes no table |
| `Scopes.ResolveNoneIff` | pp3/scope.cc:7-15 | lookup returns NULL exactly when no scope on the chain up to the parentless root binds the name |
| `Scopes.NearestBinderIsFound` | pp3/scope.cc:6-13 | if scope k on the chain is the nearest that binds the name, lookup returns that scope's binding |
| `Scopes.FoundIsNearestBinder` | pp3/scope.cc:6-13 | whatever lookup returns is the binding of the nearest scope on the chain that binds the name |
| `Scopes.FindSymAsWritten` | pp3/scope.cc:5-16 | the lookup as written, with `fuel` bounding nested calls; a call with no fuel left does not return |
| `Scopes.WalkAsWritten` | pp3/scope.cc:7-15 | the as-written loop over the chain; past the root it returns NULL |
| `Scopes.AsWrittenNeverReturns` | pp3/scope.cc:7-13 | the lookup as written, which calls itself on the same scope, does not return for any amount of fuel |
| `Ast.AddAllLookup` | pp3/symtab.h:14 | after adding names in order, a name is bound iff it was bound before or some entry names it; the last entry for a name wins; other names keep their binding |
| `Binder.OpenedScopeLookup` | pp3/ast_stmt.cc:47-52 | from a new scope whose table holds a list of declarations, a declared name resolves to its last declaration, and any other name resolves as from the parent |
| `Binder.BuildVarDecl` | pp3/ast_decl.cc:27-30 | the variable's name is bound to itself in the scope it is bound in; only that entry of that table changes; no scope is created |
| `Binder.BuildDeclList` | pp3/ast_decl.cc:53-57 | every declaration of the list is bound in the one given scope and named in its table, in list order, later names replacing earlier ones; each whole declaration tree is scoped (`ScopedDecl`), every scope opened in it is new, and no two declarations of the list share an opened scope |
| `Binder.BuildClass` | pp3/ast_decl.cc:48-58 | the class name goes into the enclosing table only; exactly one new scope, parent the enclosing scope, owned by the class; every member bound in it; its table holds the member names, later wins; member names resolve there, other names as outside |
| `Binder.BuildInterface` | pp3/ast_decl.cc:70-80 | the same as for a class, with the interface as owner |
| `Binder.BuildFunction` | pp3/ast_decl.cc:100-111 | the function name goes into the enclosing table only; one new scope, parent the enclosing scope, owned by the function; formals and body bound in it; no formal is entered, so its table stays empty and lookup from it equals lookup from the enclosing scope |
| `Binder.BuildDecl` | pp3/ast_decl.cc:27-111 | any declaration: of the existing tables only the enclosing one changes, and only at the declaration's own name; the result is the same tree, and at every depth each opened scope is a new child of its node's scope with the right owner and exactly the names declared in it (`ScopedDecl`) |
| `Binder.BuildProgram` | pp3/ast_stmt.cc:22-28 | the program and each top-level declaration are bound in the global scope; the global table gains the top-level names in source order; every declaration tree is scoped under the global scope at every depth; every scope opened in it is new, and no two top-level declarations share one |
| `Binder.BuildBlock` | pp3/ast_stmt.cc:45-58 | exactly one new scope whose parent is the block's scope; each local is bound and named there, never in an existing table; every statement is bound in it; locals shadow outer names, other names resolve as outside |
| `Binder.BuildStmtList` | pp3/ast_stmt.cc:53-57 | every statement of the list is bound in the given scope, in order, the same tree scoped at every depth; the scopes each statement opens are new and shared with no sibling |
| `Binder.BuildWhile` | pp3/ast_stmt.cc:66-69 | creates no scope and changes no existing table; test and body are bound in the loop's scope |
| `Binder.BuildFor` | pp3/ast_stmt.cc:84-94 | one new header scope, parent the loop's scope, shared by init, test and step; the body is bound in the loop's own scope, and no scope it opens is the header scope |
| `Binder.BuildIf` | pp3/ast_stmt.cc:113-116 | creates no scope and changes no existing table; test, then-branch and else-branch are bound in the if's scope; the two branches open different scopes |
| `Binder.BuildCase` | pp3/ast_stmt.cc:148-154 | a case creates no scope; its label and statements are bound in the case's scope |
| `Binder.BuildSwitch` | pp3/ast_stmt.cc:156-165 | creates no scope; the subject, every case and the default case (only if present) are bound in the switch's scope; no two cases, the default included, share an opened scope |
| `Binder.BuildReturn` | pp3/ast_stmt.cc:176-178 | creates no scope; the returned expression is bound in the statement's scope |
| `Binder.BuildPrint` | pp3/ast_stmt.cc:189-194 | creates no scope; every argument is bound in the statement's scope |
| `Binder.BuildStmt` | pp3/ast_stmt.cc:45-194 | any statement: no existing table changes; the result is the same tree, and at every depth each block and for-header scope is a new child of its node's scope holding exactly the locals declared in it (`ScopedStmt`); sibling statements, cases and branches open pairwise different scopes |
| `BindingExample.NestedLookups` | pp3/scope.cc:5-16 | from a block scope under an empty function scope under a class scope holding `x` and `f`, under a global scope holding `A`, lookup finds `x`, `f` and `A` and nothing for `y` |
| `BindingExample.SiblingBlocksOpenDistinctScopes` | pp3/ast_stmt.cc:45-58 | two identical sibling blocks are bound in two different scopes |
| `BindingExample.ForHeaderDistinctFromBodyScope` | pp3/ast_stmt.cc:84-94 | a for loop's header scope differs from the scope its body block opens |
| `BindingExample.ClassFieldSeenFromMethod` | pp3/ast_decl.cc:48-111 | after binding `class A { int x; void f() { return x; } }`, lookup from the scope of `return x` finds the field `x`, the method `f` and the class `A`, and finds nothing for an undeclared name |

## Findings

| source | as written | input that shows it | evidently intended | confidence | as-written member | corrected member |
|---|---|---|---|---|---|---|
| pp3/scope.cc:8 | the loop body calls `curScope->FindSym(name)`, which is `FindSym` on the same scope, so it recurses without end and never reads a table | any lookup, e.g. `FindSym("x")` on the global scope | look in the current scope's own table (`symtab->Find(name)`, pp3/symtab.h:13), then move to the parent | high (not executed) | `Scopes.AsWrittenNeverReturns` | `Scopes.Scope.FindSym` |

The as-written lookup is the pair `Scopes.FindSymAsWritten`/`Scopes.WalkAsWritten`, with a row each
above. A `fuel` bound limits how deeply calls may nest, and running out of fuel means the call did
not return.

## Left out

- `Binder.BuildIf`: an `if` without an else branch is handled by skipping the missing branch. The
  source calls `elseBody->BuildDecls()` unconditionally (pp3/ast_stmt.cc:115), although its
  constructor allows a NULL else (pp3/ast_stmt.cc:102-104). That NULL dereference is not modelled.
- `Binder.BuildFunction`: a function whose body was never set with `SetFunctionBody` (a prototype)
  is handled by skipping the body. The source dereferences the NULL body (pp3/ast_decl.cc:86, 109).
  That NULL dereference is not modelled.
- `Binder.BuildInterface`: an interface's members are prototypes, whose body is NULL, so in the
  source `InterfaceDecl::BuildDecls` reaches the NULL dereference of pp3/ast_decl.cc:109 at its
  first function member. The model's result therefore matches the source only for interfaces with
  no function members; for the others it describes the binding the code evidently intends.
- `Scopes.Scope.constructor`: the source constructor never sets `decl` (pp3/scope.h:14-17), so
  `GetDecl()` on a block, for-header or global scope reads an uninitialised pointer. The model
  starts `decl` as None, and `BuildBlock`, `BuildFor` and `NewGlobalScope` promise `GetDecl() == None`
  on that basis.
- Expression binding: the expression sources are not part of this model. An expression only
  receives its scope and enters nothing in any table.
- Type nodes (variable types, return types, `extends`/`implements`) are not bound by the pass and
  are not modelled.
- `PrintChildren` and all printing, `Program::TypeCheck` (empty), and the constructors'
  `Assert`/`SetParent` plumbing are not modelled. The datatypes fix the tree shape instead.
- The hash table behind `SymTab` is a `map`.
- Source locations are not modelled.
- Memory management is not modelled: objects are never freed, and the static initialisation order
  of `globalScope` is not represented.
- Duplicate-declaration and undeclared-identifier reporting are left out because the pass performs
  neither; a redeclaration silently overwrites.
