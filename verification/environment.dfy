/**
 * The symbol environment the resolver threads through every step. Its implementation is
 * not part of this model; it is represented as one immutable finite map from name to
 * entry, with the scope flag the resolver asks for. Tags live in the same map under the
 * keys "struct T", "union T" and "enum T".
 */
module Environment {
  import opened Types

  /** Where a name lives: a global object, a stack object, a typedef (also used for tags),
      or an enumeration constant. */
  datatype EntryKind = GlobalEntry | StackEntry | TypedefEntry | EnumEntry

  /** A lookup result; `NotFound` is the sentinel for an unbound name. `value` carries an
      enumeration constant's value and is 0 otherwise. */
  datatype Entry = NotFound | Entry(kind: EntryKind, ty: ExprType, value: int)

  datatype Env = Env(table: map<string, Entry>, global: bool)

  function EmptyEnv(global: bool): (env: Env)
    ensures forall name :: Find(env, name).NotFound?
    ensures IsGlobal(env) == global
  {
    Env(map[], global)
  }

  function Find(env: Env, name: string): Entry {
    if name in env.table then env.table[name] else NotFound
  }

  /** True at file scope. */
  predicate IsGlobal(env: Env) {
    env.global
  }

  /** Bind `name`; the binding shadows any earlier one and nothing else changes. */
  function PushEntry(env: Env, kind: EntryKind, name: string, ty: ExprType): (r: Env)
    ensures Find(r, name) == Entry(kind, ty, 0)
    ensures forall other :: other != name ==> Find(r, other) == Find(env, other)
    ensures IsGlobal(r) == IsGlobal(env)
  {
    env.(table := env.table[name := Entry(kind, ty, 0)])
  }

  /** Bind an enumeration constant with its value. */
  function PushEnum(env: Env, name: string, ty: ExprType, value: int): (r: Env)
    ensures Find(r, name) == Entry(EnumEntry, ty, value)
    ensures forall other :: other != name ==> Find(r, other) == Find(env, other)
    ensures IsGlobal(r) == IsGlobal(env)
  {
    env.(table := env.table[name := Entry(EnumEntry, ty, value)])
  }
}
