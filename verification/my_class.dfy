/** `MyClass<T>`, the earlier unchecked registry: one `HashMap<String, T>`
    with no validation. `HashMap` accepts a null key and null values, so the
    map is keyed by `JString` and holds `Option<T>`. */
module MyClass {
  import opened Wrappers
  import opened JavaLang

  datatype Injector<T> = Injector(dependencies: map<JString, Option<T>>)

  /** A freshly constructed instance: the map starts empty. */
  function Empty<T>(): (c: Injector<T>)
    ensures forall k :: !IsDependencyInjected(c, k)
  {
    Injector(map[])
  }

  /** `isDependencyInjected`: the key is in the map, whatever it maps to;
      a null key and a key holding null both count. */
  predicate IsDependencyInjected<T>(c: Injector<T>, key: JString)
    ensures IsDependencyInjected(c, key) <==> key in c.dependencies
  {
    key in c.dependencies
  }

  /** `injectDependency`: stores any key and value, null included; the last write wins. */
  function InjectDependency<T>(c: Injector<T>, key: JString, dependency: Option<T>): (r: Injector<T>)
    ensures IsDependencyInjected(r, key)
    ensures GetDependency(r, key) == dependency
    ensures forall k :: k != key ==> IsDependencyInjected(r, k) == IsDependencyInjected(c, k)
    ensures forall k :: k != key ==> GetDependency(r, k) == GetDependency(c, k)
  {
    Injector(c.dependencies[key := dependency])
  }

  /** `getDependency`: never throws; an absent key and a stored null both read as null. */
  function GetDependency<T>(c: Injector<T>, key: JString): (r: Option<T>)
    ensures r.Some? ==> IsDependencyInjected(c, key)
    ensures IsDependencyInjected(c, key) ==> r == c.dependencies[key]
  {
    if key in c.dependencies then c.dependencies[key] else None
  }

  /** Injecting twice at the same key keeps only the second value. */
  lemma InjectLastWriteWins<T>(c: Injector<T>, key: JString, first: Option<T>, second: Option<T>)
    ensures InjectDependency(InjectDependency(c, key, first), key, second) == InjectDependency(c, key, second)
  {
    assert c.dependencies[key := first][key := second] == c.dependencies[key := second];
  }

  /** A null lookup result does not tell an absent key from a stored null:
      after injecting null the key is injected, yet the lookup returns null
      exactly as it does for a key that was never injected. */
  lemma NullLookupIsAmbiguous<T>(c: Injector<T>, key: JString)
    ensures GetDependency(c, key) == None <==> !IsDependencyInjected(c, key) || c.dependencies[key] == None
    ensures IsDependencyInjected(InjectDependency(c, key, None), key)
    ensures GetDependency(InjectDependency(c, key, None), key) == None
  {
  }
}
