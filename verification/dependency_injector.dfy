/** The checked registry `DependencyInjector<T>`: live values in `dependencies`
    and a free-form scope/status label per key in `scopes`. The two maps have
    independent lifetimes, so a label can outlive its value.

    Every operation is a pure function of the injector. An operation that
    mutates returns the new injector; one that throws returns `Failure`, and
    since no state is returned on that path the caller keeps the injector it
    had, which is exactly what the source does (every check precedes every
    write). */
module DependencyInjector {
  import opened Wrappers
  import opened JavaLang

  /** Every exception the class throws is an IllegalArgumentException; only the message differs. */
  datatype Error = IllegalArgument(message: string)

  /** Message of the null check in `injectDependency`. */
  const NullDependency := "key or Dependency cannot be null"
  /** Message of the null check in `setScope`. */
  const NullScope := "Key or scope cannot be null"
  /** Label written by `destroyDependency`. */
  const Destroyed := "Destroyed"

  /** Message of the lookups that throw on a missing key. */
  function NoSuchDependency(key: JString): string {
    "No such dependency: " + Str(key)
  }

  /** The two maps of an instance. `dependencies` never holds a null key or
      value (injection rejects both), so it is keyed by `string`. `scopes` is
      keyed by `JString`: `setScope` rejects a null key, but
      `destroyDependency(null)` stores a label under it. */
  datatype Injector<T> = Injector(dependencies: map<string, T>, scopes: map<JString, string>)

  /** A freshly constructed injector: both maps start empty. */
  function Empty<T>(): (inj: Injector<T>)
    ensures GetDependencyCount(inj) == 0
    ensures forall k :: !IsDependencyInjected(inj, k)
    ensures forall k :: GetScope(inj, k) == None
  {
    Injector(map[], map[])
  }

  /** `isDependencyInjected`: a key is injected when `dependencies` holds it.
      A null key never is, since injection refuses it. */
  predicate IsDependencyInjected<T>(inj: Injector<T>, key: JString)
    ensures key == None ==> !IsDependencyInjected(inj, key)
    ensures key.Some? ==> (IsDependencyInjected(inj, key) <==> key.value in inj.dependencies)
  {
    key.Some? && key.value in inj.dependencies
  }

  /** `injectDependency`: rejects a null key or dependency, otherwise upserts. */
  function InjectDependency<T>(inj: Injector<T>, key: JString, dependency: Option<T>): (r: Result<Injector<T>, Error>)
    ensures r.Failure? <==> key == None || dependency == None
    ensures r.Failure? ==> r.error == IllegalArgument(NullDependency)
    ensures r.Success? ==> IsDependencyInjected(r.value, key)
    ensures r.Success? ==> GetDependency(r.value, key) == Success(dependency.value)
    ensures r.Success? ==> forall k :: k != key ==> GetDependency(r.value, k) == GetDependency(inj, k)
    ensures r.Success? ==> r.value.scopes == inj.scopes
  {
    if key == None || dependency == None then Failure(IllegalArgument(NullDependency))
    else Success(inj.(dependencies := inj.dependencies[key.value := dependency.value]))
  }

  /** `getDependency`: the stored value, or an exception for a key that is not injected. */
  function GetDependency<T>(inj: Injector<T>, key: JString): (r: Result<T, Error>)
    ensures r.Success? <==> IsDependencyInjected(inj, key)
    ensures r.Success? ==> r.value == inj.dependencies[key.value]
    ensures r.Failure? ==> r.error == IllegalArgument(NoSuchDependency(key))
  {
    if !IsDependencyInjected(inj, key) then Failure(IllegalArgument(NoSuchDependency(key)))
    else Success(inj.dependencies[key.value])
  }

  /** `removeDependency`: never throws; returns the new injector and the
      removed value, `None` standing for the `null` of an absent key. */
  function RemoveDependency<T>(inj: Injector<T>, key: JString): (r: (Injector<T>, Option<T>))
    ensures r.1.Some? <==> IsDependencyInjected(inj, key)
    ensures r.1.Some? ==> GetDependency(inj, key) == Success(r.1.value)
    ensures !IsDependencyInjected(r.0, key)
    ensures forall k :: k != key ==> GetDependency(r.0, k) == GetDependency(inj, k)
    ensures r.0.scopes == inj.scopes
  {
    if IsDependencyInjected(inj, key) then
      (inj.(dependencies := inj.dependencies - {key.value}), Some(inj.dependencies[key.value]))
    else
      (inj, None)
  }

  /** `setScope`: rejects a null key or scope, otherwise upserts the label. */
  function SetScope<T>(inj: Injector<T>, key: JString, scope: JString): (r: Result<Injector<T>, Error>)
    ensures r.Failure? <==> key == None || scope == None
    ensures r.Failure? ==> r.error == IllegalArgument(NullScope)
    ensures r.Success? ==> GetScope(r.value, key) == scope
    ensures r.Success? ==> GetDependencyStatus(r.value, key) == Success(scope.value)
    ensures r.Success? ==> forall k :: k != key ==> GetScope(r.value, k) == GetScope(inj, k)
    ensures r.Success? ==> r.value.dependencies == inj.dependencies
  {
    if key == None || scope == None then Failure(IllegalArgument(NullScope))
    else Success(inj.(scopes := inj.scopes[key := scope.value]))
  }

  /** `getScope`: the label, or `None` (Java's `null`) when there is none. */
  function GetScope<T>(inj: Injector<T>, key: JString): (r: Option<string>)
    ensures r.Some? <==> key in inj.scopes
    ensures r.Some? ==> r.value == inj.scopes[key]
  {
    if key in inj.scopes then Some(inj.scopes[key]) else None
  }

  /** `dispose`: like removal, but throws when the key is not injected. */
  function Dispose<T>(inj: Injector<T>, key: JString): (r: Result<Injector<T>, Error>)
    ensures r.Failure? <==> !IsDependencyInjected(inj, key)
    ensures r.Failure? ==> r.error == IllegalArgument(NoSuchDependency(key))
    ensures r.Success? ==> !IsDependencyInjected(r.value, key)
    ensures r.Success? ==> r.value.dependencies.Keys == inj.dependencies.Keys - {key.value}
    ensures r.Success? ==> forall k :: k != key ==> GetDependency(r.value, k) == GetDependency(inj, k)
    ensures r.Success? ==> r.value.scopes == inj.scopes
  {
    if !IsDependencyInjected(inj, key) then Failure(IllegalArgument(NoSuchDependency(key)))
    else Success(inj.(dependencies := inj.dependencies - {key.value}))
  }

  /** `clearDependencies`: empties the value map and keeps every label. */
  function ClearDependencies<T>(inj: Injector<T>): (r: Injector<T>)
    ensures GetDependencyCount(r) == 0
    ensures forall k :: !IsDependencyInjected(r, k)
    ensures forall k :: GetScope(r, k) == GetScope(inj, k)
  {
    inj.(dependencies := map[])
  }

  /** `getDependencies`: the current key/value pairs, as a value rather than
      a live view of the backing map. */
  function GetDependencies<T>(inj: Injector<T>): (r: map<string, T>)
    ensures forall k :: k in r <==> IsDependencyInjected(inj, Some(k))
    ensures forall k :: k in r ==> GetDependency(inj, Some(k)) == Success(r[k])
  {
    inj.dependencies
  }

  /** `getDependencyCount`: the number of injected keys. */
  function GetDependencyCount<T>(inj: Injector<T>): (n: nat)
    ensures n == |GetDependencies(inj).Keys|
  {
    |inj.dependencies|
  }

  /** `destroyDependency`: never throws; removes the value if any and labels the key "Destroyed". */
  function DestroyDependency<T>(inj: Injector<T>, key: JString): (r: Injector<T>)
    ensures !IsDependencyInjected(r, key)
    ensures GetDependencyStatus(r, key) == Success(Destroyed)
    ensures forall k :: k != key ==> GetDependency(r, k) == GetDependency(inj, k)
    ensures forall k :: k != key ==> GetScope(r, k) == GetScope(inj, k)
  {
    var dependencies := if key.Some? then inj.dependencies - {key.value} else inj.dependencies;
    Injector(dependencies, inj.scopes[key := Destroyed])
  }

  /** `getDependencyStatus`: the label, or an exception when the key has none. */
  function GetDependencyStatus<T>(inj: Injector<T>, key: JString): (r: Result<string, Error>)
    ensures r.Success? <==> key in inj.scopes
    ensures r.Success? ==> r.value == inj.scopes[key]
    ensures r.Failure? ==> r.error == IllegalArgument(NoSuchDependency(key))
  {
    if key !in inj.scopes then Failure(IllegalArgument(NoSuchDependency(key)))
    else Success(inj.scopes[key])
  }

  // ---------------------------------------------------------------------
  // Properties relating several operations.

  /** Injecting twice at the same key keeps only the second value. */
  lemma InjectLastWriteWins<T>(inj: Injector<T>, key: string, first: T, second: T)
    ensures InjectDependency(inj, Some(key), Some(first)).Success?
    ensures InjectDependency(InjectDependency(inj, Some(key), Some(first)).value, Some(key), Some(second))
         == InjectDependency(inj, Some(key), Some(second))
  {
    assert inj.dependencies[key := first][key := second] == inj.dependencies[key := second];
  }

  /** Removal undoes the injection of a key that was not injected, and hands back the injected value. */
  lemma RemoveUndoesInject<T>(inj: Injector<T>, key: string, dependency: T)
    requires !IsDependencyInjected(inj, Some(key))
    ensures InjectDependency(inj, Some(key), Some(dependency)).Success?
    ensures RemoveDependency(InjectDependency(inj, Some(key), Some(dependency)).value, Some(key))
         == (inj, Some(dependency))
  {
    var after := inj.dependencies[key := dependency];
    assert after - {key} == inj.dependencies;
  }

  /** `dispose` is the checked form of `removeDependency`: it throws exactly
      when removal would return null, and otherwise leaves the same state. */
  lemma DisposeIsCheckedRemove<T>(inj: Injector<T>, key: JString)
    ensures Dispose(inj, key).Success? <==> RemoveDependency(inj, key).1.Some?
    ensures Dispose(inj, key).Success? ==> Dispose(inj, key).value == RemoveDependency(inj, key).0
  {
  }

  /** `destroyDependency` removes values as `removeDependency` does; it differs only in the label. */
  lemma DestroyRemovesLikeRemove<T>(inj: Injector<T>, key: JString)
    ensures DestroyDependency(inj, key).dependencies == RemoveDependency(inj, key).0.dependencies
    ensures DestroyDependency(inj, key).scopes == inj.scopes[key := Destroyed]
  {
  }

  /** Destroying twice leaves the same injector as destroying once. */
  lemma DestroyIdempotent<T>(inj: Injector<T>, key: JString)
    ensures DestroyDependency(DestroyDependency(inj, key), key) == DestroyDependency(inj, key)
  {
  }

  /** `getDependencyStatus` and `getScope` read the same label: the first
      throws exactly when the second returns null, and otherwise they agree. */
  lemma StatusAgreesWithScope<T>(inj: Injector<T>, key: JString)
    ensures GetDependencyStatus(inj, key).Failure? <==> GetScope(inj, key) == None
    ensures GetDependencyStatus(inj, key).Success? ==> GetScope(inj, key) == Some(GetDependencyStatus(inj, key).value)
  {
  }

  /** The count is zero exactly when no key is injected. */
  lemma CountZeroIffNothingInjected<T>(inj: Injector<T>)
    ensures GetDependencyCount(inj) == 0 <==> forall k :: !IsDependencyInjected(inj, k)
  {
  }

  /** A successful injection adds one to the count exactly when the key is new. */
  lemma InjectCount<T>(inj: Injector<T>, key: string, dependency: T)
    ensures InjectDependency(inj, Some(key), Some(dependency)).Success?
    ensures GetDependencyCount(InjectDependency(inj, Some(key), Some(dependency)).value)
         == GetDependencyCount(inj) + (if IsDependencyInjected(inj, Some(key)) then 0 else 1)
  {
  }

  /** Removal takes one off the count exactly when the key was injected. */
  lemma RemoveCount<T>(inj: Injector<T>, key: JString)
    ensures GetDependencyCount(RemoveDependency(inj, key).0)
         == GetDependencyCount(inj) - (if IsDependencyInjected(inj, key) then 1 else 0)
  {
  }

  /** A null key is refused by `setScope` but accepted by `destroyDependency`,
      which stores a "Destroyed" label under it that the status and scope
      reads then return. */
  lemma NullKeyLabelledByDestroy<T>(inj: Injector<T>, scope: JString)
    ensures SetScope(inj, None, scope) == Failure(IllegalArgument(NullScope))
    ensures GetDependencyStatus(DestroyDependency(inj, None), None) == Success(Destroyed)
    ensures GetScope(DestroyDependency(inj, None), None) == Some(Destroyed)
    ensures DestroyDependency(inj, None).dependencies == inj.dependencies
  {
  }
}
