/** `TestInjector`, the concrete subclass that supplies the two abstract
    creation operations, and the scenarios its test class checks, stated for
    every choice of keys and new objects rather than for the literal ones.

    `new Object()` cannot be written here: the caller supplies the new object
    `obj`, which is never null. The overrides of `injectDependency` and
    `getDependency` only call the inherited ones, so the model reuses those. */
module TestInjector {
  import opened Wrappers
  import opened JavaLang
  import opened DependencyInjector

  /** Label written by `createDependency`. */
  const Created := "Created"

  /** `create`: injects a new object under `key`; a null key makes the injection throw. */
  function Create<T>(inj: Injector<T>, key: JString, obj: T): (r: Result<Injector<T>, Error>)
    ensures r.Failure? <==> key == None
    ensures r.Failure? ==> r.error == IllegalArgument(NullDependency)
    ensures r.Success? ==> GetDependency(r.value, key) == Success(obj)
    ensures r.Success? ==> forall k :: k != key ==> GetDependency(r.value, k) == GetDependency(inj, k)
    ensures r.Success? ==> r.value.scopes == inj.scopes
  {
    InjectDependency(inj, key, Some(obj))
  }

  /** `createDependency`: injects a new object, labels the key "Created"
      and returns the object. The label is written only after the injection
      has succeeded, so a null key throws before either map changes. */
  function CreateDependency<T>(inj: Injector<T>, key: JString, obj: T): (r: Result<(Injector<T>, T), Error>)
    ensures r.Failure? <==> key == None
    ensures r.Failure? ==> r.error == IllegalArgument(NullDependency)
    ensures r.Success? ==> r.value.1 == obj
    ensures r.Success? ==> GetDependency(r.value.0, key) == Success(r.value.1)
    ensures r.Success? ==> GetDependencyStatus(r.value.0, key) == Success(Created)
    ensures r.Success? ==> forall k :: k != key ==> GetDependency(r.value.0, k) == GetDependency(inj, k)
    ensures r.Success? ==> forall k :: k != key ==> GetScope(r.value.0, k) == GetScope(inj, k)
  {
    match InjectDependency(inj, key, Some(obj))
    case Failure(e) => Failure(e)
    case Success(injected) =>
      match SetScope(injected, key, Some(Created))
      case Failure(e) => Failure(e)
      case Success(labelled) => Success((labelled, obj))
  }

  // ---------------------------------------------------------------------
  // The scenarios of the test class.

  /** testInjectAndGetDependency: the injected object itself comes back. */
  lemma InjectAndGetDependency<T>(key: string, obj: T)
    ensures InjectDependency(Empty<T>(), Some(key), Some(obj)).Success?
    ensures GetDependency(InjectDependency(Empty<T>(), Some(key), Some(obj)).value, Some(key)) == Success(obj)
  {
  }

  /** testCreateAndDispose and testIsDependencyInjected: after `create` the
      key is injected; after a following `dispose` the lookup throws and the
      key is no longer injected. */
  lemma CreateThenDispose<T>(inj: Injector<T>, key: string, obj: T)
    ensures Create(inj, Some(key), obj).Success?
    ensures IsDependencyInjected(Create(inj, Some(key), obj).value, Some(key))
    ensures Dispose(Create(inj, Some(key), obj).value, Some(key)).Success?
    ensures GetDependency(Dispose(Create(inj, Some(key), obj).value, Some(key)).value, Some(key))
         == Failure(IllegalArgument(NoSuchDependency(Some(key))))
    ensures !IsDependencyInjected(Dispose(Create(inj, Some(key), obj).value, Some(key)).value, Some(key))
  {
  }

  /** The injector after `create(key1)` and `create(key2)` on a newly constructed injector. */
  function CreateTwo<T>(key1: string, key2: string, obj1: T, obj2: T): (inj: Injector<T>)
    ensures IsDependencyInjected(inj, Some(key1)) && IsDependencyInjected(inj, Some(key2))
  {
    Create(Create(Empty<T>(), Some(key1), obj1).value, Some(key2), obj2).value
  }

  /** testClearDependencies: two creations on distinct keys count 2, and
      clearing brings the count back to 0 with neither key injected. */
  lemma ClearAfterTwoCreates<T>(key1: string, key2: string, obj1: T, obj2: T)
    requires key1 != key2
    ensures GetDependencyCount(CreateTwo(key1, key2, obj1, obj2)) == 2
    ensures GetDependencyCount(ClearDependencies(CreateTwo(key1, key2, obj1, obj2))) == 0
    ensures !IsDependencyInjected(ClearDependencies(CreateTwo(key1, key2, obj1, obj2)), Some(key1))
    ensures !IsDependencyInjected(ClearDependencies(CreateTwo(key1, key2, obj1, obj2)), Some(key2))
  {
  }

  /** testGetDependencyCount: a newly constructed injector counts 0, and
      two creations on distinct keys count 2. */
  lemma CountAfterTwoCreates<T>(key1: string, key2: string, obj1: T, obj2: T)
    requires key1 != key2
    ensures GetDependencyCount(Empty<T>()) == 0
    ensures GetDependencyCount(CreateTwo(key1, key2, obj1, obj2)) == 2
  {
  }

  /** testGetDependencies: two creations on distinct keys expose a map of
      size 2 holding both keys. */
  lemma GetDependenciesAfterTwoCreates<T>(key1: string, key2: string, obj1: T, obj2: T)
    requires key1 != key2
    ensures |GetDependencies(CreateTwo(key1, key2, obj1, obj2))| == 2
    ensures key1 in GetDependencies(CreateTwo(key1, key2, obj1, obj2))
    ensures key2 in GetDependencies(CreateTwo(key1, key2, obj1, obj2))
  {
  }

  /** testCreateAndDestroyDependency: the status moves from "Created" to
      "Destroyed" and the key stops being injected. */
  lemma CreateThenDestroy<T>(inj: Injector<T>, key: string, obj: T)
    ensures CreateDependency(inj, Some(key), obj).Success?
    ensures GetDependencyStatus(CreateDependency(inj, Some(key), obj).value.0, Some(key)) == Success(Created)
    ensures GetDependencyStatus(DestroyDependency(CreateDependency(inj, Some(key), obj).value.0, Some(key)), Some(key))
         == Success(Destroyed)
    ensures !IsDependencyInjected(DestroyDependency(CreateDependency(inj, Some(key), obj).value.0, Some(key)), Some(key))
  {
  }

  /** testGetDependencyStatus: a newly constructed injector has no status for any key,
      and `createDependency` gives the key the status "Created". */
  lemma StatusBeforeAndAfterCreate<T>(key: string, obj: T)
    ensures GetDependencyStatus(Empty<T>(), Some(key)) == Failure(IllegalArgument(NoSuchDependency(Some(key))))
    ensures CreateDependency(Empty<T>(), Some(key), obj).Success?
    ensures GetDependencyStatus(CreateDependency(Empty<T>(), Some(key), obj).value.0, Some(key)) == Success(Created)
  {
  }
}
