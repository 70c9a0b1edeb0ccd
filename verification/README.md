# Dependency registry model

A Dafny model of the dependency registry in the `IoC_DI` and `problem1`
packages. The registry is a generic keyed store. It associates string keys
with dependency objects, and it keeps a free-form scope/status label per key.

- `DependencyInjector` (module `DependencyInjector`, `dependency_injector.dfy`)
  is the checked registry. It holds two maps: `dependencies` (key to live
  value) and `scopes` (key to label). The two maps have independent
  lifetimes, so a label can outlive its value.
- `TestInjector` (module `TestInjector`, `test_injector.dfy`) is the concrete
  subclass from the test class. It supplies `create` and `createDependency`.
  The scenario tests of the same file are lemmas there, stated for every
  choice of keys and new objects.
- `MyClass` (module `MyClass`, `my_class.dfy`) is the earlier unchecked
  registry: one map, no null checks, and a lookup that returns null instead
  of throwing.
- `Replay` (`replay.dfy`) replays sequences of `injectDependency` calls on
  both registries. It proves last-write-wins over a whole sequence. It also
  proves that, for a caller who never passes null, the checked and unchecked
  registries answer `isDependencyInjected` and `getDependency` alike.
- `Wrappers` and `JavaLang` hold `Option`, `Result`, `JString` (a Java string
  reference, `None` being `null`) and the `"null"` rendering used in messages.

Modelling decisions:

- The state is an immutable datatype. Each operation is a pure function.
  A mutating operation returns the new injector. A throwing operation returns
  `Failure`. On that path the caller keeps the injector it had, and this
  matches the source: every check comes before every write.
- Every key argument is a `JString`, because any Java call can pass `null`.
  `dependencies` is keyed by `string`, since injection refuses null keys.
  `scopes` is keyed by `JString`: `setScope` refuses a null key, but
  `destroyDependency(null)` writes a `"Destroyed"` label under the null key
  (a `HashMap` accepts it). `NullKeyLabelledByDestroy` states this.
- Every exception in the source is `IllegalArgumentException`. The model has
  one error constructor, `IllegalArgument(message)`, carrying the exact
  message. `"No such dependency: " + key` renders a null key as `"null"`.
- `create` and `createDependency` receive the new object as an argument,
  in place of `new Object()`. Java reference identity becomes value equality.
- `getDependencies` returns the map as a value, not a live view.

- Only null keys, values and scopes are rejected (DependencyInjector.java
  lines 30 and 84); empty strings are accepted.

`IsDependencyInjected` (in both `DependencyInjector` and `MyClass`) is the
predicate the other contracts are written in.

## Model

| member | source | states |
|---|---|---|
| DependencyInjector.Empty | IoC_DI/src/main/java/com/dependencyinjection/DependencyInjector.java:14-19 | a newly constructed injector counts 0, has no injected key and no label for any key |
| DependencyInjector.IsDependencyInjected | IoC_DI/src/main/java/com/dependencyinjection/DependencyInjector.java:42-45 | definition: a non-null key present in `dependencies`; a null key is never injected |
| DependencyInjector.InjectDependency | IoC_DI/src/main/java/com/dependencyinjection/DependencyInjector.java:29-34 | throws exactly when the key or the dependency is null, with the null-check message; otherwise the key is injected and `getDependency` returns that value, every other key reads as before, and the labels are untouched |
| DependencyInjector.GetDependency | IoC_DI/src/main/java/com/dependencyinjection/DependencyInjector.java:55-60 | succeeds exactly when the key is injected, returning the stored value; otherwise throws "No such dependency: key"; no state is returned, so none changes |
| DependencyInjector.RemoveDependency | IoC_DI/src/main/java/com/dependencyinjection/DependencyInjector.java:69-71 | never throws; returns the previous value exactly when the key was injected (null otherwise); afterwards the key is not injected, other keys read as before, labels untouched |
| DependencyInjector.SetScope | IoC_DI/src/main/java/com/dependencyinjection/DependencyInjector.java:83-88 | throws exactly when the key or scope is null; otherwise `getScope` and `getDependencyStatus` both return the new scope, other labels and all values unchanged |
| DependencyInjector.GetScope | IoC_DI/src/main/java/com/dependencyinjection/DependencyInjector.java:96-98 | returns the label when the key has one, and null exactly when it has none |
| DependencyInjector.Dispose | IoC_DI/src/main/java/com/dependencyinjection/DependencyInjector.java:114-119 | throws exactly when the key is not injected; otherwise removes exactly that key, every other key reads as before, labels untouched |
| DependencyInjector.ClearDependencies | IoC_DI/src/main/java/com/dependencyinjection/DependencyInjector.java:125-127 | afterwards the count is 0 and no key is injected, while every label reads as before |
| DependencyInjector.GetDependencies | IoC_DI/src/main/java/com/dependencyinjection/DependencyInjector.java:135-137 | the returned map holds exactly the injected keys, each with the value `getDependency` returns |
| DependencyInjector.GetDependencyCount | IoC_DI/src/main/java/com/dependencyinjection/DependencyInjector.java:145-147 | the count equals the number of keys `getDependencies` returns |
| DependencyInjector.DestroyDependency | IoC_DI/src/main/java/com/dependencyinjection/DependencyInjector.java:163-166 | never throws, even for a key never injected; afterwards the key is not injected and its status is "Destroyed"; other keys' values and labels unchanged |
| DependencyInjector.GetDependencyStatus | IoC_DI/src/main/java/com/dependencyinjection/DependencyInjector.java:175-181 | succeeds exactly when the key has a label, returning it; otherwise throws "No such dependency: key" |
| DependencyInjector.InjectLastWriteWins | IoC_DI/src/main/java/com/dependencyinjection/DependencyInjector.java:33 | injecting twice at a key gives the same injector as injecting only the second value |
| DependencyInjector.RemoveUndoesInject | IoC_DI/src/main/java/com/dependencyinjection/DependencyInjector.java:69-71 | removing a key just injected (and not injected before) restores the original injector and returns the injected value |
| DependencyInjector.DisposeIsCheckedRemove | IoC_DI/src/main/java/com/dependencyinjection/DependencyInjector.java:114-119 | `dispose` throws exactly when `removeDependency` would return null, and otherwise leaves the same injector |
| DependencyInjector.DestroyRemovesLikeRemove | IoC_DI/src/main/java/com/dependencyinjection/DependencyInjector.java:164-165 | `destroyDependency` leaves the values `removeDependency` leaves, and only adds the "Destroyed" label |
| DependencyInjector.DestroyIdempotent | IoC_DI/src/main/java/com/dependencyinjection/DependencyInjector.java:163-166 | destroying twice gives the same injector as destroying once |
| DependencyInjector.StatusAgreesWithScope | IoC_DI/src/main/java/com/dependencyinjection/DependencyInjector.java:175-181 | `getDependencyStatus` throws exactly when `getScope` returns null, and otherwise they return the same label |
| DependencyInjector.CountZeroIffNothingInjected | IoC_DI/src/main/java/com/dependencyinjection/DependencyInjector.java:145-147 | the count is 0 exactly when no key is injected |
| DependencyInjector.InjectCount | IoC_DI/src/main/java/com/dependencyinjection/DependencyInjector.java:29-34 | an accepted injection raises the count by one exactly when the key was not injected |
| DependencyInjector.RemoveCount | IoC_DI/src/main/java/com/dependencyinjection/DependencyInjector.java:69-71 | removal lowers the count by one exactly when the key was injected |
| DependencyInjector.NullKeyLabelledByDestroy | IoC_DI/src/main/java/com/dependencyinjection/DependencyInjector.java:163-166 | `setScope` refuses a null key, yet `destroyDependency(null)` stores a "Destroyed" label under null that the status and scope reads return, and leaves the values alone |
| TestInjector.Create | IoC_DI/src/test/java/com/dependencyinjection/DependencyInjectorTest.java:18-20 | throws exactly when the key is null; otherwise the key holds the new object, other keys and all labels unchanged |
| TestInjector.CreateDependency | IoC_DI/src/test/java/com/dependencyinjection/DependencyInjectorTest.java:23-28 | throws exactly when the key is null; otherwise returns the new object, which `getDependency` then returns, and the status is "Created"; other keys' values and labels unchanged |
| TestInjector.CreateTwo | IoC_DI/src/test/java/com/dependencyinjection/DependencyInjectorTest.java:109-110 | two `create` calls on a new injector leave both keys injected |
| TestInjector.InjectAndGetDependency | IoC_DI/src/test/java/com/dependencyinjection/DependencyInjectorTest.java:33-40 | after injecting an object, `getDependency` returns that object |
| TestInjector.CreateThenDispose | IoC_DI/src/test/java/com/dependencyinjection/DependencyInjectorTest.java:42-82 | after `create` the key is injected; after a following `dispose`, `getDependency` throws and the key is not injected |
| TestInjector.ClearAfterTwoCreates | IoC_DI/src/test/java/com/dependencyinjection/DependencyInjectorTest.java:84-101 | two creations on distinct keys count 2; clearing gives count 0 and neither key injected |
| TestInjector.GetDependenciesAfterTwoCreates | IoC_DI/src/test/java/com/dependencyinjection/DependencyInjectorTest.java:103-117 | two creations on distinct keys give a map of size 2 holding both keys |
| TestInjector.CountAfterTwoCreates | IoC_DI/src/test/java/com/dependencyinjection/DependencyInjectorTest.java:119-135 | a new injector counts 0; two creations on distinct keys count 2 |
| TestInjector.CreateThenDestroy | IoC_DI/src/test/java/com/dependencyinjection/DependencyInjectorTest.java:136-151 | after `createDependency` the status is "Created"; after `destroyDependency` it is "Destroyed" and the key is not injected |
| TestInjector.StatusBeforeAndAfterCreate | IoC_DI/src/test/java/com/dependencyinjection/DependencyInjectorTest.java:153-175 | a new injector throws on `getDependencyStatus`; after `createDependency` the status is "Created" |
| MyClass.Empty | problem1/src/main/java/com/dependencyinjection/MyClass.java:9 | a new instance has no injected key |
| MyClass.IsDependencyInjected | problem1/src/main/java/com/dependencyinjection/MyClass.java:16-19 | definition: the key is in the map, with null keys and null values counted |
| MyClass.InjectDependency | problem1/src/main/java/com/dependencyinjection/MyClass.java:12-14 | stores any key and value, null included: afterwards the key is injected and reads as the value, every other key reads as before |
| MyClass.GetDependency | problem1/src/main/java/com/dependencyinjection/MyClass.java:22-24 | never throws; returns the stored value (possibly null) for an injected key, and a non-null result only for an injected key |
| MyClass.InjectLastWriteWins | problem1/src/main/java/com/dependencyinjection/MyClass.java:13 | injecting twice at a key gives the same instance as injecting only the second value |
| MyClass.NullLookupIsAmbiguous | problem1/src/main/java/com/dependencyinjection/MyClass.java:17-24 | `getDependency` returns null exactly when the key is absent or holds null; after injecting null the key is injected yet reads as null |
| Replay.InjectAll | IoC_DI/src/main/java/com/dependencyinjection/DependencyInjector.java:29-34 | a sequence of injections throws exactly when some call passes a null, with the null-check message; labels are untouched |
| Replay.InjectAllUnchecked | problem1/src/main/java/com/dependencyinjection/MyClass.java:12-14 | a sequence of unchecked injections never un-injects a key |
| Replay.InjectAllKeepsUntouched | IoC_DI/src/main/java/com/dependencyinjection/DependencyInjector.java:33 | a key no call names reads as before the sequence |
| Replay.InjectAllLastWriteWins | IoC_DI/src/main/java/com/dependencyinjection/DependencyInjector.java:33 | after an accepted sequence, a key reads as the dependency of the last call that names it |
| Replay.UncheckedKeepsUntouched | problem1/src/main/java/com/dependencyinjection/MyClass.java:13 | in the unchecked registry, a key no call names reads and is injected as before |
| Replay.UncheckedLastWriteWins | problem1/src/main/java/com/dependencyinjection/MyClass.java:13 | in the unchecked registry, a key is injected and reads as the (possibly null) dependency of the last call that names it |
| Replay.EmptyAgree | problem1/src/main/java/com/dependencyinjection/MyClass.java:9 | new checked and unchecked registries answer every `isDependencyInjected` and `getDependency` alike |
| Replay.InjectKeepsAgreement | problem1/src/main/java/com/dependencyinjection/MyClass.java:12-24 | one non-null injection is accepted by the checked registry and keeps the two registries answering alike |
| Replay.NonNullCallsAgree | IoC_DI/src/main/java/com/dependencyinjection/DependencyInjector.java:29-60 | for any sequence of non-null injections, the checked registry accepts all of them and then answers every query as the unchecked one does |
| Replay.NullCallDiverges | IoC_DI/src/main/java/com/dependencyinjection/DependencyInjector.java:30-32 | for any sequence whose last call naming a key passes a null dependency, the checked registry throws the null-check exception, while in the unchecked one the key is injected and reads as null |

## Left out

- The interfaces `DependencyController`, `DependencyLifeCycleManager` and `Dependency`: they declare signatures only, and the modules above give each declared operation a body.
- The overrides of `injectDependency` and `getDependency` in `TestInjector`: they only call the inherited methods, so the model reuses those.
- Java object identity and `new Object()`: the caller passes the new object, and identity becomes value equality.
- Aliasing through the live map `getDependencies` returns: the model returns the map as a value, so mutation through the alias cannot be expressed.
- DependencyInjector.GetDependencyCount: the count is an unbounded `nat`, not a Java `int`, because a map with more than 2^31-1 entries cannot be built in practice.
- Replay.InjectAll: it models a caller without a `catch`, so the first throwing call ends the sequence; callers that catch and carry on are not modelled, and the `Failure` result does not carry the injector as the earlier calls left it.
- `HashMap` iteration order, thread-safety (the class has none) and the `main` harness with its `println` output.
- The backup client and server scripts (`FileBackupServerClient/client.py`, `problem2/client.py`, `problem2/server.py`): socket and file I/O, serialisation and sleep loops, outside the registry.
- The Javadoc on `isDependencyInjected` and `getDependency` is copied from other methods and describes them wrongly; the model follows the code.
