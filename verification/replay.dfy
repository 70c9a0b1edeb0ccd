/** Sequences of `injectDependency` calls, as a caller such as the scenario
    tests issues them, replayed on the checked `DependencyInjector` and on the
    unchecked `MyClass`. The sequence gives last-write-wins a meaning over many
    calls, and it shows that the two registries answer every query alike for
    a caller that never passes null. */
module Replay {
  import opened Wrappers
  import opened JavaLang
  import DI = DependencyInjector
  import MC = MyClass

  /** One call `injectDependency(key, dependency)`. */
  datatype Injection<T> = Injection(key: JString, dependency: Option<T>)

  /** A call the checked injector accepts. */
  predicate NonNull<T>(call: Injection<T>) {
    call.key.Some? && call.dependency.Some?
  }

  /** The calls issued in order on the checked injector. A call that throws
      ends the sequence with its exception, as straight-line Java code with
      no `catch` does. In the source the calls before it have already taken
      effect; the `Failure` result carries only the exception, so that
      partly updated injector is not represented. */
  function InjectAll<T>(inj: DI.Injector<T>, calls: seq<Injection<T>>): (r: Result<DI.Injector<T>, DI.Error>)
    ensures r.Failure? <==> exists i :: 0 <= i < |calls| && !NonNull(calls[i])
    ensures r.Failure? ==> r.error == DI.IllegalArgument(DI.NullDependency)
    ensures r.Success? ==> r.value.scopes == inj.scopes
    decreases |calls|
  {
    if |calls| == 0 then Success(inj)
    else
      match DI.InjectDependency(inj, calls[0].key, calls[0].dependency)
      case Failure(e) => Failure(e)
      case Success(next) =>
        var r := InjectAll(next, calls[1..]);
        assert forall i :: 0 < i < |calls| ==> calls[i] == calls[1..][i - 1];
        r
  }

  /** The calls issued in order on the unchecked `MyClass`, which never throws. */
  function InjectAllUnchecked<T>(c: MC.Injector<T>, calls: seq<Injection<T>>): (r: MC.Injector<T>)
    ensures forall k :: MC.IsDependencyInjected(c, k) ==> MC.IsDependencyInjected(r, k)
    decreases |calls|
  {
    if |calls| == 0 then c
    else InjectAllUnchecked(MC.InjectDependency(c, calls[0].key, calls[0].dependency), calls[1..])
  }

  /** Call `i` is the last one of the sequence that names `key`. */
  ghost predicate IsLastAt<T>(calls: seq<Injection<T>>, key: JString, i: int) {
    && 0 <= i < |calls|
    && calls[i].key == key
    && forall j :: i < j < |calls| ==> calls[j].key != key
  }

  /** No call of the sequence names `key`. */
  ghost predicate Untouched<T>(calls: seq<Injection<T>>, key: JString) {
    forall j :: 0 <= j < |calls| ==> calls[j].key != key
  }

  /** A key that no call names reads as it did before the sequence. */
  lemma {:induction false} InjectAllKeepsUntouched<T>(inj: DI.Injector<T>, calls: seq<Injection<T>>, key: JString)
    requires InjectAll(inj, calls).Success?
    requires Untouched(calls, key)
    ensures DI.GetDependency(InjectAll(inj, calls).value, key) == DI.GetDependency(inj, key)
    decreases |calls|
  {
    if |calls| > 0 {
      var next := DI.InjectDependency(inj, calls[0].key, calls[0].dependency).value;
      assert Untouched(calls[1..], key) by {
        forall j | 0 <= j < |calls[1..]| ensures calls[1..][j].key != key {
          assert calls[1..][j] == calls[j + 1];
        }
      }
      InjectAllKeepsUntouched(next, calls[1..], key);
    }
  }

  /** Last write wins over a whole sequence: a key reads as the dependency of
      the last call that names it. */
  lemma {:induction false} InjectAllLastWriteWins<T>(inj: DI.Injector<T>, calls: seq<Injection<T>>, key: JString, i: int)
    requires InjectAll(inj, calls).Success?
    requires IsLastAt(calls, key, i)
    ensures calls[i].dependency.Some?
    ensures DI.GetDependency(InjectAll(inj, calls).value, key) == Success(calls[i].dependency.value)
    decreases |calls|
  {
    var next := DI.InjectDependency(inj, calls[0].key, calls[0].dependency).value;
    if i == 0 {
      assert Untouched(calls[1..], key) by {
        forall j | 0 <= j < |calls[1..]| ensures calls[1..][j].key != key {
          assert calls[1..][j] == calls[j + 1];
        }
      }
      InjectAllKeepsUntouched(next, calls[1..], key);
    } else {
      assert IsLastAt(calls[1..], key, i - 1) by {
        assert calls[1..][i - 1] == calls[i];
        forall j | i - 1 < j < |calls[1..]| ensures calls[1..][j].key != key {
          assert calls[1..][j] == calls[j + 1];
        }
      }
      InjectAllLastWriteWins(next, calls[1..], key, i - 1);
    }
  }

  /** The same for the unchecked registry, where a null dependency is stored too. */
  lemma {:induction false} UncheckedLastWriteWins<T>(c: MC.Injector<T>, calls: seq<Injection<T>>, key: JString, i: int)
    requires IsLastAt(calls, key, i)
    ensures MC.IsDependencyInjected(InjectAllUnchecked(c, calls), key)
    ensures MC.GetDependency(InjectAllUnchecked(c, calls), key) == calls[i].dependency
    decreases |calls|
  {
    var next := MC.InjectDependency(c, calls[0].key, calls[0].dependency);
    if i == 0 {
      assert Untouched(calls[1..], key) by {
        forall j | 0 <= j < |calls[1..]| ensures calls[1..][j].key != key {
          assert calls[1..][j] == calls[j + 1];
        }
      }
      UncheckedKeepsUntouched(next, calls[1..], key);
    } else {
      assert IsLastAt(calls[1..], key, i - 1) by {
        assert calls[1..][i - 1] == calls[i];
        forall j | i - 1 < j < |calls[1..]| ensures calls[1..][j].key != key {
          assert calls[1..][j] == calls[j + 1];
        }
      }
      UncheckedLastWriteWins(next, calls[1..], key, i - 1);
    }
  }

  /** A key that no call names reads as it did before the sequence, in the unchecked registry. */
  lemma {:induction false} UncheckedKeepsUntouched<T>(c: MC.Injector<T>, calls: seq<Injection<T>>, key: JString)
    requires Untouched(calls, key)
    ensures MC.GetDependency(InjectAllUnchecked(c, calls), key) == MC.GetDependency(c, key)
    ensures MC.IsDependencyInjected(InjectAllUnchecked(c, calls), key) == MC.IsDependencyInjected(c, key)
    decreases |calls|
  {
    if |calls| > 0 {
      var next := MC.InjectDependency(c, calls[0].key, calls[0].dependency);
      assert Untouched(calls[1..], key) by {
        forall j | 0 <= j < |calls[1..]| ensures calls[1..][j].key != key {
          assert calls[1..][j] == calls[j + 1];
        }
      }
      UncheckedKeepsUntouched(next, calls[1..], key);
    }
  }

  /** What the unchecked `getDependency` would return where the checked one
      returns or throws: the value, or null. */
  function AsNullable<T>(r: Result<T, DI.Error>): (o: Option<T>)
    ensures o.Some? <==> r.Success?
  {
    match r
    case Success(v) => Some(v)
    case Failure(_) => None
  }

  /** The two registries answer `isDependencyInjected` and `getDependency` alike for every key. */
  ghost predicate Agree<T>(c: MC.Injector<T>, inj: DI.Injector<T>) {
    forall k ::
      && MC.IsDependencyInjected(c, k) == DI.IsDependencyInjected(inj, k)
      && MC.GetDependency(c, k) == AsNullable(DI.GetDependency(inj, k))
  }

  /** Freshly constructed registries agree. */
  lemma EmptyAgree<T>()
    ensures Agree(MC.Empty<T>(), DI.Empty<T>())
  {
  }

  /** One accepted injection keeps the two registries in agreement. */
  lemma InjectKeepsAgreement<T>(c: MC.Injector<T>, inj: DI.Injector<T>, call: Injection<T>)
    requires Agree(c, inj)
    requires NonNull(call)
    ensures DI.InjectDependency(inj, call.key, call.dependency).Success?
    ensures Agree(MC.InjectDependency(c, call.key, call.dependency), DI.InjectDependency(inj, call.key, call.dependency).value)
  {
  }

  /** For a caller that never passes null, the checked registry accepts every
      call and answers every query as the unchecked one does. */
  lemma {:induction false} NonNullCallsAgree<T>(c: MC.Injector<T>, inj: DI.Injector<T>, calls: seq<Injection<T>>)
    requires Agree(c, inj)
    requires forall i :: 0 <= i < |calls| ==> NonNull(calls[i])
    ensures InjectAll(inj, calls).Success?
    ensures Agree(InjectAllUnchecked(c, calls), InjectAll(inj, calls).value)
    decreases |calls|
  {
    if |calls| > 0 {
      InjectKeepsAgreement(c, inj, calls[0]);
      var next := DI.InjectDependency(inj, calls[0].key, calls[0].dependency).value;
      assert forall i :: 0 <= i < |calls[1..]| ==> NonNull(calls[1..][i]) by {
        forall i | 0 <= i < |calls[1..]| ensures NonNull(calls[1..][i]) {
          assert calls[1..][i] == calls[i + 1];
        }
      }
      NonNullCallsAgree(MC.InjectDependency(c, calls[0].key, calls[0].dependency), next, calls[1..]);
    }
  }

  /** When the last call naming a key passes a null dependency, the checked
      registry throws on the sequence, while the unchecked one stores the
      null: the key is injected and reads as null. */
  lemma NullCallDiverges<T>(c: MC.Injector<T>, inj: DI.Injector<T>, calls: seq<Injection<T>>, key: JString, i: int)
    requires IsLastAt(calls, key, i) && calls[i].dependency == None
    ensures InjectAll(inj, calls) == Failure(DI.IllegalArgument(DI.NullDependency))
    ensures MC.IsDependencyInjected(InjectAllUnchecked(c, calls), key)
    ensures MC.GetDependency(InjectAllUnchecked(c, calls), key) == None
  {
    UncheckedLastWriteWins(c, calls, key, i);
  }
}
