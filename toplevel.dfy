/** `TopLevelMapping._impl`: the validation pass over a schema's children.
    Each child, in declared order, either takes its key out of a working
    copy of the input mapping or, when it is a `toplevel` child, receives
    the whole working mapping; its coercion `callback` runs, successes are
    stored under the child's `_name`, and failures are collected with the
    child's position instead of stopping the pass. Keys no child consumes
    are ignored. */
module TopLevelMapping {
  import opened Wrappers
  import opened Schema

  /** What the coercion of one child receives: `colander.null` for an
      absent key, the key's value, or the whole working mapping. */
  datatype SubValue<V> = Absent | Present(value: V) | Whole(rest: map<string, V>)

  /** One entry of the aggregate `Invalid`: a child's error at its position
      (`error.add(e, num)`). */
  datatype Positioned<E> = Positioned(pos: nat, error: E)

  /** The keys the non-toplevel children in `cs` pop from the working
      mapping. */
  function Popped(cs: seq<Node>): set<string> {
    if cs == [] then {}
    else Popped(cs[..|cs| - 1]) + if cs[|cs| - 1].toplevel then {} else {cs[|cs| - 1].name}
  }

  /** A key is popped exactly when some non-toplevel child names it. */
  lemma {:induction false} PoppedNames(cs: seq<Node>)
    ensures forall name :: name in Popped(cs) <==> exists j :: 0 <= j < |cs| && !cs[j].toplevel && cs[j].name == name
  {
    if cs != [] {
      var init := cs[..|cs| - 1];
      PoppedNames(init);
      assert forall j :: 0 <= j < |init| ==> init[j] == cs[j];
    }
  }

  /** What child `i` receives: the input minus the keys its predecessors
      popped, whole for a toplevel child, or the one key it names. */
  function Input<V>(children: seq<Node>, value: map<string, V>, i: nat): SubValue<V>
    requires i < |children|
  {
    var working := value - Popped(children[..i]);
    var c := children[i];
    if c.toplevel then Whole(working)
    else if c.name in working then Present(working[c.name])
    else Absent
  }

  /** The coercion outcome of child `i`. */
  function Outcome<V, A, E>(children: seq<Node>, value: map<string, V>,
                            callback: (Node, SubValue<V>) -> Result<A, E>, i: nat): Result<A, E>
    requires i < |children|
  {
    callback(children[i], Input(children, value, i))
  }

  /** The failures among the first `n` children, in declared order. */
  function Errors<V, A, E>(children: seq<Node>, value: map<string, V>,
                           callback: (Node, SubValue<V>) -> Result<A, E>, n: nat): seq<Positioned<E>>
    requires n <= |children|
  {
    if n == 0 then []
    else
      var prev := Errors(children, value, callback, n - 1);
      match Outcome(children, value, callback, n - 1)
      case Success(_) => prev
      case Failure(e) => prev + [Positioned(n - 1, e)]
  }

  /** The result mapping after the first `n` children. */
  function Results<V, A, E>(children: seq<Node>, value: map<string, V>,
                            callback: (Node, SubValue<V>) -> Result<A, E>, n: nat): map<string, A>
    requires n <= |children|
  {
    if n == 0 then map[]
    else
      var prev := Results(children, value, callback, n - 1);
      match Outcome(children, value, callback, n - 1)
      case Success(a) => prev[children[n - 1].internalName := a]
      case Failure(_) => prev
  }

  /** Every entry of the aggregate error is a child that failed, with the
      error that child raised, at that child's position. */
  lemma {:induction false} ErrorsSound<V, A, E>(children: seq<Node>, value: map<string, V>,
                                                callback: (Node, SubValue<V>) -> Result<A, E>, n: nat)
    requires n <= |children|
    ensures forall j :: 0 <= j < |Errors(children, value, callback, n)| ==>
      (var err := Errors(children, value, callback, n)[j];
       err.pos < n && Outcome(children, value, callback, err.pos) == Failure(err.error))
  {
    if n > 0 {
      ErrorsSound(children, value, callback, n - 1);
    }
  }

  /** Positions strictly increase, so no child has two entries. */
  lemma {:induction false} ErrorsOrdered<V, A, E>(children: seq<Node>, value: map<string, V>,
                                                  callback: (Node, SubValue<V>) -> Result<A, E>, n: nat)
    requires n <= |children|
    ensures forall j, k :: 0 <= j < k < |Errors(children, value, callback, n)| ==>
      Errors(children, value, callback, n)[j].pos < Errors(children, value, callback, n)[k].pos
  {
    if n > 0 {
      ErrorsOrdered(children, value, callback, n - 1);
      ErrorsSound(children, value, callback, n - 1);
    }
  }

  /** Some entry of `errs` is tagged with position `i`. */
  predicate HasEntry<E>(errs: seq<Positioned<E>>, i: int) {
    exists j :: 0 <= j < |errs| && errs[j].pos == i
  }

  /** Every failed child has an entry: a failure does not stop the pass. */
  lemma {:induction false} ErrorsComplete<V, A, E>(children: seq<Node>, value: map<string, V>,
                                                   callback: (Node, SubValue<V>) -> Result<A, E>, n: nat)
    requires n <= |children|
    ensures forall i :: 0 <= i < n && Outcome(children, value, callback, i).Failure? ==>
      HasEntry(Errors(children, value, callback, n), i)
  {
    if n > 0 {
      ErrorsComplete(children, value, callback, n - 1);
      var prev := Errors(children, value, callback, n - 1);
      var errs := Errors(children, value, callback, n);
      assert forall j :: 0 <= j < |prev| ==> errs[j] == prev[j];
      if Outcome(children, value, callback, n - 1).Failure? {
        assert errs[|prev|].pos == n - 1;
      }
    }
  }

  /** The aggregate error is empty exactly when every child succeeded. */
  lemma ErrorsEmpty<V, A, E>(children: seq<Node>, value: map<string, V>,
                             callback: (Node, SubValue<V>) -> Result<A, E>, n: nat)
    requires n <= |children|
    ensures |Errors(children, value, callback, n)| == 0 <==>
      forall i :: 0 <= i < n ==> Outcome(children, value, callback, i).Success?
  {
    ErrorsSound(children, value, callback, n);
    ErrorsComplete(children, value, callback, n);
  }

  /** The result holds a key for the `_name` of each successful child and
      no other key. */
  lemma {:induction false} ResultKeys<V, A, E>(children: seq<Node>, value: map<string, V>,
                                               callback: (Node, SubValue<V>) -> Result<A, E>, n: nat)
    requires n <= |children|
    ensures forall name :: name in Results(children, value, callback, n) <==>
      exists i :: 0 <= i < n && children[i].internalName == name && Outcome(children, value, callback, i).Success?
  {
    if n > 0 {
      ResultKeys(children, value, callback, n - 1);
    }
  }

  /** Each successful child's value is stored under its `_name`, unless a
      later successful child with the same `_name` overwrote it. */
  lemma {:induction false} ResultValues<V, A, E>(children: seq<Node>, value: map<string, V>,
                                                 callback: (Node, SubValue<V>) -> Result<A, E>, n: nat, i: nat)
    requires i < n <= |children|
    requires Outcome(children, value, callback, i).Success?
    requires forall j :: i < j < n && Outcome(children, value, callback, j).Success? ==>
      children[j].internalName != children[i].internalName
    ensures children[i].internalName in Results(children, value, callback, n)
    ensures Results(children, value, callback, n)[children[i].internalName] == Outcome(children, value, callback, i).value
  {
    if i < n - 1 {
      ResultValues(children, value, callback, n - 1, i);
    }
  }

  /** The outcome of the pass: the aggregate error when any child failed,
      the result mapping otherwise. */
  function Deserialize<V, A, E>(children: seq<Node>, value: map<string, V>,
                                callback: (Node, SubValue<V>) -> Result<A, E>): Result<map<string, A>, seq<Positioned<E>>>
  {
    var errs := Errors(children, value, callback, |children|);
    if |errs| > 0 then Failure(errs) else Success(Results(children, value, callback, |children|))
  }

  /** The pass raises exactly when at least one child failed, and the
      error then holds one entry per failed child; otherwise it returns the
      result mapping. */
  lemma FailsIffSomeChildFails<V, A, E>(children: seq<Node>, value: map<string, V>,
                                        callback: (Node, SubValue<V>) -> Result<A, E>)
    ensures Deserialize(children, value, callback).Failure? <==>
      exists i :: 0 <= i < |children| && Outcome(children, value, callback, i).Failure?
    ensures Deserialize(children, value, callback).Failure? ==>
      Deserialize(children, value, callback).error == Errors(children, value, callback, |children|)
    ensures Deserialize(children, value, callback).Success? ==>
      Deserialize(children, value, callback).value == Results(children, value, callback, |children|)
  {
    ErrorsEmpty(children, value, callback, |children|);
  }

  /** A key is still in the working mapping for child `i` exactly when no
      earlier non-toplevel child has that key as its name. */
  predicate Unclaimed(children: seq<Node>, i: nat, key: string)
    requires i <= |children|
  {
    forall j :: 0 <= j < i && !children[j].toplevel ==> children[j].name != key
  }

  /** A non-toplevel child gets its key's value when the key is present and
      no earlier child popped it, and `colander.null` otherwise; a toplevel
      child gets every key no earlier child popped, with its value. */
  lemma InputRule<V>(children: seq<Node>, value: map<string, V>, i: nat)
    requires i < |children|
    ensures !children[i].toplevel ==>
      (Input(children, value, i).Present? <==> children[i].name in value && Unclaimed(children, i, children[i].name))
    ensures !children[i].toplevel ==> !Input(children, value, i).Whole?
    ensures Input(children, value, i).Present? ==> Input(children, value, i).value == value[children[i].name]
    ensures children[i].toplevel ==>
      (Input(children, value, i).Whole? &&
       forall k :: (k in Input(children, value, i).rest <==> k in value && Unclaimed(children, i, k)) &&
         (k in Input(children, value, i).rest ==> Input(children, value, i).rest[k] == value[k]))
  {
    PoppedNames(children[..i]);
    assert forall j :: 0 <= j < i ==> children[..i][j] == children[j];
  }

  /** Keys no child consumes never matter: with no toplevel child, adding
      a key that no child names leaves the outcome unchanged. */
  lemma LeftoverKeysIgnored<V, A, E>(children: seq<Node>, value: map<string, V>,
                                     callback: (Node, SubValue<V>) -> Result<A, E>, key: string, extra: V)
    requires forall i :: 0 <= i < |children| ==> !children[i].toplevel && children[i].name != key
    ensures Deserialize(children, value[key := extra], callback) == Deserialize(children, value, callback)
  {
    var more := value[key := extra];
    forall i | 0 <= i < |children| ensures Input(children, more, i) == Input(children, value, i) {
      InputRule(children, more, i);
      InputRule(children, value, i);
    }
    SameInputs(children, more, value, callback, |children|);
  }

  lemma {:induction false} SameInputs<V, A, E>(children: seq<Node>, v1: map<string, V>, v2: map<string, V>,
                                               callback: (Node, SubValue<V>) -> Result<A, E>, n: nat)
    requires n <= |children|
    requires forall i :: 0 <= i < n ==> Input(children, v1, i) == Input(children, v2, i)
    ensures Errors(children, v1, callback, n) == Errors(children, v2, callback, n)
    ensures Results(children, v1, callback, n) == Results(children, v2, callback, n)
  {
    if n > 0 {
      SameInputs(children, v1, v2, callback, n - 1);
    }
  }

  /** When every child succeeds and the `_name`s are distinct, the result
      has exactly one entry per child, holding that child's value. */
  lemma OneEntryPerChild<V, A, E>(children: seq<Node>, value: map<string, V>,
                                  callback: (Node, SubValue<V>) -> Result<A, E>)
    requires forall i :: 0 <= i < |children| ==> Outcome(children, value, callback, i).Success?
    requires forall i, j :: 0 <= i < j < |children| ==> children[i].internalName != children[j].internalName
    ensures Deserialize(children, value, callback).Success?
    ensures forall name :: name in Deserialize(children, value, callback).value <==>
      exists i :: 0 <= i < |children| && children[i].internalName == name
    ensures forall i :: 0 <= i < |children| ==>
      Deserialize(children, value, callback).value[children[i].internalName] == Outcome(children, value, callback, i).value
  {
    FailsIffSomeChildFails(children, value, callback);
    ResultKeys(children, value, callback, |children|);
    forall i | 0 <= i < |children|
      ensures Results(children, value, callback, |children|)[children[i].internalName] == Outcome(children, value, callback, i).value
    {
      ResultValues(children, value, callback, |children|, i);
    }
  }

  /** A required integer field whose coercion accepts only `"1"`: a
      missing key is "Required", any other text "not a number". */
  function RequiredOne(n: Node, sv: SubValue<string>): Result<int, string> {
    match sv
    case Absent => Failure("Required")
    case Present(s) => if s == "1" then Success(1) else Failure("not a number")
    case Whole(_) => Failure("not a number")
  }

  /** Fields `a`, `b`, `c` in that order; `b` is missing and `c` is
      invalid. The pass still reaches `c` and raises one error holding both
      failures, at positions 1 and 2. */
  lemma MissingAndInvalid()
    ensures Deserialize([Node("a", "a", 0, false), Node("b", "b", 1, false), Node("c", "c", 2, false)],
                        map["a" := "1", "c" := "x"], RequiredOne)
         == Failure([Positioned(1, "Required"), Positioned(2, "not a number")])
  {
    var cs := [Node("a", "a", 0, false), Node("b", "b", 1, false), Node("c", "c", 2, false)];
    var value := map["a" := "1", "c" := "x"];
    assert cs[..0] == [] && cs[..1] == [cs[0]] && cs[..2] == [cs[0], cs[1]];
    assert [cs[0], cs[1]][..1] == [cs[0]];
    assert Input(cs, value, 0) == Present("1");
    assert Input(cs, value, 1) == Absent;
    assert Input(cs, value, 2) == Present("x");
    assert Errors(cs, value, RequiredOne, 1) == [];
    assert Errors(cs, value, RequiredOne, 2) == [Positioned(1, "Required")];
    assert Errors(cs, value, RequiredOne, 3) == [Positioned(1, "Required"), Positioned(2, "not a number")];
  }

  /** One iteration of the loop: from the working mapping before child
      `num`, the value it hands over and the working mapping after it. */
  lemma Step<V>(children: seq<Node>, value: map<string, V>, num: nat, working: map<string, V>)
    requires num < |children|
    requires working == value - Popped(children[..num])
    ensures Input(children, value, num) ==
      if children[num].toplevel then Whole(working)
      else if children[num].name in working then Present(working[children[num].name])
      else Absent
    ensures value - Popped(children[..num + 1]) ==
      if children[num].toplevel then working else working - {children[num].name}
  {
    assert children[..num + 1][..num] == children[..num];
  }

  /** `working.pop(name, colander.null)`: the key's value, or `Absent`,
      and the mapping without the key. */
  method Pop<V>(working: map<string, V>, name: string) returns (subval: SubValue<V>, rest: map<string, V>)
    ensures subval == if name in working then Present(working[name]) else Absent
    ensures rest == working - {name}
    ensures name !in rest && forall k :: k in working && k != name ==> k in rest && rest[k] == working[k]
  {
    if name in working {
      subval := Present(working[name]);
    } else {
      subval := Absent;
    }
    rest := working - {name};
  }

  /** The coercion calls the pass makes for the first `n` children. */
  function Trace<V>(children: seq<Node>, value: map<string, V>, n: nat): seq<(Node, SubValue<V>)>
    requires n <= |children|
  {
    if n == 0 then [] else Trace(children, value, n - 1) + [(children[n - 1], Input(children, value, n - 1))]
  }

  /** One call per child, in declared order, each with that child's input. */
  lemma {:induction false} TraceAt<V>(children: seq<Node>, value: map<string, V>, n: nat)
    requires n <= |children|
    ensures |Trace(children, value, n)| == n
    ensures forall i :: 0 <= i < n ==> Trace(children, value, n)[i] == (children[i], Input(children, value, i))
  {
    if n > 0 {
      TraceAt(children, value, n - 1);
    }
  }

  /** The `try`/`except` around one child's coercion: a value goes into the
      result under the child's `_name`, an `Invalid` into the error at the
      child's position. */
  method Record<A, E>(outcome: Result<A, E>, name: string, num: nat,
                      result: map<string, A>, error: seq<Positioned<E>>)
    returns (result': map<string, A>, error': seq<Positioned<E>>)
    ensures outcome.Success? ==> result' == result[name := outcome.value] && error' == error
    ensures outcome.Failure? ==> result' == result && error' == error + [Positioned(num, outcome.error)]
  {
    match outcome {
      case Success(a) =>
        result', error' := result[name := a], error;
      case Failure(e) =>
        result', error' := result, error + [Positioned(num, e)];
    }
  }

  /** One turn of the loop for child `num`: it takes its input from the
      working mapping (popping its key unless it is a toplevel child), its
      coercion runs once, and the outcome is recorded. */
  method Visit<V, A, E>(children: seq<Node>, value: map<string, V>,
                        callback: (Node, SubValue<V>) -> Result<A, E>, num: nat,
                        working: map<string, V>, result: map<string, A>, error: seq<Positioned<E>>)
    returns (working': map<string, V>, result': map<string, A>, error': seq<Positioned<E>>,
             ghost call: (Node, SubValue<V>))
    requires num < |children|
    requires working == value - Popped(children[..num])
    requires result == Results(children, value, callback, num)
    requires error == Errors(children, value, callback, num)
    ensures working' == value - Popped(children[..num + 1])
    ensures result' == Results(children, value, callback, num + 1)
    ensures error' == Errors(children, value, callback, num + 1)
    ensures call == (children[num], Input(children, value, num))
  {
    var subnode := children[num];
    Step(children, value, num, working);
    var subval: SubValue<V>;
    if subnode.toplevel {
      subval, working' := Whole(working), working;
    } else {
      subval, working' := Pop(working, subnode.name);
    }
    call := (subnode, subval);
    result', error' := Record(callback(subnode, subval), subnode.internalName, num, result, error);
  }

  /** `TopLevelMapping._impl(node, value, callback)` with `value` already a
      mapping. `calls` records every invocation of `callback`. */
  method Impl<V, A, E>(children: seq<Node>, value: map<string, V>,
                       callback: (Node, SubValue<V>) -> Result<A, E>)
    returns (r: Result<map<string, A>, seq<Positioned<E>>>, ghost calls: seq<(Node, SubValue<V>)>)
    ensures r == Deserialize(children, value, callback)
    ensures |calls| == |children|
    ensures forall i :: 0 <= i < |children| ==> calls[i] == (children[i], Input(children, value, i))
  {
    var working := value;
    var error: seq<Positioned<E>> := [];
    var result: map<string, A> := map[];
    calls := [];
    var num := 0;
    while num < |children|
      invariant num <= |children|
      invariant working == value - Popped(children[..num])
      invariant error == Errors(children, value, callback, num)
      invariant result == Results(children, value, callback, num)
      invariant calls == Trace(children, value, num)
    {
      ghost var call;
      working, result, error, call := Visit(children, value, callback, num, working, result, error);
      calls := calls + [call];
      num := num + 1;
    }
    TraceAt(children, value, |children|);
    if |error| > 0 {
      r := Failure(error);
    } else {
      r := Success(result);
    }
  }
}
