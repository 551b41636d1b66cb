/** What the decorators do with a validation result. `validate` turns an
    `Invalid` into `BadParams(e.asdict())`; on success the cleaned values
    are merged with the handler's keyword arguments, in one order for
    `query_string`/`form`/`params`/`jsonbody` (the caller's keyword
    arguments win) and in the other for `rparams` (the cleaned values
    win). The request object and the handler call stay outside the model:
    the fetched input and the schema's deserialisation are parameters. */
module Decorators {
  import opened Wrappers

  /** The error the decorators raise, carrying the structured detail. */
  datatype BadParams<D> = BadParams(detail: D)

  /** `validate(schema, data)`: the cleaned mapping, or `BadParams` holding
      `asdict` of the aggregate error. */
  function Validate<A, E, D>(deserialized: Result<A, E>, asdict: E -> D): (r: Result<A, BadParams<D>>)
    ensures r.Success? <==> deserialized.Success?
    ensures r.Success? ==> r.value == deserialized.value
    ensures r.Failure? ==> r.error == BadParams(asdict(deserialized.error))
  {
    match deserialized
    case Success(a) => Success(a)
    case Failure(e) => Failure(BadParams(asdict(e)))
  }

  /** `clean_data.update(kwargs)`: the arguments `_make_validator`'s
      wrapper passes on. */
  function CallerWins<V>(clean: map<string, V>, kwargs: map<string, V>): (args: map<string, V>)
    ensures args.Keys == clean.Keys + kwargs.Keys
    ensures forall k :: k in kwargs ==> args[k] == kwargs[k]
    ensures forall k :: k in clean && k !in kwargs ==> args[k] == clean[k]
  {
    clean + kwargs
  }

  /** `kwargs.update(clean_data)`: the arguments `rparams`'s wrapper passes
      on. */
  function CleanWins<V>(kwargs: map<string, V>, clean: map<string, V>): (args: map<string, V>)
    ensures args.Keys == clean.Keys + kwargs.Keys
    ensures forall k :: k in clean ==> args[k] == clean[k]
    ensures forall k :: k in kwargs && k !in clean ==> args[k] == kwargs[k]
  {
    kwargs + clean
  }

  /** The two merge orders differ only on keys both sides hold. */
  lemma MergeOrdersAgree<V>(clean: map<string, V>, kwargs: map<string, V>)
    ensures CallerWins(clean, kwargs).Keys == CleanWins(kwargs, clean).Keys
    ensures forall k :: k in clean && k in kwargs && clean[k] != kwargs[k] ==>
      CallerWins(clean, kwargs)[k] != CleanWins(kwargs, clean)[k]
    ensures (forall k :: k in clean && k in kwargs ==> clean[k] == kwargs[k]) ==>
      CallerWins(clean, kwargs) == CleanWins(kwargs, clean)
  {
  }

  /** One call of a `_make_validator` wrapper: validate the fetched input,
      then pass the cleaned values overridden by the call's own keyword
      arguments. */
  function RequestCall<V, E, D>(schema: map<string, V> -> Result<map<string, V>, E>, asdict: E -> D,
                                fetched: map<string, V>, kwargs: map<string, V>): (r: Result<map<string, V>, BadParams<D>>)
    ensures schema(fetched).Failure? <==> r.Failure?
    ensures r.Failure? ==> r.error == BadParams(asdict(schema(fetched).error))
    ensures r.Success? ==>
      (r.value.Keys == schema(fetched).value.Keys + kwargs.Keys &&
       forall k :: k in r.value ==> r.value[k] == if k in kwargs then kwargs[k] else schema(fetched).value[k])
  {
    match Validate(schema(fetched), asdict)
    case Failure(e) => Failure(e)
    case Success(clean) => Success(CallerWins(clean, kwargs))
  }

  /** One call of an `rparams` wrapper: the handler's own keyword arguments
      are validated and the cleaned values replace them. */
  function RouteCall<V, E, D>(schema: map<string, V> -> Result<map<string, V>, E>, asdict: E -> D,
                              kwargs: map<string, V>): (r: Result<map<string, V>, BadParams<D>>)
    ensures schema(kwargs).Failure? <==> r.Failure?
    ensures r.Failure? ==> r.error == BadParams(asdict(schema(kwargs).error))
    ensures r.Success? ==>
      (r.value.Keys == schema(kwargs).value.Keys + kwargs.Keys &&
       forall k :: k in r.value ==> r.value[k] == if k in schema(kwargs).value then schema(kwargs).value[k] else kwargs[k])
  {
    match Validate(schema(kwargs), asdict)
    case Failure(e) => Failure(e)
    case Success(clean) => Success(CleanWins(kwargs, clean))
  }
}
