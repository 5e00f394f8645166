/**
 * What the request handlers share: the decoded request, the status a
 * handler sets on its event, and the world a handler acts on — the
 * registry (`$api->rms`, which holds the store) and the current visitor
 * (`$api->user`).
 */
module Events {
  import opened Outcomes
  import opened Values
  import Registry
  import Sessions

  /** `$event->request`: the decoded request parameters. */
  type Request = map<string, Value>

  /** `$event->request[$key] ?? null`; also what a missing key reads as. */
  function Param(req: Request, key: string): (v: Value)
    ensures key !in req ==> v == Null
    ensures key in req ==> v == req[key]
  {
    if key in req then req[key] else Null
  }

  /** `isset($event->request[$key])`. */
  predicate IsSet(req: Request, key: string) {
    Param(req, key) != Null
  }

  /** The key `findUser` receives: under strict types only an integer or a string. */
  function LookupKey(v: Value): (k: Option<Registry.Key>)
    ensures k.Some? <==> v.Int? || v.Str?
    ensures k.Some? ==> Registry.KeyValue(k.value) == v
  {
    match v
    case Int(i) => Some(Registry.IntKey(i))
    case Str(s) => Some(Registry.StrKey(s))
    case _ => None
  }

  /** The status a handler sets; `Unset` when it sets none. */
  datatype Status = Unset | Success | BadRequest | Unauthorized | Conflict | ServerError

  /** The registry, with the store, and the current visitor. */
  datatype World = World(env: Registry.Env, cur: Sessions.Current)
}
