/**
 * The authority's ephemeral token store: a map from random id to a one-shot
 * entry whose `consume` deletes the entry, cancels its expiry timer and hands
 * back the value. Expiry calls the same `consume`. The random id is supplied
 * by the caller (it stands for `randomBytes(keylength)` in base64) and must be
 * fresh; the timer is recorded as pending, and its firing is the explicit step
 * `Expire`.
 */
module TokenStore {
  import opened Wrappers

  type Id = string

  const DefaultKeyLength: int := 72
  const DefaultLifetime: int := 10000

  /** The `options` object of `create`; None in a field is a property left undefined. */
  datatype CreateOptions = CreateOptions(keylength: Option<int>, lifetime: Option<int>)

  datatype Settings = Settings(keylength: int, lifetime: int)

  /**
   * The settings `create` works with: without an options object the default
   * object, and in a given object each undefined property takes its default.
   */
  function Resolve(options: Option<CreateOptions>): (s: Settings)
    ensures options.None? ==> s == Settings(DefaultKeyLength, DefaultLifetime)
    ensures options.Some? ==>
      && s.keylength == (if options.value.keylength.Some? then options.value.keylength.value else DefaultKeyLength)
      && s.lifetime == (if options.value.lifetime.Some? then options.value.lifetime.value else DefaultLifetime)
  {
    match options
    case None => Settings(DefaultKeyLength, DefaultLifetime)
    case Some(o) => Settings(o.keylength.GetOr(DefaultKeyLength), o.lifetime.GetOr(DefaultLifetime))
  }

  /** Leaving every property undefined is the same as passing no options at all. */
  lemma EmptyOptionsAreDefaults()
    ensures Resolve(Some(CreateOptions(None, None))) == Resolve(None)
  {
  }

  class Store<V> {
    /** `_tokens`: the live entries. */
    var tokens: map<Id, V>
    /** The pending expiry timer of each live entry, with the delay it was set for. */
    var timers: map<Id, int>
    /** Every id ever handed out by `Create`. */
    ghost var issued: set<Id>
    /** Every consumption that returned a value, in order (expiries included). */
    ghost var log: seq<Id>

    /**
     * A live entry has exactly one pending timer; consumed ids are gone for
     * good; and no id has been consumed successfully twice.
     */
    ghost predicate Valid()
      reads this
    {
      && timers.Keys == tokens.Keys
      && tokens.Keys <= issued
      && (forall i :: 0 <= i < |log| ==> log[i] in issued && log[i] !in tokens)
      && (forall i, j :: 0 <= i < j < |log| ==> log[i] != log[j])
    }

    constructor ()
      ensures Valid()
      ensures tokens == map[] && timers == map[] && issued == {} && log == []
    {
      tokens := map[];
      timers := map[];
      issued := {};
      log := [];
    }

    /**
     * `create(value, options)`: registers `value` under the fresh id, sets its
     * expiry timer to the resolved lifetime, and returns the id.
     */
    method Create(value: V, options: Option<CreateOptions>, id: Id) returns (r: Id)
      requires Valid()
      requires id !in issued
      modifies this
      ensures Valid()
      ensures r == id
      ensures tokens == old(tokens)[id := value]
      ensures timers == old(timers)[id := Resolve(options).lifetime]
      ensures issued == old(issued) + {id} && log == old(log)
    {
      var settings := Resolve(options);
      timers := timers[id := settings.lifetime];
      tokens := tokens[id := value];
      issued := issued + {id};
      r := id;
    }

    /**
     * `consume(id)`: for a live id, removes the entry, cancels its timer and
     * returns its value; for any other id returns None and changes nothing.
     */
    method Consume(id: Id) returns (r: Option<V>)
      requires Valid()
      modifies this
      ensures Valid()
      ensures id in old(tokens) ==>
        && r == Some(old(tokens)[id])
        && tokens == old(tokens) - {id}
        && timers == old(timers) - {id}
        && log == old(log) + [id]
      ensures id !in old(tokens) ==>
        r.None? && tokens == old(tokens) && timers == old(timers) && log == old(log)
      ensures id !in tokens
      ensures issued == old(issued)
    {
      if id in tokens {
        r := Some(tokens[id]);
        tokens := tokens - {id};
        timers := timers - {id};
        log := log + [id];
      } else {
        r := None;
      }
    }

    /**
     * The expiry timer of `id` fires: its callback is `consume(id)`, whose
     * value nobody receives. Once the entry is consumed the timer is cancelled,
     * so firing it then is a no-op, as the ensures show.
     */
    method Expire(id: Id)
      requires Valid()
      modifies this
      ensures Valid()
      ensures tokens == old(tokens) - {id} && timers == old(timers) - {id}
      ensures log == if id in old(tokens) then old(log) + [id] else old(log)
      ensures issued == old(issued)
    {
      var _ := Consume(id);
    }
  }

  /**
   * One token's life: the first consumption receives the value, a second and
   * a late expiry see nothing; a token that expires first is never delivered.
   */
  method SingleUse<V>(store: Store<V>, value: V, id: Id, other: Id, otherValue: V)
    returns (first: Option<V>, second: Option<V>, late: Option<V>)
    requires store.Valid() && id !in store.issued && other !in store.issued && id != other
    modifies store
    ensures store.Valid()
    ensures first == Some(value) && second.None? && late.None?
    ensures id !in store.tokens && other !in store.tokens
  {
    var _ := store.Create(value, None, id);
    first := store.Consume(id);
    second := store.Consume(id);
    store.Expire(id);

    var _ := store.Create(otherValue, Some(CreateOptions(None, Some(50))), other);
    assert store.timers[other] == 50;
    store.Expire(other);
    late := store.Consume(other);
  }
}
