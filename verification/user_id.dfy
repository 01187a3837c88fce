/** The browser user id (lib/userId.ts): an id kept in local storage under a
    fixed key, created on first use. On the server there is no `window` and
    nothing is read or stored. The clock (`Date.now`) and the random part
    (`Math.random().toString(36).substr(2, 9)`) are inputs. */
module UserId {
  import opened Text

  const StorageKey: string := "podcast_user_id"
  const IdPrefix: string := "user_"

  /** Where the code runs: on the server, or in a browser with its local
      storage. */
  datatype Env = Server | Client(storage: map<string, string>)

  /** `generateUserId` for the given clock reading and random text. */
  function GenerateUserId(now: nat, random: string): (id: string)
    ensures StartsWith(id, IdPrefix) && |id| > |IdPrefix|
    ensures id == IdPrefix + NatToString(now) + "_" + random
  {
    var id := IdPrefix + NatToString(now) + "_" + random;
    assert id[..|IdPrefix|] == IdPrefix;
    id
  }

  /** The id returned and the environment afterwards. */
  datatype Got = Got(id: string, env: Env)

  /** `getItem` treats a missing key and an empty value alike as absent. */
  predicate HasStoredId(storage: map<string, string>) {
    StorageKey in storage && storage[StorageKey] != []
  }

  /** `getUserId`, given the id that `generateUserId` would produce now. */
  function GetUserId(env: Env, generated: string): (g: Got)
    ensures env.Server? ==> g == Got("", Server)
    ensures env.Client? && HasStoredId(env.storage) ==> g == Got(env.storage[StorageKey], env)
    ensures env.Client? && !HasStoredId(env.storage) ==>
      g == Got(generated, Client(env.storage[StorageKey := generated]))
    ensures env.Client? ==>
      && g.env.Client? && g.env.storage.Keys == env.storage.Keys + {StorageKey}
      && forall k :: k in env.storage && k != StorageKey ==> g.env.storage[k] == env.storage[k]
  {
    match env
    case Server => Got("", Server)
    case Client(storage) =>
      if HasStoredId(storage) then Got(storage[StorageKey], env)
      else Got(generated, Client(storage[StorageKey := generated]))
  }

  /** `setUserId`: stores `id` on the client and does nothing on the server. */
  function SetUserId(env: Env, id: string): (e: Env)
    ensures env.Server? ==> e == Server
    ensures env.Client? ==> e == Client(env.storage[StorageKey := id])
  {
    match env
    case Server => Server
    case Client(storage) => Client(storage[StorageKey := id])
  }

  /** Asking twice gives the same id, and the second call writes nothing,
      whatever the clock and the random source give the second time. */
  lemma GetTwiceSameId(env: Env, now1: nat, random1: string, now2: nat, random2: string)
    ensures var first := GetUserId(env, GenerateUserId(now1, random1));
      var second := GetUserId(first.env, GenerateUserId(now2, random2));
      second.id == first.id && second.env == first.env
  {
  }

  /** After `setUserId(u)` with a non-empty `u`, `getUserId` on the client
      returns `u` without writing; with an empty `u` it makes a fresh id. */
  lemma SetThenGet(storage: map<string, string>, u: string, now: nat, random: string)
    ensures var g := GetUserId(SetUserId(Client(storage), u), GenerateUserId(now, random));
      && (u != [] ==> g.id == u && g.env == Client(storage[StorageKey := u]))
      && (u == [] ==> g.id == GenerateUserId(now, random))
  {
  }
}
