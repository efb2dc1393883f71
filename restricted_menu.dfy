/** The ActivatorRestrictedMenu object: the site and network option stores it
    reads and writes, and its public and private operations as methods. The
    protected callback is represented only by a count of its invocations. */
module Admin {
  import opened AccessRecord

  class ActivatorRestrictedMenu {
    /** The option key under which the record is stored. */
    const optionKey: string
    /** The site options (get_option / update_option). */
    var site: map<string, Record>
    /** The network options (get_site_option / update_site_option). */
    var network: map<string, Record>
    /** How many times the allowed-callback has been invoked. */
    ghost var callbackRuns: nat

    constructor (optionKey: string, site: map<string, Record>, network: map<string, Record>)
      ensures this.optionKey == optionKey
      ensures this.site == site && this.network == network
      ensures callbackRuns == 0
    {
      this.optionKey := optionKey;
      this.site := site;
      this.network := network;
      callbackRuns := 0;
    }

    /** The record get_data returns in this environment. */
    function Stored(env: Env): (r: Record)
      reads this
      ensures UsesNetwork(env) && optionKey in network ==> r == network[optionKey]
      ensures !UsesNetwork(env) && optionKey in site ==> r == site[optionKey]
      ensures optionKey !in (if UsesNetwork(env) then network else site) ==> r == Unset
    {
      Load(if UsesNetwork(env) then network else site, optionKey)
    }

    /** The stores now hold `rec` under the option key in the network store
        when `toNetwork`, in the site store otherwise, and are otherwise as
        given. */
    ghost predicate Wrote(site0: map<string, Record>, network0: map<string, Record>,
                          toNetwork: bool, rec: Record)
      reads this
      ensures Wrote(site0, network0, toNetwork, rec) ==>
                var written := if toNetwork then network else site;
                optionKey in written && written[optionKey] == rec
      ensures Wrote(site0, network0, toNetwork, rec) ==>
                (if toNetwork then site == site0 else network == network0)
      ensures Wrote(site0, network0, toNetwork, rec) ==>
                forall k :: k != optionKey ==>
                  (k in site <==> k in site0) && (k in network <==> k in network0)
    {
      if toNetwork then network == network0[optionKey := rec] && site == site0
      else site == site0[optionKey := rec] && network == network0
    }

    /** on_activation: the current user becomes the activator with an empty
        allow-list, overwriting whatever was stored, in the network store iff
        the installation is multisite and the activation is network-wide. */
    method OnActivation(networkWide: bool, env: Env)
      modifies this`site, this`network
      ensures Wrote(old(site), old(network), env.multisite && networkWide,
                    Record(env.currentUser, []))
      ensures networkWide == env.networkActive ==> Stored(env) == Record(env.currentUser, [])
    {
      var data := Record(env.currentUser, []);
      if env.multisite && networkWide {
        network := network[optionKey := data];
      } else {
        site := site[optionKey := data];
      }
    }

    /** get_data: reads the option from the scope UsesNetwork selects. */
    method GetData(env: Env) returns (data: Record)
      ensures UsesNetwork(env) && optionKey in network ==> data == network[optionKey]
      ensures !UsesNetwork(env) && optionKey in site ==> data == site[optionKey]
      ensures optionKey !in (if UsesNetwork(env) then network else site) ==> data == Unset
    {
      if env.multisite && env.networkActive {
        data := Load(network, optionKey);
        return;
      }
      data := Load(site, optionKey);
    }

    /** update_data: writes the option to the same scope get_data reads. */
    method UpdateData(data: Record, env: Env)
      modifies this`site, this`network
      ensures Wrote(old(site), old(network), UsesNetwork(env), data)
      ensures Stored(env) == data
    {
      if env.multisite && env.networkActive {
        network := network[optionKey := data];
      } else {
        site := site[optionKey := data];
      }
    }

    /** fix_deleted_activator: keeps an existing activator; otherwise
        promotes the first admin and writes it back with the given allow-list;
        returns 0 without writing when there is no admin. */
    method FixDeletedActivator(activator: int, allowed: seq<int>, env: Env) returns (r: int)
      modifies this`site, this`network
      ensures r == Repair(activator, env.users, env.admins)
      ensures RepairWrites(activator, env.users, env.admins) ==>
                Wrote(old(site), old(network), UsesNetwork(env), Record(r, allowed))
      ensures !RepairWrites(activator, env.users, env.admins) ==>
                site == old(site) && network == old(network)
    {
      if activator > 0 && activator in env.users {
        return activator;
      }
      var admins := env.admins;
      if |admins| == 0 {
        return 0;
      }
      var fallback := admins[0];
      UpdateData(Record(fallback, allowed), env);
      return fallback;
    }

    /** maybe_execute_callback: repairs the stored record when needed, then
        runs the callback once if the gate lets the current user in. */
    method MaybeExecuteCallback(env: Env)
      modifies this
      ensures Stored(env) == Repaired(old(Stored(env)), env)
      ensures RepairWrites(old(Stored(env)).activator, env.users, env.admins) ==>
                Wrote(old(site), old(network), UsesNetwork(env), Repaired(old(Stored(env)), env))
      ensures !RepairWrites(old(Stored(env)).activator, env.users, env.admins) ==>
                site == old(site) && network == old(network)
      ensures callbackRuns == old(callbackRuns) + if Permitted(old(Stored(env)), env) then 1 else 0
    {
      var currentUser := env.currentUser;
      var data := GetData(env);
      var activator := data.activator;
      var allowed := data.allowed;

      activator := FixDeletedActivator(activator, allowed, env);

      if activator == 0 {
        if currentUser in env.managers {
          callbackRuns := callbackRuns + 1;
        }
        return;
      }

      if currentUser == activator || currentUser in allowed {
        callbackRuns := callbackRuns + 1;
      }
    }

    /** allow_user: appends the id and writes only when it is not yet on the
        list; the activator is left as it was. */
    method AllowUser(userId: int, env: Env)
      modifies this`site, this`network
      ensures userId in old(Stored(env)).allowed ==> site == old(site) && network == old(network)
      ensures userId !in old(Stored(env)).allowed ==>
                Wrote(old(site), old(network), UsesNetwork(env),
                      old(Stored(env)).(allowed := old(Stored(env)).allowed + [userId]))
      ensures Stored(env) == old(Stored(env)).(allowed := Appended(old(Stored(env)).allowed, userId))
      ensures userId in Stored(env).allowed
    {
      var data := GetData(env);
      var allowed := data.allowed;

      if userId !in allowed {
        allowed := allowed + [userId];
        data := data.(allowed := allowed);
        UpdateData(data, env);
      }
    }

    /** unallow_user: removes every occurrence of the id, keeps the remaining
        order, and always writes; the activator is left as it was. */
    method UnallowUser(userId: int, env: Env)
      modifies this`site, this`network
      ensures Wrote(old(site), old(network), UsesNetwork(env),
                    old(Stored(env)).(allowed := Without(old(Stored(env)).allowed, userId)))
      ensures Stored(env) == old(Stored(env)).(allowed := Without(old(Stored(env)).allowed, userId))
      ensures userId !in Stored(env).allowed
    {
      var data := GetData(env);
      var allowed := data.allowed;

      allowed := Without(allowed, userId);

      data := data.(allowed := allowed);
      UpdateData(data, env);
    }
  }

  /** The walk-through of a record {activator: 42, allowed: [5]}: user 5 gets
      in and 6 does not; after allow_user(6), 6 gets in; after
      unallow_user(5), 5 no longer does. A second allow_user(6) writes
      nothing. */
  method Walkthrough(users: set<int>)
    requires 5 in users && 6 in users && 42 in users
  {
    var m := new ActivatorRestrictedMenu("restricted", map["restricted" := Record(42, [5])], map[]);
    var env5 := Env(5, users, [], {}, false, false);
    var env6 := env5.(currentUser := 6);

    m.MaybeExecuteCallback(env5);
    assert m.callbackRuns == 1;
    m.MaybeExecuteCallback(env6);
    assert m.callbackRuns == 1;

    m.AllowUser(6, env5);
    assert m.Stored(env5) == Record(42, [5, 6]);
    m.MaybeExecuteCallback(env6);
    assert m.callbackRuns == 2;

    var before := m.site;
    m.AllowUser(6, env5);
    assert m.site == before;

    m.UnallowUser(5, env5);
    assert m.Stored(env5) == Record(42, [6]);
    m.MaybeExecuteCallback(env5);
    assert m.callbackRuns == 2;
  }

  /** A record whose activator was deleted: with admins 7 and 12, the first
      request promotes 7 and lets it in; the next request finds 7 in place,
      writes nothing, and lets it in again. */
  method DeletedActivatorWalkthrough()
  {
    var m := new ActivatorRestrictedMenu("restricted", map["restricted" := Record(3, [])], map[]);
    var env := Env(7, {7, 12}, [7, 12], {7, 12}, false, false);

    m.MaybeExecuteCallback(env);
    assert m.Stored(env) == Record(7, []);
    assert m.callbackRuns == 1;

    var before := m.site;
    m.MaybeExecuteCallback(env);
    assert m.site == before;
    assert m.callbackRuns == 2;
  }

  /** Writes in one scope are invisible in the other: a record activated
      site-locally is not what a network-scope read returns. */
  method ScopesAreSeparate()
  {
    var m := new ActivatorRestrictedMenu("restricted", map[], map[]);
    var local := Env(9, {9}, [], {}, true, false);
    var wide := local.(networkActive := true);

    m.OnActivation(false, local);
    assert m.Stored(local) == Record(9, []);
    assert m.Stored(wide) == Unset;
  }
}
