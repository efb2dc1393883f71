/** The stored access record of an activator-restricted admin menu, the
    environment the permission gate consults, and the pure parts of the gate:
    activator repair, the allow/deny decision and the two allow-list edits. */
module AccessRecord {

  /** The one stored option: the activating user and the extra users let in. */
  datatype Record = Record(activator: int, allowed: seq<int>)

  /** What a missing option reads as: no activator, nobody allowed. */
  const Unset: Record := Record(0, [])

  /** What WordPress answers during one request, as plain values.
      currentUser: get_current_user_id (0 when nobody is logged in);
      users: the ids for which get_user_by('id', ...) finds a user;
      admins: the ids get_users returns for role 'administrator', ordered by ID;
      managers: the ids for which user_can(..., 'manage_options') holds;
      multisite: is_multisite();
      networkActive: is_plugin_active_for_network for this plugin's file. */
  datatype Env = Env(
    currentUser: int,
    users: set<int>,
    admins: seq<int>,
    managers: set<int>,
    multisite: bool,
    networkActive: bool)

  /** Strictly increasing: the order get_users(orderby ID, order ASC) returns. */
  predicate Ascending(s: seq<int>) {
    forall i, j :: 0 <= i < j < |s| ==> s[i] < s[j]
  }

  /** What a real WordPress installation guarantees of the answers: the admin
      list is ascending, and every admin is an existing user with a positive id. */
  predicate Sound(env: Env) {
    Ascending(env.admins) &&
    forall a :: a in env.admins ==> a > 0 && a in env.users
  }

  /** The scope get_data and update_data use: the network option exactly when
      the installation is multisite and the plugin is network-active. */
  predicate UsesNetwork(env: Env)
    ensures UsesNetwork(env) ==> env.multisite
  {
    env.multisite && env.networkActive
  }

  /** Reading the option from one store; a missing key reads as Unset. */
  function Load(store: map<string, Record>, key: string): (r: Record)
    ensures key in store ==> r == store[key]
    ensures key !in store ==> r.activator == 0 && r.allowed == []
  {
    if key in store then store[key] else Unset
  }

  // ---------------------------------------------------------------------
  // Repair of a deleted or unset activator

  /** The stored activator is a positive id of a user that still exists. */
  predicate ActivatorExists(activator: int, users: set<int>) {
    activator > 0 && activator in users
  }

  /** The effective activator fix_deleted_activator returns: the stored one
      when it exists, else the first admin of the list, else 0. */
  function Repair(activator: int, users: set<int>, admins: seq<int>): (r: int)
    ensures ActivatorExists(activator, users) ==> r == activator
    ensures r != activator ==> !ActivatorExists(activator, users)
    ensures r == activator || r == 0 || r in admins
    ensures admins == [] ==> r == activator || r == 0
  {
    if ActivatorExists(activator, users) then activator
    else if admins == [] then 0
    else admins[0]
  }

  /** fix_deleted_activator writes the option exactly in this case. */
  predicate RepairWrites(activator: int, users: set<int>, admins: seq<int>)
    ensures RepairWrites(activator, users, admins)
            <==> !ActivatorExists(activator, users) && Repair(activator, users, admins) in admins
  {
    !ActivatorExists(activator, users) && admins != []
  }

  /** The record as it is stored once the gate has run on it. */
  function Repaired(rec: Record, env: Env): (r: Record)
    ensures r.allowed == rec.allowed
    ensures RepairWrites(rec.activator, env.users, env.admins) ==> r.activator == env.admins[0]
    ensures !RepairWrites(rec.activator, env.users, env.admins) ==> r == rec
  {
    if RepairWrites(rec.activator, env.users, env.admins)
    then Record(Repair(rec.activator, env.users, env.admins), rec.allowed)
    else rec
  }

  /** An existing activator is kept, and no write happens. */
  lemma RepairKeepsExistingActivator(activator: int, users: set<int>, admins: seq<int>)
    requires ActivatorExists(activator, users)
    ensures Repair(activator, users, admins) == activator
    ensures !RepairWrites(activator, users, admins)
  {
  }

  /** With the admin list ascending, the replacement is the lowest-id admin. */
  lemma RepairPicksLowestAdmin(activator: int, users: set<int>, admins: seq<int>)
    requires Ascending(admins)
    requires RepairWrites(activator, users, admins)
    ensures Repair(activator, users, admins) in admins
    ensures forall a :: a in admins ==> Repair(activator, users, admins) <= a
  {
  }

  /** On a sound environment the effective activator is 0 exactly when the
      stored one is gone and there is no admin to promote. */
  lemma RepairZeroIff(activator: int, env: Env)
    requires Sound(env)
    ensures Repair(activator, env.users, env.admins) == 0
            <==> !ActivatorExists(activator, env.users) && env.admins == []
  {
    if !ActivatorExists(activator, env.users) && env.admins != [] {
      assert env.admins[0] in env.admins;
    }
  }

  /** Repair is stable on a sound environment: the record written back needs
      no further repair, so the next request neither writes nor changes it. */
  lemma RepairIsStable(rec: Record, env: Env)
    requires Sound(env)
    ensures !RepairWrites(Repaired(rec, env).activator, env.users, env.admins)
    ensures Repaired(Repaired(rec, env), env) == Repaired(rec, env)
    ensures Repair(Repaired(rec, env).activator, env.users, env.admins)
            == Repair(rec.activator, env.users, env.admins)
  {
  }

  // ---------------------------------------------------------------------
  // The decision

  /** Whether maybe_execute_callback runs the callback, given the effective
      activator: with none, the caller needs manage_options; otherwise the
      caller must be the activator or on the allow-list. */
  function Decide(effective: int, allowed: seq<int>, caller: int, managers: set<int>): (r: bool)
    ensures effective != 0 && caller == effective ==> r
    ensures r ==> caller in managers || caller == effective || caller in allowed
  {
    if effective == 0 then caller in managers
    else caller == effective || caller in allowed
  }

  /** The allow-list matters only when there is an effective activator, and
      the manage_options capability only when there is none. */
  lemma DecideIgnoresOtherBranch(effective: int, allowed: seq<int>, caller: int, managers: set<int>)
    ensures effective == 0 ==> Decide(effective, allowed, caller, managers) == Decide(effective, [], caller, managers)
    ensures effective != 0 ==> Decide(effective, allowed, caller, managers) == Decide(effective, allowed, caller, {})
  {
  }

  /** The whole gate on a stored record: repair, then decide. */
  predicate Permitted(rec: Record, env: Env)
    ensures Permitted(rec, env) ==>
              env.currentUser in env.managers || env.currentUser in rec.allowed ||
              env.currentUser == Repair(rec.activator, env.users, env.admins)
    ensures Permitted(rec, env) && env.currentUser !in env.managers ==>
              env.currentUser in rec.allowed || env.currentUser == rec.activator || env.currentUser in env.admins
  {
    Decide(Repair(rec.activator, env.users, env.admins), rec.allowed, env.currentUser, env.managers)
  }

  /** With an existing activator A and allow-list S, the gate lets the caller
      in exactly when the caller is in {A} + S. */
  lemma ExistingActivatorGate(rec: Record, env: Env)
    requires ActivatorExists(rec.activator, env.users)
    ensures Permitted(rec, env) <==> env.currentUser in {rec.activator} + set x | x in rec.allowed
  {
  }

  /** When the activator is gone and an admin exists, the record is repaired
      and the gate compares against the lowest-id admin. */
  lemma RepairedActivatorGate(rec: Record, env: Env)
    requires Sound(env)
    requires !ActivatorExists(rec.activator, env.users) && env.admins != []
    ensures Permitted(rec, env)
            <==> env.currentUser == env.admins[0] || env.currentUser in rec.allowed
    ensures forall a :: a in env.admins ==> env.admins[0] <= a
  {
    RepairPicksLowestAdmin(rec.activator, env.users, env.admins);
    RepairZeroIff(rec.activator, env);
  }

  /** When no activator can be recovered, only manage_options users get in,
      whatever the allow-list says. */
  lemma NoActivatorGate(rec: Record, env: Env)
    requires !ActivatorExists(rec.activator, env.users) && env.admins == []
    ensures Permitted(rec, env) <==> env.currentUser in env.managers
  {
  }

  /** The written-back record decides every caller as the original did, so a
      later request after a repair lets in the same users. */
  lemma RepairedRecordSameDecision(rec: Record, env: Env)
    ensures Permitted(Repaired(rec, env), env) == Permitted(rec, env)
  {
  }

  // ---------------------------------------------------------------------
  // Allow-list edits

  /** No id occurs twice. */
  predicate NoDups(s: seq<int>) {
    forall i, j :: 0 <= i < j < |s| ==> s[i] != s[j]
  }

  /** The list allow_user stores: x appended at the end when absent. */
  function Appended(s: seq<int>, x: int): (r: seq<int>)
    ensures x in r
    ensures forall y :: y in r <==> y in s || y == x
    ensures |s| <= |r| <= |s| + 1 && r[..|s|] == s
    ensures x in s ==> r == s
    ensures x !in s ==> r == s + [x]
  {
    if x in s then s else s + [x]
  }

  /** The list unallow_user stores: every x removed, the rest in order. */
  function Without(s: seq<int>, x: int): (r: seq<int>)
    ensures forall y :: y in r <==> y in s && y != x
    ensures |r| <= |s|
    ensures x !in s ==> r == s
  {
    if s == [] then []
    else if s[0] == x then Without(s[1..], x)
    else [s[0]] + Without(s[1..], x)
  }

  /** A second allow of the same id changes nothing. */
  lemma AppendedIdempotent(s: seq<int>, x: int)
    ensures Appended(Appended(s, x), x) == Appended(s, x)
  {
  }

  /** allow keeps the list free of duplicates. */
  lemma AppendedNoDups(s: seq<int>, x: int)
    requires NoDups(s)
    ensures NoDups(Appended(s, x))
  {
  }

  /** Filtering distributes over concatenation: the kept entries stay in
      their original relative order. */
  lemma {:induction false} WithoutConcat(s: seq<int>, t: seq<int>, x: int)
    ensures Without(s + t, x) == Without(s, x) + Without(t, x)
  {
    if s == [] {
      assert s + t == t;
    } else {
      assert (s + t)[1..] == s[1..] + t;
      WithoutConcat(s[1..], t, x);
    }
  }

  /** Exactly the occurrences of x go; every other id keeps its multiplicity. */
  lemma {:induction false} WithoutMultiset(s: seq<int>, x: int)
    ensures multiset(Without(s, x)) == multiset(s)[x := 0]
  {
    if s != [] {
      WithoutMultiset(s[1..], x);
      assert s == [s[0]] + s[1..];
    }
  }

  /** unallow keeps the list free of duplicates. */
  lemma {:induction false} WithoutNoDups(s: seq<int>, x: int)
    requires NoDups(s)
    ensures NoDups(Without(s, x))
  {
    if s != [] {
      assert NoDups(s[1..]) by {
        forall i, j | 0 <= i < j < |s[1..]|
          ensures s[1..][i] != s[1..][j]
        {
          assert s[1..][i] == s[i + 1] && s[1..][j] == s[j + 1];
        }
      }
      WithoutNoDups(s[1..], x);
      if s[0] != x {
        var w := Without(s[1..], x);
        assert s[0] !in s[1..];
        assert s[0] !in w;
        var r := [s[0]] + w;
        forall i, j | 0 <= i < j < |r|
          ensures r[i] != r[j]
        {
          if i == 0 {
            assert r[j] == w[j - 1];
          } else {
            assert r[i] == w[i - 1] && r[j] == w[j - 1];
          }
        }
      }
    }
  }

  /** A second unallow of the same id changes nothing. */
  lemma WithoutIdempotent(s: seq<int>, x: int)
    ensures Without(Without(s, x), x) == Without(s, x)
  {
  }

  /** allow followed by unallow of the same id leaves what unallow alone
      would leave. */
  lemma WithoutUndoesAppended(s: seq<int>, x: int)
    ensures Without(Appended(s, x), x) == Without(s, x)
  {
    if x !in s {
      WithoutConcat(s, [x], x);
      assert Without([x], x) == [];
    }
  }
}
