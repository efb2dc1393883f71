# Activator-restricted admin menu: a Dafny model

This project models `ActivatorRestrictedMenu`, the permission gate of a
WordPress plugin. The gate decides whether the current user may have a
protected admin callback run. It keeps one stored option,
`{activator, allowed}`, under one option key. The option lives either in the
site options or in the network options.

- **Activation** (`on_activation`) makes the current user the activator and
  empties the allow-list. On a multisite install with network-wide
  activation it writes the network option, otherwise the site option.
- **Scope selection** (`get_data` / `update_data`) reads and writes the
  network option exactly when the install is multisite and the plugin is
  network-active. A missing option reads as activator 0 with an empty
  allow-list.
- **Repair** (`fix_deleted_activator`) keeps an activator that is a positive
  id of an existing user. Otherwise it promotes the first user of the
  ascending administrator list and writes the record back. With no
  administrator it returns 0 and writes nothing.
- **Decision** (`maybe_execute_callback`) runs the callback once if the user
  is the effective activator or on the allow-list. When no activator can be
  recovered it runs the callback only for users with `manage_options`.
- **Allow-list edits**: `allow_user` appends an absent id and writes.
  `unallow_user` removes every occurrence of an id, keeps the rest in order,
  and always writes.

Files:

- `access_record.dfy`, module `AccessRecord`: the record, the environment one
  request sees, and the pure parts of the gate. These are repair, decision,
  append and filter, with their lemmas.
- `restricted_menu.dfy`, module `Admin`: class `ActivatorRestrictedMenu`. It
  has the site and network stores as `map` fields and a ghost counter of
  callback runs. Its methods mirror the PHP methods, and three client methods
  walk through three request sequences. The first is a record with activator 42 and
  allow-list `[5]`: user 5 gets in and 6 does not, `allow_user(6)` lets 6 in,
  and `unallow_user(5)` shuts 5 out. The second is a deleted activator with
  admins 7 and 12: 7 is promoted, and a second request writes nothing. The
  third shows that a site-scope write is invisible to a network-scope read.

The WordPress queries are passed in as an `Env` value per request:
`get_current_user_id`, the users known to `get_user_by`, the ascending id
list from `get_users(role administrator)`, `user_can(..., 'manage_options')`,
`is_multisite` and `is_plugin_active_for_network`. `Sound(env)` states what a
real install guarantees: the admin list is ascending, and admins are
existing users with positive ids. Only the lemmas that need it require it.

Points where the code and its own comments or a natural reading differ; the
model follows the code:

- The last-resort branch is commented "fall back to admins"
  (ActivatorRestrictedMenu.php:59) but checks the `manage_options`
  capability (line 61), not the administrator role.
- `allow_user` (lines 79-88) does not reject id 0, so the model does not keep "the
  allow-list never holds 0" as an invariant. It keeps the no-duplicates
  invariant (`AppendedNoDups`, `WithoutNoDups`).
- `on_activation` picks the scope from its `network_wide` argument. Reads
  and later writes pick it from the network-active status. So
  `OnActivation` promises the record is readable back only when the two
  agree.

## Model

| member | source | states |
|---|---|---|
| Admin.ActivatorRestrictedMenu.constructor | ActivatorRestrictedMenu.php:16-20 | the object is bound to its option key and starts with the given stores and no callback runs |
| Admin.ActivatorRestrictedMenu.OnActivation | ActivatorRestrictedMenu.php:31-44 | overwrites the option with `{activator: current user, allowed: []}`, in the network store iff multisite and network-wide and in the site store otherwise, leaving the other store and other keys alone; the record is read back when the activation scope matches the network-active status |
| Admin.ActivatorRestrictedMenu.GetData | ActivatorRestrictedMenu.php:109-115 | returns the network option iff multisite and network-active, else the site option; a missing option gives activator 0 and an empty list |
| Admin.ActivatorRestrictedMenu.UpdateData | ActivatorRestrictedMenu.php:120-126 | writes exactly the option key in the same scope get_data reads, so the next read returns the written record |
| Admin.ActivatorRestrictedMenu.FixDeletedActivator | ActivatorRestrictedMenu.php:146-170 | returns the effective activator; writes `{activator: first admin, allowed: unchanged}` exactly when the activator is missing and an admin exists, and changes no store otherwise |
| Admin.ActivatorRestrictedMenu.MaybeExecuteCallback | ActivatorRestrictedMenu.php:49-74 | the stored record afterwards is the repaired one (written only when repair wrote); the callback count grows by exactly one when the gate permits the current user and is unchanged otherwise |
| Admin.ActivatorRestrictedMenu.AllowUser | ActivatorRestrictedMenu.php:79-88 | writes nothing when the id is already listed; otherwise writes the record with the id appended at the end and the activator untouched; afterwards the id is on the list |
| Admin.ActivatorRestrictedMenu.UnallowUser | ActivatorRestrictedMenu.php:93-104 | always writes the record with every occurrence of the id filtered out and the activator untouched; afterwards the id is not on the list |
| AccessRecord.UsesNetwork | ActivatorRestrictedMenu.php:110-140 | the scope test of get_data and update_data; it can select the network store only on a multisite install, as is_network_active returns false otherwise; its read and write behaviour is carried by GetData, UpdateData and Stored |
| Admin.ActivatorRestrictedMenu.Stored | ActivatorRestrictedMenu.php:109-115 | the record get_data returns: the network option iff UsesNetwork, else the site option, and Unset when the key is missing |
| Admin.ActivatorRestrictedMenu.Wrote | ActivatorRestrictedMenu.php:120-126 | what one update_option or update_site_option call leaves: the chosen store holds the record under the key, the other store is as before, and no other key appears or disappears |
| AccessRecord.Load | ActivatorRestrictedMenu.php:52-54 | a stored record is read as stored; a missing key reads as activator 0 and an empty allow-list |
| AccessRecord.Repair | ActivatorRestrictedMenu.php:146-162 | the effective activator fix_deleted_activator returns: an existing activator is kept, it is replaced only when it does not exist, the result is always the stored activator, 0 or an admin, and with no admins it is the stored activator or 0; further properties in RepairKeepsExistingActivator, RepairPicksLowestAdmin, RepairZeroIff and RepairIsStable |
| AccessRecord.RepairWrites | ActivatorRestrictedMenu.php:147-167 | fix_deleted_activator writes exactly when the stored activator does not exist and the activator it returns is an admin |
| AccessRecord.Repaired | ActivatorRestrictedMenu.php:158-167 | the record after the gate: the allow-list is carried over verbatim, the activator becomes the first admin exactly when repair writes, and the record is unchanged otherwise |
| AccessRecord.RepairKeepsExistingActivator | ActivatorRestrictedMenu.php:146-149 | a positive activator that exists is returned unchanged and triggers no write |
| AccessRecord.RepairPicksLowestAdmin | ActivatorRestrictedMenu.php:151-162 | with an ascending admin list, the replacement activator is an admin no larger than any other admin |
| AccessRecord.RepairZeroIff | ActivatorRestrictedMenu.php:147-160 | on a sound install the effective activator is 0 iff the stored one is gone and no admin exists |
| AccessRecord.RepairIsStable | ActivatorRestrictedMenu.php:147-169 | on a sound install the written-back record needs no further repair: a second request writes nothing and sees the same activator |
| AccessRecord.Decide | ActivatorRestrictedMenu.php:59-73 | the decision on the effective activator: a non-zero activator is always let in, and nobody is let in who is not a manage_options user, the activator or on the allow-list |
| AccessRecord.DecideIgnoresOtherBranch | ActivatorRestrictedMenu.php:59-73 | with no activator the allow-list plays no part; with an activator the manage_options capability plays no part |
| AccessRecord.Permitted | ActivatorRestrictedMenu.php:52-73 | the whole gate on a stored record (repair, then decide) only lets in manage_options users, allow-listed users, the stored activator or an admin; exact characterisations in ExistingActivatorGate, RepairedActivatorGate and NoActivatorGate |
| AccessRecord.ExistingActivatorGate | ActivatorRestrictedMenu.php:67-73 | with an existing activator A and allow-list S the gate permits exactly the callers in {A} + S |
| AccessRecord.RepairedActivatorGate | ActivatorRestrictedMenu.php:57-73 | with the activator gone and admins present, the gate permits exactly the lowest-id admin and the allow-listed users |
| AccessRecord.NoActivatorGate | ActivatorRestrictedMenu.php:59-65 | with no recoverable activator the gate permits exactly the `manage_options` users, whatever the allow-list holds |
| AccessRecord.RepairedRecordSameDecision | ActivatorRestrictedMenu.php:57-73 | on every install, deciding on the written-back record gives the same answer for every caller as deciding on the original |
| AccessRecord.Appended | ActivatorRestrictedMenu.php:83-85 | the new list holds exactly the old ids plus the added one and keeps the old list as its prefix; it is the old list when the id is already there and the old list with the id appended at the end otherwise |
| AccessRecord.AppendedIdempotent | ActivatorRestrictedMenu.php:83-87 | allowing an id twice leaves the list as allowing it once |
| AccessRecord.AppendedNoDups | ActivatorRestrictedMenu.php:83-85 | allowing keeps a duplicate-free list duplicate-free |
| AccessRecord.Without | ActivatorRestrictedMenu.php:97-102 | the filtered list holds exactly the old ids other than the removed one, is no longer, and equals the old list when the id was absent |
| AccessRecord.WithoutConcat | ActivatorRestrictedMenu.php:97-102 | filtering distributes over concatenation, so kept entries stay in their original relative order |
| AccessRecord.WithoutMultiset | ActivatorRestrictedMenu.php:97-100 | filtering drops every occurrence of the id and keeps every other id with its multiplicity |
| AccessRecord.WithoutNoDups | ActivatorRestrictedMenu.php:97-102 | unallowing keeps a duplicate-free list duplicate-free |
| AccessRecord.WithoutIdempotent | ActivatorRestrictedMenu.php:97-103 | unallowing an id twice leaves the list as unallowing it once |
| AccessRecord.WithoutUndoesAppended | ActivatorRestrictedMenu.php:79-104 | allowing and then unallowing an id leaves the list as unallowing it alone |

## Left out

- Hook wiring in the constructor (`register_activation_hook`, `add_action`): host plumbing. The host is assumed to call the methods.
- The mechanics of `is_network_active` (`require_once`, `plugin_basename`): the network-active status is an input flag of `Env`.
- `get_user_by`, `get_users` and `user_can` are WordPress calls. They are inputs: an existing-user set, an admin id sequence and a `manage_options` set.
- What the callback does: only its invocations are counted, in a ghost field.
- PHP loose typing of malformed stored data (`(array)` casts, `(int)` casts of ids, strict `in_array` against string ids): the record is typed, with an `int` activator and a `seq<int>` allow-list.
- A missing option that `allow_user` or `unallow_user` writes back holds no `activator` key in PHP. The model stores activator 0, which reads back the same way.
- Storage failures and races between concurrent requests: each call runs alone and storage always succeeds.
