/**
 The installed-state reader (`update_addon_data`): one GET of the plugin
 inventory, folded into a map from plugin key to installed version.
 */
module Inventory {
  import opened Records

  /** The answer to one GET of the plugin inventory. */
  datatype InventoryReply =
      /** The request itself raised (connection refused, timeout, ...). */
    | Unreachable
      /** A response arrived. `upmToken` is its `upm-token` header, if any;
          `plugins` is None when the body is not JSON, and the `plugins`
          array otherwise (a body without that field gives the empty array). */
    | Replied(upmToken: Option<string>, plugins: Option<seq<PluginRecord>>)

  /** The installed state and session token held by the deployer after one refresh. */
  datatype Snapshot = Snapshot(state: map<string, string>, token: Option<string>)

  /** The keys that occur in a list of plugin records. */
  function KeysOf(plugins: seq<PluginRecord>): set<string>
  {
    set i | 0 <= i < |plugins| :: plugins[i].key
  }

  /** Record `i` is the last one in the list that carries its key. */
  ghost predicate LastOfKey(plugins: seq<PluginRecord>, i: int)
  {
    && 0 <= i < |plugins|
    && forall j :: i < j < |plugins| ==> plugins[j].key != plugins[i].key
  }

  /** Folds the plugin records into a map in list order, so a key that repeats
      ends up with the version of its last record. */
  function Fold(plugins: seq<PluginRecord>): (m: map<string, string>)
    ensures m.Keys == KeysOf(plugins)
    ensures forall i {:trigger LastOfKey(plugins, i)} :: LastOfKey(plugins, i) ==> m[plugins[i].key] == plugins[i].version
  {
    if |plugins| == 0 then map[]
    else
      var init := plugins[..|plugins| - 1];
      var last := plugins[|plugins| - 1];
      assert forall i :: LastOfKey(plugins, i) && i < |plugins| - 1 ==> LastOfKey(init, i);
      assert plugins == init + [last];
      Fold(init)[last.key := last.version]
  }

  /** The installed state one refresh produces: the folded plugin records
      of a reply whose body parsed, and the empty map after any failure. */
  function InstalledState(reply: InventoryReply): (m: map<string, string>)
    ensures !(reply.Replied? && reply.plugins.Some?) ==> m == map[]
    ensures reply.Replied? && reply.plugins.Some? ==> m.Keys == KeysOf(reply.plugins.value)
    ensures reply.Replied? && reply.plugins.Some? ==>
              forall i {:trigger LastOfKey(reply.plugins.value, i)} :: LastOfKey(reply.plugins.value, i) ==>
                m[reply.plugins.value[i].key] == reply.plugins.value[i].version
  {
    match reply
    case Unreachable => map[]
    case Replied(_, plugins) =>
      match plugins
      case None => map[]
      case Some(ps) => Fold(ps)
  }

  /** The session token held after one refresh. A reply that never arrived
      keeps the previous token; any reply, even one whose body does not parse,
      replaces it with its own header, which may be missing. */
  function TokenAfter(reply: InventoryReply, previous: Option<string>): (t: Option<string>)
    ensures reply.Unreachable? ==> t == previous
    ensures reply.Replied? ==> t == reply.upmToken
  {
    match reply
    case Unreachable => previous
    case Replied(token, _) => token
  }

  /** `update_addon_data`: one refresh of the installed state and the token. */
  function UpdateAddonData(reply: InventoryReply, previous: Option<string>): (r: Snapshot)
    ensures !(reply.Replied? && reply.plugins.Some?) ==> r.state == map[]
    ensures reply.Replied? && reply.plugins.Some? ==> r.state.Keys == KeysOf(reply.plugins.value)
    ensures reply.Replied? && reply.plugins.Some? ==>
              forall i {:trigger LastOfKey(reply.plugins.value, i)} :: LastOfKey(reply.plugins.value, i) ==>
                r.state[reply.plugins.value[i].key] == reply.plugins.value[i].version
    ensures reply.Unreachable? ==> r.token == previous
    ensures reply.Replied? ==> r.token == reply.upmToken
  {
    Snapshot(InstalledState(reply), TokenAfter(reply, previous))
  }

  /** The installed version of `key`, the empty string when it is not installed. */
  function InstalledVersion(state: map<string, string>, key: string): string
  {
    if key in state then state[key] else ""
  }

  /** Whether an entry asks for a version other than the one installed. A key
      that is not installed counts as installed at the empty version. */
  predicate NeedsInstall(entry: TargetEntry, state: map<string, string>)
  {
    entry.version != InstalledVersion(state, entry.key)
  }

  /** Spells out both sides of the comparison: an installed key needs an install
      exactly when the versions differ, and a missing key exactly when the
      desired version is not the empty string. */
  lemma NeedsInstallCases(entry: TargetEntry, state: map<string, string>)
    ensures entry.key in state ==> (NeedsInstall(entry, state) <==> entry.version != state[entry.key])
    ensures entry.key !in state ==> (NeedsInstall(entry, state) <==> entry.version != "")
  {
  }

  /** An entry asking for exactly the version that the last record of its key
      in the inventory lists needs no install. */
  lemma {:induction false} ListedVersionSatisfies(plugins: seq<PluginRecord>, i: int)
    requires LastOfKey(plugins, i)
    ensures !NeedsInstall(TargetEntry(plugins[i].key, plugins[i].version), Fold(plugins))
  {
  }
}
