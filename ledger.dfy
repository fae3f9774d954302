/** The version ledger: the `migrations` table, one row per applied version.
    The unique index on `version` makes the table a map from version to the
    row's optional title. */
module Ledger {
  import opened Js

  /** A row's title; rows written without one have none. */
  type Title = Option<string>

  type Ledger = map<nat, Title>

  const NoMigrationsTitle: string := "No migrations applied"
  const ReadErrorTitle: string := "Error retrieving version info"

  /** The row `getCurrentVersionInfo` reports. */
  datatype VersionInfo = VersionInfo(version: nat, title: Title)

  /** `getCurrentVersion`: the version of the top row of
      `ORDER BY version DESC LIMIT 1`, or 0 when the table is empty or the
      query fails (`readable` is false). */
  function CurrentVersion(ledger: Ledger, readable: bool): (v: nat)
    ensures !readable || ledger == map[] ==> v == 0
    ensures readable && ledger != map[] ==> v in ledger && forall k :: k in ledger ==> k <= v
  {
    if !readable || ledger == map[] then 0
    else
      var keys := set k | k in ledger :: k as int;
      assert forall k :: k in ledger ==> k as int in keys;
      MaxOf(keys)
  }

  /** `getCurrentVersionInfo`: the top row, or a placeholder row at version 0
      whose title says why there is none. */
  function CurrentVersionInfo(ledger: Ledger, readable: bool): (info: VersionInfo)
    ensures info.version == CurrentVersion(ledger, readable)
    ensures !readable ==> info.title == Some(ReadErrorTitle)
    ensures readable && ledger == map[] ==> info.title == Some(NoMigrationsTitle)
    ensures readable && ledger != map[] ==> info.version in ledger && info.title == ledger[info.version]
  {
    if !readable then VersionInfo(0, Some(ReadErrorTitle))
    else if ledger == map[] then VersionInfo(0, Some(NoMigrationsTitle))
    else
      var v := CurrentVersion(ledger, readable);
      VersionInfo(v, ledger[v])
  }

  /** The title `setCurrentVersion` stores: an empty title is falsy and the
      row is written without one. */
  function StoredTitle(title: string): (t: Title)
    ensures t.None? <==> title == ""
    ensures title != "" ==> t == Some(title)
  {
    if title == "" then None else Some(title)
  }

  /** `setCurrentVersion(version, title)`: `CREATE migrations SET ...`. The
      unique index rejects a version that already has a row (None). */
  function Append(ledger: Ledger, version: nat, title: string): (r: Option<Ledger>)
    ensures r.None? <==> version in ledger
    ensures r.Some? ==> r.value.Keys == ledger.Keys + {version}
    ensures r.Some? ==> r.value[version] == StoredTitle(title)
    ensures r.Some? ==> forall k :: k in ledger ==> r.value[k] == ledger[k]
  {
    if version in ledger then None else Some(ledger[version := StoredTitle(title)])
  }

  /** `DELETE migrations WHERE version = $version`; no row is no error. */
  function Delete(ledger: Ledger, version: nat): (r: Ledger)
    ensures r.Keys == ledger.Keys - {version}
    ensures forall k :: k in r ==> r[k] == ledger[k]
  {
    ledger - {version}
  }

  /** Deleting a version just appended gives back the ledger it was
      appended to. */
  lemma DeleteUndoesAppend(ledger: Ledger, version: nat, title: string)
    requires Append(ledger, version, title).Some?
    ensures Delete(Append(ledger, version, title).value, version) == ledger
  {
    var grown := Append(ledger, version, title).value;
    assert Delete(grown, version).Keys == ledger.Keys;
  }

  /** Appending a version above the current one makes it the current one. */
  lemma AppendAboveCurrent(ledger: Ledger, version: nat, title: string)
    requires version > CurrentVersion(ledger, true)
    ensures Append(ledger, version, title).Some?
    ensures CurrentVersion(Append(ledger, version, title).value, true) == version
  {
    var grown := Append(ledger, version, title).value;
    forall k | k in grown ensures k <= version {
      if k != version {
        assert k in ledger;
      }
    }
  }
}
