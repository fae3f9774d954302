/** The migration file catalog (`getMigrationFiles`): the directory listing
    is filtered to migration files, each name is split into version, action
    and title, and the names are folded into one entry per version. */
module Catalog {
  import opened Js

  /** The object the fold keeps for one version: a `title` property and one
      property per action (`do`, `undo`, ...) holding the file name. */
  type Entry = map<string, string>

  /** Version string (as written in the file name) to its entry. */
  type Catalog = map<string, Entry>

  const Extension: string := ".surql"
  const TitleKey: string := "title"

  /** `[version, action, ...titleParts]` of a file name, with the title
      parts joined back with `.`. */
  datatype FileName = FileName(version: string, action: string, title: string)

  /** The filter: the name contains `.do.` or `.undo.`. */
  predicate IsMigrationFile(name: string)
  {
    Includes(name, ".do.") || Includes(name, ".undo.")
  }

  /** The name without its `.surql` extension. */
  function Stem(name: string): string
  {
    StripSuffix(name, Extension)
  }

  function Parts(name: string): seq<string>
  {
    Split(Stem(name), '.')
  }

  /** Destructuring of the split name. A name with a single part would have
      an undefined action, which becomes the property key "undefined". */
  function ParseName(name: string): FileName
  {
    var parts := Parts(name);
    if |parts| >= 2 then FileName(parts[0], parts[1], Join(parts[2..], '.'))
    else FileName(parts[0], "undefined", "")
  }

  /** The name the naming contract `<version>.<action>.<title>.surql` gives. */
  function MigrationFileName(version: string, action: string, title: string): string
  {
    version + "." + action + "." + title + Extension
  }

  /** A name that passes the filter holds at least two dots. */
  lemma MigrationFileDots(name: string)
    requires IsMigrationFile(name)
    ensures Count(name, '.') >= 2
  {
    assert Count(".do.", '.') == 2;
    assert Count(".undo.", '.') == 2;
    if Includes(name, ".do.") {
      CountIncludes(name, ".do.", '.');
    } else {
      CountIncludes(name, ".undo.", '.');
    }
  }

  /** Dropping the extension removes exactly one dot. */
  lemma StemDots(name: string)
    ensures Count(Stem(name), '.') + 1 >= Count(name, '.')
  {
    if EndsWith(name, Extension) {
      assert Count(Extension, '.') == 1;
      CountConcat(Stem(name), Extension, '.');
    }
  }

  /** Every name that passes the filter has at least a version and an
      action, and the three fields reassemble the name: version and action
      hold no dot, and the title is everything after the second dot. */
  lemma ParseMigrationFile(name: string)
    requires IsMigrationFile(name)
    ensures |Parts(name)| >= 2
    ensures var p := ParseName(name);
      '.' !in p.version && '.' !in p.action &&
      Stem(name) == p.version + "." + p.action + (if |Parts(name)| > 2 then "." + p.title else "")
  {
    MigrationFileDots(name);
    StemDots(name);
    var stem := Stem(name);
    var parts := Parts(name);
    assert |parts| >= 2;
    JoinSplit(stem, '.');
    assert Join(parts, '.') == parts[0] + "." + Join(parts[1..], '.');
    if |parts| == 2 {
      assert Join(parts[1..], '.') == parts[1];
    } else {
      assert parts[1..][1..] == parts[2..];
      assert Join(parts[1..], '.') == parts[1] + "." + Join(parts[2..], '.');
    }
  }

  /** The naming contract round-trips: a name built from a dot-free version
      and action and any title parses back into exactly those three. */
  lemma NameRoundTrip(version: string, action: string, title: string)
    requires '.' !in version && '.' !in action
    ensures ParseName(MigrationFileName(version, action, title)) == FileName(version, action, title)
  {
    var name := MigrationFileName(version, action, title);
    var body := version + "." + action + "." + title;
    assert name == body + Extension;
    assert Stem(name) == body;
    assert body == version + "." + (action + "." + title);
    SplitAfterPlain(version, '.', action + "." + title);
    SplitAfterPlain(action, '.', title);
    var parts := Parts(name);
    assert parts == [version, action] + Split(title, '.');
    assert parts[2..] == Split(title, '.');
    JoinSplit(title, '.');
  }

  /** One step of the reduce: the first file of a version creates
      `{ title }`, every file then sets its own action key to its name. */
  function AddFile(acc: Catalog, name: string): Catalog
  {
    var p := ParseName(name);
    var entry := if p.version in acc then acc[p.version] else map[TitleKey := p.title];
    acc[p.version := entry[p.action := name]]
  }

  /** The catalog of a directory listing: filter, then reduce from `{}`. */
  function CatalogOf(files: seq<string>): (cat: Catalog)
    ensures forall v :: v in cat ==> TitleKey in cat[v]
    decreases |files|
  {
    if files == [] then map[]
    else
      var acc := CatalogOf(files[..|files| - 1]);
      var name := files[|files| - 1];
      if IsMigrationFile(name) then AddFile(acc, name) else acc
  }

  /** The file at index `i` is kept and names version `v`. */
  predicate Kept(files: seq<string>, i: int, v: string)
  {
    0 <= i < |files| && IsMigrationFile(files[i]) && ParseName(files[i]).version == v
  }

  lemma KeptInInit(files: seq<string>, i: int, v: string)
    requires |files| > 0 && 0 <= i < |files| - 1
    ensures Kept(files, i, v) <==> Kept(files[..|files| - 1], i, v)
  {
  }

  /** Exactly the versions of kept files are catalog keys. */
  lemma {:induction false} CatalogVersions(files: seq<string>, v: string)
    ensures v in CatalogOf(files) <==> exists i :: Kept(files, i, v)
    decreases |files|
  {
    if files != [] {
      var n := |files| - 1;
      var init := files[..n];
      CatalogVersions(init, v);
      forall i | 0 <= i < n ensures Kept(files, i, v) <==> Kept(init, i, v) {
        KeptInInit(files, i, v);
      }
      if v in CatalogOf(files) && !Kept(files, n, v) {
        assert v in CatalogOf(init);
        var i :| Kept(init, i, v);
        assert Kept(files, i, v);
      }
      if (exists i :: Kept(files, i, v)) && !Kept(files, n, v) {
        var i :| Kept(files, i, v);
        assert Kept(init, i, v);
      }
    }
  }

  /** Each action key of an entry holds the LAST kept file of that version
      with that action: later files overwrite earlier ones. */
  lemma {:induction false} ActionFile(files: seq<string>, v: string, i: int)
    requires Kept(files, i, v)
    requires forall j :: i < j < |files| && Kept(files, j, v) ==> ParseName(files[j]).action != ParseName(files[i]).action
    ensures v in CatalogOf(files)
    ensures var a := ParseName(files[i]).action;
      a in CatalogOf(files)[v] && CatalogOf(files)[v][a] == files[i]
    decreases |files|
  {
    var n := |files| - 1;
    var init := files[..n];
    var a := ParseName(files[i]).action;
    if i < n {
      assert Kept(init, i, v);
      forall j | i < j < |init| && Kept(init, j, v)
        ensures ParseName(init[j]).action != ParseName(init[i]).action
      {
        assert Kept(files, j, v);
      }
      ActionFile(init, v, i);
    }
  }

  /** A non-title key of an entry comes from some kept file of that version
      with that action. */
  lemma {:induction false} ActionOrigin(files: seq<string>, v: string, a: string)
    requires v in CatalogOf(files) && a in CatalogOf(files)[v] && a != TitleKey
    ensures exists i :: Kept(files, i, v) && ParseName(files[i]).action == a
    decreases |files|
  {
    var n := |files| - 1;
    var init := files[..n];
    if Kept(files, n, v) && ParseName(files[n]).action == a {
    } else {
      var p := ParseName(files[n]);
      if IsMigrationFile(files[n]) && p.version == v {
        var entry := if v in CatalogOf(init) then CatalogOf(init)[v] else map[TitleKey := p.title];
        assert CatalogOf(files)[v] == entry[p.action := files[n]];
        assert a in entry;
      }
      assert v in CatalogOf(init) && a in CatalogOf(init)[v];
      ActionOrigin(init, v, a);
      var i :| Kept(init, i, v) && ParseName(init[i]).action == a;
      assert Kept(files, i, v);
    }
  }

  /** The title of a version is the title of the FIRST kept file of that
      version; later files never change it, unless one of them uses the
      action name `title` itself, which overwrites the property. */
  lemma {:induction false} TitleFromFirst(files: seq<string>, v: string, i: int)
    requires Kept(files, i, v)
    requires forall j :: 0 <= j < i ==> !Kept(files, j, v)
    requires forall j :: Kept(files, j, v) ==> ParseName(files[j]).action != TitleKey
    ensures v in CatalogOf(files)
    ensures CatalogOf(files)[v][TitleKey] == ParseName(files[i]).title
    decreases |files|
  {
    var n := |files| - 1;
    var init := files[..n];
    forall j | 0 <= j < n ensures Kept(files, j, v) <==> Kept(init, j, v) {
      KeptInInit(files, j, v);
    }
    if i == n {
      CatalogVersions(init, v);
      assert v !in CatalogOf(init);
    } else {
      TitleFromFirst(init, v, i);
    }
  }

  /** The two in-place updates of the reduce step compute `AddFile`. */
  lemma AddFileInPlace(acc: Catalog, name: string, p: FileName)
    requires p == ParseName(name)
    ensures var created := if p.version in acc then acc else acc[p.version := map[TitleKey := p.title]];
      created[p.version := created[p.version][p.action := name]] == AddFile(acc, name)
  {
  }

  /** The fold over a prefix of the listing, one file longer. */
  lemma CatalogOfPrefix(files: seq<string>, i: int)
    requires 0 <= i < |files|
    ensures CatalogOf(files[..i + 1]) ==
      if IsMigrationFile(files[i]) then AddFile(CatalogOf(files[..i]), files[i]) else CatalogOf(files[..i])
  {
    assert files[..i + 1][..i] == files[..i];
  }

  /** `getMigrationFiles(directory)`: a listing that cannot be read ends the
      command (None); otherwise the fold above, done in place on `acc`. */
  method GetMigrationFiles(listing: Option<seq<string>>) returns (catalog: Option<Catalog>)
    ensures listing.None? ==> catalog.None?
    ensures listing.Some? ==> catalog == Some(CatalogOf(listing.value))
  {
    if listing.None? {
      return None;
    }
    var files := listing.value;
    var acc: Catalog := map[];
    for i := 0 to |files|
      invariant acc == CatalogOf(files[..i])
    {
      CatalogOfPrefix(files, i);
      var name := files[i];
      if IsMigrationFile(name) {
        var p := ParseName(name);
        AddFileInPlace(acc, name, p);
        if p.version !in acc {
          acc := acc[p.version := map[TitleKey := p.title]];
        }
        acc := acc[p.version := acc[p.version][p.action := name]];
      }
    }
    assert files[..|files|] == files;
    return Some(acc);
  }
}
