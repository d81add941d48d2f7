/** The session format catalog: validating an unordered inventory of migration
    packages into one gapless chain, and rendering the catalog of that chain. */
module SessionMigrations {
  import opened Basics
  import opened Decimals
  import opened Sorting

  datatype Result<+T> = Ok(value: T) | Err(error: Error)

  datatype Error =
    | NoMetadata(entry: nat)
    | UnknownMember(entry: nat)
    | BadField(entry: nat)
    | NotAdjacent(entry: nat)
    | WrongName(entry: nat)
    | WrongDirectory(entry: nat)
    | NotExactlyOne(version: nat)
    | WrongEnd
    | CatalogNotShared
    | CatalogLacks(version: nat)
    | CodecBreak(version: nat)
    | NoManifest(version: nat)
    | MissingPrevious(version: nat)
    | NothingToRender

  type Digits = s: seq<Byte> | s != [] && forall i :: 0 <= i < |s| ==> IsDigit(s[i]) witness [48]

  /** A package manifest of the inventory. `None` stands for a value of the wrong kind: not a
      non-negative safe integer, or not a non-empty string. */
  datatype Manifest = Manifest(
    name: Option<string>,
    directory: Option<(Digits, Digits)>,  // the two numbers in the directory name
    dependencies: set<string>,
    metadata: Option<Metadata>)

  datatype Metadata = Metadata(
    onlyKnownMembers: bool,
    from: Option<nat>,
    to: Option<nat>,
    export_: Option<string>,
    migration: Option<string>,
    sourceCodec: Option<string>,
    targetCodec: Option<string>,
    headerValidator: Option<string>,
    restorer: Option<string>)

  /** One validated migration, with the directory and the dependencies of its package. */
  datatype Migration = Migration(
    packageName: string,
    importPath: string,
    from: nat,
    to: nat,
    migration: string,
    sourceCodec: string,
    targetCodec: string,
    headerValidator: string,
    restorer: string,
    directory: (Digits, Digits),
    dependencies: set<string>)

  /** The manifest of the catalog package. */
  datatype Catalog = Catalog(dependencies: set<string>, peerDependencies: set<string>, devDependencies: set<string>)

  const SESSION_PACKAGE := "@deepseek-ai/dsh-session"

  function Text(digits: seq<Byte>): (s: string)
    ensures |s| == |digits|
  {
    seq(|digits|, i requires 0 <= i < |digits| => (digits[i] as int) as char)
  }

  function PackageName(from: nat): string {
    SESSION_PACKAGE + "-format-v" + Text(Decimal(from)) + "-to-v" + Text(Decimal(from + 1))
  }

  function WithoutDotSlash(path: string): string {
    if "./" <= path then path[2..] else path
  }

  function ImportPath(packageName: string, export_: string): string {
    if export_ == "." then packageName else packageName + "/" + WithoutDotSlash(export_)
  }

  /** The directory's numbers are those of the versions, whatever zeros they begin with. */
  predicate InDirectory(directory: Option<(Digits, Digits)>, from: nat, to: nat) {
    directory.Some? && Value(directory.value.0) == from && Value(directory.value.1) == to
  }

  /** Where the script reads a manifest again: the directory without leading zeros. */
  function CanonicalDirectory(from: nat, to: nat): (Digits, Digits) {
    (Decimal(from), Decimal(to))
  }

  /** What the script demands of a manifest, and nothing more. */
  ghost predicate Acceptable(m: Manifest) {
    && m.metadata.Some?
    && var d := m.metadata.value;
       && d.onlyKnownMembers
       && d.from.Some? && d.to == Some(d.from.value + 1)
       && m.name == Some(PackageName(d.from.value))
       && m.directory.Some? && Value(m.directory.value.0) == d.from.value && Value(m.directory.value.1) == d.to.value
       && d.export_.Some? && d.migration.Some? && d.sourceCodec.Some? && d.targetCodec.Some?
       && d.headerValidator.Some? && d.restorer.Some?
  }

  /** Every field of the migration is that of the manifest, under its own name. */
  ghost predicate SaysSo(m: Manifest, item: Migration) {
    && m.name == Some(item.packageName) && m.directory == Some(item.directory) && m.dependencies == item.dependencies
    && m.metadata.Some?
    && var d := m.metadata.value;
       && d.from == Some(item.from) && d.to == Some(item.to)
       && d.migration == Some(item.migration)
       && d.sourceCodec == Some(item.sourceCodec) && d.targetCodec == Some(item.targetCodec)
       && d.restorer == Some(item.restorer) && d.headerValidator == Some(item.headerValidator)
       && d.export_.Some? && ImportedFrom(item.packageName, d.export_.value, item.importPath)
  }

  /** The main export is imported by the package's name, any other one by its path below it, a leading `./` left out. */
  ghost predicate ImportedFrom(packageName: string, export_: string, importPath: string) {
    if export_ == "." then importPath == packageName
    else if |export_| >= 2 && export_[0] == '.' && export_[1] == '/' then importPath == packageName + "/" + export_[2..]
    else importPath == packageName + "/" + export_
  }

  /** The checks on one manifest, in the order the script makes them. */
  function Declare(m: Manifest, entry: nat): (r: Result<Migration>)
    ensures r.Ok? <==> Acceptable(m)
    ensures r.Ok? ==> SaysSo(m, r.value)
  {
    match m.metadata
    case None => Err(NoMetadata(entry))
    case Some(d) =>
      if !d.onlyKnownMembers then Err(UnknownMember(entry))
      else if m.name.None? || d.from.None? || d.to.None? then Err(BadField(entry))
      else if d.to.value != d.from.value + 1 then Err(NotAdjacent(entry))
      else if m.name.value != PackageName(d.from.value) then Err(WrongName(entry))
      else if !InDirectory(m.directory, d.from.value, d.to.value) then Err(WrongDirectory(entry))
      else if d.export_.None? || d.migration.None? || d.sourceCodec.None? || d.targetCodec.None?
              || d.headerValidator.None? || d.restorer.None? then Err(BadField(entry))
      else Ok(Migration(m.name.value, ImportPath(m.name.value, d.export_.value), d.from.value, d.to.value,
                        d.migration.value, d.sourceCodec.value, d.targetCodec.value,
                        d.headerValidator.value, d.restorer.value, m.directory.value, m.dependencies))
  }

  lemma PackagePrefix()
    ensures SESSION_PACKAGE + "-format-v" == "@deepseek-ai/dsh-session-format-v"
  {
  }

  lemma NumeralsSpelled()
    ensures forall v: nat :: v < 10 ==> Text(Decimal(v)) == [(48 + v) as char]
    ensures Text(Decimal(10)) == "10" && Text(Decimal(11)) == "11"
  {
    assert Decimal(10) == [49, 48] && Decimal(11) == [49, 49];
  }

  /** How the names of the first eleven migration packages are spelled. */
  lemma PackageNamesSpelled(prefix: string)
    requires prefix == "@deepseek-ai/dsh-session-format-v"
    ensures forall v: nat :: v < 9 ==> PackageName(v) == prefix + [(48 + v) as char] + "-to-v" + [(49 + v) as char]
    ensures PackageName(9) == prefix + "9" + "-to-v" + "10" && PackageName(10) == prefix + "10" + "-to-v" + "11"
  {
    PackagePrefix();
    NumeralsSpelled();
  }

  ghost predicate AllDeclare(inventory: seq<Manifest>) {
    forall i :: 0 <= i < |inventory| ==> Declare(inventory[i], i).Ok?
  }

  ghost function Declared(inventory: seq<Manifest>): (s: seq<Migration>)
    requires AllDeclare(inventory)
    ensures |s| == |inventory| && forall i :: 0 <= i < |s| ==> s[i] == Declare(inventory[i], i).value
  {
    seq(|inventory|, i requires 0 <= i < |inventory| => Declare(inventory[i], i).value)
  }

  // ----- the chain

  /** Position `i` migrates version `i` to `i + 1`, from the codec its predecessor ends with. */
  ghost predicate IsChain(chain: seq<Migration>, current: nat) {
    && |chain| == current
    && (forall i :: 0 <= i < |chain| ==> chain[i].from == i && chain[i].to == i + 1)
    && (forall i :: 0 < i < |chain| ==> chain[i].sourceCodec == chain[i - 1].targetCodec)
  }

  /** The dependencies the catalog and the migration packages must declare; the manifest of every package but the first
      is read again for that, from its canonical directory. */
  ghost predicate Wired(chain: seq<Migration>, catalog: Catalog) {
    && SESSION_PACKAGE !in catalog.dependencies
    && SESSION_PACKAGE in catalog.peerDependencies && SESSION_PACKAGE in catalog.devDependencies
    && (forall i :: 0 <= i < |chain| ==> chain[i].packageName in catalog.dependencies)
    && (forall i :: 0 < i < |chain| ==> chain[i].directory == CanonicalDirectory(chain[i].from, chain[i].to))
    && (forall i :: 0 < i < |chain| ==> chain[i - 1].packageName in chain[i].dependencies)
  }

  function ByFrom(a: Migration, b: Migration): int {
    a.from - b.from
  }

  lemma ByFromIsComparison()
    ensures Comparison(ByFrom)
  {
  }

  /** Indices of the migrations that start at `version`. */
  ghost function Starting(s: seq<Migration>, version: int): set<nat> {
    set i: nat | i < |s| && s[i].from == version
  }

  function CountFrom(s: seq<Migration>, version: nat): (n: nat)
    ensures n == |Starting(s, version)|
  {
    if s == [] then 0
    else
      assert Starting(s, version)
             == Starting(s[..|s| - 1], version) + if s[|s| - 1].from == version then {|s| - 1} else {};
      CountFrom(s[..|s| - 1], version) + if s[|s| - 1].from == version then 1 else 0
  }

  lemma OneStart(s: seq<Migration>, version: nat, i: nat, j: nat)
    requires |Starting(s, version)| == 1 && i < |s| && j < |s| && s[i].from == s[j].from == version
    ensures i == j
  {
    var starting := Starting(s, version);
    assert i in starting && j in starting;
    assert |starting - {i}| == 0;
    assert starting - {i} == {};
  }

  /** Sorted, one start per version below `current`, none beyond, and `current` of them: position is version. */
  lemma {:induction false} PositionIsVersion(s: seq<Migration>, current: nat)
    requires SortedBy(s, ByFrom) && |s| == current
    requires forall v: nat :: v < current ==> |Starting(s, v)| == 1
    requires forall m :: m in s ==> m.from < current
    ensures forall i :: 0 <= i < |s| ==> s[i].from == i
  {
    forall i | 0 <= i < |s| - 1
      ensures s[i].from < s[i + 1].from
    {
      assert ByFrom(s[i], s[i + 1]) <= 0;
      if s[i].from == s[i + 1].from {
        assert s[i] in s;
        OneStart(s, s[i].from, i, i + 1);
      }
    }
    forall i | 0 <= i < |s|
      ensures s[i].from == i
    {
      AtLeastPosition(s, i);
      AtMostPosition(s, i);
    }
  }

  lemma {:induction false} AtLeastPosition(s: seq<Migration>, i: nat)
    requires i < |s| && forall i :: 0 <= i < |s| - 1 ==> s[i].from < s[i + 1].from
    ensures s[i].from >= i
  {
    if i > 0 {
      AtLeastPosition(s, i - 1);
      assert s[i - 1].from < s[i - 1 + 1].from;
    }
  }

  lemma {:induction false} AtMostPosition(s: seq<Migration>, i: nat)
    requires i < |s| && forall i :: 0 <= i < |s| - 1 ==> s[i].from < s[i + 1].from
    requires forall m :: m in s ==> m.from < |s|
    ensures s[i].from <= i
    decreases |s| - i
  {
    if i == |s| - 1 {
      assert s[i] in s;
    } else {
      AtMostPosition(s, i + 1);
    }
  }

  // ----- a chain passes every check

  ghost predicate Ascending(chain: seq<Migration>) {
    forall i, j :: 0 <= i < j < |chain| ==> chain[i].from < chain[j].from
  }

  lemma SameHead(s: seq<Migration>, chain: seq<Migration>)
    requires SortedBy(s, ByFrom) && Ascending(chain) && multiset(s) == multiset(chain) && s != [] && chain != []
    ensures s[0] == chain[0]
  {
    assert s[0] in multiset(chain) && chain[0] in multiset(s);
    var i :| 0 <= i < |chain| && chain[i] == s[0];
    var j :| 0 <= j < |s| && s[j] == chain[0];
    assert j > 0 ==> ByFrom(s[0], s[j]) <= 0;
  }

  lemma TailElements(s: seq<Migration>)
    requires s != []
    ensures multiset(s[1..]) == multiset(s) - multiset{s[0]}
  {
    assert s == [s[0]] + s[1..];
  }

  /** Sorting a chain's migrations gives the chain back. */
  lemma {:induction false} SortedIsChain(s: seq<Migration>, chain: seq<Migration>)
    requires SortedBy(s, ByFrom) && Ascending(chain) && multiset(s) == multiset(chain)
    ensures s == chain
  {
    assert |s| == |multiset(s)| == |multiset(chain)| == |chain|;
    if s != [] {
      SameHead(s, chain);
      TailElements(s);
      TailElements(chain);
      SortedIsChain(s[1..], chain[1..]);
      assert s == [s[0]] + s[1..] && chain == [chain[0]] + chain[1..];
    }
  }

  /** Any arrangement into a chain is the sorted one, and its versions pass the checks. */
  lemma ArrangementIsSorted(s: seq<Migration>, chain: seq<Migration>, current: nat)
    requires SortedBy(s, ByFrom) && multiset(s) == multiset(chain) && IsChain(chain, current)
    ensures s == chain && forall v: nat :: v < current ==> |Starting(s, v)| == 1
  {
    SortedIsChain(s, chain);
    forall v: nat | v < current
      ensures |Starting(s, v)| == 1
    {
      ChainStarts(chain, current, v);
    }
  }

  lemma ChainStarts(chain: seq<Migration>, current: nat, version: nat)
    requires IsChain(chain, current) && version < current
    ensures |Starting(chain, version)| == 1
  {
    assert Starting(chain, version) == {version};
  }

  // ----- collecting

  /** `collectSessionFormatMigrations` on manifests that have been read: the declarations in sorted order. */
  method DeclareAll(inventory: seq<Manifest>) returns (r: Result<seq<Migration>>)
    ensures r.Ok? <==> AllDeclare(inventory)
    ensures r.Ok? ==> r.value == Declared(inventory)
  {
    var declarations := [];
    for i := 0 to |inventory|
      invariant |declarations| == i
      invariant forall j :: 0 <= j < i ==> Declare(inventory[j], j) == Ok(declarations[j])
    {
      var one := Declare(inventory[i], i);
      if one.Err? {
        return Err(one.error);
      }
      declarations := declarations + [one.value];
    }
    return Ok(declarations);
  }

  /** The two checks on starting versions and on the end of the inventory. */
  method CheckVersions(s: seq<Migration>, current: nat) returns (r: Result<()>)
    ensures r.Ok? <==> |s| == current && (forall v: nat :: v < current ==> |Starting(s, v)| == 1)
                       && forall m :: m in s ==> m.from < current
  {
    for version := 0 to current
      invariant forall v: nat :: v < version ==> |Starting(s, v)| == 1
    {
      if CountFrom(s, version) != 1 {
        return Err(NotExactlyOne(version));
      }
    }
    for i := 0 to |s|
      invariant forall m :: m in s[..i] ==> m.from < current
    {
      if s[i].from >= current {
        return Err(WrongEnd);
      }
      assert s[..i + 1] == s[..i] + [s[i]];
    }
    assert s[..|s|] == s;
    if |s| != current {
      return Err(WrongEnd);
    }
    return Ok(());
  }

  /** The checks on the catalog's dependencies and between neighbours. */
  method CheckWiring(s: seq<Migration>, catalog: Catalog) returns (r: Result<()>)
    ensures r.Ok? <==> Wired(s, catalog) && forall i :: 0 < i < |s| ==> s[i].sourceCodec == s[i - 1].targetCodec
  {
    if SESSION_PACKAGE in catalog.dependencies || SESSION_PACKAGE !in catalog.peerDependencies
       || SESSION_PACKAGE !in catalog.devDependencies {
      return Err(CatalogNotShared);
    }
    for i := 0 to |s|
      invariant forall j :: 0 <= j < i ==> s[j].packageName in catalog.dependencies
      invariant forall j :: 0 < j < i ==> s[j].sourceCodec == s[j - 1].targetCodec
      invariant forall j :: 0 < j < i ==> s[j].directory == CanonicalDirectory(s[j].from, s[j].to)
      invariant forall j :: 0 < j < i ==> s[j - 1].packageName in s[j].dependencies
    {
      if s[i].packageName !in catalog.dependencies {
        return Err(CatalogLacks(s[i].from));
      }
      if i > 0 {
        if s[i].sourceCodec != s[i - 1].targetCodec {
          return Err(CodecBreak(s[i].from));
        }
        if s[i].directory != CanonicalDirectory(s[i].from, s[i].to) {
          return Err(NoManifest(s[i].from));
        }
        if s[i - 1].packageName !in s[i].dependencies {
          return Err(MissingPrevious(s[i].from));
        }
      }
    }
    return Ok(());
  }

  /** Some arrangement of the declarations is a wired chain. */
  ghost predicate Arranges(inventory: seq<Manifest>, current: nat, catalog: Catalog, chain: seq<Migration>) {
    && AllDeclare(inventory) && multiset(chain) == multiset(Declared(inventory))
    && IsChain(chain, current) && Wired(chain, catalog)
  }

  /** The inventory is accepted exactly when its declarations can be arranged into a wired chain from version 0
      to the current one, and that arrangement is the result. */
  method Collect(inventory: seq<Manifest>, current: nat, catalog: Catalog) returns (r: Result<seq<Migration>>)
    ensures r.Ok? ==> Arranges(inventory, current, catalog, r.value)
    ensures forall chain :: Arranges(inventory, current, catalog, chain) ==> r == Ok(chain)
  {
    var declared := DeclareAll(inventory);
    if declared.Err? {
      return declared;
    }
    ByFromIsComparison();
    SortPermutes(declared.value, ByFrom);
    SortSorts(declared.value, ByFrom);
    var s := Sort(declared.value, ByFrom);
    forall chain | Arranges(inventory, current, catalog, chain)
      ensures s == chain && forall v: nat :: v < current ==> |Starting(s, v)| == 1
    {
      ArrangementIsSorted(s, chain, current);
    }
    var versions := CheckVersions(s, current);
    if versions.Err? {
      return Err(versions.error);
    }
    PositionIsVersion(s, current);
    DeclaredAreAdjacent(inventory, s);
    var wiring := CheckWiring(s, catalog);
    if wiring.Err? {
      return Err(wiring.error);
    }
    return Ok(s);
  }

  lemma DeclaredAreAdjacent(inventory: seq<Manifest>, s: seq<Migration>)
    requires AllDeclare(inventory) && multiset(s) == multiset(Declared(inventory))
    ensures forall i :: 0 <= i < |s| ==> s[i].to == s[i].from + 1
  {
    forall i | 0 <= i < |s|
      ensures s[i].to == s[i].from + 1
    {
      assert s[i] in multiset(Declared(inventory));
      var j :| 0 <= j < |inventory| && Declared(inventory)[j] == s[i];
    }
  }

  /** The directory `session-format-v01-to-v2` passes the directory check of its manifest, but no catalog is wired to it:
      there is no manifest in `session-format-v1-to-v2`. */
  lemma LeadingZeroPassesThenFails(chain: seq<Migration>, current: nat, catalog: Catalog)
    requires IsChain(chain, current) && current > 1 && chain[1].directory == ([48, 49], [50])
    ensures InDirectory(Some(chain[1].directory), 1, 2)
    ensures !Wired(chain, catalog)
  {
    var zero: Digits := [48];
    assert Value(zero[..0]) == 0 && [48, 49][..1] == zero && Value(zero) == 0;
    assert [50][..0] == [];
    assert Decimal(1) == [49];
    assert CanonicalDirectory(chain[1].from, chain[1].to).0 == [49];
  }

  // ----- migrating along the chain

  /** Follow the migration that starts at `version`, `steps` times. */
  ghost function Migrate(chain: seq<Migration>, version: nat, steps: nat): Option<nat>
    decreases steps
  {
    if steps == 0 then Some(version)
    else if m :| m in chain && m.from == version then Migrate(chain, m.to, steps - 1)
    else None
  }

  /** From every version the chain reaches the current one, in as many steps as versions lie between. */
  lemma {:induction false} MigrationReachesCurrent(chain: seq<Migration>, current: nat, version: nat)
    requires IsChain(chain, current) && version <= current
    ensures Migrate(chain, version, current - version) == Some(current)
    decreases current - version
  {
    if version < current {
      assert chain[version] in chain;
      forall m | m in chain && m.from == version
        ensures m == chain[version]
      {
        var i :| 0 <= i < |chain| && chain[i] == m;
      }
      MigrationReachesCurrent(chain, current, version + 1);
    }
  }

  // ----- rendering

  /** What the generated file holds: one import per migration package, and the names its body uses. */
  datatype Rendered = Rendered(
    imports: seq<(set<string>, string)>,
    currentVersion: nat,
    codecs: seq<string>,
    currentEncoder: string,
    migrations: seq<string>,
    restorer: string,
    headerValidator: string)

  function ImportedNames(item: Migration, current: nat): set<string> {
    {item.targetCodec, item.migration}
    + (if item.from == 0 then {item.sourceCodec} else {})
    + if item.to == current then {item.restorer, item.headerValidator} else {}
  }

  function Render(chain: seq<Migration>, current: nat): Result<Rendered> {
    if chain == [] then Err(NothingToRender)
    else
      var last := chain[|chain| - 1];
      Ok(Rendered(
           seq(|chain|, i requires 0 <= i < |chain| => (ImportedNames(chain[i], current), chain[i].importPath)),
           current,
           [chain[0].sourceCodec] + seq(|chain|, i requires 0 <= i < |chain| => chain[i].targetCodec),
           last.targetCodec,
           seq(|chain|, i requires 0 <= i < |chain| => chain[i].migration),
           last.restorer,
           last.headerValidator))
  }

  ghost function BodyNames(r: Rendered): set<string> {
    (set c | c in r.codecs) + (set m | m in r.migrations) + {r.currentEncoder, r.restorer, r.headerValidator}
  }

  ghost function AllImported(r: Rendered): set<string> {
    set i, n | 0 <= i < |r.imports| && n in r.imports[i].0 :: n
  }

  /** Entry `v` of the catalog is version `v`: the codec its migration reads and its predecessor writes, the
      migration out of it, the package that migration comes from; the last package restores the current version. */
  lemma CatalogByVersion(chain: seq<Migration>, current: nat)
    requires IsChain(chain, current)
    ensures Render(chain, current).Ok? <==> current > 0
    ensures current > 0 ==>
      var r := Render(chain, current).value;
      && |r.codecs| == current + 1 && |r.migrations| == |r.imports| == current == r.currentVersion
      && r.currentEncoder == r.codecs[current]
      && (forall v :: 0 <= v < current ==> r.codecs[v] == chain[v].sourceCodec && r.codecs[v + 1] == chain[v].targetCodec)
      && (forall v :: 0 <= v < current ==> r.migrations[v] == chain[v].migration && r.imports[v].1 == chain[v].importPath)
      && r.restorer == chain[current - 1].restorer && r.headerValidator == chain[current - 1].headerValidator
  {
  }

  /** What the generated file holds for version `v`, each name out of the field of the manifest that is meant for it. */
  ghost predicate Renders(r: Rendered, current: nat, v: nat, m: Manifest)
    requires v < current == |r.imports| == |r.migrations| && |r.codecs| == current + 1
  {
    && m.name.Some? && m.metadata.Some?
    && var d := m.metadata.value;
       && d.sourceCodec == Some(r.codecs[v]) && d.targetCodec == Some(r.codecs[v + 1]) && d.migration == Some(r.migrations[v])
       && d.export_.Some? && ImportedFrom(m.name.value, d.export_.value, r.imports[v].1)
       && (forall name :: name in r.imports[v].0 <==>
             || Some(name) == d.targetCodec || Some(name) == d.migration
             || (v == 0 && Some(name) == d.sourceCodec)
             || (v + 1 == current && (Some(name) == d.restorer || Some(name) == d.headerValidator)))
       && (v + 1 == current ==>
             d.targetCodec == Some(r.currentEncoder) && d.restorer == Some(r.restorer) && d.headerValidator == Some(r.headerValidator))
  }

  /** The manifest says that it migrates version `v`. */
  ghost predicate StartsAt(m: Manifest, v: nat) {
    m.metadata.Some? && m.metadata.value.from == Some(v)
  }

  lemma ChainItem(inventory: seq<Manifest>, current: nat, catalog: Catalog, chain: seq<Migration>, i: nat)
    requires Arranges(inventory, current, catalog, chain) && i < |inventory|
    ensures Declared(inventory)[i] in chain && SaysSo(inventory[i], Declared(inventory)[i])
    ensures StartsAt(inventory[i], Declared(inventory)[i].from)
  {
    var s := Declared(inventory);
    assert s[i] == Declare(inventory[i], i).value;
    assert s[i] in multiset(s) && s[i] in multiset(chain);
  }

  lemma TwiceDeclared(s: seq<Migration>, i: nat, j: nat)
    requires i < j < |s| && s[i] == s[j]
    ensures multiset(s)[s[i]] >= 2
  {
    assert s == s[..j] + [s[j]] + s[j + 1..];
    assert s[i] in s[..j];
    assert s[i] in multiset(s[..j]);
  }

  lemma {:induction false} OnceInChain(chain: seq<Migration>, item: Migration)
    requires Ascending(chain)
    ensures multiset(chain)[item] <= 1
  {
    if chain != [] {
      var init, last := chain[..|chain| - 1], chain[|chain| - 1];
      OnceInChain(init, item);
      assert chain == init + [last];
      if item == last {
        assert forall k :: 0 <= k < |init| ==> init[k].from < last.from;
        assert last !in init;
      }
    }
  }

  lemma OneManifest(inventory: seq<Manifest>, current: nat, catalog: Catalog, chain: seq<Migration>, v: nat, i: nat, j: nat)
    requires Arranges(inventory, current, catalog, chain) && v < current && i < |inventory| && j < |inventory|
    requires StartsAt(inventory[i], v) && StartsAt(inventory[j], v)
    ensures i == j && Declared(inventory)[i] == chain[v]
  {
    var s := Declared(inventory);
    ChainItem(inventory, current, catalog, chain, i);
    ChainItem(inventory, current, catalog, chain, j);
    assert s[i] == chain[v] && s[j] == chain[v];
    OnceInChain(chain, chain[v]);
    if i < j {
      TwiceDeclared(s, i, j);
    } else if j < i {
      TwiceDeclared(s, j, i);
    }
  }

  lemma ImportsOf(chain: seq<Migration>, current: nat, v: nat)
    requires IsChain(chain, current) && v < current && |Render(chain, current).value.imports| == current
    ensures var names := Render(chain, current).value.imports[v].0;
      forall name :: name in names <==>
        || name == chain[v].targetCodec || name == chain[v].migration
        || (v == 0 && name == chain[v].sourceCodec)
        || (v + 1 == current && (name == chain[v].restorer || name == chain[v].headerValidator))
  {
    assert Render(chain, current).value.imports[v].0 == ImportedNames(chain[v], current);
  }

  /** What is rendered of a migration is rendered of the manifest that says so. */
  lemma RenderedOf(r: Rendered, current: nat, v: nat, item: Migration, m: Manifest)
    requires v < current == |r.imports| == |r.migrations| && |r.codecs| == current + 1 && SaysSo(m, item)
    requires r.codecs[v] == item.sourceCodec && r.codecs[v + 1] == item.targetCodec && r.migrations[v] == item.migration
    requires r.imports[v].1 == item.importPath
    requires forall name :: name in r.imports[v].0 <==>
      || name == item.targetCodec || name == item.migration || (v == 0 && name == item.sourceCodec)
      || (v + 1 == current && (name == item.restorer || name == item.headerValidator))
    requires v + 1 == current ==>
      r.currentEncoder == item.targetCodec && r.restorer == item.restorer && r.headerValidator == item.headerValidator
    ensures Renders(r, current, v, m)
  {
  }

  lemma RenderedSays(chain: seq<Migration>, current: nat, v: nat, m: Manifest)
    requires IsChain(chain, current) && v < current && SaysSo(m, chain[v])
    ensures Render(chain, current).Ok?
    ensures var r := Render(chain, current).value;
      && r.currentVersion == current == |r.imports| == |r.migrations| && |r.codecs| == current + 1
      && Renders(r, current, v, m)
  {
    CatalogByVersion(chain, current);
    ImportsOf(chain, current, v);
    var r := Render(chain, current).value;
    RenderedOf(r, current, v, chain[v], m);
  }

  /** From the manifests to the generated file: for every version exactly one manifest starts there, and the file holds
      that manifest's names, each in its place. */
  lemma CatalogFromManifests(inventory: seq<Manifest>, current: nat, catalog: Catalog, chain: seq<Migration>, v: nat)
    returns (i: nat)
    requires Arranges(inventory, current, catalog, chain) && v < current
    ensures i < |inventory| && forall j: nat :: j < |inventory| ==> (StartsAt(inventory[j], v) <==> j == i)
    ensures Render(chain, current).Ok?
    ensures var r := Render(chain, current).value;
      && r.currentVersion == current == |r.imports| == |r.migrations| && |r.codecs| == current + 1
      && Renders(r, current, v, inventory[i])
  {
    var s := Declared(inventory);
    assert chain[v] in multiset(chain) && chain[v] in multiset(s);
    i :| 0 <= i < |s| && s[i] == chain[v];
    ChainItem(inventory, current, catalog, chain, i);
    forall j: nat | j < |inventory| && StartsAt(inventory[j], v)
      ensures j == i
    {
      OneManifest(inventory, current, catalog, chain, v, i, j);
    }
    RenderedSays(chain, current, v, inventory[i]);
  }

  /** What an accepted inventory says about packages: the catalog depends on each of them and shares the Session package;
      each one after the first depends on its predecessor, goes on from its codec, and sits in the directory whose numbers
      are the decimal numerals of its versions. */
  lemma ManifestsWired(inventory: seq<Manifest>, current: nat, catalog: Catalog, chain: seq<Migration>, v: nat, i: nat, j: nat)
    requires Arranges(inventory, current, catalog, chain) && v + 1 < current && i < |inventory| && j < |inventory|
    requires StartsAt(inventory[i], v) && StartsAt(inventory[j], v + 1)
    ensures inventory[i].name.Some? && inventory[i].name.value in catalog.dependencies
    ensures inventory[j].name.Some? && inventory[j].name.value in catalog.dependencies
    ensures inventory[i].name.value in inventory[j].dependencies
    ensures inventory[j].metadata.value.sourceCodec == inventory[i].metadata.value.targetCodec != None
    ensures inventory[j].directory.Some? && inventory[j].directory.value.0 == Decimal(v + 1) && inventory[j].directory.value.1 == Decimal(v + 2)
    ensures "@deepseek-ai/dsh-session" !in catalog.dependencies
    ensures "@deepseek-ai/dsh-session" in catalog.peerDependencies && "@deepseek-ai/dsh-session" in catalog.devDependencies
  {
    OneManifest(inventory, current, catalog, chain, v, i, i);
    OneManifest(inventory, current, catalog, chain, v + 1, j, j);
    ChainItem(inventory, current, catalog, chain, i);
    ChainItem(inventory, current, catalog, chain, j);
  }

  lemma UsedIsImported(chain: seq<Migration>, current: nat, n: string)
    requires IsChain(chain, current) && current > 0 && n in BodyNames(Render(chain, current).value)
    ensures n in AllImported(Render(chain, current).value)
  {
    var r := Render(chain, current).value;
    if n in r.codecs {
      var v :| 0 <= v < |r.codecs| && r.codecs[v] == n;
      assert n in r.imports[if v == 0 then 0 else v - 1].0;
    } else if n in r.migrations {
      var v :| 0 <= v < |r.migrations| && r.migrations[v] == n;
      assert n in r.imports[v].0;
    } else {
      assert n in r.imports[current - 1].0;
    }
  }

  lemma ImportedIsUsed(chain: seq<Migration>, current: nat, n: string)
    requires IsChain(chain, current) && current > 0 && n in AllImported(Render(chain, current).value)
    ensures n in BodyNames(Render(chain, current).value)
  {
    var r := Render(chain, current).value;
    var i :| 0 <= i < |r.imports| && n in r.imports[i].0;
    assert r.codecs[i + 1] == chain[i].targetCodec && r.migrations[i] == chain[i].migration;
    assert r.codecs[0] == chain[0].sourceCodec;
  }

  /** The file imports exactly the names its body uses. */
  lemma ImportsAreTheNamesUsed(chain: seq<Migration>, current: nat)
    requires IsChain(chain, current) && current > 0
    ensures AllImported(Render(chain, current).value) == BodyNames(Render(chain, current).value)
  {
    forall n
      ensures n in AllImported(Render(chain, current).value) <==> n in BodyNames(Render(chain, current).value)
    {
      if n in AllImported(Render(chain, current).value) {
        ImportedIsUsed(chain, current, n);
      }
      if n in BodyNames(Render(chain, current).value) {
        UsedIsImported(chain, current, n);
      }
    }
  }
}
