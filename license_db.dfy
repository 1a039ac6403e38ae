/**
 The license database of `FossLicenses`: the tables built from the parsed
 license files (`__init_license_db`), the lookup `__identify_license` and the
 queries built on it (`license`, `__compatibility_as`, `aliases_list`,
 `compatibility_as_list`).
 */
module LicenseDb {
  import opened Common
  import opened Text

  /** The fields of one parsed license file that the database reads. */
  datatype LicenseRecord = LicenseRecord(
    spdxid: string,
    aliases: seq<string>,
    scancodeKey: Option<string>,
    compatibilityAs: Option<string>)

  /**
   The tables of `license_db`. `licenseOrder` is the insertion order of the
   `licenses` dict, which `compatibility_as_list` follows.
   */
  datatype Db = Db(
    licenses: map<string, LicenseRecord>,
    licenseOrder: seq<string>,
    aliases: map<string, string>,
    scancodeKeys: map<string, string>,
    compats: map<string, string>,
    operators: map<string, string>)

  /** The tables before the first license file is read; the operator table comes from its own file. */
  function Empty(operators: map<string, string>): Db {
    Db(map[], [], map[], map[], map[], operators)
  }

  /**
   What loading guarantees of the tables: every license is stored under its
   own id, every alias, scancode key and compatibility entry refers to a
   stored license, and `licenseOrder` lists the stored ids once each.
   */
  predicate Valid(db: Db) {
    (forall k :: k in db.licenses ==> db.licenses[k].spdxid == k)
    && (forall a :: a in db.aliases ==> db.aliases[a] in db.licenses)
    && (forall k :: k in db.scancodeKeys ==> db.scancodeKeys[k] in db.licenses)
    && (forall k :: k in db.compats ==> k in db.licenses)
    && Distinct(db.licenseOrder)
    && (forall k :: k in db.licenseOrder ==> k in db.licenses)
    && (forall k :: k in db.licenses ==> k in db.licenseOrder)
  }

  /** The `compats` table agrees with the `compatibility_as` field of every stored license. */
  predicate CompatsConsistent(db: Db) {
    forall k :: k in db.licenses ==>
      (k in db.compats <==> db.licenses[k].compatibilityAs.Some?)
      && (k in db.compats ==> db.compats[k] == db.licenses[k].compatibilityAs.value)
  }

  // ---------------------------------------------------------------------------
  // Loading

  /** One alias declaration `alias -> spdxid`. */
  datatype Declaration = Declaration(alias: string, spdxid: string)

  /** The declarations of one license file, in the order of its `aliases` list. */
  function Declarations(names: seq<string>, id: string): (ds: seq<Declaration>)
    ensures |ds| == |names|
    ensures forall i :: 0 <= i < |ds| ==> ds[i] == Declaration(names[i], id)
  {
    seq(|names|, i requires 0 <= i < |names| => Declaration(names[i], id))
  }

  /** The declarations of all license files, file by file. */
  function AllDeclarations(recs: seq<LicenseRecord>): seq<Declaration>
    decreases |recs|
  {
    if recs == [] then [] else Declarations(recs[0].aliases, recs[0].spdxid) + AllDeclarations(recs[1..])
  }

  /** The alias loop: adds each declaration, raising on an alias that is already declared. */
  function AliasFold(aliases: map<string, string>, ds: seq<Declaration>): Result<map<string, string>, FlameError>
    decreases |ds|
  {
    if ds == [] then Success(aliases)
    else if ds[0].alias in aliases then Failure(DuplicateAlias(ds[0].alias, ds[0].spdxid, aliases[ds[0].alias]))
    else AliasFold(aliases[ds[0].alias := ds[0].spdxid], ds[1..])
  }

  /** One iteration of the file loop. */
  function AddRecord(db: Db, rec: LicenseRecord): Result<Db, FlameError> {
    match AliasFold(db.aliases, Declarations(rec.aliases, rec.spdxid))
    case Failure(e) => Failure(e)
    case Success(aliases) =>
      Success(Db(
        db.licenses[rec.spdxid := rec],
        if rec.spdxid in db.licenses then db.licenseOrder else db.licenseOrder + [rec.spdxid],
        aliases,
        if rec.scancodeKey.Some? then db.scancodeKeys[rec.scancodeKey.value := rec.spdxid] else db.scancodeKeys,
        if rec.compatibilityAs.Some? then db.compats[rec.spdxid := rec.compatibilityAs.value] else db.compats,
        db.operators))
  }

  /** The file loop from tables `db` on. */
  function LoadFrom(db: Db, recs: seq<LicenseRecord>): Result<Db, FlameError>
    decreases |recs|
  {
    if recs == [] then Success(db)
    else
      match AddRecord(db, recs[0])
      case Failure(e) => Failure(e)
      case Success(next) => LoadFrom(next, recs[1..])
  }

  /** `__init_license_db` over the parsed files, in the order they are read. */
  function Load(recs: seq<LicenseRecord>, operators: map<string, string>): Result<Db, FlameError> {
    LoadFrom(Empty(operators), recs)
  }

  /**
   `__init_license_db` as the source writes it: one loop over the files that
   fills the tables, with an inner loop over the aliases that raises on a
   duplicate.
   */
  method InitLicenseDb(records: seq<LicenseRecord>, operators: map<string, string>) returns (r: Result<Db, FlameError>)
    ensures r == Load(records, operators)
  {
    var licenses: map<string, LicenseRecord> := map[];
    var order: seq<string> := [];
    var aliases: map<string, string> := map[];
    var scancodeKeys: map<string, string> := map[];
    var compats: map<string, string> := map[];
    var i := 0;
    while i < |records|
      invariant 0 <= i <= |records|
      invariant LoadFrom(Db(licenses, order, aliases, scancodeKeys, compats, operators), records[i..]) == Load(records, operators)
    {
      var data := records[i];
      ghost var before := Db(licenses, order, aliases, scancodeKeys, compats, operators);
      ghost var ds := Declarations(data.aliases, data.spdxid);
      assert records[i..][0] == data && records[i..][1..] == records[i + 1..];
      if data.spdxid !in licenses {
        order := order + [data.spdxid];
      }
      licenses := licenses[data.spdxid := data];
      var j := 0;
      while j < |data.aliases|
        invariant 0 <= j <= |data.aliases|
        invariant AliasFold(aliases, ds[j..]) == AliasFold(before.aliases, ds)
      {
        var alias := data.aliases[j];
        assert ds[j..][0] == Declaration(alias, data.spdxid) && ds[j..][1..] == ds[j + 1..];
        if alias in aliases {
          return Failure(DuplicateAlias(alias, data.spdxid, aliases[alias]));
        }
        aliases := aliases[alias := data.spdxid];
        j := j + 1;
      }
      assert ds[j..] == [];
      if data.scancodeKey.Some? {
        scancodeKeys := scancodeKeys[data.scancodeKey.value := data.spdxid];
      }
      if data.compatibilityAs.Some? {
        compats := compats[data.spdxid := data.compatibilityAs.value];
      }
      i := i + 1;
    }
    assert records[i..] == [];
    r := Success(Db(licenses, order, aliases, scancodeKeys, compats, operators));
  }

  /** No alias is declared twice. */
  predicate NoRepeat(ds: seq<Declaration>) {
    forall p, q :: 0 <= p < q < |ds| ==> ds[p].alias != ds[q].alias
  }

  /** No declared alias is in `aliases` yet, and none is declared twice. */
  predicate Fresh(aliases: map<string, string>, ds: seq<Declaration>) {
    (forall p :: 0 <= p < |ds| ==> ds[p].alias !in aliases) && NoRepeat(ds)
  }

  /** The alias loop succeeds exactly on fresh declarations. */
  lemma {:induction false} AliasFoldSucceeds(m: map<string, string>, ds: seq<Declaration>)
    ensures AliasFold(m, ds).Success? <==> Fresh(m, ds)
    decreases |ds|
  {
    if ds != [] && ds[0].alias !in m {
      var m' := m[ds[0].alias := ds[0].spdxid];
      var tail := ds[1..];
      AliasFoldSucceeds(m', tail);
      if Fresh(m', tail) {
        forall p | 0 <= p < |ds|
          ensures ds[p].alias !in m
        {
          if p > 0 { assert ds[p] == tail[p - 1]; }
        }
        forall p, q | 0 <= p < q < |ds|
          ensures ds[p].alias != ds[q].alias
        {
          assert ds[q] == tail[q - 1];
          if p > 0 { assert ds[p] == tail[p - 1]; }
        }
      }
      if Fresh(m, ds) {
        forall p | 0 <= p < |tail|
          ensures tail[p].alias !in m'
        {
          assert tail[p] == ds[p + 1];
        }
        forall p, q | 0 <= p < q < |tail|
          ensures tail[p].alias != tail[q].alias
        {
          assert tail[p] == ds[p + 1] && tail[q] == ds[q + 1];
        }
      }
    }
  }

  /** Some declaration of `ds` is for alias `a`. */
  predicate Declares(ds: seq<Declaration>, a: string) {
    exists p :: 0 <= p < |ds| && ds[p].alias == a
  }

  /** `t` is `m` extended with the declarations `ds`, and nothing else. */
  predicate Extends(t: map<string, string>, m: map<string, string>, ds: seq<Declaration>) {
    (forall k :: k in t ==> k in m || Declares(ds, k))
    && (forall p :: 0 <= p < |ds| ==> ds[p].alias in t && t[ds[p].alias] == ds[p].spdxid)
    && (forall k :: k in m ==> k in t && t[k] == m[k])
  }

  /** A successful alias loop maps every declared alias to its declarer and keeps the earlier entries. */
  lemma {:induction false} AliasFoldTable(m: map<string, string>, ds: seq<Declaration>)
    requires AliasFold(m, ds).Success?
    ensures Extends(AliasFold(m, ds).value, m, ds)
    decreases |ds|
  {
    if ds != [] {
      var m' := m[ds[0].alias := ds[0].spdxid];
      var tail := ds[1..];
      AliasFoldTable(m', tail);
      var t := AliasFold(m, ds).value;
      assert t == AliasFold(m', tail).value;
      forall k | k in t
        ensures k in m || Declares(ds, k)
      {
        if k !in m' {
          var p :| 0 <= p < |tail| && tail[p].alias == k;
          assert ds[p + 1] == tail[p];
        } else if k !in m {
          assert ds[0].alias == k;
        }
      }
      forall p | 0 <= p < |ds|
        ensures ds[p].alias in t && t[ds[p].alias] == ds[p].spdxid
      {
        if p > 0 { assert ds[p] == tail[p - 1]; }
      }
    }
  }

  /**
   Declaration `q` is the first that clashes: the ones before it load into a
   table that already holds its alias, and the error names that alias, its
   new declarer and the declarer already in the table.
   */
  predicate FirstClash(m: map<string, string>, ds: seq<Declaration>, q: nat, e: FlameError)
    requires q < |ds|
  {
    var before := AliasFold(m, ds[..q]);
    before.Success? && ds[q].alias in before.value
    && e == DuplicateAlias(ds[q].alias, ds[q].spdxid, before.value[ds[q].alias])
  }

  /** A failing alias loop stops at the first clash and reports it. */
  lemma {:induction false} AliasFoldFailure(m: map<string, string>, ds: seq<Declaration>)
    requires AliasFold(m, ds).Failure?
    ensures exists q :: 0 <= q < |ds| && FirstClash(m, ds, q, AliasFold(m, ds).error)
    decreases |ds|
  {
    if ds[0].alias in m {
      assert ds[..0] == [];
      assert FirstClash(m, ds, 0, AliasFold(m, ds).error);
    } else {
      var m' := m[ds[0].alias := ds[0].spdxid];
      var tail := ds[1..];
      AliasFoldFailure(m', tail);
      var q :| 0 <= q < |tail| && FirstClash(m', tail, q, AliasFold(m', tail).error);
      assert ds[..q + 1][0] == ds[0] && ds[..q + 1][1..] == tail[..q];
      assert ds[q + 1] == tail[q];
      assert FirstClash(m, ds, q + 1, AliasFold(m, ds).error);
    }
  }

  /** The alias loop continued past its first declarations. */
  function Then(r: Result<map<string, string>, FlameError>, ds: seq<Declaration>): Result<map<string, string>, FlameError> {
    match r
    case Failure(e) => Failure(e)
    case Success(t) => AliasFold(t, ds)
  }

  lemma {:induction false} AliasFoldAppend(m: map<string, string>, a: seq<Declaration>, b: seq<Declaration>)
    ensures AliasFold(m, a + b) == Then(AliasFold(m, a), b)
    decreases |a|
  {
    if a == [] {
      assert a + b == b;
    } else {
      assert (a + b)[0] == a[0] && (a + b)[1..] == a[1..] + b;
      if a[0].alias !in m {
        AliasFoldAppend(m[a[0].alias := a[0].spdxid], a[1..], b);
      }
    }
  }

  /** The alias table a load produces, or its error. */
  function AliasesOf(r: Result<Db, FlameError>): Result<map<string, string>, FlameError> {
    match r
    case Failure(e) => Failure(e)
    case Success(db) => Success(db.aliases)
  }

  /** Loading fills the alias table exactly as one alias loop over all declarations would. */
  lemma {:induction false} LoadAliases(db: Db, recs: seq<LicenseRecord>)
    ensures AliasesOf(LoadFrom(db, recs)) == AliasFold(db.aliases, AllDeclarations(recs))
    decreases |recs|
  {
    if recs != [] {
      var first := Declarations(recs[0].aliases, recs[0].spdxid);
      AliasFoldAppend(db.aliases, first, AllDeclarations(recs[1..]));
      match AddRecord(db, recs[0])
      case Failure(e) =>
      case Success(next) =>
        LoadAliases(next, recs[1..]);
    }
  }

  /** Declaration `d` comes from some license file. */
  predicate DeclaredBy(recs: seq<LicenseRecord>, d: Declaration) {
    exists i :: 0 <= i < |recs| && d.alias in recs[i].aliases && d.spdxid == recs[i].spdxid
  }

  /** The declarations are exactly the (alias, spdxid) pairs of the files. */
  lemma {:induction false} AllDeclarationsOf(recs: seq<LicenseRecord>, d: Declaration)
    ensures d in AllDeclarations(recs) <==> DeclaredBy(recs, d)
    decreases |recs|
  {
    if recs != [] {
      AllDeclarationsOf(recs[1..], d);
      var first := Declarations(recs[0].aliases, recs[0].spdxid);
      if d in first {
        var p :| 0 <= p < |first| && first[p] == d;
        assert recs[0].aliases[p] == d.alias;
      } else if d in AllDeclarations(recs[1..]) {
        var i :| 0 <= i < |recs[1..]| && d.alias in recs[1..][i].aliases && d.spdxid == recs[1..][i].spdxid;
        assert recs[i + 1] == recs[1..][i];
      }
      if DeclaredBy(recs, d) {
        var i :| 0 <= i < |recs| && d.alias in recs[i].aliases && d.spdxid == recs[i].spdxid;
        if i == 0 {
          var p :| 0 <= p < |recs[0].aliases| && recs[0].aliases[p] == d.alias;
          assert first[p] == d;
        } else {
          assert recs[1..][i - 1] == recs[i];
          assert DeclaredBy(recs[1..], d);
        }
      }
    }
  }

  /** Loading succeeds exactly when no alias is declared twice across all files (nor twice in one file). */
  lemma LoadSucceedsIff(recs: seq<LicenseRecord>, operators: map<string, string>)
    ensures Load(recs, operators).Success? <==> NoRepeat(AllDeclarations(recs))
  {
    LoadAliases(Empty(operators), recs);
    AliasFoldSucceeds(map[], AllDeclarations(recs));
  }

  /**
   A failed load reports the first repeated declaration: the alias, the file
   that repeats it and the file that declared it first, both of them real
   declarations.
   */
  lemma LoadFailure(recs: seq<LicenseRecord>, operators: map<string, string>)
    requires Load(recs, operators).Failure?
    ensures var e := Load(recs, operators).error;
            e.DuplicateAlias?
            && (exists q :: 0 <= q < |AllDeclarations(recs)| && FirstClash(map[], AllDeclarations(recs), q, e))
            && DeclaredBy(recs, Declaration(e.alias, e.spdxid))
            && DeclaredBy(recs, Declaration(e.alias, e.existing))
  {
    var ds := AllDeclarations(recs);
    LoadAliases(Empty(operators), recs);
    AliasFoldFailure(map[], ds);
    var e := Load(recs, operators).error;
    var q :| 0 <= q < |ds| && FirstClash(map[], ds, q, e);
    AliasFoldTable(map[], ds[..q]);
    var t := AliasFold(map[], ds[..q]).value;
    var p :| 0 <= p < q && ds[..q][p].alias == ds[q].alias;
    assert ds[..q][p] == ds[p];
    assert ds[p] == Declaration(e.alias, e.existing);
    AllDeclarationsOf(recs, ds[q]);
    AllDeclarationsOf(recs, ds[p]);
  }

  lemma {:induction false} DeclaredAliasStored(recs: seq<LicenseRecord>, t: map<string, string>, i: nat, a: string)
    requires Extends(t, map[], AllDeclarations(recs))
    requires i < |recs| && a in recs[i].aliases
    ensures a in t && t[a] == recs[i].spdxid
  {
    var ds := AllDeclarations(recs);
    AllDeclarationsOf(recs, Declaration(a, recs[i].spdxid));
    var p :| 0 <= p < |ds| && ds[p] == Declaration(a, recs[i].spdxid);
  }

  lemma {:induction false} StoredAliasDeclared(recs: seq<LicenseRecord>, t: map<string, string>, a: string)
    requires Extends(t, map[], AllDeclarations(recs))
    requires a in t
    ensures exists i :: 0 <= i < |recs| && a in recs[i].aliases
  {
    var ds := AllDeclarations(recs);
    var p :| 0 <= p < |ds| && ds[p].alias == a;
    AllDeclarationsOf(recs, ds[p]);
  }

  lemma {:induction false} LoadExtends(recs: seq<LicenseRecord>, operators: map<string, string>)
    requires Load(recs, operators).Success?
    ensures Extends(Load(recs, operators).value.aliases, map[], AllDeclarations(recs))
  {
    LoadAliases(Empty(operators), recs);
    AliasFoldTable(map[], AllDeclarations(recs));
  }

  /** After a successful load every declared alias maps to the file that declared it. */
  lemma {:induction false} LoadDeclaredAliases(recs: seq<LicenseRecord>, operators: map<string, string>)
    requires Load(recs, operators).Success?
    ensures var t := Load(recs, operators).value.aliases;
            forall i, a :: 0 <= i < |recs| && a in recs[i].aliases ==> a in t && t[a] == recs[i].spdxid
  {
    LoadExtends(recs, operators);
    var t := Load(recs, operators).value.aliases;
    forall i, a | 0 <= i < |recs| && a in recs[i].aliases
      ensures a in t && t[a] == recs[i].spdxid
    {
      DeclaredAliasStored(recs, t, i, a);
    }
  }

  /** After a successful load nothing but a declared alias is an alias. */
  lemma {:induction false} LoadOnlyDeclaredAliases(recs: seq<LicenseRecord>, operators: map<string, string>)
    requires Load(recs, operators).Success?
    ensures var t := Load(recs, operators).value.aliases;
            forall a :: a in t ==> exists i :: 0 <= i < |recs| && a in recs[i].aliases
  {
    LoadExtends(recs, operators);
    var t := Load(recs, operators).value.aliases;
    forall a | a in t
      ensures exists i :: 0 <= i < |recs| && a in recs[i].aliases
    {
      StoredAliasDeclared(recs, t, a);
    }
  }

  /** After a successful load every declared alias maps to the file that declared it, and nothing else is an alias. */
  lemma {:induction false} LoadAliasTable(recs: seq<LicenseRecord>, operators: map<string, string>)
    requires Load(recs, operators).Success?
    ensures var t := Load(recs, operators).value.aliases;
            (forall i, a :: 0 <= i < |recs| && a in recs[i].aliases ==> a in t && t[a] == recs[i].spdxid)
            && (forall a :: a in t ==> exists i :: 0 <= i < |recs| && a in recs[i].aliases)
  {
    LoadDeclaredAliases(recs, operators);
    LoadOnlyDeclaredAliases(recs, operators);
  }

  /** The scancode-key part of the file loop: each file's key, if any, is (over)written with the file's id. */
  function ScancodeFold(table: map<string, string>, recs: seq<LicenseRecord>): map<string, string>
    decreases |recs|
  {
    if recs == [] then table
    else
      var key := recs[0].scancodeKey;
      ScancodeFold(if key.Some? then table[key.value := recs[0].spdxid] else table, recs[1..])
  }

  /** Loading fills the scancode table exactly as the scancode-key fold over the files would. */
  lemma {:induction false} LoadScancodes(db: Db, recs: seq<LicenseRecord>)
    requires LoadFrom(db, recs).Success?
    ensures LoadFrom(db, recs).value.scancodeKeys == ScancodeFold(db.scancodeKeys, recs)
    decreases |recs|
  {
    if recs != [] {
      LoadScancodes(AddRecord(db, recs[0]).value, recs[1..]);
    }
  }

  /** File `i` declares scancode key `k`. */
  predicate DeclaresKey(recs: seq<LicenseRecord>, i: int, k: string) {
    0 <= i < |recs| && recs[i].scancodeKey == Some(k)
  }

  /** File `i` is the last file that declares scancode key `k`. */
  predicate LastDeclaresKey(recs: seq<LicenseRecord>, i: int, k: string) {
    DeclaresKey(recs, i, k) && forall j :: i < j < |recs| ==> !DeclaresKey(recs, j, k)
  }

  /** What the scancode fold holds for one key: the last declarer's id, or the earlier entry when no file declares it. */
  lemma {:induction false} ScancodeFoldAt(table: map<string, string>, recs: seq<LicenseRecord>, k: string)
    ensures k in ScancodeFold(table, recs) <==> k in table || exists i :: DeclaresKey(recs, i, k)
    ensures (forall i :: !DeclaresKey(recs, i, k)) && k in table ==> ScancodeFold(table, recs)[k] == table[k]
    ensures forall i :: LastDeclaresKey(recs, i, k) ==> ScancodeFold(table, recs)[k] == recs[i].spdxid
    decreases |recs|
  {
    if recs != [] {
      var key := recs[0].scancodeKey;
      var next := if key.Some? then table[key.value := recs[0].spdxid] else table;
      var rest := recs[1..];
      assert ScancodeFold(table, recs) == ScancodeFold(next, rest);
      ScancodeFoldAt(next, rest, k);
      forall i | DeclaresKey(rest, i, k)
        ensures DeclaresKey(recs, i + 1, k)
      {
        assert rest[i] == recs[i + 1];
      }
      forall i | DeclaresKey(recs, i, k) && i > 0
        ensures DeclaresKey(rest, i - 1, k)
      {
        assert rest[i - 1] == recs[i];
      }
      if exists i :: DeclaresKey(recs, i, k) {
        var i :| DeclaresKey(recs, i, k);
        if i == 0 {
          assert k in next;
        } else {
          assert DeclaresKey(rest, i - 1, k);
        }
      } else {
        assert forall j :: !DeclaresKey(rest, j, k);
        assert !DeclaresKey(recs, 0, k);
        assert (k in next <==> k in table) && (k in table ==> next[k] == table[k]);
      }
      forall i | LastDeclaresKey(recs, i, k)
        ensures ScancodeFold(table, recs)[k] == recs[i].spdxid
      {
        if i == 0 {
          assert forall j :: !DeclaresKey(rest, j, k);
        } else {
          forall j | i - 1 < j < |rest|
            ensures !DeclaresKey(rest, j, k)
          {
            assert rest[j] == recs[j + 1];
            assert !DeclaresKey(recs, j + 1, k);
          }
          assert LastDeclaresKey(rest, i - 1, k);
        }
      }
    }
  }

  /**
   After a successful load the scancode table holds exactly the declared keys,
   each mapped to the id of the last file that declares it.
   */
  lemma LoadScancodeTable(recs: seq<LicenseRecord>, operators: map<string, string>)
    requires Load(recs, operators).Success?
    ensures var t := Load(recs, operators).value.scancodeKeys;
            (forall k :: k in t <==> exists i :: DeclaresKey(recs, i, k))
            && (forall i, k :: LastDeclaresKey(recs, i, k) ==> k in t && t[k] == recs[i].spdxid)
  {
    LoadScancodes(Empty(operators), recs);
    var t := Load(recs, operators).value.scancodeKeys;
    forall k ensures k in t <==> exists i :: DeclaresKey(recs, i, k) {
      ScancodeFoldAt(map[], recs, k);
    }
    forall i, k | LastDeclaresKey(recs, i, k)
      ensures k in t && t[k] == recs[i].spdxid
    {
      ScancodeFoldAt(map[], recs, k);
    }
  }

  /** A file's alias loop only adds aliases of the file's own id, which the file loop then stores. */
  lemma {:induction false} AddRecordAliases(db: Db, rec: LicenseRecord)
    requires Valid(db) && AddRecord(db, rec).Success?
    ensures var d := AddRecord(db, rec).value;
            forall a :: a in d.aliases ==> d.aliases[a] in d.licenses
  {
    var ds := Declarations(rec.aliases, rec.spdxid);
    AliasFoldTable(db.aliases, ds);
    var d := AddRecord(db, rec).value;
    forall a | a in d.aliases
      ensures d.aliases[a] in d.licenses
    {
      if a !in db.aliases {
        var p :| 0 <= p < |ds| && ds[p].alias == a;
      }
    }
  }

  /** One file loop iteration keeps the tables valid. */
  lemma {:induction false} AddRecordValid(db: Db, rec: LicenseRecord)
    requires Valid(db) && AddRecord(db, rec).Success?
    ensures Valid(AddRecord(db, rec).value)
  {
    AddRecordAliases(db, rec);
    if rec.spdxid !in db.licenses {
      DistinctSnoc(db.licenseOrder, rec.spdxid);
    }
  }

  lemma {:induction false} LoadFromValid(db: Db, recs: seq<LicenseRecord>)
    requires Valid(db) && LoadFrom(db, recs).Success?
    ensures Valid(LoadFrom(db, recs).value)
    decreases |recs|
  {
    if recs != [] {
      AddRecordValid(db, recs[0]);
      LoadFromValid(AddRecord(db, recs[0]).value, recs[1..]);
    }
  }

  /** Whatever the files, a successful load yields valid tables. */
  lemma LoadValid(recs: seq<LicenseRecord>, operators: map<string, string>)
    requires Load(recs, operators).Success?
    ensures Valid(Load(recs, operators).value)
  {
    LoadFromValid(Empty(operators), recs);
  }

  /** The ids of the files, in order. */
  function Ids(recs: seq<LicenseRecord>): (r: seq<string>)
    ensures |r| == |recs| && forall i :: 0 <= i < |recs| ==> r[i] == recs[i].spdxid
  {
    seq(|recs|, i requires 0 <= i < |recs| => recs[i].spdxid)
  }

  /** Adding a file with a new id stores it, appends its id to the order and keeps the compats table consistent. */
  lemma AddRecordNewId(db: Db, rec: LicenseRecord)
    requires rec.spdxid !in db.licenses && AddRecord(db, rec).Success?
    ensures var next := AddRecord(db, rec).value;
            next.licenses == db.licenses[rec.spdxid := rec]
            && next.licenseOrder == db.licenseOrder + [rec.spdxid]
            && (Valid(db) && CompatsConsistent(db) ==> CompatsConsistent(next))
  {
    var next := AddRecord(db, rec).value;
    if Valid(db) && CompatsConsistent(db) {
      assert rec.spdxid !in db.compats;
      forall k | k in next.licenses
        ensures (k in next.compats <==> next.licenses[k].compatibilityAs.Some?)
                && (k in next.compats ==> next.compats[k] == next.licenses[k].compatibilityAs.value)
      {
        if k != rec.spdxid {
          assert k in db.licenses;
        }
      }
    }
  }

  /** No file of `recs` has an id already stored in `db`, and no two share one. */
  predicate NewIds(db: Db, recs: seq<LicenseRecord>) {
    Distinct(Ids(recs)) && forall i :: 0 <= i < |recs| ==> recs[i].spdxid !in db.licenses
  }

  lemma NewIdsTail(db: Db, recs: seq<LicenseRecord>)
    requires recs != [] && NewIds(db, recs) && AddRecord(db, recs[0]).Success?
    ensures NewIds(AddRecord(db, recs[0]).value, recs[1..])
    ensures Ids(recs) == [recs[0].spdxid] + Ids(recs[1..])
  {
    var next := AddRecord(db, recs[0]).value;
    var tail := recs[1..];
    assert Ids(tail) == Ids(recs)[1..];
    forall i | 0 <= i < |tail|
      ensures tail[i].spdxid !in next.licenses
    {
      assert tail[i] == recs[i + 1];
      assert Ids(recs)[0] != Ids(recs)[i + 1];
    }
  }

  lemma {:induction false} LoadFromStores(db: Db, recs: seq<LicenseRecord>)
    requires NewIds(db, recs) && LoadFrom(db, recs).Success?
    ensures var d := LoadFrom(db, recs).value;
            (forall i :: 0 <= i < |recs| ==> recs[i].spdxid in d.licenses && d.licenses[recs[i].spdxid] == recs[i])
            && (forall k :: k in db.licenses ==> k in d.licenses && d.licenses[k] == db.licenses[k])
    decreases |recs|
  {
    if recs != [] {
      AddRecordNewId(db, recs[0]);
      NewIdsTail(db, recs);
      var next := AddRecord(db, recs[0]).value;
      var tail := recs[1..];
      LoadFromStores(next, tail);
      var d := LoadFrom(next, tail).value;
      forall i | 0 <= i < |recs|
        ensures recs[i].spdxid in d.licenses && d.licenses[recs[i].spdxid] == recs[i]
      {
        if i > 0 { assert recs[i] == tail[i - 1]; }
      }
    }
  }

  lemma {:induction false} LoadFromOrder(db: Db, recs: seq<LicenseRecord>)
    requires NewIds(db, recs) && LoadFrom(db, recs).Success?
    ensures LoadFrom(db, recs).value.licenseOrder == db.licenseOrder + Ids(recs)
    decreases |recs|
  {
    if recs == [] {
      assert Ids(recs) == [];
    } else {
      AddRecordNewId(db, recs[0]);
      NewIdsTail(db, recs);
      LoadFromOrder(AddRecord(db, recs[0]).value, recs[1..]);
      AppendAssoc(db.licenseOrder, [recs[0].spdxid], Ids(recs[1..]));
    }
  }

  lemma {:induction false} LoadFromCompats(db: Db, recs: seq<LicenseRecord>)
    requires Valid(db) && CompatsConsistent(db) && NewIds(db, recs) && LoadFrom(db, recs).Success?
    ensures CompatsConsistent(LoadFrom(db, recs).value)
    decreases |recs|
  {
    if recs != [] {
      AddRecordNewId(db, recs[0]);
      AddRecordValid(db, recs[0]);
      NewIdsTail(db, recs);
      LoadFromCompats(AddRecord(db, recs[0]).value, recs[1..]);
    }
  }

  /**
   When no two files share an id, every file is stored under its id, in file
   order, and the `compats` table agrees with the records.
   */
  lemma LoadDistinctIds(recs: seq<LicenseRecord>, operators: map<string, string>)
    requires Distinct(Ids(recs)) && Load(recs, operators).Success?
    ensures var d := Load(recs, operators).value;
            (forall i :: 0 <= i < |recs| ==> recs[i].spdxid in d.licenses && d.licenses[recs[i].spdxid] == recs[i])
            && d.licenseOrder == Ids(recs)
            && CompatsConsistent(d)
  {
    LoadFromStores(Empty(operators), recs);
    LoadFromOrder(Empty(operators), recs);
    LoadFromCompats(Empty(operators), recs);
    assert Empty(operators).licenseOrder + Ids(recs) == Ids(recs);
  }

  /**
   When two files share an id, the later record replaces the earlier one but
   the `compats` entry of the earlier one stays behind.
   */
  lemma SharedIdLeavesStaleCompat()
    ensures var recs := [LicenseRecord("X", [], None, Some("Y")), LicenseRecord("X", [], None, None)];
            Load(recs, map[]).Success? && !CompatsConsistent(Load(recs, map[]).value)
  {
    var recs := [LicenseRecord("X", [], None, Some("Y")), LicenseRecord("X", [], None, None)];
    var d1 := AddRecord(Empty(map[]), recs[0]).value;
    assert d1.compats == map["X" := "Y"];
    var d2 := AddRecord(d1, recs[1]).value;
    assert recs[1..][1..] == [];
    assert Load(recs, map[]) == Success(d2);
    assert "X" in d2.licenses && d2.licenses["X"].compatibilityAs.None? && "X" in d2.compats;
  }

  // ---------------------------------------------------------------------------
  // Lookups

  /**
   `__identify_license`: the name as a license id, else as an operator, else
   as an alias, else as a scancode key; the first table that holds it wins.
   */
  function Identify(db: Db, name: string): (r: Result<Identification, FlameError>)
    ensures r.Failure? <==> name !in db.licenses && name !in db.operators && name !in db.aliases && name !in db.scancodeKeys
    ensures r.Failure? ==> r.error == Unidentified(name)
    ensures r.Success? ==> r.value.queriedName == name
    ensures r.Success? ==> (r.value.identifiedVia == "direct" <==> name in db.licenses)
    ensures r.Success? && r.value.identifiedVia == "direct" ==> r.value.name == name
    ensures r.Success? && r.value.identifiedVia == "operator" ==>
      name !in db.licenses && name in db.operators && r.value.name == db.operators[name]
    ensures r.Success? && r.value.identifiedVia == "alias" ==>
      name !in db.licenses && name !in db.operators && name in db.aliases && r.value.name == db.aliases[name]
    ensures r.Success? && r.value.identifiedVia == "scancode_key" ==>
      name !in db.licenses && name !in db.operators && name !in db.aliases
      && name in db.scancodeKeys && r.value.name == db.scancodeKeys[name]
    ensures r.Success? ==> r.value.identifiedVia in ["direct", "operator", "alias", "scancode_key"]
  {
    if name in db.licenses then Success(Identification(name, name, "direct"))
    else if name in db.operators then Success(Identification(name, db.operators[name], "operator"))
    else if name in db.aliases then Success(Identification(name, db.aliases[name], "alias"))
    else if name in db.scancodeKeys then Success(Identification(name, db.scancodeKeys[name], "scancode_key"))
    else Failure(Unidentified(name))
  }

  /** On valid tables, anything but an operator resolves to a stored license. */
  lemma IdentifyYieldsLicense(db: Db, name: string)
    requires Valid(db) && Identify(db, name).Success?
    ensures Identify(db, name).value.identifiedVia != "operator" ==> Identify(db, name).value.name in db.licenses
  {
  }

  /** Looking up what a non-operator name resolved to finds it directly: resolution is idempotent. */
  lemma IdentifyStable(db: Db, name: string)
    requires Valid(db) && Identify(db, name).Success? && Identify(db, name).value.identifiedVia != "operator"
    ensures var id := Identify(db, name).value.name;
            Identify(db, id) == Success(Identification(id, id, "direct"))
  {
  }

  /** The result of `license`: an operator, or the license record the name resolved to. */
  datatype LicenseInfo =
    | OperatorElement(identifiedElement: Identification)
    | LicenseElement(identifiedElement: Identification, license: LicenseRecord)

  /**
   `license`: resolve the name; an operator is reported as such, anything else
   is looked up in the licenses table (a missing entry raises, as the
   `KeyError` of the dict lookup does).
   */
  function License(db: Db, name: string): (r: Result<LicenseInfo, FlameError>)
    ensures Identify(db, name).Failure? ==> r == Failure(Identify(db, name).error)
    ensures r.Success? ==> Identify(db, name).Success? && r.value.identifiedElement == Identify(db, name).value
    ensures r.Success? ==> (r.value.OperatorElement? <==> r.value.identifiedElement.identifiedVia == "operator")
    ensures r.Success? && r.value.LicenseElement? ==>
      r.value.identifiedElement.name in db.licenses && r.value.license == db.licenses[r.value.identifiedElement.name]
    ensures r.Failure? && Identify(db, name).Success? ==> r.error == MissingLicense(Identify(db, name).value.name)
  {
    match Identify(db, name)
    case Failure(e) => Failure(e)
    case Success(identified) =>
      if identified.identifiedVia == "operator" then Success(OperatorElement(identified))
      else if identified.name in db.licenses then Success(LicenseElement(identified, db.licenses[identified.name]))
      else Failure(MissingLicense(identified.name))
  }

  /** On valid tables `license` fails only for unknown names, and returns the record of the resolved id. */
  lemma LicenseOnValid(db: Db, name: string)
    requires Valid(db)
    ensures License(db, name).Failure? <==> Identify(db, name).Failure?
    ensures License(db, name).Success? && License(db, name).value.LicenseElement? ==>
      License(db, name).value.license.spdxid == License(db, name).value.identifiedElement.name
  {
  }

  /** The `compatibility` part of `__compatibility_as`. */
  datatype Compatibility = Compatibility(compatAs: string, queriedName: string, identifiedVia: string)

  datatype CompatibilityInfo = CompatibilityInfo(identifiedElement: Identification, compatibility: Compatibility)

  /**
   `__compatibility_as`: resolve the name, then report the record's
   `compatibility_as` if it has one, else the resolved id itself.
   */
  function CompatibilityAs(db: Db, name: string): (r: Result<CompatibilityInfo, FlameError>)
    ensures Identify(db, name).Failure? ==> r == Failure(Identify(db, name).error)
    ensures r.Success? ==> Identify(db, name).Success? && r.value.identifiedElement == Identify(db, name).value
    ensures r.Success? ==> r.value.compatibility.queriedName == name
    ensures r.Success? ==>
      var id := r.value.identifiedElement.name;
      id in db.licenses
      && (db.licenses[id].compatibilityAs.Some? ==>
            r.value.compatibility == Compatibility(db.licenses[id].compatibilityAs.value, name, "compatibility_as"))
      && (db.licenses[id].compatibilityAs.None? ==> r.value.compatibility == Compatibility(id, name, "direct"))
    ensures r.Failure? && Identify(db, name).Success? ==> r.error == MissingLicense(Identify(db, name).value.name)
  {
    match Identify(db, name)
    case Failure(e) => Failure(e)
    case Success(identified) =>
      var id := identified.name;
      if id !in db.licenses then Failure(MissingLicense(id))
      else if db.licenses[id].compatibilityAs.Some? then
        Success(CompatibilityInfo(identified, Compatibility(db.licenses[id].compatibilityAs.value, name, "compatibility_as")))
      else Success(CompatibilityInfo(identified, Compatibility(id, name, "direct")))
  }

  /**
   When the `compats` table agrees with the records, `__compatibility_as`
   reports what the `compats` table holds for the resolved id, and the id itself
   when the table has no entry.
   */
  lemma CompatibilityAsAgreesWithCompats(db: Db, name: string)
    requires Valid(db) && CompatsConsistent(db)
    requires Identify(db, name).Success? && Identify(db, name).value.identifiedVia != "operator"
    ensures CompatibilityAs(db, name).Success?
    ensures var id := Identify(db, name).value.name;
            var c := CompatibilityAs(db, name).value.compatibility;
            (id in db.compats ==> c.compatAs == db.compats[id] && c.identifiedVia == "compatibility_as")
            && (id !in db.compats ==> c.compatAs == id && c.identifiedVia == "direct")
  {
  }

  /**
   `aliases_list`: the whole alias table, or, for a non-empty filter, the
   aliases whose license id contains the filter as a substring.
   */
  function AliasesList(db: Db, aliasLicense: Option<string>): (r: map<string, string>)
    ensures aliasLicense.None? || aliasLicense.value == [] ==> r == db.aliases
    ensures aliasLicense.Some? && aliasLicense.value != [] ==>
      forall a :: a in r <==> a in db.aliases && IsSubstring(aliasLicense.value, db.aliases[a])
    ensures forall a :: a in r ==> a in db.aliases && r[a] == db.aliases[a]
  {
    if aliasLicense.Some? && aliasLicense.value != [] then
      map a | a in db.aliases && IsSubstring(aliasLicense.value, db.aliases[a]) :: db.aliases[a]
    else db.aliases
  }

  /** Filtering by a license id returns every alias of that license (and those of licenses whose ids contain it). */
  lemma AliasesListKeepsOwnAliases(db: Db, id: string, a: string)
    requires id != [] && a in db.aliases && db.aliases[a] == id
    ensures a in AliasesList(db, Some(id))
  {
    assert OccursAt(id, db.aliases[a], 0);
  }

  /** One entry of `compatibility_as_list`. */
  datatype CompatEntry = CompatEntry(compatibilityAs: string, spdxid: string)

  /** The comprehension over `ids`, in order. */
  function CompatEntries(licenses: map<string, LicenseRecord>, ids: seq<string>): (r: seq<CompatEntry>)
    requires forall i :: 0 <= i < |ids| ==> ids[i] in licenses
    ensures |r| <= |ids|
    ensures forall e :: e in r <==>
      exists i :: 0 <= i < |ids| && licenses[ids[i]].compatibilityAs == Some(e.compatibilityAs) && licenses[ids[i]].spdxid == e.spdxid
    decreases |ids|
  {
    if ids == [] then []
    else
      var rest := CompatEntries(licenses, ids[1..]);
      assert forall i :: 0 <= i < |ids[1..]| ==> ids[1..][i] == ids[i + 1];
      var rec := licenses[ids[0]];
      if rec.compatibilityAs.Some? then [CompatEntry(rec.compatibilityAs.value, rec.spdxid)] + rest else rest
  }

  /** `compatibility_as_list`: one entry per license with a `compatibility_as`, in license order. */
  function CompatibilityAsList(db: Db): (r: seq<CompatEntry>)
    requires Valid(db)
    ensures forall e :: e in r <==>
      e.spdxid in db.licenses && db.licenses[e.spdxid].compatibilityAs == Some(e.compatibilityAs)
  {
    CompatEntries(db.licenses, db.licenseOrder)
  }

  /** No license appears in two entries. */
  predicate OncePerLicense(r: seq<CompatEntry>) {
    forall i, j :: 0 <= i < j < |r| ==> r[i].spdxid != r[j].spdxid
  }

  lemma ConsOncePerLicense(h: CompatEntry, rest: seq<CompatEntry>)
    requires OncePerLicense(rest) && forall e :: e in rest ==> e.spdxid != h.spdxid
    ensures OncePerLicense([h] + rest)
  {
    var r := [h] + rest;
    forall i, j | 0 <= i < j < |r|
      ensures r[i].spdxid != r[j].spdxid
    {
      assert r[j] == rest[j - 1];
      if i > 0 { assert r[i] == rest[i - 1]; }
    }
  }

  /** The entries for the ids after the first never name the first. */
  lemma TailEntriesOmitHead(licenses: map<string, LicenseRecord>, ids: seq<string>)
    requires ids != [] && Distinct(ids)
    requires forall i :: 0 <= i < |ids| ==> ids[i] in licenses && licenses[ids[i]].spdxid == ids[i]
    ensures forall e :: e in CompatEntries(licenses, ids[1..]) ==> e.spdxid != ids[0]
  {
    var tail := ids[1..];
    forall e | e in CompatEntries(licenses, tail)
      ensures e.spdxid != ids[0]
    {
      var k :| 0 <= k < |tail| && licenses[tail[k]].compatibilityAs == Some(e.compatibilityAs)
               && licenses[tail[k]].spdxid == e.spdxid;
      assert tail[k] == ids[k + 1];
    }
  }

  /** Each license appears at most once in `compatibility_as_list`. */
  lemma {:induction false} CompatEntriesDistinct(licenses: map<string, LicenseRecord>, ids: seq<string>)
    requires forall i :: 0 <= i < |ids| ==> ids[i] in licenses && licenses[ids[i]].spdxid == ids[i]
    requires Distinct(ids)
    ensures OncePerLicense(CompatEntries(licenses, ids))
    decreases |ids|
  {
    if ids != [] {
      var tail := ids[1..];
      assert forall i :: 0 <= i < |tail| ==> tail[i] == ids[i + 1];
      CompatEntriesDistinct(licenses, tail);
      var rec := licenses[ids[0]];
      if rec.compatibilityAs.Some? {
        TailEntriesOmitHead(licenses, ids);
        ConsOncePerLicense(CompatEntry(rec.compatibilityAs.value, rec.spdxid), CompatEntries(licenses, tail));
      }
    }
  }

  lemma CompatibilityAsListDistinct(db: Db)
    requires Valid(db)
    ensures OncePerLicense(CompatibilityAsList(db))
  {
    assert forall i :: 0 <= i < |db.licenseOrder| ==> db.licenseOrder[i] in db.licenses;
    CompatEntriesDistinct(db.licenses, db.licenseOrder);
  }

  /** `a` comes before `b` in `order`. */
  predicate Before(order: seq<string>, a: string, b: string) {
    exists p, q :: 0 <= p < q < |order| && order[p] == a && order[q] == b
  }

  /** The entries come in the order of their licenses' ids in `ids`. */
  predicate InOrderOf(r: seq<CompatEntry>, ids: seq<string>) {
    forall i, j :: 0 <= i < j < |r| ==> Before(ids, r[i].spdxid, r[j].spdxid)
  }

  lemma BeforeShift(ids: seq<string>, a: string, b: string)
    requires ids != [] && Before(ids[1..], a, b)
    ensures Before(ids, a, b)
  {
    var p, q :| 0 <= p < q < |ids[1..]| && ids[1..][p] == a && ids[1..][q] == b;
    assert ids[p + 1] == a && ids[q + 1] == b;
  }

  lemma InOrderOfTail(r: seq<CompatEntry>, ids: seq<string>)
    requires ids != [] && InOrderOf(r, ids[1..])
    ensures InOrderOf(r, ids)
  {
    forall i, j | 0 <= i < j < |r|
      ensures Before(ids, r[i].spdxid, r[j].spdxid)
    {
      BeforeShift(ids, r[i].spdxid, r[j].spdxid);
    }
  }

  lemma InOrderOfCons(h: CompatEntry, rest: seq<CompatEntry>, ids: seq<string>)
    requires ids != [] && h.spdxid == ids[0] && InOrderOf(rest, ids)
    requires forall e :: e in rest ==> e.spdxid in ids[1..]
    ensures InOrderOf([h] + rest, ids)
  {
    var r := [h] + rest;
    forall i, j | 0 <= i < j < |r|
      ensures Before(ids, r[i].spdxid, r[j].spdxid)
    {
      assert r[j] == rest[j - 1];
      if i == 0 {
        assert rest[j - 1] in rest;
        var k :| 0 <= k < |ids[1..]| && ids[1..][k] == rest[j - 1].spdxid;
        assert ids[k + 1] == r[j].spdxid;
      } else {
        assert r[i] == rest[i - 1];
      }
    }
  }

  /** Each entry names one of the listed ids. */
  lemma EntriesFromIds(licenses: map<string, LicenseRecord>, ids: seq<string>)
    requires forall i :: 0 <= i < |ids| ==> ids[i] in licenses && licenses[ids[i]].spdxid == ids[i]
    ensures forall e :: e in CompatEntries(licenses, ids) ==> e.spdxid in ids
  {
    forall e | e in CompatEntries(licenses, ids)
      ensures e.spdxid in ids
    {
      var k :| 0 <= k < |ids| && licenses[ids[k]].compatibilityAs == Some(e.compatibilityAs)
               && licenses[ids[k]].spdxid == e.spdxid;
    }
  }

  lemma {:induction false} CompatEntriesOrdered(licenses: map<string, LicenseRecord>, ids: seq<string>)
    requires forall i :: 0 <= i < |ids| ==> ids[i] in licenses && licenses[ids[i]].spdxid == ids[i]
    ensures InOrderOf(CompatEntries(licenses, ids), ids)
    decreases |ids|
  {
    if ids != [] {
      var tail := ids[1..];
      assert forall i :: 0 <= i < |tail| ==> tail[i] == ids[i + 1];
      CompatEntriesOrdered(licenses, tail);
      var rest := CompatEntries(licenses, tail);
      InOrderOfTail(rest, ids);
      var rec := licenses[ids[0]];
      if rec.compatibilityAs.Some? {
        EntriesFromIds(licenses, tail);
        InOrderOfCons(CompatEntry(rec.compatibilityAs.value, rec.spdxid), rest, ids);
      }
    }
  }

  /**
   `compatibility_as_list` follows the insertion order of the licenses: an
   entry comes before another exactly as its license was stored first.
   */
  lemma CompatibilityAsListInLicenseOrder(db: Db)
    requires Valid(db)
    ensures InOrderOf(CompatibilityAsList(db), db.licenseOrder)
  {
    assert forall i :: 0 <= i < |db.licenseOrder| ==> db.licenseOrder[i] in db.licenses;
    CompatEntriesOrdered(db.licenses, db.licenseOrder);
  }
}
