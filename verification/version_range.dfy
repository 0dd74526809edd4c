/** The version range resolver (`setupVersion`): turns a minimum and a
    maximum version name into `tls.Config.MinVersion`/`MaxVersion`. */
module VersionRange {
  import opened Common
  import opened Ascii
  import opened ProtocolVersion

  /** The name table, keyed by the upper-case form of each recognised name. */
  type NameTable = map<string, uint16>

  /** Every key is already upper case and names a real (non-zero) version. */
  ghost predicate WellFormedTable(table: NameTable) {
    forall k :: k in table ==> Upper(k) == k && table[k] != 0
  }

  /** The names the library's tests exercise. */
  const StandardTable: NameTable := map["TLS11" := TLS11, "TLS12" := TLS12]

  /** Version used when the minimum name is empty. */
  const DefaultMin: uint16 := TLS11
  /** Version used when the maximum name is empty. */
  const DefaultMax: uint16 := TLS12

  datatype VersionError =
    | UnrecognizedVersionName(name: string)
    | VersionRangeOrderError(min: uint16, max: uint16)

  /** The three fields the resolver leaves behind in a fresh configuration:
      both versions and the error it returns, if any. */
  datatype Outcome = Outcome(minVersion: uint16, maxVersion: uint16, err: Option<VersionError>)

  /** `name` is some key of the table, ignoring case, and that key maps to `v`. */
  ghost predicate Denotes(table: NameTable, name: string, v: uint16) {
    exists k :: k in table && EqualFold(k, name) && table[k] == v
  }

  /** `name` selects `v`: the empty name selects the default, any other
      name selects what it denotes in the table. */
  ghost predicate Selects(table: NameTable, name: string, default: uint16, v: uint16) {
    if name == "" then v == default else Denotes(table, name, v)
  }

  /** The name is empty or matches a key of the table, ignoring case. */
  ghost predicate Recognized(table: NameTable, name: string) {
    name == "" || exists k :: k in table && EqualFold(k, name)
  }

  /** Case-insensitive lookup of one name. */
  function Lookup(table: NameTable, name: string): (r: Option<uint16>)
    requires WellFormedTable(table)
    ensures r.Some? <==> exists k :: k in table && EqualFold(k, name)
    ensures r.Some? ==> Denotes(table, name, r.value) && r.value != 0
  {
    var key := Upper(name);
    if key in table then
      assert EqualFold(key, name) by { UpperFixesNoLower(name); }
      Some(table[key])
    else
      assert forall k :: k in table ==> !EqualFold(k, name);
      None
  }

  /** Resolves one name against its default. */
  function ResolveName(table: NameTable, name: string, default: uint16): (r: Option<uint16>)
    requires WellFormedTable(table)
    ensures r.Some? <==> Recognized(table, name)
    ensures r.Some? ==> Selects(table, name, default, r.value)
  {
    if name == "" then Some(default) else Lookup(table, name)
  }

  /** `setupVersion` applied to a fresh configuration. */
  function Resolve(table: NameTable, minName: string, maxName: string): (r: Outcome)
    requires WellFormedTable(table)
    // an unrecognised minimum stops everything: both fields stay zero
    ensures !Recognized(table, minName) ==>
      r == Outcome(0, 0, Some(UnrecognizedVersionName(minName)))
    // otherwise the minimum is always written, whatever happens next
    ensures Recognized(table, minName) ==>
      Selects(table, minName, DefaultMin, r.minVersion) && r.minVersion != 0
    // an unrecognised maximum leaves the maximum at zero
    ensures Recognized(table, minName) && !Recognized(table, maxName) ==>
      r.maxVersion == 0 && r.err == Some(UnrecognizedVersionName(maxName))
    // an out-of-order range keeps the minimum and zeroes the maximum
    ensures Recognized(table, minName) && Recognized(table, maxName) && r.err.Some? ==>
      r.maxVersion == 0 && r.err.value.VersionRangeOrderError?
      && forall v :: Selects(table, maxName, DefaultMax, v) ==> r.minVersion > v
    // success: both names resolved and in order
    ensures r.err.None? ==>
      Selects(table, minName, DefaultMin, r.minVersion)
      && Selects(table, maxName, DefaultMax, r.maxVersion)
      && 0 < r.minVersion <= r.maxVersion
    // every error leaves the maximum unset
    ensures r.err.Some? ==> r.maxVersion == 0
  {
    match ResolveName(table, minName, DefaultMin)
    case None => Outcome(0, 0, Some(UnrecognizedVersionName(minName)))
    case Some(lo) =>
      match ResolveName(table, maxName, DefaultMax)
      case None => Outcome(lo, 0, Some(UnrecognizedVersionName(maxName)))
      case Some(hi) =>
        if lo > hi then
          assert forall v :: Selects(table, maxName, DefaultMax, v) ==> v == hi by {
            forall v | Selects(table, maxName, DefaultMax, v) ensures v == hi {
              SelectsUnique(table, maxName, DefaultMax, v, hi);
            }
          }
          Outcome(lo, 0, Some(VersionRangeOrderError(lo, hi)))
        else
          Outcome(lo, hi, None)
  }

  /** The two version fields of `tls.Config`. */
  datatype VersionFields = VersionFields(minVersion: uint16, maxVersion: uint16)

  /** `setupVersion` written as the field writes and early returns it
      performs on a zero-valued configuration: write the minimum, write the
      maximum, then zero the maximum again if the range is out of order. */
  method SetupVersion(table: NameTable, minName: string, maxName: string)
    returns (cfg: VersionFields, err: Option<VersionError>)
    requires WellFormedTable(table)
    ensures Outcome(cfg.minVersion, cfg.maxVersion, err) == Resolve(table, minName, maxName)
  {
    cfg := VersionFields(0, 0);
    err := None;
    if minName == "" {
      cfg := cfg.(minVersion := DefaultMin);
    } else {
      var v := Lookup(table, minName);
      if v.None? {
        err := Some(UnrecognizedVersionName(minName));
        return;
      }
      cfg := cfg.(minVersion := v.value);
    }
    if maxName == "" {
      cfg := cfg.(maxVersion := DefaultMax);
    } else {
      var v := Lookup(table, maxName);
      if v.None? {
        err := Some(UnrecognizedVersionName(maxName));
        return;
      }
      cfg := cfg.(maxVersion := v.value);
    }
    if cfg.minVersion > cfg.maxVersion {
      err := Some(VersionRangeOrderError(cfg.minVersion, cfg.maxVersion));
      cfg := cfg.(maxVersion := 0);
    }
  }

  /** In a well-formed table a name selects at most one version. */
  lemma SelectsUnique(table: NameTable, name: string, default: uint16, v: uint16, w: uint16)
    requires WellFormedTable(table)
    requires Selects(table, name, default, v) && Selects(table, name, default, w)
    ensures v == w
  {
    if name != "" {
      var k :| k in table && EqualFold(k, name) && table[k] == v;
      var j :| j in table && EqualFold(j, name) && table[j] == w;
      assert k == Upper(k) == Upper(name) == Upper(j) == j;
    }
  }

  /** Reference semantics: once the names are known to select `lo` and `hi`,
      the outcome is fixed by the comparison of the two numbers alone. */
  lemma ResolveBySelection(table: NameTable, minName: string, maxName: string, lo: uint16, hi: uint16)
    requires WellFormedTable(table)
    requires Selects(table, minName, DefaultMin, lo)
    requires Selects(table, maxName, DefaultMax, hi)
    ensures Resolve(table, minName, maxName) ==
      if lo <= hi then Outcome(lo, hi, None)
      else Outcome(lo, 0, Some(VersionRangeOrderError(lo, hi)))
  {
    var r := Resolve(table, minName, maxName);
    assert Recognized(table, minName) by { SelectsRecognized(table, minName, DefaultMin, lo); }
    assert Recognized(table, maxName) by { SelectsRecognized(table, maxName, DefaultMax, hi); }
    SelectsUnique(table, minName, DefaultMin, lo, r.minVersion);
    if r.err.None? {
      SelectsUnique(table, maxName, DefaultMax, hi, r.maxVersion);
    }
    var dlo := ResolveName(table, minName, DefaultMin);
    var dhi := ResolveName(table, maxName, DefaultMax);
    SelectsUnique(table, minName, DefaultMin, lo, dlo.value);
    SelectsUnique(table, maxName, DefaultMax, hi, dhi.value);
  }

  lemma SelectsRecognized(table: NameTable, name: string, default: uint16, v: uint16)
    requires Selects(table, name, default, v)
    ensures Recognized(table, name)
  {
  }

  /** Whether the call succeeds, in both directions. */
  lemma ResolveSucceedsIff(table: NameTable, minName: string, maxName: string)
    requires WellFormedTable(table)
    ensures Resolve(table, minName, maxName).err.None? <==>
      exists lo, hi :: Selects(table, minName, DefaultMin, lo)
        && Selects(table, maxName, DefaultMax, hi) && lo <= hi
  {
    var r := Resolve(table, minName, maxName);
    if r.err.None? {
      assert Selects(table, minName, DefaultMin, r.minVersion)
        && Selects(table, maxName, DefaultMax, r.maxVersion) && r.minVersion <= r.maxVersion;
    } else {
      forall lo: uint16, hi: uint16 | Selects(table, minName, DefaultMin, lo)
        && Selects(table, maxName, DefaultMax, hi)
        ensures lo > hi
      {
        ResolveBySelection(table, minName, maxName, lo, hi);
      }
    }
  }

  /** Names are matched without regard to case: names that differ only in
      case give the same versions and the same success or failure. */
  lemma ResolveIgnoresCase(table: NameTable, minA: string, minB: string, maxA: string, maxB: string)
    requires WellFormedTable(table)
    requires EqualFold(minA, minB) && EqualFold(maxA, maxB)
    ensures Resolve(table, minA, maxA).minVersion == Resolve(table, minB, maxB).minVersion
    ensures Resolve(table, minA, maxA).maxVersion == Resolve(table, minB, maxB).maxVersion
    ensures Resolve(table, minA, maxA).err.None? == Resolve(table, minB, maxB).err.None?
  {
    assert minA == "" <==> minB == "";
    assert maxA == "" <==> maxB == "";
  }

  /** Empty names give the default range, whatever the table holds. */
  lemma ResolveDefaults(table: NameTable)
    requires WellFormedTable(table)
    ensures Resolve(table, "", "") == Outcome(TLS11, TLS12, None)
  {
  }

  lemma StandardTableWellFormed()
    ensures WellFormedTable(StandardTable)
  {
    assert Upper("TLS11") == "TLS11";
    assert Upper("TLS12") == "TLS12";
  }

  /** The eleven rows of the library's version test table, against the
      standard names. */
  lemma StandardTableCases()
    ensures WellFormedTable(StandardTable)
    ensures Resolve(StandardTable, "", "") == Outcome(TLS11, TLS12, None)
    ensures Resolve(StandardTable, "test", "") == Outcome(0, 0, Some(UnrecognizedVersionName("test")))
    ensures Resolve(StandardTable, "", "test") == Outcome(TLS11, 0, Some(UnrecognizedVersionName("test")))
    ensures Resolve(StandardTable, "TLS11", "test") == Outcome(TLS11, 0, Some(UnrecognizedVersionName("test")))
    ensures Resolve(StandardTable, "test", "TLS12") == Outcome(0, 0, Some(UnrecognizedVersionName("test")))
    ensures Resolve(StandardTable, "TLS11", "TLS12") == Outcome(TLS11, TLS12, None)
    ensures Resolve(StandardTable, "Tls11", "TLS12") == Outcome(TLS11, TLS12, None)
    ensures Resolve(StandardTable, "TLS11", "Tls12") == Outcome(TLS11, TLS12, None)
    ensures Resolve(StandardTable, "TLS12", "TlS11") == Outcome(TLS12, 0, Some(VersionRangeOrderError(TLS12, TLS11)))
    ensures Resolve(StandardTable, "TLS12", "TlS12") == Outcome(TLS12, TLS12, None)
    ensures Resolve(StandardTable, "TLS11", "TlS11") == Outcome(TLS11, TLS11, None)
  {
    StandardLookups();
  }

  /** The table lookups the test rows perform. */
  lemma StandardLookups()
    ensures WellFormedTable(StandardTable)
    ensures Lookup(StandardTable, "test") == None
    ensures Lookup(StandardTable, "TLS11") == Some(TLS11)
    ensures Lookup(StandardTable, "Tls11") == Some(TLS11)
    ensures Lookup(StandardTable, "TlS11") == Some(TLS11)
    ensures Lookup(StandardTable, "TLS12") == Some(TLS12)
    ensures Lookup(StandardTable, "Tls12") == Some(TLS12)
    ensures Lookup(StandardTable, "TlS12") == Some(TLS12)
  {
    StandardTableWellFormed();
    StandardLookup("test", "TEST");
    LookupsTls11();
    LookupsTls12();
  }

  lemma LookupsTls11()
    requires WellFormedTable(StandardTable)
    ensures Lookup(StandardTable, "TLS11") == Some(TLS11)
    ensures Lookup(StandardTable, "Tls11") == Some(TLS11)
    ensures Lookup(StandardTable, "TlS11") == Some(TLS11)
  {
    StandardLookup("Tls11", "TLS11");
    StandardLookup("TlS11", "TLS11");
  }

  lemma LookupsTls12()
    requires WellFormedTable(StandardTable)
    ensures Lookup(StandardTable, "TLS12") == Some(TLS12)
    ensures Lookup(StandardTable, "Tls12") == Some(TLS12)
    ensures Lookup(StandardTable, "TlS12") == Some(TLS12)
  {
    StandardLookup("Tls12", "TLS12");
    StandardLookup("TlS12", "TLS12");
  }

  /** A name looks up whatever its upper-case form `key` maps to. */
  lemma StandardLookup(name: string, key: string)
    requires WellFormedTable(StandardTable)
    requires |name| == |key| && forall i :: 0 <= i < |name| ==> UpperChar(name[i]) == key[i]
    ensures Lookup(StandardTable, name) == if key in StandardTable then Some(StandardTable[key]) else None
  {
    assert Upper(name) == key;
  }
}
