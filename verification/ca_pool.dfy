/** The CA pool builder (`setupCACert`): replaces the target pool with an
    empty pool or a copy of the system store, then appends the
    certificates of an optional PEM file. */
module CaPool {
  import opened Common
  import opened Pki

  /** What reading the CA file and decoding its PEM certificate blocks gave:
      the file could not be read, or the set of certificates that decoded
      (empty when the file holds no certificate block, e.g. a signing request). */
  datatype CaFile = Unreadable | Decoded(certs: set<Certificate>)

  datatype CaError = CAParseError(path: string)

  /** The pool left behind and the error returned, if any. */
  datatype PoolOutcome = PoolOutcome(pool: set<Certificate>, err: Option<CaError>)

  /** The pool before the file is consulted. */
  function BasePool(useSystemCA: bool, system: set<Certificate>): set<Certificate> {
    if useSystemCA then system else {}
  }

  /** The file contributed at least one certificate. */
  predicate Appendable(file: CaFile) {
    file.Decoded? && file.certs != {}
  }

  /** `setupCACert`; `system` is the platform trust store and `file` the
      result of reading and decoding `caPath`. */
  function SetupCACert(caPath: string, useSystemCA: bool, system: set<Certificate>, file: CaFile): (r: PoolOutcome)
    // an error exactly when a path is given and yields no certificate
    ensures r.err.Some? <==> caPath != "" && !Appendable(file)
    ensures r.err.Some? ==> r.err.value.path == caPath
    // the system store is kept when asked for, and nothing else is invented
    ensures useSystemCA ==> system <= r.pool
    ensures forall c :: c in r.pool ==>
      (useSystemCA && c in system) || (caPath != "" && file.Decoded? && c in file.certs)
    // all or nothing: the pool is the base, or the base plus every decoded certificate
    ensures r.pool == BasePool(useSystemCA, system)
      || (r.err.None? && file.Decoded? && r.pool == BasePool(useSystemCA, system) + file.certs)
    ensures r.err.Some? || caPath == "" ==> r.pool == BasePool(useSystemCA, system)
    ensures r.err.None? && caPath != "" ==> file.Decoded? && file.certs <= r.pool
  {
    var base := BasePool(useSystemCA, system);
    if caPath == "" then
      PoolOutcome(base, None)
    else if !Appendable(file) then
      PoolOutcome(base, Some(CAParseError(caPath)))
    else
      PoolOutcome(base + file.certs, None)
  }

  /** Pool sizes, as `len(pool.Subjects())` observes them. */
  lemma PoolSize(caPath: string, useSystemCA: bool, system: set<Certificate>, file: CaFile)
    ensures var r := SetupCACert(caPath, useSystemCA, system, file);
      && (r.err.Some? || caPath == "" ==> |r.pool| == (if useSystemCA then |system| else 0))
      && (r.err.None? && caPath != "" && !useSystemCA ==> |r.pool| == |file.certs|)
      && (r.err.None? && caPath != "" && useSystemCA ==>
            (|r.pool| == |system| + |file.certs| <==> file.certs !! system))
      && (r.err.None? && caPath != "" ==> |r.pool| >= 1)
  {
    var r := SetupCACert(caPath, useSystemCA, system, file);
    if r.err.None? && caPath != "" && useSystemCA {
      UnionSize(system, file.certs);
    }
    if r.err.None? && caPath != "" {
      var c :| c in file.certs;
      assert c in r.pool;
    }
  }

  /** A union is as large as the sum of its parts exactly when the parts
      are disjoint. */
  lemma UnionSize<T>(a: set<T>, b: set<T>)
    ensures |a + b| == |a| + |b - a|
    ensures |a + b| == |a| + |b| <==> a !! b
  {
    assert a + b == a + (b - a);
    assert a !! (b - a);
    if |a + b| == |a| + |b| {
      assert b - a <= b && |b - a| == |b|;
    }
  }

  /** The eight rows of the library's CA test table, with `ca` the single
      certificate of a valid CA file and `crt` that of a certificate file,
      neither already in the system store,
      a missing or invalid file read as `Unreadable`, and a signing-request
      file decoding to no certificate. */
  lemma TestTableCases(system: set<Certificate>, ca: Certificate, crt: Certificate)
    requires ca !in system && crt !in system
    ensures |SetupCACert("", false, system, Unreadable).pool| == 0
    ensures SetupCACert("", false, system, Unreadable).err.None?
    ensures |SetupCACert("ca.pem", false, system, Decoded({ca})).pool| == 1
    ensures SetupCACert("ca.pem", false, system, Decoded({ca})).err.None?
    ensures |SetupCACert("ca.pem", true, system, Decoded({ca})).pool| == |system| + 1
    ensures SetupCACert("ca.pem", true, system, Decoded({ca})).err.None?
    ensures |SetupCACert("", true, system, Unreadable).pool| == |system|
    ensures SetupCACert("", true, system, Unreadable).err.None?
    ensures |SetupCACert("ca2.pem", false, system, Unreadable).pool| == 0
    ensures SetupCACert("ca2.pem", false, system, Unreadable).err.Some?
    ensures |SetupCACert("cert.csr", false, system, Decoded({})).pool| == 0
    ensures SetupCACert("cert.csr", false, system, Decoded({})).err.Some?
    ensures |SetupCACert("ca2.pem", true, system, Unreadable).pool| == |system|
    ensures SetupCACert("ca2.pem", true, system, Unreadable).err.Some?
    ensures |SetupCACert("cert.crt", true, system, Decoded({crt})).pool| == |system| + 1
    ensures SetupCACert("cert.crt", true, system, Decoded({crt})).err.None?
  {
    PoolSize("ca.pem", true, system, Decoded({ca}));
    PoolSize("cert.crt", true, system, Decoded({crt}));
  }
}
