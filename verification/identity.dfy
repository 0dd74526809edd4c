/** The identity loader (`setupCertificate`): reads a certificate chain and
    a private key, decrypting the key when its PEM block is encrypted, and
    appends one identity to the configuration's certificate list. */
module Identity {
  import opened Common
  import opened Pki

  /** The certificate file: unreadable, or the certificates its PEM blocks
      decode to, leaf first. */
  datatype CertFile = CertUnreadable | CertChain(chain: seq<Certificate>)

  /** The key file: unreadable, a plain key, or a legacy encrypted PEM key
      that decrypts to `key` under `secret` and under no other password. */
  datatype KeyFile = KeyUnreadable | PlainKey(key: PrivateKey) | EncryptedKey(secret: string, key: PrivateKey)

  /** One entry of `tls.Config.Certificates`: the chain and its key. */
  datatype KeyPair = KeyPair(chain: seq<Certificate>, key: PrivateKey)

  datatype IdentityError =
    | MissingRequiredIdentity
    | FileReadError(path: string)
    | KeyDecryptionError
    | KeyCertMismatch

  /** The key pair built from the two files, or why it could not be. */
  datatype Result = Ok(identity: KeyPair) | Err(error: IdentityError)

  /** The certificate list left behind and the error returned, if any. */
  datatype IdentityOutcome = IdentityOutcome(certificates: seq<KeyPair>, err: Option<IdentityError>)

  /** Reading an empty path fails like reading a missing file. */
  function ReadCert(path: string, file: CertFile): CertFile {
    if path == "" then CertUnreadable else file
  }

  function ReadKey(path: string, file: KeyFile): KeyFile {
    if path == "" then KeyUnreadable else file
  }

  /** The private key a readable key file yields under `password`; a
      password given for a plain key plays no part. */
  function UsableKey(keyFile: KeyFile, password: string): (r: Option<PrivateKey>)
    requires !keyFile.KeyUnreadable?
    ensures r.Some? <==> keyFile.PlainKey? || password == keyFile.secret
    ensures r.Some? ==> r.value == keyFile.key
  {
    match keyFile
    case PlainKey(k) => Some(k)
    case EncryptedKey(secret, k) => if password == secret then Some(k) else None
  }

  /** Builds the identity from the two files: the leaf certificate must
      carry the public half of the key. */
  function LoadPair(certPath: string, keyPath: string, password: string, certFile: CertFile, keyFile: KeyFile)
    : (r: Result)
    ensures r.Ok? <==>
      && ReadCert(certPath, certFile).CertChain?
      && !ReadKey(keyPath, keyFile).KeyUnreadable?
      && (keyFile.PlainKey? || password == keyFile.secret)
      && |certFile.chain| > 0 && KeyMatches(certFile.chain[0], keyFile.key)
    ensures r.Ok? ==> r.identity == KeyPair(certFile.chain, keyFile.key)
  {
    match ReadCert(certPath, certFile)
    case CertUnreadable => Err(FileReadError(certPath))
    case CertChain(chain) =>
      match ReadKey(keyPath, keyFile)
      case KeyUnreadable => Err(FileReadError(keyPath))
      case _ =>
        match UsableKey(keyFile, password)
        case None => Err(KeyDecryptionError)
        case Some(key) =>
          if |chain| > 0 && KeyMatches(chain[0], key) then Ok(KeyPair(chain, key))
          else Err(KeyCertMismatch)
  }

  /** Both paths are empty: there is no identity to load. */
  predicate NoPaths(certPath: string, keyPath: string) {
    certPath == "" && keyPath == ""
  }

  /** `setupCertificate` over the configuration's current list `installed`. */
  function SetupCertificate(installed: seq<KeyPair>, required: bool, certPath: string, keyPath: string,
                            password: string, certFile: CertFile, keyFile: KeyFile): (r: IdentityOutcome)
    // no paths: nothing installed, an error exactly when an identity is required
    ensures NoPaths(certPath, keyPath) ==>
      r.certificates == installed && (r.err.Some? <==> required)
      && (required ==> r.err == Some(MissingRequiredIdentity))
    // every failure leaves the list as it was
    ensures r.err.Some? ==> r.certificates == installed
    // every success with paths appends exactly one identity whose leaf matches its key
    ensures r.err.None? && !NoPaths(certPath, keyPath) ==>
      && |r.certificates| == |installed| + 1
      && r.certificates[..|installed|] == installed
      && var id := r.certificates[|installed|];
         certFile.CertChain? && id.chain == certFile.chain && |id.chain| > 0 && KeyMatches(id.chain[0], id.key)
    // success with paths, in both directions
    ensures !NoPaths(certPath, keyPath) ==>
      (r.err.None? <==>
        && certPath != "" && certFile.CertChain? && keyPath != "" && !keyFile.KeyUnreadable?
        && (keyFile.PlainKey? || password == keyFile.secret)
        && |certFile.chain| > 0 && KeyMatches(certFile.chain[0], keyFile.key))
  {
    if NoPaths(certPath, keyPath) then
      if required then IdentityOutcome(installed, Some(MissingRequiredIdentity))
      else IdentityOutcome(installed, None)
    else
      match LoadPair(certPath, keyPath, password, certFile, keyFile)
      case Err(e) => IdentityOutcome(installed, Some(e))
      case Ok(id) => IdentityOutcome(installed + [id], None)
  }

  /** Starting from an empty list, a call installs zero or exactly one
      identity, and one exactly when it succeeds with paths given. */
  lemma InstallsAtMostOne(required: bool, certPath: string, keyPath: string, password: string,
                          certFile: CertFile, keyFile: KeyFile)
    ensures var r := SetupCertificate([], required, certPath, keyPath, password, certFile, keyFile);
      && |r.certificates| <= 1
      && (|r.certificates| == 1 <==> r.err.None? && !NoPaths(certPath, keyPath))
  {
  }

  /** A password given for a key that is not encrypted is ignored. */
  lemma PlainKeyIgnoresPassword(installed: seq<KeyPair>, required: bool, certPath: string, keyPath: string,
                                p1: string, p2: string, certFile: CertFile, key: PrivateKey)
    ensures SetupCertificate(installed, required, certPath, keyPath, p1, certFile, PlainKey(key))
         == SetupCertificate(installed, required, certPath, keyPath, p2, certFile, PlainKey(key))
  {
  }

  /** An encrypted key loads under its password and fails under any other,
      installing nothing. */
  lemma EncryptedKeyNeedsPassword(installed: seq<KeyPair>, required: bool, certPath: string, keyPath: string,
                                  password: string, cert: Certificate, rest: seq<Certificate>,
                                  secret: string, key: PrivateKey)
    requires certPath != "" && keyPath != ""
    requires KeyMatches(cert, key)
    ensures var r := SetupCertificate(installed, required, certPath, keyPath, password,
                                      CertChain([cert] + rest), EncryptedKey(secret, key));
      && (password == secret ==> r.err.None? && r.certificates == installed + [KeyPair([cert] + rest, key)])
      && (password != secret ==> r.err == Some(KeyDecryptionError) && r.certificates == installed)
  {
  }

  /** Loading is not deduplicated: two successful calls install two entries. */
  lemma RepeatedLoadAppendsTwice(installed: seq<KeyPair>, required: bool, certPath: string, keyPath: string,
                                 password: string, certFile: CertFile, keyFile: KeyFile)
    requires SetupCertificate(installed, required, certPath, keyPath, password, certFile, keyFile).err.None?
    requires !NoPaths(certPath, keyPath)
    ensures var once := SetupCertificate(installed, required, certPath, keyPath, password, certFile, keyFile);
      var twice := SetupCertificate(once.certificates, required, certPath, keyPath, password, certFile, keyFile);
      && twice.err.None?
      && |twice.certificates| == |installed| + 2
      && twice.certificates[|installed|] == twice.certificates[|installed| + 1]
  {
  }

  /** Runs one row of the library's identity test table on a fresh
      configuration, with both paths given. */
  function Row(required: bool, certFile: CertFile, keyFile: KeyFile, password: string): IdentityOutcome {
    SetupCertificate([], required, "cert", "key", password, certFile, keyFile)
  }

  /** The rows of the library's identity test table. `cert`/`key` is a
      matching plain pair, `passCert`/`passKey` a matching pair whose key is
      encrypted under "test"; `cert2`, `key2`, `passCert2` and `passKey2`
      belong to other pairs; `inter` and `passInter` are intermediates. */
  lemma TestTableCases(cert: Certificate, key: PrivateKey, cert2: Certificate, key2: PrivateKey,
                       passCert: Certificate, passKey: PrivateKey, passCert2: Certificate, passKey2: PrivateKey,
                       inter: Certificate, passInter: Certificate)
    requires KeyMatches(cert, key) && !KeyMatches(cert2, key) && !KeyMatches(cert, key2)
    requires KeyMatches(passCert, passKey) && !KeyMatches(passCert2, passKey) && !KeyMatches(passCert, passKey2)
    ensures var r := SetupCertificate([], false, "", "", "", CertUnreadable, KeyUnreadable);
      |r.certificates| == 0 && r.err.None?
    ensures var r := SetupCertificate([], true, "", "", "", CertUnreadable, KeyUnreadable);
      |r.certificates| == 0 && r.err.Some?
    ensures var r := Row(true, CertChain([cert]), PlainKey(key), "");
      |r.certificates| == 1 && r.err.None?
    ensures var r := Row(false, CertChain([passCert]), EncryptedKey("test", passKey), "test");
      |r.certificates| == 1 && r.err.None?
    ensures var r := Row(true, CertChain([passCert]), EncryptedKey("test", passKey), "test");
      |r.certificates| == 1 && r.err.None?
    ensures var r := Row(false, CertChain([passCert]), EncryptedKey("test", passKey), "test1");
      |r.certificates| == 0 && r.err.Some?
    ensures var r := Row(true, CertChain([cert2]), PlainKey(key), "");
      |r.certificates| == 0 && r.err.Some?
    ensures var r := Row(true, CertChain([cert]), PlainKey(key2), "");
      |r.certificates| == 0 && r.err.Some?
    ensures var r := Row(true, CertChain([cert]), PlainKey(key), "ignored_password");
      |r.certificates| == 1 && r.err.None?
    ensures var r := Row(true, CertChain([passCert2]), EncryptedKey("test", passKey), "test");
      |r.certificates| == 0 && r.err.Some?
    ensures var r := Row(true, CertChain([passCert]), EncryptedKey("test", passKey2), "test");
      |r.certificates| == 0 && r.err.Some?
    ensures var r := Row(true, CertChain([cert, inter]), PlainKey(key), "");
      |r.certificates| == 1 && r.err.None? && r.certificates[0].chain == [cert, inter]
    ensures var r := Row(true, CertChain([passCert, passInter]), EncryptedKey("test", passKey), "test");
      |r.certificates| == 1 && r.err.None? && r.certificates[0].chain == [passCert, passInter]
  {
  }
}
