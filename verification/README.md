# go-tls-helper configuration builders, modelled in Dafny

The library assembles the security fields of a Go `tls.Config` from
file-based settings. It does this through three independent builders:

- **`setupVersion`** maps a minimum and a maximum version name to
  `MinVersion`/`MaxVersion`. Names match without regard to case. Empty names
  take the defaults TLS 1.1 and TLS 1.2. The builder enforces min ≤ max and
  leaves a specific zero state on each error.
- **`setupCACert`** replaces a CA pool with an empty pool or a copy of the
  system trust store. It then appends the certificates of an optional PEM file.
- **`setupCertificate`** loads an optional certificate chain and private key,
  decrypting legacy encrypted PEM keys. It appends one identity to
  `Certificates`.

The model follows the behaviour fixed by the library's tests
(`helper_test.go`). The implementation is not modelled, and behaviour the
tests leave open is a modelling choice listed under "Left out". The model
works at the level of the configuration's fields: it has no `tls.Config`
object, file reading or X.509 parsing.

Modules:

- `Common` (`common.dfy`): `Option` and the Go integer widths.
- `Ascii` (`ascii.dfy`): ASCII upper-casing and case-insensitive equality.
- `ProtocolVersion` (`protocol_version.dfy`): the version constants.
  `tls.VersionTLS11` = 0x0302 is the ProtocolVersion {3, 2} of RFC 4346.
  `tls.VersionTLS12` = 0x0303 is {3, 3}, from section 6.2.1 of RFC 5246.
  The module also proves that comparing these numbers is the wire order.
- `VersionRange` (`version_range.dfy`): `setupVersion`, both as a pure
  `Resolve` and as the field-writing method `SetupVersion`.
- `Pki` (`pki.dfy`): abstract certificates and keys. A certificate is
  identified by its DER encoding, as a Go `CertPool` identifies it. A private
  key is known only by its public half.
- `CaPool` (`ca_pool.dfy`): `setupCACert` over sets of certificates.
- `Identity` (`identity.dfy`): `setupCertificate` over the list of installed
  identities.

The name table of `setupVersion` is a parameter: a map keyed by upper-case
names, each mapping to a non-zero version. `StandardTable` holds the two
names the tests use, `TLS11` and `TLS12`.

Every test starts from a zero-valued `tls.Config{}`, and the model does the
same. An unrecognised minimum name returns before either field is written,
so both stay 0 (helper_test.go:218-224, 240-245).

## Model

| member | source | states |
|---|---|---|
| Ascii.Upper | helper_test.go:253-266 | The upper-case form has the input's length. Each character is the input character upper-cased. No lower-case ASCII letter remains. |
| Ascii.UpperFixesNoLower | helper_test.go:253-266 | Upper-casing leaves a string unchanged exactly when it has no lower-case letter, so upper-casing is idempotent. |
| Ascii.UpperCharSame | helper_test.go:253-266 | Two characters fold to the same character exactly when they are equal or are the two cases of one ASCII letter. |
| Ascii.EqualFoldPointwise | helper_test.go:253-266 | Case-insensitive equality holds exactly when the lengths agree and every position folds to the same character. |
| Ascii.EqualFoldEquivalence | helper_test.go:253-266 | Case-insensitive equality is reflexive, symmetric and transitive, and a string equals its upper-case form. |
| ProtocolVersion.FromNumber | helper_test.go:207-208 | Splitting a 16-bit version number into major and minor bytes gives back the same number when re-encoded. |
| ProtocolVersion.WireRoundTrip | helper_test.go:207-208 | Encoding a {major, minor} pair and splitting it again returns the pair. |
| ProtocolVersion.NumberOrderIsWireOrder | helper_test.go:267-273 | The number comparison that decides "min > max" is the lexicographic order on {major, minor}. |
| ProtocolVersion.KnownVersions | helper_test.go:214-215 | TLS 1.1 and TLS 1.2 are the wire versions {3,2} and {3,3}. Both are non-zero and TLS 1.1 is the smaller. |
| VersionRange.Lookup | helper_test.go:246-266 | A name is found exactly when some table key equals it ignoring case. The version found is that key's, and it is non-zero. |
| VersionRange.ResolveName | helper_test.go:211-238 | An empty name selects the default. Any other name must be recognised and selects its table entry. |
| VersionRange.Resolve | helper_test.go:211-287 | An unknown min name gives (0, 0, error). Otherwise min is written. An unknown max name then gives max 0 and an error. A min above max gives max 0 and an ordering error. Success means both names selected their versions and 0 < min ≤ max. Every error leaves max 0. |
| VersionRange.SetupVersion | helper_test.go:289-298 | Writing the fields in order with early returns on a zeroed config gives exactly the outcome of `Resolve`. |
| VersionRange.SelectsUnique | helper_test.go:246-266 | With a well-formed table, a name selects at most one version, whatever its case. |
| VersionRange.ResolveBySelection | helper_test.go:248-287 | Once the names select lo and hi, the outcome is (lo, hi, ok) when lo ≤ hi. Otherwise it is (lo, 0, ordering error). |
| VersionRange.ResolveSucceedsIff | helper_test.go:211-287 | The call succeeds exactly when both names select versions with min ≤ max. |
| VersionRange.ResolveIgnoresCase | helper_test.go:246-266 | Names that differ only in case give the same min, the same max and the same success or failure. |
| VersionRange.ResolveDefaults | helper_test.go:211-217 | Two empty names give (TLS11, TLS12) with no error, for any table. |
| VersionRange.StandardTableWellFormed | helper_test.go:214-215 | The table of tested names has upper-case keys and non-zero versions. |
| VersionRange.StandardTableCases | helper_test.go:204-287 | Each of the eleven rows of the version test table gives the expected (min, max, error?) outcome. |
| CaPool.SetupCACert | helper_test.go:9-86 | An error happens exactly when a path is given that yields no certificate. The system store is kept when requested. The pool is the base (system store or empty), or the base plus every decoded certificate, never anything in between. |
| CaPool.PoolSize | helper_test.go:24-71 | An empty path or an error leaves size 0 or the system size. Without the system store, a success leaves exactly the file's certificates. With it, a success gives system size plus the file's count exactly when none of the file's certificates is already in the store. A success with a path leaves at least one certificate. |
| CaPool.TestTableCases | helper_test.go:24-71 | The eight rows of the CA test table give the expected pool size and error flag. |
| Identity.UsableKey | helper_test.go:125-142 | A plain key is usable under any password. An encrypted key is usable exactly under its own password. The usable key is the file's key. |
| Identity.LoadPair | helper_test.go:143-184 | A pair loads exactly when both files read, the key is usable and the leaf certificate carries the key's public half. The identity keeps the whole chain. |
| Identity.SetupCertificate | helper_test.go:88-197 | With no paths, nothing is installed, and there is an error exactly when an identity is required. Every failure leaves the list unchanged. Every success with paths appends one identity whose leaf matches its key. Success with paths holds exactly when both files read, the key is usable and the leaf matches it. |
| Identity.InstallsAtMostOne | helper_test.go:101-185 | From an empty list, a call installs zero or one identity. It installs one exactly when it succeeds with paths given. |
| Identity.PlainKeyIgnoresPassword | helper_test.go:155-160 | For an unencrypted key, the supplied password has no effect on the outcome. |
| Identity.EncryptedKeyNeedsPassword | helper_test.go:125-142 | An encrypted key installs its identity under the right password. Under any other it gives a decryption error and installs nothing. |
| Identity.RepeatedLoadAppendsTwice | helper_test.go:113-124 | Identities are not deduplicated: repeating a successful call on the same list installs a second, identical entry. The tests never repeat a call on one configuration (each row starts from a fresh one), so this is the model's promise for the repeated call, not something the tests check. |
| Identity.TestTableCases | helper_test.go:101-185 | The rows of the identity test table give the expected count and error flag. The chain rows keep the full chain. |

## Left out

- The implementation file of the library is not part of this model. The
  builders are modelled from the behaviour their tests fix. Where the tests
  leave something open, the choice made is listed below.
- X.509 and PEM decoding, CSR detection and chain decoding are not modelled.
  Each file is an abstract parse outcome: unreadable, or the certificates or
  key it decodes to.
- Legacy PEM decryption is not modelled. An encrypted key decrypts under
  exactly one password. A wrong password that happens to decrypt to garbage
  is treated like any other decryption failure.
- The public-key match of a key and its leaf is equality of abstract
  public-key identifiers, not cryptography.
- The platform trust store is a parameter, and so is its size. A failure to
  obtain it is not modelled.
- File reading is not modelled. An empty path reads as unreadable.
- The `tls.Config` object is not modelled. Only its three fields are, starting
  from their zero values.
- Ascii.Upper: folds ASCII letters only. Go's `strings.ToUpper` is Unicode,
  so for example "tlſ11" (long s) would also match "TLS11" there.
- VersionRange.Resolve: the names recognised besides `TLS11`/`TLS12` are not
  shown, so the table is a parameter, constrained only to upper-case keys and
  non-zero versions.
- CaPool.SetupCACert: a file whose PEM blocks are partly valid counts as the
  set of certificates that decoded. The model does not say which blocks are
  skipped.
- Identity.SetupCertificate: the relative order of the read, decryption and
  mismatch errors is not fixed by the tests, and the model picks cert read,
  key read, decryption, match. Only one path being empty is treated as an
  attempted load that fails reading the empty path.
