/** Abstract stand-ins for the X.509 objects the builders handle. Parsing
    and cryptography are not modelled: a certificate is known by its DER
    encoding, with the subject and public key read from it kept alongside,
    and a private key by its public half. */
module Pki {
  import opened Common

  datatype PublicKey = PublicKey(id: nat)

  /** Two certificates with the same subject and key but different DER bytes
      (a re-issued root, say) are different certificates, as in a Go
      `CertPool`, which deduplicates on the raw encoding. */
  datatype Certificate = Certificate(der: seq<uint8>, subject: string, publicKey: PublicKey)

  datatype PrivateKey = PrivateKey(publicKey: PublicKey)

  /** The private key is the partner of the certificate's public key. */
  predicate KeyMatches(cert: Certificate, key: PrivateKey) {
    cert.publicKey == key.publicKey
  }
}
