/** TLS protocol version numbers as Go's crypto/tls writes them: the
    two-byte ProtocolVersion of section 6.2.1 of RFC 5246 ({major, minor})
    read as one big-endian 16-bit number. */
module ProtocolVersion {
  import opened Common

  datatype WireVersion = WireVersion(major: uint8, minor: uint8)

  /** The 16-bit number carried by `tls.Config.MinVersion`/`MaxVersion`. */
  function ToNumber(w: WireVersion): uint16 {
    w.major * 0x100 + w.minor
  }

  /** Splits a version number back into its two wire bytes. */
  function FromNumber(v: uint16): (w: WireVersion)
    ensures ToNumber(w) == v
  {
    WireVersion(v / 0x100, v % 0x100)
  }

  /** Decoding undoes encoding. */
  lemma WireRoundTrip(w: WireVersion)
    ensures FromNumber(ToNumber(w)) == w
  {
    var v := ToNumber(w);
    assert v / 0x100 == w.major && v % 0x100 == w.minor by {
      NumberDivMod(w.major, w.minor);
    }
  }

  lemma NumberDivMod(major: uint8, minor: uint8)
    ensures (major * 0x100 + minor) / 0x100 == major
    ensures (major * 0x100 + minor) % 0x100 == minor
  {
  }

  /** Comparing the 16-bit numbers, as the version-range check does, is the
      lexicographic order on {major, minor}. */
  lemma NumberOrderIsWireOrder(a: WireVersion, b: WireVersion)
    ensures ToNumber(a) <= ToNumber(b) <==>
      a.major < b.major || (a.major == b.major && a.minor <= b.minor)
  {
    if a.major < b.major {
      assert ToNumber(a) < (a.major + 1) * 0x100 <= ToNumber(b);
    } else if b.major < a.major {
      assert ToNumber(b) < (b.major + 1) * 0x100 <= ToNumber(a);
    }
  }

  /** tls.VersionTLS11, {3, 2} (RFC 4346). */
  const TLS11: uint16 := 0x0302
  /** tls.VersionTLS12, {3, 3} (RFC 5246). */
  const TLS12: uint16 := 0x0303

  /** The constants are the wire versions the RFCs assign, and each later
      protocol version compares greater than the earlier one. */
  lemma KnownVersions()
    ensures FromNumber(TLS11) == WireVersion(3, 2)
    ensures FromNumber(TLS12) == WireVersion(3, 3)
    ensures 0 < TLS11 < TLS12
  {
  }
}
