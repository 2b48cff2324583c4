/** The library functions whose source is not part of the repository. Every theorem is
    stated for all of them, under the few laws listed here. */
module Libraries {
  import opened LittleEndian
  import opened Utf8

  /** crc32fast::hash, NFC of unicode-normalization, unicase's per-character folding and
      the domain-separated artifact digest. */
  datatype Libraries = Crates(
    crc: seq<byte> -> u32,
    nfc: string -> string,
    fold: char -> string,
    digest: seq<byte> -> string)

  const BOM: char := '\U{FEFF}'

  predicate Ascii(s: string) {
    forall c | c in s :: c as int < 0x80
  }

  /** Folding neither creates nor removes a path separator. */
  ghost predicate FoldLaw(lib: Libraries) {
    && lib.fold('/') == "/"
    && forall c | c != '/' :: '/' !in lib.fold(c)
  }

  function AsciiLower(c: char): string {
    if 'A' <= c <= 'Z' then [(c as int + 32) as char] else [c]
  }

  /** Folding an ASCII character is putting it in lower case. */
  ghost predicate AsciiLaw(lib: Libraries) {
    forall c: char | c as int < 0x80 :: lib.fold(c) == AsciiLower(c)
  }

  /** NFC is idempotent, leaves ASCII alone, never creates a byte-order mark, and composes
      nothing with a path separator. */
  ghost predicate NfcLaw(lib: Libraries) {
    && (forall s :: lib.nfc(lib.nfc(s)) == lib.nfc(s))
    && (forall s | Ascii(s) :: lib.nfc(s) == s)
    && (forall s | BOM !in s :: BOM !in lib.nfc(s))
    && (forall s, t :: lib.nfc(s + "/" + t) == lib.nfc(s) + "/" + lib.nfc(t))
  }

  /** A digest is ASCII text: the algorithm's name, a colon and lower-case hexadecimal. */
  ghost predicate DigestLaw(lib: Libraries) {
    forall b :: Ascii(lib.digest(b))
  }

  /** The laws can be met together: only ASCII folds, everything is in NFC, one digest. */
  lemma LawsAreConsistent(lib: Libraries)
    requires lib.fold == AsciiLower && lib.nfc == ((s: string) => s)
    requires lib.digest == ((b: seq<byte>) => "sha256:0")
    ensures FoldLaw(lib) && AsciiLaw(lib) && NfcLaw(lib) && DigestLaw(lib)
  {
    assert Ascii("sha256:0");
  }
}
