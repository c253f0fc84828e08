/** Content identifiers and the library functions on them that the repository imports. */
module Cids {
  import opened Basics

  const SHA2_256: nat := 0x12
  const DAG_PB: nat := 0x70

  datatype Cid = Cid(version: nat, codec: int, hashCode: nat, digest: Bytes)
  {
    /** What the CID library lets a constructor produce. */
    predicate WellFormed() {
      codec >= 0 &&
      (version == 0 || version == 1) &&
      (version == 0 ==> codec == DAG_PB && hashCode == SHA2_256 && |digest| == 32)
    }
  }

  /** SHA-256, `cid.bytes`, `CID.decode` and `cid.toString()`. */
  datatype Library = Library(
    sha256: Bytes -> Bytes,
    bytesOf: Cid -> Bytes,
    decode: Bytes -> Option<Cid>,
    name: Cid -> string)
  {
    /** The assumptions made about them; nothing is assumed about collisions. */
    ghost predicate Lawful() {
      (forall c: Cid | c.WellFormed() :: decode(bytesOf(c)) == Some(c)) &&
      (forall c, d :: name(c) == name(d) ==> c == d) &&
      (forall b :: |sha256(b)| == 32)
    }

    /** The CID names this data: its digest is the data's SHA-256. */
    predicate Names(c: Cid, data: Bytes) {
      c.hashCode == SHA2_256 && c.digest == sha256(data)
    }

    /** No other data has the same SHA-256. */
    ghost predicate CollisionFree(data: Bytes) {
      forall other :: sha256(other) == sha256(data) ==> other == data
    }
  }
}
