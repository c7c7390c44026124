/**
 * Deterministic identifiers: the hexadecimal SHA-256 digest of the UTF-8
 * encoding of the concatenation of the string forms of some components.
 */
module Hashing {
  import opened Text
  import opened Sha256

  /** What `hexdigest()` returns for SHA-256: 64 lowercase hexadecimal characters. */
  predicate IsHexId(s: string) {
    |s| == 64 && forall k :: 0 <= k < |s| ==> IsLowerHex(s[k])
  }

  function HexByte(b: Byte): (r: string)
    ensures |r| == 2 && IsLowerHex(r[0]) && IsLowerHex(r[1])
  {
    [HexDigit((b / 16) as nat), HexDigit((b % 16) as nat)]
  }

  /** `hexdigest()`: two lowercase hexadecimal characters per byte, high nibble first. */
  function HexDigest(bs: seq<Byte>): (r: string)
    ensures |r| == 2 * |bs|
    ensures forall k :: 0 <= k < |r| ==> IsLowerHex(r[k])
  {
    if bs == [] then [] else HexByte(bs[0]) + HexDigest(bs[1..])
  }

  lemma HexByteInjective(a: Byte, b: Byte)
    requires HexByte(a) == HexByte(b)
    ensures a == b
  {
    assert HexDigit((a / 16) as nat) == HexDigit((b / 16) as nat);
    assert HexDigit((a % 16) as nat) == HexDigit((b % 16) as nat);
    assert a / 16 == b / 16 && a % 16 == b % 16;
  }

  /** Distinct digests have distinct hexadecimal renderings. */
  lemma {:induction false} HexDigestInjective(a: seq<Byte>, b: seq<Byte>)
    requires HexDigest(a) == HexDigest(b)
    ensures a == b
  {
    if a != [] {
      assert b != [];
      var ha, hb := HexDigest(a), HexDigest(b);
      assert ha[..2] == HexByte(a[0]) && hb[..2] == HexByte(b[0]);
      HexByteInjective(a[0], b[0]);
      assert ha[2..] == HexDigest(a[1..]) && hb[2..] == HexDigest(b[1..]);
      HexDigestInjective(a[1..], b[1..]);
    }
  }

  /**
   * `generate_id(*components)`: the hex digest of the concatenation of the
   * components, each already converted with `str()`.
   */
  function GenerateId(components: seq<string>): (r: string)
    ensures IsHexId(r)
  {
    HexDigest(Digest(Utf8(Concat(components))))
  }

  /** Two component lists give the same id exactly when SHA-256 agrees on their concatenations. */
  lemma GenerateIdEqualIff(c1: seq<string>, c2: seq<string>)
    ensures GenerateId(c1) == GenerateId(c2) <==> Digest(Utf8(Concat(c1))) == Digest(Utf8(Concat(c2)))
  {
    if GenerateId(c1) == GenerateId(c2) {
      HexDigestInjective(Digest(Utf8(Concat(c1))), Digest(Utf8(Concat(c2))));
    }
  }

  /** Only the concatenation matters: the component boundaries are lost. */
  lemma GenerateIdDependsOnlyOnConcat(c1: seq<string>, c2: seq<string>)
    requires Concat(c1) == Concat(c2)
    ensures GenerateId(c1) == GenerateId(c2)
  {
  }

  /** The boundary between components is not part of the id. */
  lemma BoundaryCollision()
    ensures GenerateId(["ab", "c"]) == GenerateId(["a", "bc"])
  {
    assert Concat(["ab", "c"]) == "abc" == Concat(["a", "bc"]);
  }

  lemma Concat2(a: string, b: string)
    ensures Concat([a, b]) == a + b
  {
    assert [a, b][1..] == [b];
  }

  lemma Concat3(a: string, b: string, c: string)
    ensures Concat([a, b, c]) == a + b + c
  {
    assert [a, b, c][1..] == [b, c];
    Concat2(b, c);
  }

  /** `generate_entity_id(source_url, entity_type)`. */
  function GenerateEntityId(sourceUrl: string, entityType: string): (r: string)
    ensures r == GenerateId([sourceUrl + entityType])
    ensures IsHexId(r)
  {
    Concat2(sourceUrl, entityType);
    GenerateId([sourceUrl, entityType])
  }

  /** `generate_relationship_id(source_id, target_id, relationship_type)`. */
  function GenerateRelationshipId(sourceId: string, targetId: string, relationshipType: string): (r: string)
    ensures r == GenerateId([sourceId + targetId + relationshipType])
    ensures IsHexId(r)
  {
    Concat3(sourceId, targetId, relationshipType);
    GenerateId([sourceId, targetId, relationshipType])
  }

  /** `generate_content_id(content)`. */
  function GenerateContentId(content: string): (r: string)
    ensures r == HexDigest(Digest(Utf8(content)))
    ensures IsHexId(r)
  {
    GenerateId([content])
  }
}
