/**
 * The BOM data model of internal/domain/bom.go: metadata, components, the BOM
 * root, the `sha256:<hex>` content fingerprint and the two fallible constructors.
 *
 * The two library calls the constructors make are parameters: `Sha256` stands for
 * `sha256.Sum256` (any function from bytes to a 32-byte digest) and
 * `VersionParser` for `semver.NewVersion` (any partial function from strings to
 * versions, failing with a cause).
 */
module Domain {
  import opened Wrappers
  import opened Hex

  type Digest = d: seq<byte> | |d| == 32 witness seq(32, i => 0 as byte)

  type Sha256 = seq<byte> -> Digest

  /** The parsed form of a semantic version (the fields of semver.Version). */
  datatype Version = Version(major: nat, minor: nat, patch: nat, prerelease: string, build: string)

  type VersionParser = string -> Result<Version, string>

  datatype Metadata = Metadata(owner: string, license: string)

  datatype Component = Component(
    id: string,
    version: Version,
    hash: string,
    description: string,
    metadata: Metadata)

  datatype BOM = BOM(
    name: string,
    version: Version,
    model: string,
    description: string,
    metadata: Metadata,
    components: seq<Component>)

  /** Construction failures; each wraps the version parser's own cause. */
  datatype DomainError =
    | InvalidBOMVersion(cause: string)
    | InvalidComponentVersion(cause: string)

  const Prefix: string := "sha256:"

  /** The fingerprint format: "sha256:" followed by 64 lower-case hex digits. */
  predicate IsFingerprint(s: string) {
    |s| == 71 && s[..7] == Prefix && IsLowerHex(s[7..])
  }

  /** The digest a well-formed fingerprint spells out. */
  function FingerprintDigest(s: string): (d: Option<Digest>)
  {
    if |s| < 7 || s[..7] != Prefix then None
    else match Decode(s[7..])
      case Some(bs) => if |bs| == 32 then Some(bs) else None
      case None => None
  }

  /**
   * ComputeSHA256: the fingerprint of `data` is well formed and spells out exactly
   * the digest of `data`.
   */
  function ComputeSHA256(sha256: Sha256, data: seq<byte>): (s: string)
    ensures IsFingerprint(s)
    ensures FingerprintDigest(s) == Some(sha256(data))
  {
    var d := sha256(data);
    DecodeEncode(d);
    var s := Prefix + Encode(d);
    assert s[..7] == Prefix && s[7..] == Encode(d);
    s
  }

  /** Every well-formed fingerprint is the rendering of its digest, and of no other. */
  lemma FingerprintRendersDigest(s: string)
    requires IsFingerprint(s)
    ensures FingerprintDigest(s).Some?
    ensures Prefix + Encode(FingerprintDigest(s).value) == s
  {
    EncodeDecode(s[7..]);
    assert s == s[..7] + s[7..];
  }

  /**
   * Two inputs get the same fingerprint exactly when they have the same digest:
   * the rendering neither merges nor splits digests.
   */
  lemma FingerprintMatchesDigest(sha256: Sha256, a: seq<byte>, b: seq<byte>)
    ensures ComputeSHA256(sha256, a) == ComputeSHA256(sha256, b) <==> sha256(a) == sha256(b)
  {
  }

  /**
   * NewBOM: fails exactly when the version does not parse, with that cause; otherwise
   * every field is copied through, the components in the same order.
   */
  function NewBOM(
    parse: VersionParser,
    name: string, version: string, model: string, desc: string,
    owner: string, license: string, components: seq<Component>): (r: Result<BOM, DomainError>)
    ensures r.Err? <==> parse(version).Err?
    ensures r.Err? ==> r.error == InvalidBOMVersion(parse(version).error)
    ensures r.Ok? ==>
      && r.value.name == name && r.value.version == parse(version).value
      && r.value.model == model && r.value.description == desc
      && r.value.metadata == Metadata(owner, license)
      && r.value.components == components
  {
    match parse(version)
    case Err(cause) => Err(InvalidBOMVersion(cause))
    case Ok(v) => Ok(BOM(name, v, model, desc, Metadata(owner, license), components))
  }

  /**
   * NewComponent: fails exactly when the version does not parse; otherwise copies
   * id, description and owner, leaves the license empty and fingerprints the body.
   */
  function NewComponent(
    parse: VersionParser, sha256: Sha256,
    id: string, version: string, desc: string, owner: string, data: seq<byte>): (r: Result<Component, DomainError>)
    ensures r.Err? <==> parse(version).Err?
    ensures r.Err? ==> r.error == InvalidComponentVersion(parse(version).error)
    ensures r.Ok? ==>
      && r.value.id == id && r.value.version == parse(version).value
      && r.value.description == desc
      && r.value.metadata == Metadata(owner, "")
      && IsFingerprint(r.value.hash)
      && FingerprintDigest(r.value.hash) == Some(sha256(data))
  {
    match parse(version)
    case Err(cause) => Err(InvalidComponentVersion(cause))
    case Ok(v) => Ok(Component(id, v, ComputeSHA256(sha256, data), desc, Metadata(owner, "")))
  }

  /**
   * Integrity round trip: recomputing the fingerprint of the same body reproduces the
   * stored hash, and a body with a different digest never matches it.
   */
  lemma StoredHashVerifies(
    parse: VersionParser, sha256: Sha256,
    id: string, version: string, desc: string, owner: string, data: seq<byte>, other: seq<byte>)
    requires NewComponent(parse, sha256, id, version, desc, owner, data).Ok?
    ensures var c := NewComponent(parse, sha256, id, version, desc, owner, data).value;
      c.hash == ComputeSHA256(sha256, data)
      && (c.hash == ComputeSHA256(sha256, other) <==> sha256(other) == sha256(data))
  {
    var c := NewComponent(parse, sha256, id, version, desc, owner, data).value;
    FingerprintRendersDigest(c.hash);
    FingerprintMatchesDigest(sha256, data, other);
  }

  /**
   * Neither constructor checks required fields: whether it succeeds depends on the
   * version string alone, so empty owner, license, id or body are accepted.
   */
  lemma OnlyTheVersionIsChecked(
    parse: VersionParser, sha256: Sha256, version: string,
    name: string, model: string, desc: string, owner: string, license: string,
    components: seq<Component>, id: string, data: seq<byte>)
    ensures NewBOM(parse, name, version, model, desc, owner, license, components).Ok?
        == NewBOM(parse, "", version, "", "", "", "", []).Ok?
    ensures NewComponent(parse, sha256, id, version, desc, owner, data).Ok?
        == NewComponent(parse, sha256, "", version, "", "", []).Ok?
  {
  }
}
