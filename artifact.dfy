/** `Artifact`: a named, versioned asset whose id is derived from its path. */
module Artifacts {
  import opened Wrappers
  import opened Bytes
  import opened Dicts
  import opened Strings
  import Utf8
  import Base64

  const DefaultType := "model:torch"
  const DefaultVersion := "1.0.0"

  /** `base64(asset_path.encode())`, then ':' and the version. */
  function IdOf(assetPath: string, version: string): string
  {
    Base64.Encode(Utf8.Encode(assetPath)) + ":" + version
  }

  /** Reads an id back: the text before the first ':' is decoded to the asset
      path, the rest is the version. */
  function ParseId(id: string): Option<(string, string)>
  {
    match IndexOf(id, ':')
    case None => None
    case Some(i) =>
      match Base64.Decode(id[..i])
      case None => None
      case Some(bytes) =>
        match Utf8.Decode(bytes)
        case None => None
        case Some(path) => Some((path, id[i + 1..]))
  }

  /** The encoded part has length 4·⌈n/3⌉ for an n-byte path, uses only the
      base64 alphabet and so holds no ':'; the id parses back to path and version. */
  lemma IdSpec(assetPath: string, version: string)
    ensures var encoded := Base64.Encode(Utf8.Encode(assetPath));
      && IdOf(assetPath, version) == encoded + ":" + version
      && |encoded| == 4 * ((|Utf8.Encode(assetPath)| + 2) / 3)
      && (forall i :: 0 <= i < |encoded| ==> Base64.InAlphabet(encoded[i]))
      && ':' !in encoded
    ensures ParseId(IdOf(assetPath, version)) == Some((assetPath, version))
  {
    var bytes := Utf8.Encode(assetPath);
    var encoded := Base64.Encode(bytes);
    Base64.EncodeLength(bytes);
    Base64.EncodeAlphabet(bytes);
    var id := IdOf(assetPath, version);
    assert id[|encoded|] == ':';
    assert id[..|encoded|] == encoded;
    assert id[|encoded| + 1..] == version;
    assert ':' !in id[..|encoded|];
    assert IndexOf(id, ':') == Some(|encoded|);
    Base64.RoundTrip(bytes);
    Utf8.RoundTrip(assetPath);
  }

  /** Distinct (asset path, version) pairs have distinct ids. */
  lemma IdInjective(p1: string, v1: string, p2: string, v2: string)
    requires IdOf(p1, v1) == IdOf(p2, v2)
    ensures p1 == p2 && v1 == v2
  {
    IdSpec(p1, v1);
    IdSpec(p2, v2);
  }

  /** Both encodings of the id lose nothing, since each has a decoder that
      undoes it: distinct strings have distinct UTF-8 bytes, and distinct byte
      strings distinct base64 texts. */
  lemma EncodingsInjective(s: string, t: string, a: seq<byte>, b: seq<byte>)
    ensures Utf8.Encode(s) == Utf8.Encode(t) ==> s == t
    ensures Base64.Encode(a) == Base64.Encode(b) ==> a == b
  {
    Utf8.RoundTrip(s);
    Utf8.RoundTrip(t);
    Base64.RoundTrip(a);
    Base64.RoundTrip(b);
  }

  /** Ids can contain '/': the path "???" encodes to "Pz8/". */
  lemma SlashInId()
    ensures IdOf("???", DefaultVersion) == "Pz8/:1.0.0"
  {
    var q: seq<byte> := [63];
    assert Utf8.EncodeChar('?') == q;
    assert Utf8.Encode("?") == q;
    assert "???"[1..] == "??" && "??"[1..] == "?";
    assert Utf8.Encode("???") == [63, 63, 63];
    var bytes: seq<byte> := [63, 63, 63];
    assert bytes[3..] == [];
    assert Base64.Char64(15) == 'P' && Base64.Char64(51) == 'z' && Base64.Char64(60) == '8' && Base64.Char64(63) == '/';
    assert Base64.Encode(bytes) == "Pz8/";
  }

  /** The fields of an artifact, as a value. */
  datatype ArtifactValue = ArtifactValue(
    artifactType: string, name: string, data: seq<byte>, version: string,
    assetPath: string, metadata: Dict<string, string>, tags: seq<string>)

  class Artifact {
    var artifactType: string
    var name: string
    var data: seq<byte>
    var version: string
    var assetPath: string
    var metadata: Dict<string, string>
    var tags: seq<string>

    /** An artifact with every field at its default. */
    constructor Default()
      ensures Value() == ArtifactValue(DefaultType, "", [], DefaultVersion, "", [], [])
    {
      artifactType, name, data, version := DefaultType, "", [], DefaultVersion;
      assetPath, metadata, tags := "", [], [];
    }

    /** An artifact with the given fields. */
    constructor (v: ArtifactValue)
      ensures Value() == v
    {
      artifactType, name, data, version := v.artifactType, v.name, v.data, v.version;
      assetPath, metadata, tags := v.assetPath, v.metadata, v.tags;
    }

    function Value(): ArtifactValue
      reads this
    {
      ArtifactValue(artifactType, name, data, version, assetPath, metadata, tags)
    }

    /** The `id` property: it parses back to this artifact's asset path and version. */
    function Id(): (id: string)
      reads this
      ensures ParseId(id) == Some((assetPath, version))
      ensures ':' in id
    {
      IdSpec(assetPath, version);
      IdOf(assetPath, version)
    }

    method Read() returns (d: seq<byte>)
      ensures d == data
    {
      return data;
    }

    method Save(d: seq<byte>) returns (r: seq<byte>)
      modifies this
      ensures r == d
      ensures Value() == old(Value()).(data := d)
    {
      data := d;
      return data;
    }
  }
}
