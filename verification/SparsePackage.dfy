/** The package object: header, canonical manifest, payload (src/stems/sparse-format.ts). */
module SparsePackage {
  import opened Common
  import opened CanonicalJson
  import opened KeyOrder
  import opened JsonReader
  import opened StemShape
  import opened SparseManifest
  import opened ManifestJson
  import opened SparseFormat

  /** JSON.parse: what a text denotes, or nothing; values no manifest can hold may be nothing too. */
  type JsonParse = string -> Option<Json>

  /** JSON.parse reads every well-formed manifest's canonical text back; the order of an object's keys is the text's. */
  ghost predicate Inverts(parse: JsonParse) {
    forall m: Manifest | WellFormed(m) :: parse(Print(ToJson(m))) == Some(Canon(ToJson(m)))
  }

  /** There is such a parser. */
  lemma ReaderInverts()
    ensures Inverts(Read)
  {
    forall m: Manifest
      ensures Read(Print(ToJson(m))) == Some(Canon(ToJson(m)))
    {
      RoundTrip(ToJson(m));
    }
  }

  // ---------------------------------------------------------------- text and bytes

  predicate Ascii(s: string) {
    forall i | 0 <= i < |s| :: s[i] as int < 128
  }

  /** TextEncoder on ASCII. */
  function Encode(s: string): (b: seq<Byte>)
    requires Ascii(s)
    ensures |b| == |s|
  {
    seq(|s|, i requires 0 <= i < |s| => s[i] as int)
  }

  /** TextDecoder on ASCII; bytes outside it never spell out a manifest. */
  function Decode(b: seq<Byte>): Option<string> {
    if exists i :: 0 <= i < |b| && b[i] >= 128 then None
    else Some(seq(|b|, i requires 0 <= i < |b| => if b[i] < 128 then b[i] as char else ' '))
  }

  lemma DecodeEncode(s: string)
    requires Ascii(s)
    ensures Decode(Encode(s)) == Some(s)
  {
    var b := Encode(s);
    assert forall i | 0 <= i < |b| :: b[i] < 128 && b[i] as char == s[i];
    var t := Decode(b).value;
    assert |t| == |s| && forall i | 0 <= i < |s| :: t[i] == s[i];
    assert t == s;
  }

  lemma DigitsAscii(n: nat)
    ensures Ascii(Digits(n))
  {
    DigitsShape(n);
  }

  lemma {:induction false} JoinAscii(texts: seq<string>)
    requires forall i | 0 <= i < |texts| :: Ascii(texts[i])
    ensures Ascii(Join(texts))
  {
    if |texts| > 1 {
      JoinAscii(texts[1..]);
    }
  }

  lemma {:induction false} FieldsAscii(fields: seq<Field>)
    requires forall i | 0 <= i < |fields| :: Ascii(Print(fields[i].value))
    ensures Ascii(Join(Texts(PrintFields(fields))))
  {
    forall i | 0 <= i < |fields|
      ensures Ascii(Texts(PrintFields(fields))[i])
    {
      FieldTextAt(fields, i);
    }
    JoinAscii(Texts(PrintFields(fields)));
  }

  lemma {:induction false} FieldTextAt(fields: seq<Field>, i: nat)
    requires i < |fields|
    ensures PrintFields(fields)[i].text == FieldText(fields[i])
  {
    if i > 0 {
      FieldTextAt(fields[1..], i - 1);
    }
  }

  lemma {:induction false} ItemsAscii(items: seq<Json>)
    requires forall i | 0 <= i < |items| :: Ascii(Print(items[i]))
    ensures Ascii(Join(PrintItems(items)))
  {
    forall i | 0 <= i < |items|
      ensures PrintItems(items)[i] == Print(items[i])
    {
      ItemTextAt(items, i);
    }
    JoinAscii(PrintItems(items));
  }

  lemma {:induction false} ItemTextAt(items: seq<Json>, i: nat)
    requires i < |items|
    ensures PrintItems(items)[i] == Print(items[i])
  {
    if i > 0 {
      ItemTextAt(items[1..], i - 1);
    }
  }

  lemma {:induction false} ArrayAscii(items: seq<Json>)
    requires forall i | 0 <= i < |items| :: Ascii(Print(items[i]))
    ensures Ascii(Print(Array(items)))
  {
    ItemsAscii(items);
  }

  lemma {:induction false} SortedAscii(fields: seq<Field>)
    requires forall i | 0 <= i < |fields| :: Ascii(Print(fields[i].value))
    ensures forall i | 0 <= i < |SortFields(fields)| :: Ascii(Print(SortFields(fields)[i].value))
  {
    var sorted := SortFields(fields);
    SortKeeps(fields);
    forall i | 0 <= i < |sorted|
      ensures Ascii(Print(sorted[i].value))
    {
      assert sorted[i] in multiset(sorted);
      assert sorted[i] in fields;
    }
  }

  lemma BracesAscii(joined: string)
    requires Ascii(joined)
    ensures Ascii("{" + (joined + ("}" + "")))
  {
  }

  lemma {:induction false} ObjectAscii(fields: seq<Field>)
    requires forall i | 0 <= i < |fields| :: Ascii(Print(fields[i].value))
    ensures Ascii(Print(Object(fields)))
  {
    SortedAscii(fields);
    FieldsAscii(SortFields(fields));
    BracesAscii(Join(Texts(PrintFields(SortFields(fields)))));
    ObjectText(fields, "");
    assert Print(Object(fields)) + "" == Print(Object(fields));
  }

  /** canonicalJson prints ASCII. */
  lemma {:induction false} PrintAscii(v: Json)
    ensures Ascii(Print(v))
    decreases v
  {
    match v
    case Null =>
    case Number(n) => DigitsAscii(if n < 0 then -n else n);
    case Text(t) =>
    case Array(items) =>
      forall i | 0 <= i < |items|
        ensures Ascii(Print(items[i]))
      {
        PrintAscii(items[i]);
      }
      ArrayAscii(items);
    case Object(fields) =>
      forall i | 0 <= i < |fields|
        ensures Ascii(Print(fields[i].value))
      {
        PrintAscii(fields[i].value);
      }
      ObjectAscii(fields);
  }

  /** The manifest bytes of a package. */
  function ManifestBytes(m: Manifest): (b: seq<Byte>)
    ensures |b| == |Print(ToJson(m))| > 0
  {
    PrintAscii(ToJson(m));
    Encode(Print(ToJson(m)))
  }

  // ---------------------------------------------------------------- header

  /** "MISOSTM1" */
  const MAGIC: seq<Byte> := [77, 73, 83, 79, 83, 84, 77, 49]

  /** A Uint32 in little-endian bytes. */
  function Bytes4(n: int): (b: seq<Byte>)
    requires 0 <= n < 0x1_0000_0000
    ensures |b| == 4
  {
    [n % 256, n / 256 % 256, n / 65536 % 256, n / 16777216]
  }

  function LittleEndian(b: seq<Byte>): int
    requires |b| == 4
  {
    b[0] as int + 256 * (b[1] as int) + 65536 * (b[2] as int) + 16777216 * (b[3] as int)
  }

  lemma LittleEndianOf(n: int)
    requires 0 <= n < 0x1_0000_0000
    ensures LittleEndian(Bytes4(n)) == n
  {
    var q := n / 256;
    var r := q / 256;
    assert n / 65536 == r && n / 16777216 == r / 256;
  }

  lemma {:induction false} LittleEndianBytes(b: seq<Byte>)
    requires |b| == 4
    ensures 0 <= LittleEndian(b) < 0x1_0000_0000 && Bytes4(LittleEndian(b)) == b
  {
    var n := LittleEndian(b);
    Quotient(n, b[1] as int + 256 * (b[2] as int) + 65536 * (b[3] as int), b[0], 256);
    Quotient(n / 256, b[2] as int + 256 * (b[3] as int), b[1], 256);
    Quotient(n, b[2] as int + 256 * (b[3] as int), b[0] as int + 256 * (b[1] as int), 65536);
    Quotient(n / 65536, b[3], b[2], 256);
    Quotient(n, b[3], b[0] as int + 256 * (b[1] as int) + 65536 * (b[2] as int), 16777216);
  }

  function Header(manifestBytes: int): (h: seq<Byte>)
    requires 0 <= manifestBytes < 0x1_0000_0000
    ensures |h| == 16
  {
    MAGIC + Bytes4(manifestBytes) + Bytes4(0)
  }

  /** The manifest length a header admits. */
  function AdmittedHeader(h: seq<Byte>): Option<int> {
    if |h| != HEADER_BYTES || h[..8] != MAGIC then None
    else
      var n := LittleEndian(h[8..12]);
      if n < 1 || n > MAX_MANIFEST_BYTES || LittleEndian(h[12..]) != 0 then None else Some(n)
  }

  lemma HeaderParts(n: int)
    requires 0 <= n < 0x1_0000_0000
    ensures Header(n)[..8] == MAGIC && Header(n)[8..12] == Bytes4(n) && Header(n)[12..] == Bytes4(0)
  {
  }

  /** A header is admitted exactly when it is the header of a length within bounds. */
  lemma HeaderExact(h: seq<Byte>, n: int)
    requires 0 <= n < 0x1_0000_0000
    ensures AdmittedHeader(h) == Some(n) <==> h == Header(n) && 1 <= n <= MAX_MANIFEST_BYTES
  {
    HeaderParts(n);
    LittleEndianOf(n);
    LittleEndianOf(0);
    if AdmittedHeader(h) == Some(n) {
      LittleEndianBytes(h[8..12]);
      LittleEndianBytes(h[12..]);
      assert h == h[..8] + h[8..12] + h[12..];
    }
  }

  /** The header is read in place, byte by byte of the magic first. */
  method AdmitHeader(h: seq<Byte>) returns (r: Option<int>)
    ensures r == AdmittedHeader(h)
  {
    if |h| != HEADER_BYTES {
      return None;
    }
    var index := 0;
    while index < 8
      invariant 0 <= index <= 8 && forall i | 0 <= i < index :: h[i] == MAGIC[i]
    {
      if h[index] != MAGIC[index] {
        return None;
      }
      index := index + 1;
    }
    assert h[..8] == MAGIC;
    var n := LittleEndian(h[8..12]);
    if n < 1 || n > MAX_MANIFEST_BYTES || LittleEndian(h[12..]) != 0 {
      return None;
    }
    return Some(n);
  }

  // ---------------------------------------------------------------- manifest and package

  /** The manifest some bytes are admitted as. */
  function AdmittedManifest(bytes: seq<Byte>, payloadBytes: Option<int>, parse: JsonParse): Option<Manifest> {
    if |bytes| < 1 || |bytes| > MAX_MANIFEST_BYTES then None
    else if payloadBytes.Some? && (!SafeInt(payloadBytes.value, 0) || HEADER_BYTES + |bytes| + payloadBytes.value > MAX_OBJECT_BYTES) then None
    else
      match Decode(bytes)
      case None => None
      case Some(text) =>
        match parse(text)
        case None => None
        case Some(v) =>
          match Validated(v, payloadBytes)
          case None => None
          case Some(m) => if ManifestBytes(m) == bytes then Some(m) else None
  }

  lemma TextOf(m: Manifest)
    ensures Decode(ManifestBytes(m)) == Some(Print(ToJson(m)))
  {
    PrintAscii(ToJson(m));
    DecodeEncode(Print(ToJson(m)));
  }

  lemma CanonValidated(m: Manifest, payloadBytes: Option<int>)
    requires WellFormed(m) && Fits(m, payloadBytes)
    ensures Validated(Canon(ToJson(m)), payloadBytes) == Some(m)
  {
    CanonDescribes(m);
    ReadManifestOf(Canon(ToJson(m)), m);
  }

  lemma {:induction false} AdmittedFrom(bytes: seq<Byte>, payloadBytes: Option<int>, parse: JsonParse, m: Manifest, text: string, v: Json)
    requires Decode(bytes) == Some(text) && parse(text) == Some(v) && Validated(v, payloadBytes) == Some(m) && ManifestBytes(m) == bytes
    requires 1 <= |bytes| <= MAX_MANIFEST_BYTES
    requires payloadBytes.Some? ==> SafeInt(payloadBytes.value, 0) && HEADER_BYTES + |bytes| + payloadBytes.value <= MAX_OBJECT_BYTES
    ensures AdmittedManifest(bytes, payloadBytes, parse) == Some(m)
  {
  }

  lemma FitsSizes(m: Manifest, payloadBytes: Option<int>)
    requires Fits(m, payloadBytes)
    ensures 1 <= |ManifestBytes(m)| <= MAX_MANIFEST_BYTES && HEADER_BYTES + |ManifestBytes(m)| + PayloadBytes(m) <= MAX_OBJECT_BYTES
  {
  }

  lemma {:induction false} AdmittedIs(bytes: seq<Byte>, payloadBytes: Option<int>, parse: JsonParse, m: Manifest)
    requires AdmittedManifest(bytes, payloadBytes, parse) == Some(m)
    ensures bytes == ManifestBytes(m) && WellFormed(m) && Fits(m, payloadBytes)
  {
  }

  /** Only the canonical encoding of a well-formed manifest is admitted, and it always is. */
  lemma ManifestExact(bytes: seq<Byte>, payloadBytes: Option<int>, parse: JsonParse, m: Manifest)
    requires Inverts(parse)
    ensures AdmittedManifest(bytes, payloadBytes, parse) == Some(m)
      <==> bytes == ManifestBytes(m) && WellFormed(m) && Fits(m, payloadBytes)
  {
    if AdmittedManifest(bytes, payloadBytes, parse) == Some(m) {
      AdmittedIs(bytes, payloadBytes, parse, m);
    } else if bytes == ManifestBytes(m) && WellFormed(m) && Fits(m, payloadBytes) {
      TextOf(m);
      CanonValidated(m, payloadBytes);
      FitsSizes(m, payloadBytes);
      AdmittedFrom(bytes, payloadBytes, parse, m, Print(ToJson(m)), Canon(ToJson(m)));
    }
  }

  /** Two different encodings never admit the same manifest, and one encoding admits one manifest. */
  lemma {:induction false} ManifestUnique(a: seq<Byte>, b: seq<Byte>, m: Manifest, n: Manifest, p: Option<int>, q: Option<int>, parse: JsonParse)
    requires Inverts(parse)
    requires AdmittedManifest(a, p, parse) == Some(m) && AdmittedManifest(b, q, parse) == Some(n)
    ensures a == b <==> m == n
  {
    ManifestExact(a, p, parse, m);
    ManifestExact(b, q, parse, n);
    if a == b {
      BytesInjective(m, n);
    }
  }

  /** The encoding of a well-formed manifest determines it. */
  lemma BytesInjective(m: Manifest, n: Manifest)
    requires ManifestBytes(m) == ManifestBytes(n) && WellFormed(m) && WellFormed(n)
    ensures m == n
  {
    TextOf(m);
    TextOf(n);
    PrintInjective(ToJson(m), ToJson(n));
    CanonDescribes(m);
    CanonDescribes(n);
    ReadManifestOf(Canon(ToJson(m)), m);
    ReadManifestOf(Canon(ToJson(n)), n);
  }

  /** HEADER || MANIFEST || PAYLOAD */
  function Assembled(m: Option<Manifest>, payload: seq<Byte>): Option<seq<Byte>> {
    if m.None? || |ManifestBytes(m.value)| > MAX_MANIFEST_BYTES then None
    else Some(Header(|ManifestBytes(m.value)|) + ManifestBytes(m.value) + payload)
  }

  function Serialized(v: Json, payload: seq<Byte>): Option<seq<Byte>> {
    Assembled(Validated(v, Some(|payload|)), payload)
  }

  datatype Package = Package(manifest: Manifest, dataStart: int, payloadBytes: int)

  /** The header gives the place of the manifest, which is admitted with the length of what follows it. */
  function ParsedWith(blob: seq<Byte>, header: Option<int>, admit: (seq<Byte>, int) -> Option<Manifest>): Option<Package> {
    if header.None? || header.value < 0 || HEADER_BYTES + header.value > |blob| then None
    else
      var start := HEADER_BYTES + header.value;
      match admit(blob[HEADER_BYTES..start], |blob| - start)
      case None => None
      case Some(m) => Some(Package(m, start, |blob| - start))
  }

  function ParsedPackage(blob: seq<Byte>, parse: JsonParse): Option<Package> {
    if |blob| < HEADER_BYTES || |blob| > MAX_OBJECT_BYTES then None
    else ParsedWith(blob, AdmittedHeader(blob[..HEADER_BYTES]), (bytes, size) => AdmittedManifest(bytes, Some(size), parse))
  }

  lemma BlobParts(m: Manifest, payload: seq<Byte>)
    requires |ManifestBytes(m)| <= MAX_MANIFEST_BYTES
    ensures var n := |ManifestBytes(m)|; var blob := Header(n) + ManifestBytes(m) + payload;
            blob[..HEADER_BYTES] == Header(n) && blob[HEADER_BYTES..HEADER_BYTES + n] == ManifestBytes(m) && blob[HEADER_BYTES + n..] == payload
  {
  }

  lemma ParsedFrom(blob: seq<Byte>, n: int, m: Manifest, admit: (seq<Byte>, int) -> Option<Manifest>)
    requires HEADER_BYTES <= HEADER_BYTES + n <= |blob|
    requires admit(blob[HEADER_BYTES..HEADER_BYTES + n], |blob| - (HEADER_BYTES + n)) == Some(m)
    ensures ParsedWith(blob, Some(n), admit) == Some(Package(m, HEADER_BYTES + n, |blob| - (HEADER_BYTES + n)))
  {
  }

  lemma {:induction false} ValidatedIs(v: Json, payloadBytes: Option<int>)
    requires Validated(v, payloadBytes).Some?
    ensures WellFormed(Validated(v, payloadBytes).value) && Fits(Validated(v, payloadBytes).value, payloadBytes)
  {
  }

  lemma Unpacked(m: Manifest, payload: seq<Byte>, parse: JsonParse)
    requires Inverts(parse) && WellFormed(m) && Fits(m, Some(|payload|))
    ensures |ManifestBytes(m)| <= MAX_MANIFEST_BYTES
    ensures var blob := Header(|ManifestBytes(m)|) + ManifestBytes(m) + payload;
            ParsedPackage(blob, parse) == Some(Package(m, HEADER_BYTES + |ManifestBytes(m)|, |payload|))
  {
    var n := |ManifestBytes(m)|;
    FitsSizes(m, Some(|payload|));
    BlobParts(m, payload);
    HeaderExact(Header(n), n);
    ManifestExact(ManifestBytes(m), Some(|payload|), parse, m);
    var admit: (seq<Byte>, int) -> Option<Manifest> := (bytes, size) => AdmittedManifest(bytes, Some(size), parse);
    ParsedFrom(Header(n) + ManifestBytes(m) + payload, n, m, admit);
  }

  /** Parsing a serialized package gives the manifest, the start and the length of the payload back. */
  lemma {:induction false} PackageRoundTrip(v: Json, payload: seq<Byte>, parse: JsonParse)
    requires Inverts(parse) && Serialized(v, payload).Some?
    ensures var blob, m := Serialized(v, payload).value, Validated(v, Some(|payload|)).value;
            var start := HEADER_BYTES + |ManifestBytes(m)|;
            ParsedPackage(blob, parse) == Some(Package(m, start, |payload|)) && blob[start..] == payload
  {
    var m := Validated(v, Some(|payload|)).value;
    ValidatedIs(v, Some(|payload|));
    Unpacked(m, payload, parse);
    BlobParts(m, payload);
  }

  /** What a parsed package is made of. */
  lemma {:induction false} ParsedIs(blob: seq<Byte>, parse: JsonParse)
    requires ParsedPackage(blob, parse).Some?
    ensures var p := ParsedPackage(blob, parse).value; var n := p.dataStart - HEADER_BYTES;
            && HEADER_BYTES <= p.dataStart <= |blob| && p.payloadBytes == |blob| - p.dataStart
            && AdmittedHeader(blob[..HEADER_BYTES]) == Some(n) && 1 <= n <= MAX_MANIFEST_BYTES
            && AdmittedManifest(blob[HEADER_BYTES..p.dataStart], Some(p.payloadBytes), parse) == Some(p.manifest)
  {
  }

  lemma {:induction false} ToJsonValidated(m: Manifest, payloadBytes: Option<int>)
    requires WellFormed(m) && Fits(m, payloadBytes)
    ensures Validated(ToJson(m), payloadBytes) == Some(m)
  {
    ToJsonDescribes(m);
    ReadManifestOf(ToJson(m), m);
  }

  lemma ManifestSerialized(m: Manifest, payload: seq<Byte>)
    requires WellFormed(m) && Fits(m, Some(|payload|))
    ensures |ManifestBytes(m)| <= MAX_MANIFEST_BYTES
    ensures Serialized(ToJson(m), payload) == Some(Header(|ManifestBytes(m)|) + ManifestBytes(m) + payload)
  {
    FitsSizes(m, Some(|payload|));
    ToJsonValidated(m, Some(|payload|));
  }

  lemma ThreeParts(blob: seq<Byte>, a: int, b: int)
    requires 0 <= a <= b <= |blob|
    ensures blob == blob[..a] + blob[a..b] + blob[b..]
  {
  }

  /** An accepted header and an accepted manifest in front of its payload are the package of that manifest. */
  lemma {:induction false} Reassembled(blob: seq<Byte>, start: int, m: Manifest, parse: JsonParse)
    requires HEADER_BYTES < start <= |blob| && start - HEADER_BYTES <= MAX_MANIFEST_BYTES
    requires AdmittedHeader(blob[..HEADER_BYTES]) == Some(start - HEADER_BYTES)
    requires AdmittedManifest(blob[HEADER_BYTES..start], Some(|blob| - start), parse) == Some(m)
    ensures |blob| - start == PayloadBytes(m)
    ensures Serialized(ToJson(m), blob[start..]) == Some(blob)
  {
    HeaderExact(blob[..HEADER_BYTES], start - HEADER_BYTES);
    AdmittedIs(blob[HEADER_BYTES..start], Some(|blob| - start), parse, m);
    ManifestSerialized(m, blob[start..]);
    ThreeParts(blob, HEADER_BYTES, start);
  }

  /** Whatever parses as a package is the serialization of its manifest and payload, so a package has one encoding. */
  lemma {:induction false} PackageCanonical(blob: seq<Byte>, parse: JsonParse)
    requires ParsedPackage(blob, parse).Some?
    ensures var p := ParsedPackage(blob, parse).value;
            && p.payloadBytes == |blob| - p.dataStart == PayloadBytes(p.manifest) && 0 <= p.dataStart <= |blob|
            && Serialized(ToJson(p.manifest), blob[p.dataStart..]) == Some(blob)
  {
    var p := ParsedPackage(blob, parse).value;
    ParsedIs(blob, parse);
    Reassembled(blob, p.dataStart, p.manifest, parse);
  }
}
