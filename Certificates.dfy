/** The certificate records and `parse_certificate_from_pem`
    (dcap-attestation/src/dcap_attestation/cert.py:43-202).

    The X.509 and DER decoders the parser calls (`cryptography` and
    `pyasn1`) are not modelled: they are the function-valued fields of
    `Codecs`, and what they hand back is the `X509` record below. Everything
    the parser itself does with their output is modelled: the name lookups,
    the defaults for absent extensions, the SGX OID dispatch loop, the hex
    renderings and the error wrapping. */
module Certificates {
  import opened Wrappers
  import opened Encoding
  import opened Oids

  // ---------------------------------------------------------------------
  // Records (cert.py:43-91)
  // ---------------------------------------------------------------------

  /** The SGX platform extension: every field is the lower-case hex of an
      item's payload, or `None` when no item carried that field. */
  datatype SgxExtension = SgxExtension(
    ppid: Option<string>,
    tcb: Option<string>,
    pceid: Option<string>,
    fmspc: Option<string>,
    sgxType: Option<string>,
    platformInstanceId: Option<string>,
    configuration: Option<string>,
    pcesvn: Option<string>,
    cpusvn: Option<string>)

  /** `SgxExtension()`: every field defaults to `None`. */
  const EmptySgxExtension: SgxExtension :=
    SgxExtension(None, None, None, None, None, None, None, None, None)

  datatype CertificateSubject = CertificateSubject(
    commonName: Option<string>,
    organization: Option<string>,
    country: Option<string>,
    state: Option<string>,
    locality: Option<string>)

  datatype CertificateIssuer = CertificateIssuer(
    commonName: Option<string>,
    organization: Option<string>,
    country: Option<string>)

  /** Validity instants are integer microseconds on the UTC time line, the
      resolution of Python's `datetime`; X.509 validity times are whole
      seconds, so every instant the loader gives is a multiple of 10^6. */
  datatype Certificate = Certificate(
    subject: CertificateSubject,
    issuer: CertificateIssuer,
    serialNumber: string,
    notBefore: int,
    notAfter: int,
    version: string,
    fingerprint: string,
    signatureAlgorithm: string,
    sans: Option<seq<string>>,
    isCa: bool,
    positionInChain: Option<nat>,
    quote: Option<string>,
    sgxExtensions: Option<SgxExtension>,
    raw: Option<string>)

  // ---------------------------------------------------------------------
  // What the decoders hand back
  // ---------------------------------------------------------------------

  /** One attribute of a distinguished name. */
  datatype NameAttribute = NameAttribute(oid: Oid, value: string)

  /** A distinguished name, as the ordered list of its attributes. */
  type Name = seq<NameAttribute>

  /** An extension the X.509 library leaves undecoded: its OID and the DER
      bytes of its value. */
  datatype Extension = Extension(oid: Oid, der: seq<byte>)

  /** A loaded certificate, as the parser reads it through the X.509
      library: the subject alternative names already rendered with `str`,
      `None` for an absent extension. */
  datatype X509 = X509(
    subject: Name,
    issuer: Name,
    serialNumber: int,
    notBefore: int,
    notAfter: int,
    version: string,
    fingerprint: seq<byte>,
    signatureAlgorithm: string,
    subjectAltNames: Option<seq<string>>,
    basicConstraintsCa: Option<bool>,
    extensions: seq<Extension>)

  /** One `(oid, value)` entry of the decoded SGX extension; `value` is the
      complete DER encoding (tag, length and contents) of the ANY. */
  datatype SgxItem = SgxItem(oid: Oid, value: seq<byte>)

  /** The decoders: loading a PEM text, and decoding the DER of the RA-TLS
      quote extension and of the SGX extension. A decoder that raises is
      `Err` (carrying `str(e)`) or `None`. `loadPem` stands for every step
      of `parse_certificate_from_pem` that can raise before the record is
      built: the ASCII encoding of the text, the X.509 loader, and the
      library's extension and fingerprint accessors, which raise on a
      duplicated or malformed extension or a signature algorithm without a
      hash. */
  datatype Codecs = Codecs(
    loadPem: string -> Result<X509, string>,
    decodeQuote: seq<byte> -> Option<seq<byte>>,
    decodeSgxSequence: seq<byte> -> Option<seq<SgxItem>>)

  // ---------------------------------------------------------------------
  // get_name_value (cert.py:94-99)
  // ---------------------------------------------------------------------

  /** Index of the first attribute of `name` with type `oid`, or `|name|`. */
  function FirstAttribute(name: Name, oid: Oid): (k: nat)
    ensures k <= |name|
    ensures forall j :: 0 <= j < k ==> name[j].oid != oid
    ensures k < |name| ==> name[k].oid == oid
  {
    if name == [] then 0
    else if name[0].oid == oid then 0
    else 1 + FirstAttribute(name[1..], oid)
  }

  /** `get_name_value`: the value of the first attribute with type `oid`;
      `None` (the swallowed `IndexError`) when there is none. */
  function GetNameValue(name: Name, oid: Oid): Option<string>
  {
    var k := FirstAttribute(name, oid);
    if k < |name| then Some(name[k].value) else None
  }

  /** An attribute of type `oid` with none before it is the first one. */
  lemma {:induction false} FirstAttributeUnique(name: Name, oid: Oid, k: nat)
    requires k < |name| && name[k].oid == oid
    requires forall j :: 0 <= j < k ==> name[j].oid != oid
    ensures FirstAttribute(name, oid) == k
  {
    if k > 0 {
      assert name[0].oid != oid;
      assert forall j :: 0 <= j < k - 1 ==> name[1..][j] == name[j + 1];
      FirstAttributeUnique(name[1..], oid, k - 1);
    }
  }

  /** `get_name_value` yields `v` exactly when some attribute of type `oid`
      has value `v` and no earlier attribute has that type; it yields `None`
      exactly when no attribute has that type. */
  lemma GetNameValueIsFirst(name: Name, oid: Oid, v: string)
    ensures GetNameValue(name, oid) == Some(v) <==>
      exists k :: 0 <= k < |name| && name[k] == NameAttribute(oid, v) &&
        forall j :: 0 <= j < k ==> name[j].oid != oid
    ensures GetNameValue(name, oid).None? <==> forall j :: 0 <= j < |name| ==> name[j].oid != oid
  {
    var k := FirstAttribute(name, oid);
    if k < |name| {
      assert name[k] == NameAttribute(oid, name[k].value);
    }
    if exists k' :: 0 <= k' < |name| && name[k'] == NameAttribute(oid, v) &&
         forall j :: 0 <= j < k' ==> name[j].oid != oid {
      var k' :| 0 <= k' < |name| && name[k'] == NameAttribute(oid, v) &&
         forall j :: 0 <= j < k' ==> name[j].oid != oid;
      FirstAttributeUnique(name, oid, k');
    }
  }

  // ---------------------------------------------------------------------
  // Extensions and the SGX OID dispatch (cert.py:142-184)
  // ---------------------------------------------------------------------

  /** `get_extension_for_oid` on an undecoded extension: the DER value of
      the first extension with that OID; `None` is `ExtensionNotFound`. */
  function FindExtension(exts: seq<Extension>, oid: Oid): (r: Option<seq<byte>>)
    ensures r.None? <==> forall i :: 0 <= i < |exts| ==> exts[i].oid != oid
    ensures r.Some? ==> exists i :: 0 <= i < |exts| && exts[i] == Extension(oid, r.value)
  {
    if exts == [] then None
    else if exts[0].oid == oid then Some(exts[0].der)
    else FindExtension(exts[1..], oid)
  }

  /** `bytes(value)[2:]`: the value with its first two bytes (a tag and a
      short-form length) cut off; Python's slice of a shorter value is empty. */
  function Payload(value: seq<byte>): seq<byte>
  {
    if |value| >= 2 then value[2..] else []
  }

  /** `bytes(item['value'])[2:].hex()`. */
  function ItemHex(item: SgxItem): (h: string)
    ensures |h| == if |item.value| >= 2 then 2 * (|item.value| - 2) else 0
    ensures AllDigits(h, 16)
    ensures |item.value| >= 2 ==> HexToBytes(h) == Some(item.value[2..])
  {
    HexRoundTrip(Payload(item.value));
    BytesToHex(Payload(item.value))
  }

  function Field(ext: SgxExtension, f: SgxField): Option<string>
  {
    match f
    case Ppid => ext.ppid
    case Tcb => ext.tcb
    case Pceid => ext.pceid
    case Fmspc => ext.fmspc
    case SgxType => ext.sgxType
    case PlatformInstanceId => ext.platformInstanceId
    case Configuration => ext.configuration
    case Pcesvn => ext.pcesvn
    case Cpusvn => ext.cpusvn
  }

  /** What the dispatch loop leaves in field `f` after the items `items`:
      the hex payload of the last item whose OID is `f`'s, or `None`. */
  function LastValue(items: seq<SgxItem>, f: SgxField): Option<string>
  {
    if items == [] then None
    else if items[|items| - 1].oid == OidOf(f) then Some(ItemHex(items[|items| - 1]))
    else LastValue(items[..|items| - 1], f)
  }

  /** The record the dispatch loop builds from `items`. */
  function Projection(items: seq<SgxItem>): SgxExtension
  {
    SgxExtension(
      LastValue(items, Ppid), LastValue(items, Tcb), LastValue(items, Pceid),
      LastValue(items, Fmspc), LastValue(items, SgxType),
      LastValue(items, PlatformInstanceId), LastValue(items, Configuration),
      LastValue(items, Pcesvn), LastValue(items, Cpusvn))
  }

  /** One more item: it sets the field whose OID it carries and no other. */
  lemma LastValueStep(items: seq<SgxItem>, i: nat, f: SgxField)
    requires i < |items|
    ensures LastValue(items[..i + 1], f) ==
      if items[i].oid == OidOf(f) then Some(ItemHex(items[i])) else LastValue(items[..i], f)
  {
    assert items[..i + 1][..i] == items[..i];
  }

  /** The body of the dispatch loop (cert.py:157-182): the `if`/`elif`
      chain on the item's OID, in the source's order, overwrites the field
      with that OID with the hex of the item's payload; an item with any
      other OID changes nothing. */
  method DispatchItem(ext: SgxExtension, item: SgxItem) returns (r: SgxExtension)
    ensures forall f :: Field(r, f) == if item.oid == OidOf(f) then Some(ItemHex(item)) else Field(ext, f)
  {
    r := ext;
    if item.oid == FmspcOid {
      r := r.(fmspc := Some(ItemHex(item)));
    } else if item.oid == PpidOid {
      r := r.(ppid := Some(ItemHex(item)));
    } else if item.oid == TcbOid {
      r := r.(tcb := Some(ItemHex(item)));
    } else if item.oid == PceidOid {
      r := r.(pceid := Some(ItemHex(item)));
    } else if item.oid == SgxTypeOid {
      r := r.(sgxType := Some(ItemHex(item)));
    } else if item.oid == PlatformInstanceIdOid {
      r := r.(platformInstanceId := Some(ItemHex(item)));
    } else if item.oid == ConfigurationOid {
      r := r.(configuration := Some(ItemHex(item)));
    } else if item.oid == PcesvnOid {
      r := r.(pcesvn := Some(ItemHex(item)));
    } else if item.oid == CpusvnOid {
      r := r.(cpusvn := Some(ItemHex(item)));
    }
  }

  /** The dispatch loop of cert.py:155-182 over every decoded item. */
  method ProjectSgxExtension(items: seq<SgxItem>) returns (ext: SgxExtension)
    ensures forall f :: Field(ext, f) == LastValue(items, f)
    ensures ext == Projection(items)
  {
    ext := EmptySgxExtension;
    var i := 0;
    while i < |items|
      invariant i <= |items|
      invariant forall f :: Field(ext, f) == LastValue(items[..i], f)
    {
      ext := DispatchItem(ext, items[i]);
      forall f ensures Field(ext, f) == LastValue(items[..i + 1], f) {
        LastValueStep(items, i, f);
      }
      i := i + 1;
    }
    assert items[..i] == items;
  }

  /** A field is left `None` exactly when no item carries its OID. */
  lemma {:induction false} LastValueNoneIff(items: seq<SgxItem>, f: SgxField)
    ensures LastValue(items, f).None? <==> forall k :: 0 <= k < |items| ==> items[k].oid != OidOf(f)
  {
    if items != [] {
      var n := |items| - 1;
      LastValueNoneIff(items[..n], f);
      assert forall k :: 0 <= k < n ==> items[..n][k] == items[k];
    }
  }

  /** A field holds the hex payload of the LAST item carrying its OID: a
      repeated OID overwrites, and items after it with other OIDs (known or
      unknown) leave it alone. */
  lemma {:induction false} LastValueIsLastOccurrence(items: seq<SgxItem>, f: SgxField, k: nat)
    requires k < |items| && items[k].oid == OidOf(f)
    requires forall j :: k < j < |items| ==> items[j].oid != OidOf(f)
    ensures LastValue(items, f) == Some(ItemHex(items[k]))
  {
    var n := |items| - 1;
    if k < n {
      assert forall j :: k < j < n ==> items[..n][j] == items[j];
      LastValueIsLastOccurrence(items[..n], f, k);
    }
  }

  /** Items whose OID is none of the nine field OIDs (the SGX extension's
      own OID among them) change nothing. */
  lemma UnknownItemIgnored(items: seq<SgxItem>, x: SgxItem)
    requires forall f :: x.oid != OidOf(f)
    ensures Projection(items + [x]) == Projection(items)
  {
    assert (items + [x])[..|items|] == items;
  }

  // ---------------------------------------------------------------------
  // parse_certificate_from_pem (cert.py:102-202)
  // ---------------------------------------------------------------------

  const ParseErrorPrefix: string := "Failed to parse certificate: "

  /** The RA-TLS quote: the hex of the decoded quote extension; `None` when
      the extension is absent or does not decode (the bare `except`). */
  function QuoteOf(x: X509, codecs: Codecs): Option<string>
  {
    match FindExtension(x.extensions, RatlsQuoteOid)
    case None => None
    case Some(der) =>
      match codecs.decodeQuote(der)
      case None => None
      case Some(q) => Some(BytesToHex(q))
  }

  /** The SGX extension record, or `None` when the extension is absent or
      does not decode as a sequence of `(oid, value)` pairs. */
  function SgxExtensionsOf(x: X509, codecs: Codecs): Option<SgxExtension>
  {
    match FindExtension(x.extensions, SgxExtensionOid)
    case None => None
    case Some(der) =>
      match codecs.decodeSgxSequence(der)
      case None => None
      case Some(items) => Some(Projection(items))
  }

  /** The certificate the parser builds from a loaded `x`. */
  function CertificateOf(certPem: string, x: X509, codecs: Codecs): Certificate
  {
    Certificate(
      CertificateSubject(
        GetNameValue(x.subject, CommonNameOid),
        GetNameValue(x.subject, OrganizationNameOid),
        GetNameValue(x.subject, CountryNameOid),
        GetNameValue(x.subject, StateOrProvinceNameOid),
        GetNameValue(x.subject, LocalityNameOid)),
      CertificateIssuer(
        GetNameValue(x.issuer, CommonNameOid),
        GetNameValue(x.issuer, OrganizationNameOid),
        GetNameValue(x.issuer, CountryNameOid)),
      FormatHex(x.serialNumber),
      x.notBefore,
      x.notAfter,
      x.version,
      BytesToHex(x.fingerprint),
      x.signatureAlgorithm,
      x.subjectAltNames,
      x.basicConstraintsCa == Some(true),
      None,
      QuoteOf(x, codecs),
      SgxExtensionsOf(x, codecs),
      Some(certPem))
  }

  /** What `parse_certificate_from_pem` returns or raises. */
  function ParsedCertificate(certPem: string, codecs: Codecs): Result<Certificate, string>
  {
    match codecs.loadPem(certPem)
    case Err(e) => Err(ParseErrorPrefix + e)
    case Ok(x) => Ok(CertificateOf(certPem, x, codecs))
  }

  method ParseCertificateFromPem(certPem: string, codecs: Codecs) returns (r: Result<Certificate, string>)
    ensures r == ParsedCertificate(certPem, codecs)
    ensures r.Err? <==> codecs.loadPem(certPem).Err?
    ensures r.Err? ==> r.error == ParseErrorPrefix + codecs.loadPem(certPem).error
    ensures r.Ok? ==> r.value == CertificateOf(certPem, codecs.loadPem(certPem).value, codecs)
  {
    var loaded := codecs.loadPem(certPem);
    if loaded.Err? {
      return Err(ParseErrorPrefix + loaded.error);
    }
    var cert := loaded.value;
    var subject := CertificateSubject(
      GetNameValue(cert.subject, CommonNameOid),
      GetNameValue(cert.subject, OrganizationNameOid),
      GetNameValue(cert.subject, CountryNameOid),
      GetNameValue(cert.subject, StateOrProvinceNameOid),
      GetNameValue(cert.subject, LocalityNameOid));
    var issuer := CertificateIssuer(
      GetNameValue(cert.issuer, CommonNameOid),
      GetNameValue(cert.issuer, OrganizationNameOid),
      GetNameValue(cert.issuer, CountryNameOid));
    var sansList := cert.subjectAltNames;
    var isCa := cert.basicConstraintsCa == Some(true);

    var quote: Option<string> := None;
    var quoteExt := FindExtension(cert.extensions, RatlsQuoteOid);
    if quoteExt.Some? {
      var decoded := codecs.decodeQuote(quoteExt.value);
      if decoded.Some? {
        quote := Some(BytesToHex(decoded.value));
      }
    }

    var sgxExtensions: Option<SgxExtension> := None;
    var rs := FindExtension(cert.extensions, SgxExtensionOid);
    if rs.Some? {
      var decoded := codecs.decodeSgxSequence(rs.value);
      if decoded.Some? {
        var ext := ProjectSgxExtension(decoded.value);
        sgxExtensions := Some(ext);
      }
    }

    r := Ok(Certificate(
      subject, issuer, FormatHex(cert.serialNumber), cert.notBefore, cert.notAfter,
      cert.version, BytesToHex(cert.fingerprint), cert.signatureAlgorithm,
      sansList, isCa, None, quote, sgxExtensions, Some(certPem)));
  }

  /** The parsed serial number and fingerprint are canonical lower-case hex
      renderings that read back as the certificate's own values, and the
      raw PEM text is kept. */
  lemma CertificateOfRoundTrips(certPem: string, x: X509, codecs: Codecs)
    ensures var c := CertificateOf(certPem, x, codecs);
      ParseHex(c.serialNumber) == Some(x.serialNumber) &&
      (x.serialNumber >= 0 ==> AllDigits(c.serialNumber, 16)) &&
      HexToBytes(c.fingerprint) == Some(x.fingerprint) &&
      |c.fingerprint| == 2 * |x.fingerprint| &&
      c.raw == Some(certPem) && c.positionInChain.None?
  {
    FormatHexIsCanonical(x.serialNumber);
    HexRoundTrip(x.fingerprint);
  }

  /** The optional parts default as the parser promises: no SAN extension
      gives `sans = None`, no basic-constraints extension gives `is_ca =
      False`, and the quote and SGX record are present exactly when their
      extension is present and decodes. */
  lemma CertificateOfDefaults(certPem: string, x: X509, codecs: Codecs)
    ensures var c := CertificateOf(certPem, x, codecs);
      (c.sans.None? <==> x.subjectAltNames.None?) &&
      (x.basicConstraintsCa.None? ==> !c.isCa) &&
      (c.quote.Some? <==>
        exists i :: 0 <= i < |x.extensions| && x.extensions[i].oid == RatlsQuoteOid &&
          codecs.decodeQuote(FindExtension(x.extensions, RatlsQuoteOid).value).Some?) &&
      (c.sgxExtensions.Some? <==>
        exists i :: 0 <= i < |x.extensions| && x.extensions[i].oid == SgxExtensionOid &&
          codecs.decodeSgxSequence(FindExtension(x.extensions, SgxExtensionOid).value).Some?) &&
      (x.extensions == [] ==> c.quote.None? && c.sgxExtensions.None?)
  {
  }
}
