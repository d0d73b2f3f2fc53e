/** The object identifiers the certificate parser recognises
    (dcap-attestation/src/dcap_attestation/cert.py, `SgxExtensionOids` and the
    RA-TLS constants). An OID is compared arc by arc, as pyasn1 and
    cryptography compare them. */
module Oids {

  datatype Oid = Oid(arcs: seq<nat>)

  /** The X.509 extension that carries the SGX platform data. */
  const SgxExtensionOid: Oid := Oid([1, 2, 840, 113741, 1, 13, 1])

  const PpidOid: Oid := Oid([1, 2, 840, 113741, 1, 13, 1, 1])
  const TcbOid: Oid := Oid([1, 2, 840, 113741, 1, 13, 1, 2])
  const PceidOid: Oid := Oid([1, 2, 840, 113741, 1, 13, 1, 3])
  const FmspcOid: Oid := Oid([1, 2, 840, 113741, 1, 13, 1, 4])
  const SgxTypeOid: Oid := Oid([1, 2, 840, 113741, 1, 13, 1, 5])
  const PlatformInstanceIdOid: Oid := Oid([1, 2, 840, 113741, 1, 13, 1, 6])
  const ConfigurationOid: Oid := Oid([1, 2, 840, 113741, 1, 13, 1, 7])
  const PcesvnOid: Oid := Oid([1, 2, 840, 113741, 1, 13, 1, 2, 17])
  const CpusvnOid: Oid := Oid([1, 2, 840, 113741, 1, 13, 1, 2, 18])

  /** RA-TLS extensions; only the quote extension is read by the parser. */
  const RatlsQuoteOid: Oid := Oid([1, 3, 6, 1, 4, 1, 62397, 1, 1])
  const RatlsEventLogOid: Oid := Oid([1, 3, 6, 1, 4, 1, 62397, 1, 2])
  const RatlsAppInfoOid: Oid := Oid([1, 3, 6, 1, 4, 1, 62397, 1, 3])

  /** Distinguished-name attribute types read by `get_name_value`'s callers. */
  const CommonNameOid: Oid := Oid([2, 5, 4, 3])
  const CountryNameOid: Oid := Oid([2, 5, 4, 6])
  const LocalityNameOid: Oid := Oid([2, 5, 4, 7])
  const StateOrProvinceNameOid: Oid := Oid([2, 5, 4, 8])
  const OrganizationNameOid: Oid := Oid([2, 5, 4, 10])

  /** The nine fields of the SGX platform extension record. */
  datatype SgxField =
    | Ppid | Tcb | Pceid | Fmspc | SgxType | PlatformInstanceId | Configuration | Pcesvn | Cpusvn

  function OidOf(f: SgxField): Oid
  {
    match f
    case Ppid => PpidOid
    case Tcb => TcbOid
    case Pceid => PceidOid
    case Fmspc => FmspcOid
    case SgxType => SgxTypeOid
    case PlatformInstanceId => PlatformInstanceIdOid
    case Configuration => ConfigurationOid
    case Pcesvn => PcesvnOid
    case Cpusvn => CpusvnOid
  }

  /** Each field has its own OID, so exact-equality dispatch selects at most
      one field, and none of them is the enclosing extension's OID. */
  lemma SgxFieldOidsDistinct(f: SgxField, g: SgxField)
    ensures OidOf(f) == OidOf(g) <==> f == g
    ensures OidOf(f) != SgxExtensionOid
  {
  }
}
