# Certificate chains of the DCAP attestation service, in Dafny

This project models the certificate-chain core of the DCAP attestation
service (`dcap-attestation/src/dcap_attestation/cert.py`). It covers:

- `split_pem_chain`: the `re.findall` of the DOTALL pattern
  `-----BEGIN CERTIFICATE-----\r?\n.+?\r?\n-----END CERTIFICATE-----\r?\n?`.
  It is written out as a scanner over positions that tries the pattern the
  way Python's backtracking engine does: the body is lazy, the line breaks
  are optional `\r`, and the trailer is greedy (`Pem.dfy`).
- `parse_certificate_from_pem`. It covers:
  - the certificate records;
  - the distinguished-name lookups of `get_name_value`;
  - the defaults for absent extensions;
  - the RA-TLS quote;
  - the OID dispatch loop that fills the SGX extension record;
  - the `format(n, "x")` and `bytes.hex()` renderings;
  - the error wrapping ("Failed to parse certificate: ...").

  This is in `Certificates.dfy`, with the OID table in `Oids.dfy` and the
  numerals in `Encoding.dfy`.
- `parse_certificate_chain`: each block is parsed in order and stamped with
  its position. The first block that fails stops the chain with its error.
- `verify_certificate_chain`. For each index but the last, it checks that
  the issuer's common name equals the next certificate's subject common
  name, and that the current time lies in the certificate's validity
  window. It collects the source's exact messages in order and clears
  `valid` on any failure (`Chain.dfy`).

The loops of the source are methods with loop invariants:
- the SGX dispatch loop: `ProjectSgxExtension`, with its body `DispatchItem`;
- the chain parse: `ParseEachBlock`;
- the chain verification: `VerifyCertificateChain`, whose body at one index
  is `CheckCertificate`.

Each method is proved against a specification function:
- `LastValue` and `Projection` for the SGX dispatch;
- `ParsedCertificate` for parsing one certificate;
- `ParseBlocks` for the chain parse;
- `Violations` and `Render` for the verification.

The properties the service relies on are lemmas about those functions.

Certificates and their validity instants have these shapes:
- A validity instant is an integer count of microseconds on the UTC time
  line, the resolution of Python's `datetime`. The comparisons with `now`
  are therefore exact, sub-second clock readings included.
- The clock reading `datetime.now(timezone.utc)` is the parameter `now`.
- The X.509 library and the DER decoder are the function-valued fields of
  `Codecs`. The loaded certificate they give back is the `X509` record, with
  names as ordered attribute lists and extensions as `(oid, der)` pairs.

## Model

| member | source | states |
|---|---|---|
| Oids.SgxFieldOidsDistinct | dcap-attestation/src/dcap_attestation/cert.py:13-25 | the nine SGX field OIDs are pairwise distinct and none is the SGX extension's own OID, so the `elif` chain on an item's OID selects at most one field |
| Encoding.NumeralDigits | dcap-attestation/src/dcap_attestation/cert.py:189 | a rendered numeral is a non-empty string of lower-case digits, "0" exactly for zero and otherwise without a leading zero |
| Encoding.NumeralRoundTrip | dcap-attestation/src/dcap_attestation/cert.py:189 | reading a rendered numeral back gives the number |
| Encoding.NumeralInjective | dcap-attestation/src/dcap_attestation/cert.py:234 | different numbers render differently, so a message's index is recoverable |
| Encoding.ParseHexOfNumeral | dcap-attestation/src/dcap_attestation/cert.py:189 | a non-negative serial number's hex reads back as itself |
| Encoding.ParseHexOfNegative | dcap-attestation/src/dcap_attestation/cert.py:189 | a negative serial number's `-`-prefixed hex reads back as itself |
| Encoding.FormatHexIsCanonical | dcap-attestation/src/dcap_attestation/cert.py:189 | `format(n, "x")` is bare lower-case hex without `0x` or leading zeros, `-` only for a negative number, and it reads back as `n` |
| Encoding.HexRoundTrip | dcap-attestation/src/dcap_attestation/cert.py:146 | `bytes.hex()` is decoded back to the same bytes |
| Pem.LineBreakAt | dcap-attestation/src/dcap_attestation/cert.py:207 | `\r?\n` consumes a `\r\n` when one is there, otherwise a `\n` when one is there, and nothing otherwise |
| Pem.EndTailAt | dcap-attestation/src/dcap_attestation/cert.py:207 | `\r?\n-----END CERTIFICATE-----` is recognised whenever a `\n` or `\r\n` followed by the END line is there, and a match places the END line right after that `\n` |
| Pem.FindEnd | dcap-attestation/src/dcap_attestation/cert.py:207 | the lazy body `.+?` stops at a position where the END tail matches |
| Pem.FindEndIsLeast | dcap-attestation/src/dcap_attestation/cert.py:207 | the lazy body stops at the first such position, never later |
| Pem.TrailerAt | dcap-attestation/src/dcap_attestation/cert.py:207 | the greedy trailing `\r?\n?` takes a `\r\n` whenever one is there, otherwise a lone `\r` or `\n`, and takes nothing exactly when neither character follows |
| Pem.MatchAt | dcap-attestation/src/dcap_attestation/cert.py:207 | a match at a position is non-empty and inside the input |
| Pem.MatchIsBlock | dcap-attestation/src/dcap_attestation/cert.py:207 | a match is a BEGIN line with its line break, a non-empty body, a `\n`, and an END line with at most one trailing line break |
| Pem.FindAllFromBlocks | dcap-attestation/src/dcap_attestation/cert.py:208 | every string `findall` returns has the block shape |
| Pem.GapsFrom | dcap-attestation/src/dcap_attestation/cert.py:208 | there is one gap of skipped text before each match and one after the last |
| Pem.FindAllFromReassembles | dcap-attestation/src/dcap_attestation/cert.py:208 | the matches alternated with the skipped text give back the input: matches are in order and do not overlap |
| Pem.FindAllFromEmptyIff | dcap-attestation/src/dcap_attestation/cert.py:208 | nothing is returned exactly when the pattern matches at no position |
| Pem.MatchArmouredAt | dcap-attestation/src/dcap_attestation/cert.py:207 | a certificate in standard armour with `\n` or `\r\n` line breaks is matched whole, with its final line break when it has one and none follows otherwise |
| Pem.FindAllFromArmoured | dcap-attestation/src/dcap_attestation/cert.py:208 | scanning armoured certificates laid end to end finds exactly those certificates |
| Pem.FindAllOfArmoured | dcap-attestation/src/dcap_attestation/cert.py:208 | `findall` over a concatenation of armoured certificates returns them all, in order |
| Pem.SplitPemChainBlocks | dcap-attestation/src/dcap_attestation/cert.py:205-208 | every PEM text `split_pem_chain` returns has the block shape |
| Pem.SplitPemChainInOrder | dcap-attestation/src/dcap_attestation/cert.py:205-208 | the certificates come out in input order as non-overlapping pieces of the input |
| Pem.SplitPemChainEmptyIff | dcap-attestation/src/dcap_attestation/cert.py:205-208 | the result is empty exactly when no position starts a match |
| Pem.SplitPemChainOfArmoured | dcap-attestation/src/dcap_attestation/cert.py:205-208 | N certificates in standard armour, concatenated, each with or without a final line break (the last one included), split into exactly those N texts in order |
| Certificates.FirstAttribute | dcap-attestation/src/dcap_attestation/cert.py:97 | the index found is that of the first attribute of the requested type, or the length when there is none |
| Certificates.GetNameValueIsFirst | dcap-attestation/src/dcap_attestation/cert.py:94-99 | `get_name_value` returns `v` exactly when the first attribute of that type has value `v`, and `None` exactly when there is no attribute of that type |
| Certificates.FindExtension | dcap-attestation/src/dcap_attestation/cert.py:144 | `get_extension_for_oid` finds nothing exactly when no extension has the OID; otherwise it returns the value of an extension with that OID |
| Certificates.ItemHex | dcap-attestation/src/dcap_attestation/cert.py:157-158 | an item's field value is the lower-case hex of its value without the first two bytes, twice as long, and decodes back to those bytes |
| Certificates.LastValueStep | dcap-attestation/src/dcap_attestation/cert.py:155-182 | one more item overwrites the field with its OID and leaves every other field alone |
| Certificates.DispatchItem | dcap-attestation/src/dcap_attestation/cert.py:156-182 | the `if`/`elif` chain sets the field whose OID the item carries to the item's hex payload and changes no other field |
| Certificates.ProjectSgxExtension | dcap-attestation/src/dcap_attestation/cert.py:154-182 | starting from an all-`None` record, the loop leaves each field holding the payload of the last item with its OID, or `None` |
| Certificates.LastValueNoneIff | dcap-attestation/src/dcap_attestation/cert.py:154-182 | a field stays `None` exactly when no item carries its OID |
| Certificates.LastValueIsLastOccurrence | dcap-attestation/src/dcap_attestation/cert.py:155-182 | with a repeated OID the last item wins, and later items with other OIDs do not disturb it |
| Certificates.UnknownItemIgnored | dcap-attestation/src/dcap_attestation/cert.py:155-182 | an item with an OID outside the nine field OIDs changes nothing |
| Certificates.ParseCertificateFromPem | dcap-attestation/src/dcap_attestation/cert.py:102-202 | the result is an error exactly when `loadPem` fails (the ASCII encoding, the X.509 loader or the library's accessors afterwards), with "Failed to parse certificate: " before the loader's message; otherwise it is the certificate built from the loaded fields |
| Certificates.CertificateOfRoundTrips | dcap-attestation/src/dcap_attestation/cert.py:186-200 | the serial number's hex reads back as the certificate's serial (bare digits when it is non-negative), the fingerprint's hex is twice as long and decodes back to the digest, the raw PEM is kept, and no position is set yet |
| Certificates.CertificateOfDefaults | dcap-attestation/src/dcap_attestation/cert.py:123-184 | `sans` is `None` exactly when there is no SAN extension; `is_ca` is false without basic constraints; the quote and SGX record are present exactly when their extension is present and decodes |
| Chain.ParseCertificateChain | dcap-attestation/src/dcap_attestation/cert.py:211-219 | the result is the split blocks, each parsed and stamped with its index, or the error of the first that fails |
| Chain.ParseEachBlock | dcap-attestation/src/dcap_attestation/cert.py:214-219 | the loop over the blocks computes exactly that result |
| Chain.ParseBlocksStep | dcap-attestation/src/dcap_attestation/cert.py:215-218 | one more block appends that block's parsed certificate stamped with its index, or yields its error |
| Chain.ParseBlocksErrStays | dcap-attestation/src/dcap_attestation/cert.py:216 | once a block fails, no later block changes the error that is raised |
| Chain.ParseBlocksOk | dcap-attestation/src/dcap_attestation/cert.py:211-219 | a chain comes back exactly when every block parses; it then has one certificate per block, in order, the one at `i` being block `i` parsed with position `i` |
| Chain.ParseBlocksErr | dcap-attestation/src/dcap_attestation/cert.py:216 | an error is that of the first block that does not parse |
| Chain.ParsedChainPositions | dcap-attestation/src/dcap_attestation/cert.py:217 | when every block loads, the chain is parsed, positions run 0 to N-1 along it and each certificate keeps the PEM text of its block |
| Chain.ParseChainOfArmoured | dcap-attestation/src/dcap_attestation/cert.py:211-219 | N loadable certificates in standard armour give a chain of N certificates at positions 0 to N-1 |
| Chain.CheckCertificate | dcap-attestation/src/dcap_attestation/cert.py:228-239 | at one index, the linkage message is appended when the issuer's and the next subject's common names differ, then the window message when `now` is outside the window; `valid` is cleared if either fires |
| Chain.ViolationsStep | dcap-attestation/src/dcap_attestation/cert.py:227-239 | one more index adds its violations, and their messages, at the end |
| Chain.VerifyCertificateChain | dcap-attestation/src/dcap_attestation/cert.py:222-241 | the messages are those of every violation, in index order, and the chain is valid exactly when there is none |
| Chain.ChainBrokenIn | dcap-attestation/src/dcap_attestation/cert.py:231-235 | a linkage violation is reported at `i` exactly when `i` is checked and certificate `i` is not linked to `i+1` |
| Chain.NotInWindowIn | dcap-attestation/src/dcap_attestation/cert.py:237-239 | a window violation is reported at `i` exactly when `i` is checked and `now` is outside its window |
| Chain.ViolationsUpToOrdered | dcap-attestation/src/dcap_attestation/cert.py:227-239 | violations are reported by increasing index, with the linkage before the window at one index |
| Chain.ViolationsUpToCount | dcap-attestation/src/dcap_attestation/cert.py:227-239 | there are at most two violations per checked index |
| Chain.VerdictFacts | dcap-attestation/src/dcap_attestation/cert.py:222-241 | linkage is reported for exactly the broken adjacent pairs and the window for exactly the out-of-window certificates other than the last; they are in order and at most 2(N-1), and a chain of fewer than two certificates has none |
| Chain.MessageKind | dcap-attestation/src/dcap_attestation/cert.py:233-239 | the character after the leading "Certificate " is `c` exactly for the linkage message, so the two kinds of message never coincide |
| Chain.MessageInjective | dcap-attestation/src/dcap_attestation/cert.py:233-239 | different violations produce different messages |
| Chain.MessageIn | dcap-attestation/src/dcap_attestation/cert.py:233-239 | a message is among the rendered ones exactly when its violation is among the violations |
| Chain.VerdictMessages | dcap-attestation/src/dcap_attestation/cert.py:222-241 | read as text, the "chain broken" message for `i` is present exactly when `i` and `i+1` are not linked, and the "expired or not yet valid" message for `i` exactly when `i` is not last and is out of its window |
| Chain.LastCertificateWindowIgnored | dcap-attestation/src/dcap_attestation/cert.py:227 | as written, a single expired certificate yields no violation, while the loop over every certificate reports it |
| Chain.VerifyCertificateChainIntended | dcap-attestation/src/dcap_attestation/cert.py:222-241 | with the loop over every certificate, the messages are those of all violations, the last certificate's window included, and valid exactly when there is none |
| Chain.IntendedValidIff | dcap-attestation/src/dcap_attestation/cert.py:227-239 | the intended verdict is valid exactly when every adjacent pair is linked and every certificate is in its window |
| Chain.IntendedExtendsAsWritten | dcap-attestation/src/dcap_attestation/cert.py:227-239 | the intended violations are the as-written ones followed by the last certificate's window violation, if any |

## Left out

- The X.509 library and the pyasn1 DER decoder are not modelled. They are
  the function-valued fields of `Codecs`. Their failures are `Err` and
  `None`.
- Certificates.ParseCertificateFromPem: the `Err` of `loadPem` stands for
  every failure in cert.py:105-194 that the source reports as "Failed to
  parse certificate: ...". These are:
  - `cert_pem.encode("ascii")` on a non-ASCII character;
  - `load_pem_x509_certificate` itself;
  - `cert.extensions`, which raises on a duplicated or malformed extension
    (only `ExtensionNotFound` is caught);
  - `cert.fingerprint` for a signature algorithm without a hash.

  The model does not tell these apart or render their messages.
- An `X509` record is what a successful load returns. The library never
  returns one whose extensions repeat an OID, but the model's type does
  not rule this out. Given such a record, `FindExtension` takes the first
  extension with the OID, while the source fails on the duplicate.
- A SAN's string rendering, `cert.version.name` and the signature
  algorithm's name come pre-rendered in the `X509` record.
- The fingerprint is the digest bytes the library computes. The hash
  function is not modelled.
- `datetime.now(timezone.utc)` is the parameter `now`. Instants are integer
  microseconds on the UTC time line, so the isoformat JSON encoder is not
  modelled.
- An exception raised inside the SGX dispatch loop after
  `SgxExtension()` was assigned is not modelled. In the source it would keep
  a partly filled record. The decoder is taken to produce
  `(oid, value)` items on which the loop cannot fail.
- `bytes(value)[2:]` is modelled as written. It drops a tag byte and a
  one-byte length, so a value with a long-form DER length keeps its
  remaining length octets in the hex.
- The PCESVN and CPUSVN OIDs are matched only among the top-level items of
  the SGX sequence, as the source does. The model does not look inside the
  TCB item, where Intel's certificates nest them.
- The design intends every certificate's validity window to be checked,
  a lone certificate's included. The code's `range(len(cert_chain) - 1)`
  never checks the last certificate, and the model follows the code. See
  "Findings".
- `Chain.CheckCertificate` is shared by the as-written and the intended
  loop. It guards the linkage check with `i + 1 < |chain|`, which always
  holds in the as-written loop.
- The rest of the repository is not part of this model:
  - `crud.py`, `models.py` and `api.py`;
  - `main.py`;
  - the quote decoder;
  - collateral verification;
  - the SDKs and the Rust code.
- `CertificateChainValidation` and `Certificate` are immutable values. The
  source's pydantic models are mutated in place by `result.valid = False`,
  `result.messages.append` and `cert.position_in_chain = i`. The methods
  rebuild the values instead. Nothing else holds a reference to these
  objects in the functions modelled, so no aliasing is lost.

## Findings

| source | as written | input that shows it | evidently intended | confidence | as-written member | corrected member |
|---|---|---|---|---|---|---|
| dcap-attestation/src/dcap_attestation/cert.py:227 | `for i in range(len(cert_chain) - 1)` performs the window check of line 237 only for indices that have a next certificate, so the last certificate's window is never checked | a chain of one certificate whose `not_after` is before `now` is reported `valid=True` with no messages | every certificate's window is checked, the last one included, while linkage is checked only for adjacent pairs | not executed | Chain.LastCertificateWindowIgnored | Chain.VerifyCertificateChainIntended |
