/** The certificate chain: `parse_certificate_chain` and
    `verify_certificate_chain` (cert.py:211-241). */
module Chain {
  import opened Wrappers
  import opened Encoding
  import opened Pem
  import opened Certificates

  // ---------------------------------------------------------------------
  // parse_certificate_chain (cert.py:211-219)
  // ---------------------------------------------------------------------

  /** `parse_certificate_from_pem` with the decoders fixed. */
  function Parser(codecs: Codecs): string -> Result<Certificate, string>
  {
    certPem => ParsedCertificate(certPem, codecs)
  }

  /** All of `blocks[..k]` parse. */
  predicate AllParse(blocks: seq<string>, k: nat, parse: string -> Result<Certificate, string>)
    requires k <= |blocks|
  {
    forall j :: 0 <= j < k ==> parse(blocks[j]).Ok?
  }

  /** What `parse_certificate_chain` makes of the blocks: each parsed and
      stamped with its index, or the error of the first that fails. */
  function ParseBlocks(blocks: seq<string>, parse: string -> Result<Certificate, string>): Result<seq<Certificate>, string>
  {
    if blocks == [] then Ok([])
    else
      var n := |blocks| - 1;
      match ParseBlocks(blocks[..n], parse)
      case Err(e) => Err(e)
      case Ok(cs) =>
        match parse(blocks[n])
        case Err(e) => Err(e)
        case Ok(c) => Ok(cs + [c.(positionInChain := Some(n))])
  }

  /** `parse_certificate_chain`: split the bundle, then parse the blocks in
      order. */
  method ParseCertificateChain(pemData: string, codecs: Codecs) returns (r: Result<seq<Certificate>, string>)
    ensures r == ParseBlocks(SplitPemChain(pemData), Parser(codecs))
  {
    var certChain := SplitPemChain(pemData);
    r := ParseEachBlock(certChain, codecs);
  }

  /** The loop of `parse_certificate_chain`: each block parsed and stamped
      with its index, stopping at the first that fails. */
  method ParseEachBlock(certChain: seq<string>, codecs: Codecs) returns (r: Result<seq<Certificate>, string>)
    ensures r == ParseBlocks(certChain, Parser(codecs))
  {
    var parsedChain: seq<Certificate> := [];
    var i: nat := 0;
    while i < |certChain|
      invariant i <= |certChain|
      invariant ParseBlocks(certChain[..i], Parser(codecs)) == Ok(parsedChain)
    {
      var cert := ParseCertificateFromPem(certChain[i], codecs);
      ParseBlocksStep(certChain, i, Parser(codecs));
      if cert.Err? {
        ParseBlocksErrStays(certChain, i + 1, Parser(codecs));
        return Err(cert.error);
      }
      parsedChain := parsedChain + [cert.value.(positionInChain := Some(i))];
      i := i + 1;
    }
    assert certChain[..i] == certChain;
    return Ok(parsedChain);
  }

  /** One more block: the prefix's chain grows by that block parsed and
      stamped, or the block's error is the result. */
  lemma ParseBlocksStep(blocks: seq<string>, i: nat, parse: string -> Result<Certificate, string>)
    requires i < |blocks| && ParseBlocks(blocks[..i], parse).Ok?
    ensures ParseBlocks(blocks[..i + 1], parse) ==
      match parse(blocks[i])
      case Err(e) => Err(e)
      case Ok(c) => Ok(ParseBlocks(blocks[..i], parse).value + [c.(positionInChain := Some(i))])
  {
    assert blocks[..i + 1][..i] == blocks[..i];
  }

  /** Once a prefix of the blocks fails, so does every longer one, with the
      same error. */
  lemma {:induction false} ParseBlocksErrStays(blocks: seq<string>, k: nat, parse: string -> Result<Certificate, string>)
    requires k <= |blocks| && ParseBlocks(blocks[..k], parse).Err?
    ensures ParseBlocks(blocks, parse) == ParseBlocks(blocks[..k], parse)
    decreases |blocks| - k
  {
    if k < |blocks| {
      assert blocks[..k + 1][..k] == blocks[..k];
      ParseBlocksErrStays(blocks, k + 1, parse);
    } else {
      assert blocks[..k] == blocks;
    }
  }

  /** The chain is returned exactly when every block parses; it then has one
      certificate per block, in order, the one at index `i` being block `i`
      parsed and stamped with position `i`. */
  lemma {:induction false} ParseBlocksOk(blocks: seq<string>, parse: string -> Result<Certificate, string>)
    ensures ParseBlocks(blocks, parse).Ok? <==> AllParse(blocks, |blocks|, parse)
    ensures ParseBlocks(blocks, parse).Ok? ==>
      var chain := ParseBlocks(blocks, parse).value;
      |chain| == |blocks| &&
      forall i :: 0 <= i < |blocks| ==> chain[i] == parse(blocks[i]).value.(positionInChain := Some(i))
  {
    if blocks != [] {
      var n := |blocks| - 1;
      ParseBlocksOk(blocks[..n], parse);
      assert forall j :: 0 <= j < n ==> blocks[..n][j] == blocks[j];
    }
  }

  /** A block that fails stops the parse: the error is that of the first
      block that does not parse. */
  lemma {:induction false} ParseBlocksErr(blocks: seq<string>, parse: string -> Result<Certificate, string>)
    requires ParseBlocks(blocks, parse).Err?
    ensures exists k :: 0 <= k < |blocks| && AllParse(blocks, k, parse) &&
                        parse(blocks[k]) == Err(ParseBlocks(blocks, parse).error)
  {
    var n := |blocks| - 1;
    assert forall j :: 0 <= j < n ==> blocks[..n][j] == blocks[j];
    if ParseBlocks(blocks[..n], parse).Err? {
      ParseBlocksErr(blocks[..n], parse);
      var k :| 0 <= k < n && AllParse(blocks[..n], k, parse) &&
               parse(blocks[..n][k]) == Err(ParseBlocks(blocks[..n], parse).error);
      assert AllParse(blocks, k, parse);
    } else {
      ParseBlocksOk(blocks[..n], parse);
      assert AllParse(blocks, n, parse);
    }
  }

  /** When every block loads, the chain is parsed, positions run 0, 1, ...,
      n-1 along it, and every certificate keeps the PEM text of its block. */
  lemma ParsedChainPositions(blocks: seq<string>, codecs: Codecs)
    requires forall i :: 0 <= i < |blocks| ==> codecs.loadPem(blocks[i]).Ok?
    ensures ParseBlocks(blocks, Parser(codecs)).Ok?
    ensures var chain := ParseBlocks(blocks, Parser(codecs)).value;
      |chain| == |blocks| &&
      forall i :: 0 <= i < |chain| ==> chain[i].positionInChain == Some(i) && chain[i].raw == Some(blocks[i])
  {
    assert AllParse(blocks, |blocks|, Parser(codecs)) by {
      forall j | 0 <= j < |blocks| ensures Parser(codecs)(blocks[j]).Ok? {
        assert codecs.loadPem(blocks[j]).Ok?;
      }
    }
    ParseBlocksOk(blocks, Parser(codecs));
    var chain := ParseBlocks(blocks, Parser(codecs)).value;
    forall i | 0 <= i < |chain|
      ensures chain[i].positionInChain == Some(i) && chain[i].raw == Some(blocks[i])
    {
      assert ParsedCertificate(blocks[i], codecs).Ok?;
      CertificateOfRoundTrips(blocks[i], codecs.loadPem(blocks[i]).value, codecs);
    }
  }

  /** N certificates in standard armour, concatenated, that all load give a
      chain of N certificates at positions 0 .. N-1. */
  lemma ParseChainOfArmoured(cs: seq<Armoured>, codecs: Codecs)
    requires forall i :: 0 <= i < |cs| ==> IsBase64Text(cs[i].body)
    requires forall i :: 0 <= i < |cs| ==> codecs.loadPem(Armour(cs[i], CertificateMarkers)).Ok?
    ensures var r := ParseBlocks(SplitPemChain(Concat(ArmourAll(cs, CertificateMarkers))), Parser(codecs));
      r.Ok? && |r.value| == |cs| && forall i :: 0 <= i < |cs| ==> r.value[i].positionInChain == Some(i)
  {
    var blocks := ArmourAll(cs, CertificateMarkers);
    SplitPemChainOfArmoured(cs);
    ArmourAllIndex(cs, CertificateMarkers);
    ParsedChainPositions(blocks, codecs);
  }

  // ---------------------------------------------------------------------
  // verify_certificate_chain (cert.py:222-241)
  // ---------------------------------------------------------------------

  /** What the checks can find wrong at one index of the chain. */
  datatype Violation = ChainBroken(index: nat) | NotInWindow(index: nat)

  /** The `CertificateChainValidation` record (cert.py:89-91). */
  datatype CertificateChainValidation = CertificateChainValidation(valid: bool, messages: seq<string>)

  /** The issuer's common name of `c` equals the subject's common name of
      the next certificate; two absent names are equal, as Python's `!=`
      on `None` has it. */
  predicate Linked(c: Certificate, next: Certificate)
  {
    c.issuer.commonName == next.subject.commonName
  }

  /** `now` lies in the closed window `[not_before, not_after]`. */
  predicate InWindow(c: Certificate, now: int)
  {
    c.notBefore <= now <= c.notAfter
  }

  /** The linkage check at index `i`, when there is a next certificate. */
  function LinkViolation(chain: seq<Certificate>, i: nat): seq<Violation>
    requires i < |chain|
  {
    if i + 1 < |chain| && !Linked(chain[i], chain[i + 1]) then [ChainBroken(i)] else []
  }

  /** The validity-window check at index `i`. */
  function WindowViolation(chain: seq<Certificate>, now: int, i: nat): seq<Violation>
    requires i < |chain|
  {
    if !InWindow(chain[i], now) then [NotInWindow(i)] else []
  }

  /** The checks at indices `0 .. k-1`, in index order, and at each index
      the linkage before the window, as the source makes them. */
  function ViolationsUpTo(chain: seq<Certificate>, now: int, k: nat): seq<Violation>
    requires k <= |chain|
  {
    if k == 0 then []
    else ViolationsUpTo(chain, now, k - 1) + LinkViolation(chain, k - 1) + WindowViolation(chain, now, k - 1)
  }

  lemma ViolationsUpToNext(chain: seq<Certificate>, now: int, i: nat)
    requires i < |chain|
    ensures ViolationsUpTo(chain, now, i + 1) ==
      ViolationsUpTo(chain, now, i) + LinkViolation(chain, i) + WindowViolation(chain, now, i)
  {
  }

  /** The loop `for i in range(len(cert_chain) - 1)`: every index but the last. */
  function Violations(chain: seq<Certificate>, now: int): seq<Violation>
  {
    if chain == [] then [] else ViolationsUpTo(chain, now, |chain| - 1)
  }

  /** The message the source appends for a violation. */
  function Message(v: Violation): string
  {
    match v
    case ChainBroken(i) =>
      "Certificate chain broken: Certificate " + (Decimal(i) +
      ("'s issuer doesn't match certificate " + (Decimal(i + 1) + "'s subject")))
    case NotInWindow(i) =>
      "Certificate " + (Decimal(i) + " is expired or not yet valid")
  }

  /** `f` applied to every element of `xs`, in order. */
  function Map<A, B>(f: A -> B, xs: seq<A>): (ys: seq<B>)
    ensures |ys| == |xs|
  {
    if xs == [] then [] else Map(f, xs[..|xs| - 1]) + [f(xs[|xs| - 1])]
  }

  lemma MapSnoc<A, B>(f: A -> B, xs: seq<A>, x: A)
    ensures Map(f, xs + [x]) == Map(f, xs) + [f(x)]
  {
    assert (xs + [x])[..|xs|] == xs;
  }

  lemma MapOne<A, B>(f: A -> B, x: A)
    ensures Map(f, [x]) == [f(x)]
  {
    assert [x][..0] == [];
  }

  lemma {:induction false} MapAppend<A, B>(f: A -> B, xs: seq<A>, ys: seq<A>)
    ensures Map(f, xs + ys) == Map(f, xs) + Map(f, ys)
    decreases |ys|
  {
    if ys != [] {
      var n := |ys| - 1;
      assert (xs + ys)[..|xs| + n] == xs + ys[..n];
      MapAppend(f, xs, ys[..n]);
    } else {
      assert xs + ys == xs;
    }
  }

  lemma {:induction false} MapIndex<A, B>(f: A -> B, xs: seq<A>, k: nat)
    requires k < |xs|
    ensures Map(f, xs)[k] == f(xs[k])
    decreases |xs|
  {
    var n := |xs| - 1;
    if k < n {
      assert xs[..n][k] == xs[k];
      MapIndex(f, xs[..n], k);
    }
  }

  /** The messages of a list of violations, in order. */
  function Render(vs: seq<Violation>): seq<string>
  {
    Map(Message, vs)
  }

  /** The violations found at index `i`: the linkage, then the window. */
  function ViolationsAt(chain: seq<Certificate>, now: int, i: nat): seq<Violation>
    requires i < |chain|
  {
    LinkViolation(chain, i) + WindowViolation(chain, now, i)
  }

  /** The two checks the loop makes at index `i`, appending a message for
      each that fails and clearing `valid` if either does. */
  method CheckCertificate(chain: seq<Certificate>, now: int, i: nat, valid: bool, messages: seq<string>)
    returns (valid': bool, messages': seq<string>)
    requires i < |chain|
    ensures messages' == messages + Render(ViolationsAt(chain, now, i))
    ensures valid' <==> valid && ViolationsAt(chain, now, i) == []
  {
    MapAppend(Message, LinkViolation(chain, i), WindowViolation(chain, now, i));
    MapOne(Message, ChainBroken(i));
    MapOne(Message, NotInWindow(i));
    valid', messages' := valid, messages;
    var current := chain[i];
    if i + 1 < |chain| && current.issuer.commonName != chain[i + 1].subject.commonName {
      valid' := false;
      messages' := messages' + [Message(ChainBroken(i))];
    }
    if now < current.notBefore || now > current.notAfter {
      valid' := false;
      messages' := messages' + [Message(NotInWindow(i))];
    }
  }

  /** What one round adds to the violations, and to their messages. */
  lemma ViolationsStep(chain: seq<Certificate>, now: int, i: nat)
    requires i < |chain|
    ensures ViolationsUpTo(chain, now, i + 1) == ViolationsUpTo(chain, now, i) + ViolationsAt(chain, now, i)
    ensures Render(ViolationsUpTo(chain, now, i + 1)) ==
      Render(ViolationsUpTo(chain, now, i)) + Render(ViolationsAt(chain, now, i))
    ensures ViolationsUpTo(chain, now, i + 1) == [] <==>
      ViolationsUpTo(chain, now, i) == [] && ViolationsAt(chain, now, i) == []
  {
    var before, link, window := ViolationsUpTo(chain, now, i), LinkViolation(chain, i), WindowViolation(chain, now, i);
    ViolationsUpToNext(chain, now, i);
    assert before + link + window == before + (link + window);
    MapAppend(Message, before, link + window);
  }

  /** `verify_certificate_chain`, with the clock reading `now` as a
      parameter: the messages are those of every violation, in order, and
      the chain is valid exactly when there is none. */
  method VerifyCertificateChain(chain: seq<Certificate>, now: int) returns (result: CertificateChainValidation)
    ensures result.messages == Render(Violations(chain, now))
    ensures result.valid <==> Violations(chain, now) == []
  {
    var valid := true;
    var messages: seq<string> := [];
    var i: nat := 0;
    while i < |chain| - 1
      invariant 0 <= i <= if chain == [] then 0 else |chain| - 1
      invariant messages == Render(ViolationsUpTo(chain, now, i))
      invariant valid <==> ViolationsUpTo(chain, now, i) == []
    {
      valid, messages := CheckCertificate(chain, now, i, valid, messages);
      ViolationsStep(chain, now, i);
      i := i + 1;
    }
    result := CertificateChainValidation(valid, messages);
  }

  // ---------------------------------------------------------------------
  // What the violations say
  // ---------------------------------------------------------------------

  /** A linkage violation is reported at `i` exactly when `i` is one of the
      first `k` indices and the certificate there is not linked to the next. */
  lemma {:induction false} ChainBrokenIn(chain: seq<Certificate>, now: int, k: nat, i: nat)
    requires k <= |chain|
    ensures ChainBroken(i) in ViolationsUpTo(chain, now, k) <==>
      i < k && i + 1 < |chain| && !Linked(chain[i], chain[i + 1])
  {
    if k > 0 {
      ChainBrokenIn(chain, now, k - 1, i);
      var link, window := LinkViolation(chain, k - 1), WindowViolation(chain, now, k - 1);
      assert ChainBroken(i) in link <==> i == k - 1 && i + 1 < |chain| && !Linked(chain[i], chain[i + 1]);
      assert ChainBroken(i) !in window;
      assert ViolationsUpTo(chain, now, k) == ViolationsUpTo(chain, now, k - 1) + link + window;
    }
  }

  /** A window violation is reported at `i` exactly when `i` is one of the
      first `k` indices and `now` is outside its window. */
  lemma {:induction false} NotInWindowIn(chain: seq<Certificate>, now: int, k: nat, i: nat)
    requires k <= |chain|
    ensures NotInWindow(i) in ViolationsUpTo(chain, now, k) <==> i < k && !InWindow(chain[i], now)
  {
    if k > 0 {
      NotInWindowIn(chain, now, k - 1, i);
      var link, window := LinkViolation(chain, k - 1), WindowViolation(chain, now, k - 1);
      assert NotInWindow(i) !in link;
      assert NotInWindow(i) in window <==> i == k - 1 && !InWindow(chain[i], now);
      assert ViolationsUpTo(chain, now, k) == ViolationsUpTo(chain, now, k - 1) + link + window;
    }
  }

  /** The position of a violation in the order the loop reports them: by
      index, and the linkage before the window at the same index. */
  function Rank(v: Violation): nat
  {
    match v
    case ChainBroken(i) => 2 * i
    case NotInWindow(i) => 2 * i + 1
  }

  predicate Ordered(vs: seq<Violation>)
  {
    forall a, b :: 0 <= a < b < |vs| ==> Rank(vs[a]) < Rank(vs[b])
  }

  /** Two ordered runs, all of the first below `bound` and all of the second
      at or above it, concatenate to an ordered run. */
  lemma OrderedAppend(xs: seq<Violation>, ys: seq<Violation>, bound: int)
    requires Ordered(xs) && Ordered(ys)
    requires forall a :: 0 <= a < |xs| ==> Rank(xs[a]) < bound
    requires forall b :: 0 <= b < |ys| ==> bound <= Rank(ys[b])
    ensures Ordered(xs + ys)
  {
    var zs := xs + ys;
    forall a, b | 0 <= a < b < |zs|
      ensures Rank(zs[a]) < Rank(zs[b])
    {
      if b < |xs| {
        assert zs[a] == xs[a] && zs[b] == xs[b];
      } else if a < |xs| {
        assert zs[a] == xs[a] && zs[b] == ys[b - |xs|];
      } else {
        assert zs[a] == ys[a - |xs|] && zs[b] == ys[b - |xs|];
      }
    }
  }

  /** The violations come out strictly ordered by rank, and all below `2k`. */
  lemma {:induction false} ViolationsUpToOrdered(chain: seq<Certificate>, now: int, k: nat)
    requires k <= |chain|
    ensures Ordered(ViolationsUpTo(chain, now, k))
    ensures forall a :: 0 <= a < |ViolationsUpTo(chain, now, k)| ==> Rank(ViolationsUpTo(chain, now, k)[a]) < 2 * k
  {
    if k > 0 {
      ViolationsUpToOrdered(chain, now, k - 1);
      var prefix := ViolationsUpTo(chain, now, k - 1);
      var link, window := LinkViolation(chain, k - 1), WindowViolation(chain, now, k - 1);
      ViolationsUpToNext(chain, now, k - 1);
      assert link == [] || link == [ChainBroken(k - 1)];
      assert window == [] || window == [NotInWindow(k - 1)];
      OrderedAppend(prefix, link, 2 * (k - 1));
      OrderedAppend(prefix + link, window, 2 * k - 1);
    }
  }

  /** At most two violations per index. */
  lemma {:induction false} ViolationsUpToCount(chain: seq<Certificate>, now: int, k: nat)
    requires k <= |chain|
    ensures |ViolationsUpTo(chain, now, k)| <= 2 * k
  {
    if k > 0 {
      ViolationsUpToCount(chain, now, k - 1);
    }
  }

  /** The properties of `verify_certificate_chain`'s verdict: linkage is
      reported for exactly the broken pairs, the window for exactly the
      certificates out of it other than the last, in index order, at most
      two per pair, and nothing for a chain of fewer than two certificates. */
  lemma VerdictFacts(chain: seq<Certificate>, now: int, i: nat)
    ensures ChainBroken(i) in Violations(chain, now) <==>
      i + 1 < |chain| && !Linked(chain[i], chain[i + 1])
    ensures NotInWindow(i) in Violations(chain, now) <==>
      i + 1 < |chain| && !InWindow(chain[i], now)
    ensures Ordered(Violations(chain, now))
    ensures |chain| >= 1 ==> |Violations(chain, now)| <= 2 * (|chain| - 1)
    ensures |chain| <= 1 ==> Violations(chain, now) == []
  {
    if chain != [] {
      ChainBrokenIn(chain, now, |chain| - 1, i);
      NotInWindowIn(chain, now, |chain| - 1, i);
      ViolationsUpToOrdered(chain, now, |chain| - 1);
      ViolationsUpToCount(chain, now, |chain| - 1);
    }
  }

  // ---------------------------------------------------------------------
  // Messages name their violation
  // ---------------------------------------------------------------------

  /** Index of the first character of `s` that is not a decimal digit. */
  function FirstNonDigit(s: string): (k: nat)
    ensures k <= |s|
  {
    if s == [] || !IsDigit(s[0], 10) then 0 else 1 + FirstNonDigit(s[1..])
  }

  lemma {:induction false} FirstNonDigitOf(d: string, x: string)
    requires AllDigits(d, 10) && |x| > 0 && !IsDigit(x[0], 10)
    ensures FirstNonDigit(d + x) == |d|
  {
    if d != [] {
      assert (d + x)[0] == d[0];
      assert (d + x)[1..] == d[1..] + x;
      FirstNonDigitOf(d[1..], x);
    } else {
      assert d + x == x;
    }
  }

  /** A number written in decimal and followed by a non-digit is read back
      unambiguously. */
  lemma DecimalPrefix(m: nat, x: string, n: nat, y: string)
    requires |x| > 0 && !IsDigit(x[0], 10) && |y| > 0 && !IsDigit(y[0], 10)
    requires Decimal(m) + x == Decimal(n) + y
    ensures m == n && x == y
  {
    NumeralDigits(m, 10);
    NumeralDigits(n, 10);
    FirstNonDigitOf(Decimal(m), x);
    FirstNonDigitOf(Decimal(n), y);
    var k := |Decimal(m)|;
    assert Decimal(m) == (Decimal(m) + x)[..k];
    assert Decimal(n) == (Decimal(n) + y)[..k];
    assert x == (Decimal(m) + x)[k..];
    assert y == (Decimal(n) + y)[k..];
    NumeralInjective(m, n, 10);
  }

  lemma StripPrefix(p: string, u: string, v: string)
    requires p + u == p + v
    ensures u == v
  {
    assert u == (p + u)[|p|..];
    assert v == (p + v)[|p|..];
  }

  /** The character after "Certificate " tells the two kinds of message apart. */
  lemma MessageKind(v: Violation)
    ensures |Message(v)| > 12 && (Message(v)[12] == 'c' <==> v.ChainBroken?)
  {
    if v.NotInWindow? {
      NumeralDigits(v.index, 10);
    }
  }

  /** What follows the first index in the "chain broken" message. */
  function BrokenTail(k: nat): string
  {
    "'s issuer doesn't match certificate " + (Decimal(k + 1) + "'s subject")
  }

  lemma BrokenMessageInjective(i: nat, j: nat)
    requires Message(ChainBroken(i)) == Message(ChainBroken(j))
    ensures i == j
  {
    StripPrefix("Certificate chain broken: Certificate ", Decimal(i) + BrokenTail(i), Decimal(j) + BrokenTail(j));
    DecimalPrefix(i, BrokenTail(i), j, BrokenTail(j));
  }

  lemma WindowMessageInjective(i: nat, j: nat)
    requires Message(NotInWindow(i)) == Message(NotInWindow(j))
    ensures i == j
  {
    var rest := " is expired or not yet valid";
    StripPrefix("Certificate ", Decimal(i) + rest, Decimal(j) + rest);
    DecimalPrefix(i, rest, j, rest);
  }

  /** Different violations have different messages, so a message names
      its violation. */
  lemma MessageInjective(v: Violation, w: Violation)
    requires Message(v) == Message(w)
    ensures v == w
  {
    MessageKind(v);
    MessageKind(w);
    if v.ChainBroken? && w.ChainBroken? {
      BrokenMessageInjective(v.index, w.index);
    } else if v.NotInWindow? && w.NotInWindow? {
      WindowMessageInjective(v.index, w.index);
    }
  }

  /** A message is among the rendered ones exactly when its violation is
      among the violations. */
  lemma MessageIn(vs: seq<Violation>, v: Violation)
    ensures Message(v) in Render(vs) <==> v in vs
  {
    if Message(v) in Render(vs) {
      var k :| 0 <= k < |Render(vs)| && Render(vs)[k] == Message(v);
      MapIndex(Message, vs, k);
      MessageInjective(vs[k], v);
    }
    if v in vs {
      var k :| 0 <= k < |vs| && vs[k] == v;
      MapIndex(Message, vs, k);
    }
  }

  /** `verify_certificate_chain`'s messages, read as text: the "chain
      broken" message for `i` is there exactly when certificate `i` is not
      linked to certificate `i+1`, and the "expired or not yet valid"
      message for `i` exactly when `i` is not the last index and `now` is
      outside certificate `i`'s window. */
  lemma VerdictMessages(chain: seq<Certificate>, now: int, i: nat)
    ensures Message(ChainBroken(i)) in Render(Violations(chain, now)) <==>
      i + 1 < |chain| && !Linked(chain[i], chain[i + 1])
    ensures Message(NotInWindow(i)) in Render(Violations(chain, now)) <==>
      i + 1 < |chain| && !InWindow(chain[i], now)
  {
    VerdictFacts(chain, now, i);
    MessageIn(Violations(chain, now), ChainBroken(i));
    MessageIn(Violations(chain, now), NotInWindow(i));
  }

  // ---------------------------------------------------------------------
  // The last certificate's window
  // ---------------------------------------------------------------------

  /** As written, the loop stops before the last certificate, so its
      validity window is never looked at: a chain of one certificate that
      has expired is reported valid. */
  lemma LastCertificateWindowIgnored(c: Certificate, now: int)
    requires now > c.notAfter
    ensures Violations([c], now) == [] && !InWindow(c, now)
    ensures IntendedViolations([c], now) == [NotInWindow(0)]
  {
  }

  /** The window checks over every certificate, the last included. */
  function IntendedViolations(chain: seq<Certificate>, now: int): seq<Violation>
  {
    ViolationsUpTo(chain, now, |chain|)
  }

  /** The verification with the evidently intended loop over every
      certificate: linkage wherever there is a next certificate, the
      window everywhere. */
  method VerifyCertificateChainIntended(chain: seq<Certificate>, now: int) returns (result: CertificateChainValidation)
    ensures result.messages == Render(IntendedViolations(chain, now))
    ensures result.valid <==> IntendedViolations(chain, now) == []
  {
    var valid := true;
    var messages: seq<string> := [];
    var i: nat := 0;
    while i < |chain|
      invariant i <= |chain|
      invariant messages == Render(ViolationsUpTo(chain, now, i))
      invariant valid <==> ViolationsUpTo(chain, now, i) == []
    {
      valid, messages := CheckCertificate(chain, now, i, valid, messages);
      ViolationsStep(chain, now, i);
      i := i + 1;
    }
    result := CertificateChainValidation(valid, messages);
  }

  /** The intended verdict: valid exactly when every certificate is linked
      to the next and every certificate, the last one included, is in its
      window. */
  lemma IntendedValidIff(chain: seq<Certificate>, now: int)
    ensures IntendedViolations(chain, now) == [] <==>
      (forall i :: 0 <= i < |chain| - 1 ==> Linked(chain[i], chain[i + 1])) &&
      (forall i :: 0 <= i < |chain| ==> InWindow(chain[i], now))
  {
    var vs := IntendedViolations(chain, now);
    forall i | 0 <= i < |chain|
      ensures ChainBroken(i) in vs <==> i + 1 < |chain| && !Linked(chain[i], chain[i + 1])
      ensures NotInWindow(i) in vs <==> !InWindow(chain[i], now)
    {
      ChainBrokenIn(chain, now, |chain|, i);
      NotInWindowIn(chain, now, |chain|, i);
    }
    if vs != [] {
      var v := vs[0];
      ChainBrokenIn(chain, now, |chain|, v.index);
      NotInWindowIn(chain, now, |chain|, v.index);
    }
  }

  /** The two verdicts differ only in the last certificate's window. */
  lemma IntendedExtendsAsWritten(chain: seq<Certificate>, now: int)
    requires chain != []
    ensures IntendedViolations(chain, now) ==
      Violations(chain, now) + (if InWindow(chain[|chain| - 1], now) then [] else [NotInWindow(|chain| - 1)])
  {
    assert [] + (if InWindow(chain[|chain| - 1], now) then [] else [NotInWindow(|chain| - 1)]) ==
      (if InWindow(chain[|chain| - 1], now) then [] else [NotInWindow(|chain| - 1)]);
  }
}
