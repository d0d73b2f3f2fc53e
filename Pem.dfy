/** `split_pem_chain` (dcap-attestation/src/dcap_attestation/cert.py:205-208):
    `re.findall` of the DOTALL pattern
      -----BEGIN CERTIFICATE-----\r?\n.+?\r?\n-----END CERTIFICATE-----\r?\n?
    written out as a deterministic scanner over positions of the input.
    `MatchAt` is the pattern tried at one position, in the order Python's
    backtracking engine tries it, and `FindAllFrom` is `findall`: after a
    match it resumes where the match ended, otherwise one character later.
    The scanner and its lemmas take the two armour lines as a parameter;
    `SplitPemChain` fixes them to the certificate markers. */
module Pem {
  import opened Wrappers

  /** The BEGIN and END armour lines of a PEM block. */
  datatype Markers = Markers(begin: string, end: string)

  const CertificateMarkers: Markers :=
    Markers("-----BEGIN CERTIFICATE-----", "-----END CERTIFICATE-----")

  /** What the proofs about armoured text need of the markers: both lines
      start with a dash, which is neither a line break nor base64 text. */
  predicate ValidMarkers(m: Markers)
  {
    |m.begin| > 0 && m.begin[0] == '-' && |m.end| > 0 && m.end[0] == '-'
  }

  /** `w` occurs in `s` at position `i`. */
  predicate OccursAt(s: string, i: nat, w: string): (b: bool)
    ensures b ==> i + |w| <= |s|
    decreases |w|
  {
    if w == [] then i <= |s|
    else i < |s| && s[i] == w[0] && OccursAt(s, i + 1, w[1..])
  }

  /** Each character of an occurrence is where `OccursAt` says. */
  lemma {:induction false} OccursAtIndex(s: string, i: nat, w: string, j: nat)
    requires OccursAt(s, i, w) && j < |w|
    ensures s[i + j] == w[j]
    decreases j
  {
    if j > 0 {
      OccursAtIndex(s, i + 1, w[1..], j - 1);
    }
  }

  /** Length of the `\r?\n` line break at position `i`, or 0 if there is none. */
  function LineBreakAt(s: string, i: nat): (n: nat)
    ensures n <= 2 && (n > 0 ==> i + n <= |s|)
    ensures n == 1 ==> s[i] == '\n'
    ensures n == 2 ==> s[i] == '\r' && s[i + 1] == '\n'
    ensures i + 1 < |s| && s[i] == '\r' && s[i + 1] == '\n' ==> n == 2
    ensures i < |s| && s[i] == '\n' ==> n == 1
  {
    if i + 1 < |s| && s[i] == '\r' && s[i + 1] == '\n' then 2
    else if i < |s| && s[i] == '\n' then 1
    else 0
  }

  /** Whether `\r?\n` followed by the END line matches at position `j`; if so,
      the position where the END line itself starts. */
  function EndTailAt(s: string, j: nat, end: string): (r: Option<nat>)
    ensures r.Some? ==> j < r.value <= j + 2 && OccursAt(s, r.value, end) && s[r.value - 1] == '\n'
    ensures r.Some? && r.value == j + 2 ==> s[j] == '\r'
    ensures j < |s| && s[j] == '\n' && OccursAt(s, j + 1, end) ==> r == Some(j + 1)
    ensures j + 1 < |s| && s[j] == '\r' && s[j + 1] == '\n' && OccursAt(s, j + 2, end) ==> r == Some(j + 2)
  {
    var lb := LineBreakAt(s, j);
    if lb > 0 && OccursAt(s, j + lb, end) then Some(j + lb) else None
  }

  /** The lazy `.+?`: the least body end `j' >= j` after which the END tail matches. */
  function FindEnd(s: string, j: nat, end: string): (r: Option<nat>)
    ensures r.Some? ==> j <= r.value < |s| && EndTailAt(s, r.value, end).Some?
    decreases |s| - j
  {
    if j >= |s| then None
    else if EndTailAt(s, j, end).Some? then Some(j)
    else FindEnd(s, j + 1, end)
  }

  /** `FindEnd` stops at the first place where the END tail matches, as a lazy
      quantifier does, and fails only when the tail matches nowhere. */
  lemma {:induction false} FindEndIsLeast(s: string, j: nat, k: nat, end: string)
    requires j <= k && EndTailAt(s, k, end).Some?
    ensures FindEnd(s, j, end).Some? && FindEnd(s, j, end).value <= k
    decreases |s| - j
  {
    if j < k && EndTailAt(s, j, end).None? {
      FindEndIsLeast(s, j + 1, k, end);
    }
  }

  /** Length of the greedy trailing `\r?\n?` at position `e`. */
  function TrailerAt(s: string, e: nat): (n: nat)
    requires e <= |s|
    ensures n <= 2 && e + n <= |s|
    ensures n == 1 ==> s[e] == '\r' || s[e] == '\n'
    ensures n == 2 ==> s[e] == '\r' && s[e + 1] == '\n'
    ensures n == 0 <==> e == |s| || (s[e] != '\r' && s[e] != '\n')
    ensures e + 1 < |s| && s[e] == '\r' && s[e + 1] == '\n' ==> n == 2
    ensures e < |s| && s[e] == '\n' ==> n == 1
  {
    var cr := if e < |s| && s[e] == '\r' then 1 else 0;
    cr + (if e + cr < |s| && s[e + cr] == '\n' then 1 else 0)
  }

  /** Where the match of the pattern that starts at position `p` ends, if there is one. */
  function MatchAt(s: string, p: nat, m: Markers): (r: Option<nat>)
    ensures r.Some? ==> p < r.value <= |s|
  {
    var B := |m.begin|;
    if !OccursAt(s, p, m.begin) then None
    else
      var lb := LineBreakAt(s, p + B);
      if lb == 0 then None
      else match FindEnd(s, p + B + lb + 1, m.end)
        case None => None
        case Some(j) =>
          var e := EndTailAt(s, j, m.end).value + |m.end|;
          Some(e + TrailerAt(s, e))
  }

  /** The END line ends just before position `p` of `b`, and a `\n` at
      index `lo` or later comes just before the END line. */
  predicate EndLineBefore(b: string, p: int, end: string, lo: nat)
  {
    lo + 1 + |end| <= p && OccursAt(b, p - |end|, end) && b[p - |end| - 1] == '\n'
  }

  /** The BEGIN line and a `\r?\n` line break open `b`. */
  predicate HasHeader(b: string, begin: string)
  {
    |b| >= |begin| + 2 &&
    OccursAt(b, 0, begin) &&
    (b[|begin|] == '\n' || (b[|begin|] == '\r' && b[|begin| + 1] == '\n'))
  }

  /** Where the body starts: after the BEGIN line and its line break. */
  function HeaderEnd(b: string, begin: string): nat
    requires HasHeader(b, begin)
  {
    |begin| + (if b[|begin|] == '\n' then 1 else 2)
  }

  /** A `\n` at index `lo` or later and the END line close `b`, followed by at
      most a `\r`, a `\n` or a `\r\n`. */
  predicate HasFooter(b: string, end: string, lo: nat)
  {
    EndLineBefore(b, |b|, end, lo) ||
    (EndLineBefore(b, |b| - 1, end, lo) && (b[|b| - 1] == '\r' || b[|b| - 1] == '\n')) ||
    (EndLineBefore(b, |b| - 2, end, lo) && b[|b| - 2] == '\r' && b[|b| - 1] == '\n')
  }

  /** The shape of every string `FindAll` returns: the header, a body of at
      least one character, then a `\n` and the END line with its trailer. */
  predicate IsBlock(b: string, m: Markers)
  {
    HasHeader(b, m.begin) && HasFooter(b, m.end, HeaderEnd(b, m.begin) + 1)
  }

  /** The pieces of a match: where its END line starts and how long its
      trailer is; the lazy body before the END line's `\n` is not empty. */
  lemma MatchParts(s: string, p: nat, m: Markers) returns (k: nat, t: nat)
    requires MatchAt(s, p, m).Some?
    ensures p + |m.begin| + LineBreakAt(s, p + |m.begin|) + 2 <= k
    ensures k + |m.end| + t == MatchAt(s, p, m).value
    ensures OccursAt(s, p, m.begin) && LineBreakAt(s, p + |m.begin|) > 0
    ensures OccursAt(s, k, m.end) && s[k - 1] == '\n' && t == TrailerAt(s, k + |m.end|)
  {
    var B := |m.begin|;
    var j := FindEnd(s, p + B + LineBreakAt(s, p + B) + 1, m.end).value;
    k := EndTailAt(s, j, m.end).value;
    t := TrailerAt(s, k + |m.end|);
  }

  /** What occurs in `s` inside the slice `s[p..q]` occurs in the slice. */
  lemma {:induction false} OccursInSlice(s: string, p: nat, q: nat, k: nat, w: string)
    requires p <= k && k + |w| <= q <= |s| && OccursAt(s, k, w)
    ensures OccursAt(s[p..q], k - p, w)
    decreases |w|
  {
    if w != [] {
      assert s[p..q][k - p] == s[k];
      OccursInSlice(s, p, q, k + 1, w[1..]);
    }
  }

  lemma HeaderOfSlice(s: string, p: nat, q: nat, begin: string)
    requires p + |begin| + 2 <= q <= |s| && OccursAt(s, p, begin) && LineBreakAt(s, p + |begin|) > 0
    ensures HasHeader(s[p..q], begin)
    ensures HeaderEnd(s[p..q], begin) == |begin| + LineBreakAt(s, p + |begin|)
  {
    OccursInSlice(s, p, q, p, begin);
    assert s[p..q][|begin|] == s[p + |begin|];
    assert s[p..q][|begin| + 1] == s[p + |begin| + 1];
  }

  /** An END line after a `\n` in `s` is one in the slice `s[p..q]`. */
  lemma EndLineOfSlice(s: string, p: nat, q: nat, k: nat, end: string, lo: nat)
    requires p + lo + 1 <= k && k + |end| <= q <= |s| && OccursAt(s, k, end) && s[k - 1] == '\n'
    ensures EndLineBefore(s[p..q], k + |end| - p, end, lo)
  {
    OccursInSlice(s, p, q, k, end);
    assert s[p..q][k - p - 1] == s[k - 1];
  }

  lemma FooterOfSlice(s: string, p: nat, k: nat, end: string, lo: nat)
    requires p + lo + 1 <= k && OccursAt(s, k, end) && s[k - 1] == '\n'
    ensures HasFooter(s[p..k + |end| + TrailerAt(s, k + |end|)], end, lo)
  {
    var e := k + |end|;
    var t := TrailerAt(s, e);
    var b := s[p..e + t];
    assert |b| == e - p + t;
    EndLineOfSlice(s, p, e + t, k, end, lo);
    if t == 1 {
      assert b[|b| - 1] == s[e];
    } else if t == 2 {
      assert b[|b| - 2] == s[e] && b[|b| - 1] == s[e + 1];
    }
  }

  lemma BlockOfParts(s: string, p: nat, k: nat, t: nat, m: Markers)
    requires OccursAt(s, p, m.begin) && LineBreakAt(s, p + |m.begin|) > 0
    requires p + |m.begin| + LineBreakAt(s, p + |m.begin|) + 2 <= k
    requires OccursAt(s, k, m.end) && s[k - 1] == '\n' && t == TrailerAt(s, k + |m.end|)
    ensures IsBlock(s[p..k + |m.end| + t], m)
  {
    var b := s[p..k + |m.end| + t];
    var lo := |m.begin| + LineBreakAt(s, p + |m.begin|) + 1;
    HeaderOfSlice(s, p, k + |m.end| + t, m.begin);
    FooterOfSlice(s, p, k, m.end, lo);
    assert HasHeader(b, m.begin) && HeaderEnd(b, m.begin) + 1 == lo;
    assert HasFooter(b, m.end, lo);
  }

  lemma MatchIsBlock(s: string, p: nat, m: Markers)
    requires MatchAt(s, p, m).Some?
    ensures IsBlock(s[p..MatchAt(s, p, m).value], m)
  {
    var k, t := MatchParts(s, p, m);
    BlockOfParts(s, p, k, t, m);
  }

  /** `re.findall` from position `p` on: the matches, left to right, not overlapping. */
  function FindAllFrom(s: string, p: nat, m: Markers): seq<string>
    requires p <= |s|
    decreases |s| - p
  {
    if p == |s| then []
    else match MatchAt(s, p, m)
      case Some(e) => [s[p..e]] + FindAllFrom(s, e, m)
      case None => FindAllFrom(s, p + 1, m)
  }

  function FindAll(s: string, m: Markers): seq<string>
  {
    FindAllFrom(s, 0, m)
  }

  /** Every string found has the shape of a block. */
  lemma {:induction false} FindAllFromBlocks(s: string, p: nat, m: Markers)
    requires p <= |s|
    ensures forall i :: 0 <= i < |FindAllFrom(s, p, m)| ==> IsBlock(FindAllFrom(s, p, m)[i], m)
    decreases |s| - p
  {
    if p < |s| {
      match MatchAt(s, p, m)
      case Some(e) =>
        MatchIsBlock(s, p, m);
        FindAllFromBlocks(s, e, m);
      case None =>
        FindAllFromBlocks(s, p + 1, m);
    }
  }

  /** The text `FindAllFrom` passes over: one piece before each block and one after the last. */
  function GapsFrom(s: string, p: nat, m: Markers): (gaps: seq<string>)
    requires p <= |s|
    ensures |gaps| == |FindAllFrom(s, p, m)| + 1
    decreases |s| - p
  {
    if p == |s| then [""]
    else match MatchAt(s, p, m)
      case Some(e) => [""] + GapsFrom(s, e, m)
      case None =>
        var g := GapsFrom(s, p + 1, m);
        [[s[p]] + g[0]] + g[1..]
  }

  /** Gaps and blocks put back together, alternately and in order. */
  function Weave<T>(gaps: seq<seq<T>>, blocks: seq<seq<T>>): seq<T>
    requires |gaps| == |blocks| + 1
  {
    if blocks == [] then gaps[0]
    else gaps[0] + blocks[0] + Weave(gaps[1..], blocks[1..])
  }

  lemma AppendAssoc<T>(x: seq<T>, a: seq<T>, b: seq<T>, w: seq<T>)
    ensures (x + a) + b + w == x + (a + b + w)
  {
  }

  /** Text passed over before the first gap is passed over with it. */
  lemma WeaveWiderGap<T>(x: seq<T>, gaps: seq<seq<T>>, blocks: seq<seq<T>>)
    requires |gaps| == |blocks| + 1
    ensures Weave([x + gaps[0]] + gaps[1..], blocks) == x + Weave(gaps, blocks)
  {
    var gaps' := [x + gaps[0]] + gaps[1..];
    assert gaps'[0] == x + gaps[0];
    if blocks != [] {
      assert gaps'[1..] == gaps[1..];
      var w := Weave(gaps[1..], blocks[1..]);
      calc {
        Weave(gaps', blocks);
        gaps'[0] + blocks[0] + Weave(gaps'[1..], blocks[1..]);
        (x + gaps[0]) + blocks[0] + w;
        { AppendAssoc(x, gaps[0], blocks[0], w); }
        x + (gaps[0] + blocks[0] + w);
      }
    }
  }

  lemma WeaveCons<T>(g: seq<T>, b: seq<T>, gaps: seq<seq<T>>, blocks: seq<seq<T>>)
    requires |gaps| == |blocks| + 1
    ensures Weave([g] + gaps, [b] + blocks) == g + b + Weave(gaps, blocks)
  {
    assert ([g] + gaps)[1..] == gaps;
    assert ([b] + blocks)[1..] == blocks;
  }

  lemma SliceSplit<T>(s: seq<T>, p: nat, e: nat)
    requires p <= e <= |s|
    ensures s[p..e] + s[e..] == s[p..]
  {
  }

  /** A block found at `p` and ending at `e`, put back in front of the rest. */
  lemma WeaveMatch(s: string, p: nat, e: nat, gaps: seq<string>, blocks: seq<string>)
    requires p < e <= |s| && |gaps| == |blocks| + 1 && Weave(gaps, blocks) == s[e..]
    ensures Weave([""] + gaps, [s[p..e]] + blocks) == s[p..]
  {
    WeaveCons("", s[p..e], gaps, blocks);
    assert "" + s[p..e] == s[p..e];
    SliceSplit(s, p, e);
  }

  /** A character passed over at `p`, put back in front of the first gap. */
  lemma ConsSlice<T>(s: seq<T>, p: nat)
    requires p < |s|
    ensures [s[p]] + s[p + 1..] == s[p..]
  {
  }

  lemma WeaveSkip(s: string, p: nat, gaps: seq<string>, blocks: seq<string>)
    requires p < |s| && |gaps| == |blocks| + 1 && Weave(gaps, blocks) == s[p + 1..]
    ensures Weave([[s[p]] + gaps[0]] + gaps[1..], blocks) == s[p..]
  {
    WeaveWiderGap([s[p]], gaps, blocks);
    ConsSlice(s, p);
  }

  /** The blocks are contiguous, non-overlapping pieces of the input, in the
      order in which they appear in it: nothing is reordered, duplicated or
      invented. */
  lemma {:induction false} FindAllFromReassembles(s: string, p: nat, m: Markers)
    requires p <= |s|
    ensures Weave(GapsFrom(s, p, m), FindAllFrom(s, p, m)) == s[p..]
    decreases |s| - p
  {
    if p < |s| {
      match MatchAt(s, p, m)
      case Some(e) =>
        FindAllFromReassembles(s, e, m);
        WeaveMatch(s, p, e, GapsFrom(s, e, m), FindAllFrom(s, e, m));
      case None =>
        FindAllFromReassembles(s, p + 1, m);
        WeaveSkip(s, p, GapsFrom(s, p + 1, m), FindAllFrom(s, p + 1, m));
    }
  }

  /** `FindAllFrom` yields nothing exactly when the pattern matches at no
      position from `p` on. */
  lemma {:induction false} FindAllFromEmptyIff(s: string, p: nat, m: Markers)
    requires p <= |s|
    ensures FindAllFrom(s, p, m) == [] <==> forall i :: p <= i < |s| ==> MatchAt(s, i, m).None?
    decreases |s| - p
  {
    if p < |s| && MatchAt(s, p, m).None? {
      FindAllFromEmptyIff(s, p + 1, m);
    }
  }

  /** A block in standard armour: base64 text between the two lines, with
      `\n` or `\r\n` line breaks, and a line break after the END line when
      `trailer` holds. */
  datatype Armoured = Armoured(body: string, crlf: bool, trailer: bool)

  function Eol(crlf: bool): string
  {
    if crlf then "\r\n" else "\n"
  }

  /** What follows the END line of an armoured block. */
  function Trailer(a: Armoured): string
  {
    if a.trailer then Eol(a.crlf) else ""
  }

  function Armour(a: Armoured, m: Markers): string
  {
    m.begin + (Eol(a.crlf) + (a.body + (Eol(a.crlf) + (m.end + Trailer(a)))))
  }

  /** Base64 text (with its line breaks) is non-empty and holds no dash. */
  predicate IsBase64Text(body: string)
  {
    |body| > 0 && forall i :: 0 <= i < |body| ==> body[i] != '-'
  }

  function ArmourAll(cs: seq<Armoured>, m: Markers): (r: seq<string>)
    ensures |r| == |cs|
  {
    if cs == [] then [] else [Armour(cs[0], m)] + ArmourAll(cs[1..], m)
  }

  lemma {:induction false} ArmourAllIndex(cs: seq<Armoured>, m: Markers)
    ensures forall i :: 0 <= i < |cs| ==> ArmourAll(cs, m)[i] == Armour(cs[i], m)
  {
    if cs != [] {
      ArmourAllIndex(cs[1..], m);
      assert forall i :: 0 < i < |cs| ==> ArmourAll(cs, m)[i] == ArmourAll(cs[1..], m)[i - 1];
    }
  }

  function Concat(blocks: seq<string>): string
  {
    if blocks == [] then "" else blocks[0] + Concat(blocks[1..])
  }

  lemma {:induction false} OccursSplit(s: string, p: nat, u: string, v: string)
    requires OccursAt(s, p, u + v)
    ensures OccursAt(s, p, u) && OccursAt(s, p + |u|, v)
    decreases |u|
  {
    if u == [] {
      assert u + v == v;
    } else {
      assert (u + v)[0] == u[0];
      assert (u + v)[1..] == u[1..] + v;
      OccursSplit(s, p + 1, u[1..], v);
    }
  }

  lemma EolAt(s: string, x: nat, crlf: bool)
    requires OccursAt(s, x, Eol(crlf))
    ensures LineBreakAt(s, x) == |Eol(crlf)| && TrailerAt(s, x) == |Eol(crlf)|
    ensures s[x] != '-' && s[x + |Eol(crlf)| - 1] == '\n'
  {
    OccursAtIndex(s, x, Eol(crlf), 0);
    if crlf {
      OccursAtIndex(s, x, Eol(crlf), 1);
    }
  }

  lemma NoDashAt(s: string, x: nat, body: string)
    requires OccursAt(s, x, body) && IsBase64Text(body)
    ensures forall i :: x <= i < x + |body| ==> s[i] != '-'
  {
    forall i | x <= i < x + |body| ensures s[i] != '-' {
      OccursAtIndex(s, x, body, i - x);
    }
  }

  /** The BEGIN line and the line break after it, then the rest. */
  lemma ArmourFront(s: string, p: nat, begin: string, eol: string, rest: string)
    requires OccursAt(s, p, begin + (eol + rest))
    ensures OccursAt(s, p, begin) && OccursAt(s, p + |begin|, eol)
    ensures OccursAt(s, p + |begin| + |eol|, rest)
  {
    OccursSplit(s, p, begin, eol + rest);
    OccursSplit(s, p + |begin|, eol, rest);
  }

  /** The base64 text, its line break, the END line and what follows it. */
  lemma ArmourBack(s: string, h: nat, body: string, eol: string, end: string, tr: string)
    requires OccursAt(s, h, body + (eol + (end + tr)))
    ensures OccursAt(s, h, body) && OccursAt(s, h + |body|, eol)
    ensures OccursAt(s, h + |body| + |eol|, end) && OccursAt(s, h + |body| + |eol| + |end|, tr)
  {
    OccursSplit(s, h, body, eol + (end + tr));
    OccursSplit(s, h + |body|, eol, end + tr);
    OccursSplit(s, h + |body| + |eol|, end, tr);
  }

  /** Where the six pieces of an armoured block lie. */
  lemma ArmourPieces(s: string, p: nat, a: Armoured, m: Markers)
    requires OccursAt(s, p, Armour(a, m))
    ensures var B, L, n := |m.begin|, |Eol(a.crlf)|, |a.body|;
      |Armour(a, m)| == B + L + n + L + |m.end| + |Trailer(a)| &&
      OccursAt(s, p, m.begin) && OccursAt(s, p + B, Eol(a.crlf)) &&
      OccursAt(s, p + B + L, a.body) && OccursAt(s, p + B + L + n, Eol(a.crlf)) &&
      OccursAt(s, p + B + L + n + L, m.end) && OccursAt(s, p + B + L + n + L + |m.end|, Trailer(a))
  {
    var eol := Eol(a.crlf);
    var back := a.body + (eol + (m.end + Trailer(a)));
    ArmourFront(s, p, m.begin, eol, back);
    ArmourBack(s, p + |m.begin| + |eol|, a.body, eol, m.end, Trailer(a));
  }

  /** The lazy body of an armoured block ends where its base64 text does. */
  lemma ArmourBodyEnd(s: string, h: nat, crlf: bool, body: string, end: string) returns (j: nat)
    requires |end| > 0 && end[0] == '-' && IsBase64Text(body)
    requires OccursAt(s, h, body) && OccursAt(s, h + |body|, Eol(crlf))
    requires OccursAt(s, h + |body| + |Eol(crlf)|, end)
    ensures FindEnd(s, h + 1, end) == Some(j)
    ensures EndTailAt(s, j, end) == Some(h + |body| + |Eol(crlf)|)
  {
    var n, L := |body|, |Eol(crlf)|;
    EolAt(s, h + n, crlf);
    assert EndTailAt(s, h + n, end) == Some(h + n + L);
    NoDashAt(s, h, body);
    j := FirstEndTail(s, h + 1, h + n, h + n + L, end);
  }

  /** The lazy body stops at the first END line: when no dash comes before
      it, that is the END line the tail at `j0` reaches. */
  lemma FirstEndTail(s: string, from: nat, j0: nat, E: nat, end: string) returns (j: nat)
    requires from <= j0 < E && EndTailAt(s, j0, end) == Some(E)
    requires |end| > 0 && end[0] == '-'
    requires forall i :: from < i < E ==> s[i] != '-'
    ensures FindEnd(s, from, end) == Some(j) && EndTailAt(s, j, end) == Some(E)
  {
    FindEndIsLeast(s, from, j0, end);
    j := FindEnd(s, from, end).value;
    var k := EndTailAt(s, j, end).value;
    assert s[k] == end[0];
    assert s[E] == end[0];
  }

  /** `MatchAt` read off from the places where its pieces match. */
  lemma MatchOfParts(s: string, p: nat, m: Markers, L: nat, j: nat, E: nat, r: nat)
    requires OccursAt(s, p, m.begin) && LineBreakAt(s, p + |m.begin|) == L && L > 0
    requires FindEnd(s, p + |m.begin| + L + 1, m.end) == Some(j) && EndTailAt(s, j, m.end) == Some(E)
    requires E + |m.end| <= |s| && r == E + |m.end| + TrailerAt(s, E + |m.end|)
    ensures MatchAt(s, p, m) == Some(r)
  {
  }

  /** The pattern matches an armoured block exactly, whatever precedes it,
      when a block without its last line break is not followed by one. */
  lemma MatchArmouredAt(s: string, p: nat, a: Armoured, m: Markers)
    requires ValidMarkers(m) && IsBase64Text(a.body) && OccursAt(s, p, Armour(a, m))
    requires !a.trailer ==> TrailerAt(s, p + |Armour(a, m)|) == 0
    ensures MatchAt(s, p, m) == Some(p + |Armour(a, m)|)
  {
    ArmourPieces(s, p, a, m);
    var L, n := |Eol(a.crlf)|, |a.body|;
    var x := p + |m.begin| + L + n + L + |m.end|;
    if a.trailer {
      EolAt(s, x, a.crlf);
    }
    MatchOfPieces(s, p, |m.begin|, n, a.crlf, a.body, |Trailer(a)|, m);
  }

  /** The same, from the pieces and the length of the trailer after them. */
  lemma MatchOfPieces(s: string, p: nat, B: nat, n: nat, crlf: bool, body: string, t: nat, m: Markers)
    requires ValidMarkers(m) && IsBase64Text(body) && B == |m.begin| && n == |body|
    requires var L := |Eol(crlf)|;
      OccursAt(s, p, m.begin) && OccursAt(s, p + B, Eol(crlf)) &&
      OccursAt(s, p + B + L, body) && OccursAt(s, p + B + L + n, Eol(crlf)) &&
      OccursAt(s, p + B + L + n + L, m.end) && TrailerAt(s, p + B + L + n + L + |m.end|) == t
    ensures var L := |Eol(crlf)|; MatchAt(s, p, m) == Some(p + B + L + n + L + |m.end| + t)
  {
    var L := |Eol(crlf)|;
    EolAt(s, p + B, crlf);
    var j := ArmourBodyEnd(s, p + B + L, crlf, body, m.end);
    MatchOfParts(s, p, m, L, j, p + B + L + n + L, p + B + L + n + L + |m.end| + t);
  }

  /** A match at `p` is the next block, and the search resumes where it ends. */
  lemma FindAllFromMatch(s: string, p: nat, e: nat, m: Markers)
    requires p < |s| && MatchAt(s, p, m) == Some(e)
    ensures FindAllFrom(s, p, m) == [s[p..e]] + FindAllFrom(s, e, m)
  {
  }

  /** Text that starts with `u` at `p` holds `u` there, followed by the rest. */
  lemma {:induction false} OccursAtHead(s: string, p: nat, u: string, v: string)
    requires p <= |s| && s[p..] == u + v
    ensures OccursAt(s, p, u)
    decreases |u|
  {
    if u != [] {
      assert s[p] == s[p..][0] == u[0];
      assert s[p + 1..] == s[p..][1..] == u[1..] + v;
      OccursAtHead(s, p + 1, u[1..], v);
    }
  }

  /** The same, as slices. */
  lemma HeadSlices(s: string, p: nat, u: string, v: string)
    requires p <= |s| && s[p..] == u + v
    ensures p + |u| <= |s| && s[p..p + |u|] == u && s[p + |u|..] == v
  {
    assert s[p..p + |u|] == s[p..][..|u|];
    assert s[p + |u|..] == s[p..][|u|..];
  }

  /** An armoured block at `p` is the next block found, when a block without
      its last line break is followed by nothing or by a dash. */
  lemma ArmouredStep(s: string, p: nat, c: Armoured, rest: string, m: Markers)
    requires ValidMarkers(m) && IsBase64Text(c.body)
    requires p <= |s| && s[p..] == Armour(c, m) + rest
    requires !c.trailer ==> rest == [] || rest[0] == '-'
    ensures p + |Armour(c, m)| <= |s| && s[p + |Armour(c, m)|..] == rest
    ensures FindAllFrom(s, p, m) == [Armour(c, m)] + FindAllFrom(s, p + |Armour(c, m)|, m)
  {
    var a := Armour(c, m);
    OccursAtHead(s, p, a, rest);
    HeadSlices(s, p, a, rest);
    if rest != [] {
      assert s[p + |a|] == rest[0];
    }
    MatchArmouredAt(s, p, c, m);
    BlockStep(s, p, a, rest, m);
  }

  /** A block `a` matched at the head of `s[p..]` is the next one found. */
  lemma BlockStep(s: string, p: nat, a: string, rest: string, m: Markers)
    requires p < |s| && s[p..] == a + rest && MatchAt(s, p, m) == Some(p + |a|)
    ensures p + |a| <= |s| && s[p + |a|..] == rest
    ensures FindAllFrom(s, p, m) == [a] + FindAllFrom(s, p + |a|, m)
  {
    HeadSlices(s, p, a, rest);
    FindAllFromMatch(s, p, p + |a|, m);
  }

  /** Every block of `cs` has base64 text, as a recursive predicate. */
  predicate AllBase64(cs: seq<Armoured>)
  {
    cs == [] || (IsBase64Text(cs[0].body) && AllBase64(cs[1..]))
  }

  lemma {:induction false} AllBase64Holds(cs: seq<Armoured>)
    requires forall i :: 0 <= i < |cs| ==> IsBase64Text(cs[i].body)
    ensures AllBase64(cs)
  {
    if cs != [] {
      assert forall i :: 0 <= i < |cs| - 1 ==> cs[1..][i] == cs[i + 1];
      AllBase64Holds(cs[1..]);
    }
  }

  /** Armoured blocks laid end to end start with the BEGIN line's dash. */
  lemma ConcatArmourHead(cs: seq<Armoured>, m: Markers)
    requires ValidMarkers(m)
    ensures Concat(ArmourAll(cs, m)) == [] || Concat(ArmourAll(cs, m))[0] == '-'
  {
    if cs != [] {
      ArmourAllCons(cs, m);
      assert Armour(cs[0], m)[0] == m.begin[0];
    }
  }

  /** N blocks in standard armour, concatenated, are found again as exactly
      those N blocks, in order. */
  lemma {:induction false} FindAllFromArmoured(s: string, p: nat, cs: seq<Armoured>, m: Markers)
    requires ValidMarkers(m) && AllBase64(cs)
    requires p <= |s| && s[p..] == Concat(ArmourAll(cs, m))
    ensures FindAllFrom(s, p, m) == ArmourAll(cs, m)
    decreases |cs|
  {
    if cs == [] {
      assert |s[p..]| == 0;
      assert p == |s|;
    } else {
      var a, rest := Armour(cs[0], m), Concat(ArmourAll(cs[1..], m));
      ArmourAllCons(cs, m);
      ConcatArmourHead(cs[1..], m);
      ArmouredStep(s, p, cs[0], rest, m);
      FindAllFromArmoured(s, p + |a|, cs[1..], m);
    }
  }

  lemma ArmourAllCons(cs: seq<Armoured>, m: Markers)
    requires cs != []
    ensures ArmourAll(cs, m) == [Armour(cs[0], m)] + ArmourAll(cs[1..], m)
    ensures Concat(ArmourAll(cs, m)) == Armour(cs[0], m) + Concat(ArmourAll(cs[1..], m))
  {
    var blocks := ArmourAll(cs, m);
    assert blocks[1..] == ArmourAll(cs[1..], m);
  }

  lemma FindAllOfArmoured(cs: seq<Armoured>, m: Markers)
    requires ValidMarkers(m) && AllBase64(cs)
    ensures FindAll(Concat(ArmourAll(cs, m)), m) == ArmourAll(cs, m)
  {
    var s := Concat(ArmourAll(cs, m));
    assert s[0..] == s;
    FindAllFromArmoured(s, 0, cs, m);
  }

  /** `split_pem_chain`. */
  function SplitPemChain(pemData: string): seq<string>
  {
    FindAll(pemData, CertificateMarkers)
  }

  /** Every string returned is a BEGIN line and its line break, a non-empty
      body, a `\n`, and an END line with at most one trailing line break. */
  lemma SplitPemChainBlocks(pemData: string)
    ensures forall i :: 0 <= i < |SplitPemChain(pemData)| ==> IsBlock(SplitPemChain(pemData)[i], CertificateMarkers)
  {
    FindAllFromBlocks(pemData, 0, CertificateMarkers);
  }

  /** The certificates come out in input order, as contiguous pieces of the
      input that do not overlap: woven with the text between them they give
      the input back. */
  lemma SplitPemChainInOrder(pemData: string)
    ensures Weave(GapsFrom(pemData, 0, CertificateMarkers), SplitPemChain(pemData)) == pemData
  {
    FindAllFromReassembles(pemData, 0, CertificateMarkers);
  }

  /** No certificate comes out of text in which the pattern matches nowhere. */
  lemma SplitPemChainEmptyIff(pemData: string)
    ensures SplitPemChain(pemData) == [] <==>
      forall i :: 0 <= i < |pemData| ==> MatchAt(pemData, i, CertificateMarkers).None?
  {
    FindAllFromEmptyIff(pemData, 0, CertificateMarkers);
  }

  /** Both certificate marker lines start with a dash. */
  lemma CertificateMarkersValid()
    ensures ValidMarkers(CertificateMarkers)
  {
  }

  /** N concatenated certificates in standard armour give exactly N blocks,
      whether or not each (the last one included) ends in a line break. */
  lemma SplitPemChainOfArmoured(cs: seq<Armoured>)
    requires forall i :: 0 <= i < |cs| ==> IsBase64Text(cs[i].body)
    ensures SplitPemChain(Concat(ArmourAll(cs, CertificateMarkers))) == ArmourAll(cs, CertificateMarkers)
  {
    AllBase64Holds(cs);
    CertificateMarkersValid();
    FindAllOfArmoured(cs, CertificateMarkers);
  }
}
