/** The ABI encoding helpers that turn big integers, RSA group elements and
    Pocklington certificates into `ethabi` tokens, and the loop that writes
    the RSA modulus into the `RSA2048.sol` library source as 256-bit words. */
module Solidity {
  import opened Wrappers
  import opened Bigint
  import opened Hex
  import RsaHog

  // ---------------------------------------------------------------------
  // pad_to_32_byte_offset
  // ---------------------------------------------------------------------

  /** `32 * ((n - 1) / 32 + 1)`: a multiple of 32 that holds `n` bytes with
      fewer than 32 to spare. */
  function PadLength(n: nat): (len: nat)
    requires n > 0
    ensures len % 32 == 0 && n <= len < n + 32
  {
    var q := (n - 1) / 32;
    assert n - 1 == 32 * q + (n - 1) % 32;
    32 * (q + 1)
  }

  /** `pad_to_32_byte_offset` as a value: zero bytes in front of the input up
      to the next multiple of 32. `bytes.len() - 1` underflows on an empty
      input, hence the precondition. */
  function PaddedTo32(bytes: seq<byte>): (r: seq<byte>)
    requires |bytes| > 0
    ensures |r| == PadLength(|bytes|)
    ensures r == Zeros(|r| - |bytes|) + bytes
  {
    Zeros(PadLength(|bytes|) - |bytes|) + bytes
  }

  /** No shorter multiple of 32 holds the input. */
  lemma PaddedTo32Least(bytes: seq<byte>, len: nat)
    requires |bytes| > 0 && len % 32 == 0 && len >= |bytes|
    ensures |PaddedTo32(bytes)| <= len
  {
  }

  /** An input already a multiple of 32 long comes back unchanged. */
  lemma PaddedTo32Idempotent(bytes: seq<byte>)
    requires |bytes| > 0 && |bytes| % 32 == 0
    ensures PaddedTo32(bytes) == bytes
  {
    PaddedTo32Least(bytes, |bytes|);
    assert Zeros(0) + bytes == bytes;
  }

  /** Padding does not change the big-endian value. */
  lemma PaddedTo32Value(bytes: seq<byte>)
    requires |bytes| > 0
    ensures FromBytesBe(PaddedTo32(bytes)) == FromBytesBe(bytes)
  {
    FromBytesBeLeadingZeros(PadLength(|bytes|) - |bytes|, bytes);
  }

  /** The sequence read back to front. */
  function Reversed(s: seq<byte>): (r: seq<byte>)
    ensures |r| == |s| && forall i :: 0 <= i < |s| ==> r[i] == s[|s| - 1 - i]
  {
    if s == [] then [] else Reversed(s[1..]) + [s[0]]
  }

  /** `Vec::reverse`, in place. */
  method Reverse(a: array<byte>)
    modifies a
    ensures a[..] == Reversed(old(a[..]))
  {
    var i, j := 0, a.Length - 1;
    while i < j
      invariant 0 <= i && i + j == a.Length - 1 && i <= j + 1
      invariant forall k :: 0 <= k < i ==> a[k] == old(a[a.Length - 1 - k]) && a[a.Length - 1 - k] == old(a[k])
      invariant forall k :: i <= k <= j ==> a[k] == old(a[k])
    {
      a[i], a[j] := a[j], a[i];
      i, j := i + 1, j - 1;
    }
  }

  /** `Vec::resize(len, 0)` for a length at least the current one: the
      contents followed by zeros, in a new buffer. */
  method Resize(a: array<byte>, len: nat) returns (b: array<byte>)
    requires len >= a.Length
    ensures fresh(b) && b[..] == a[..] + Zeros(len - a.Length)
  {
    b := new byte[len];
    var i := 0;
    while i < len
      invariant 0 <= i <= len
      invariant forall k :: 0 <= k < i ==> b[k] == if k < a.Length then a[k] else 0
    {
      b[i] := if i < a.Length then a[i] else 0;
      i := i + 1;
    }
    assert b[..] == a[..] + Zeros(len - a.Length);
  }

  /** Padding at the back of the reversed input is padding at the front of
      the input. */
  lemma ReversedPadding(bytes: seq<byte>, k: nat)
    ensures Reversed(Reversed(bytes) + Zeros(k)) == Zeros(k) + bytes
  {
    var r := Reversed(Reversed(bytes) + Zeros(k));
    forall i | 0 <= i < |r|
      ensures r[i] == (Zeros(k) + bytes)[i]
    {
      if i >= k {
        assert r[i] == Reversed(bytes)[|r| - 1 - i];
      }
    }
  }

  /** `pad_to_32_byte_offset`: reverse, extend with zeros, reverse again. */
  method PadTo32ByteOffset(bytes: seq<byte>) returns (padded: seq<byte>)
    requires |bytes| > 0
    ensures padded == PaddedTo32(bytes)
  {
    var padLen := PadLength(|bytes|);
    var buf := new byte[|bytes|](i requires 0 <= i < |bytes| => bytes[i]);
    assert buf[..] == bytes;
    Reverse(buf);
    var resized := Resize(buf, padLen);
    Reverse(resized);
    padded := resized[..];
    ReversedPadding(bytes, padLen - |bytes|);
  }

  // ---------------------------------------------------------------------
  // Tokens
  // ---------------------------------------------------------------------

  /** The `ethabi::Token` variants the encoders use. */
  datatype Token =
    | Bytes(bytes: seq<byte>)
    | Bool(flag: bool)
    | Uint(value: nat)
    | Array(elements: seq<Token>)
    | Tuple(fields: seq<Token>)

  /** `encode_bigint`: the padded big-endian magnitude and the sign flag. */
  function EncodeBigint(n: int): (t: Token)
    ensures t.Tuple? && |t.fields| == 2 && t.fields[0].Bytes? && t.fields[1].Bool?
    ensures t.fields[1].flag <==> n < 0
  {
    Tuple([Bytes(PaddedTo32(ToBytesBe(Abs(n)))), Bool(n < 0)])
  }

  function Abs(n: int): nat
  {
    if n < 0 then -n else n
  }

  /** The bytes of `encode_bigint` fill whole 32-byte words and hold the
      magnitude big-endian. */
  lemma EncodeBigintMagnitude(n: int)
    ensures var bytes := EncodeBigint(n).fields[0].bytes;
      && |bytes| == PadLength(|ToBytesBe(Abs(n))|)
      && |bytes| > 0 && |bytes| % 32 == 0 && FromBytesBe(bytes) == Abs(n)
  {
    PaddedTo32Value(ToBytesBe(Abs(n)));
  }

  /** Reading an `encode_bigint` token back. */
  function DecodeBigint(t: Token): (r: Option<int>)
    ensures r.Some? <==> t.Tuple? && |t.fields| == 2 && t.fields[0].Bytes? && t.fields[1].Bool?
  {
    match t
    case Tuple(fs) =>
      if |fs| == 2 && fs[0].Bytes? && fs[1].Bool? then
        var v: int := FromBytesBe(fs[0].bytes);
        Some(if fs[1].flag then -v else v)
      else None
    case _ => None
  }

  lemma BigintRoundTrip(n: int)
    ensures DecodeBigint(EncodeBigint(n)) == Some(n)
  {
    EncodeBigintMagnitude(n);
  }

  /** `encode_rsa_element`: a one-field tuple around the element's value. */
  function EncodeRsaElement(e: RsaHog.RsaHiddenOrderGroup): (t: Token)
    ensures t.Tuple? && |t.fields| == 1 && DecodeBigint(t.fields[0]) == Some(e.n as int)
    ensures t.fields[0] == EncodeBigint(e.n)
  {
    BigintRoundTrip(e.n);
    Tuple([EncodeBigint(e.n)])
  }

  function DecodeRsaElement(t: Token): (r: Option<RsaHog.RsaHiddenOrderGroup>)
  {
    match t
    case Tuple(fs) =>
      if |fs| == 1 then
        var n :- DecodeBigint(fs[0]);
        if n >= 0 then Some(RsaHog.RsaHiddenOrderGroup(n)) else None
      else None
    case _ => None
  }

  lemma RsaElementRoundTrip(e: RsaHog.RsaHiddenOrderGroup)
    ensures DecodeRsaElement(EncodeRsaElement(e)) == Some(e)
  {
    BigintRoundTrip(e.n);
  }

  // ---------------------------------------------------------------------
  // Pocklington certificates and PoE proofs
  // ---------------------------------------------------------------------

  /** A step of a Pocklington certificate; the last nine fields are the
      optional witnesses. */
  datatype StepCert = StepCert(
    f: int, n: nat, n2: nat, a: int, bu: int, bv: int,
    v: Option<int>, s: Option<int>, exprSqrt: Option<int>,
    pLessOneDivF: Option<int>, pLessOneDivTwo: Option<int>,
    bPDivF1: Option<int>, bPDivF2: Option<int>,
    bPDivTwo1: Option<int>, bPDivTwo2: Option<int>)
  {
    /** Every optional witness is present. */
    predicate Complete()
    {
      v.Some? && s.Some? && exprSqrt.Some? && pLessOneDivF.Some? && pLessOneDivTwo.Some?
      && bPDivF1.Some? && bPDivF2.Some? && bPDivTwo1.Some? && bPDivTwo2.Some?
    }
  }

  datatype PocklingtonCert = PocklingtonCert(stepCertificates: seq<StepCert>, nonce: nat)

  /** A proof of exponentiation: the quotient element and the certificate of
      its prime challenge. */
  datatype PoeProof = PoeProof(q: RsaHog.RsaHiddenOrderGroup, cert: PocklingtonCert)

  /** `encode_pocklington_step_certificate`: fifteen fields in declaration
      order; `None` where an `unwrap` of a missing witness panics. */
  function EncodeStepCertificate(c: StepCert): (t: Option<Token>)
    ensures t.Some? <==> c.Complete()
    ensures t.Some? ==> t.value.Tuple? && |t.value.fields| == 15
    ensures t.Some? ==>
      && t.value.fields[0] == EncodeBigint(c.f)
      && t.value.fields[1] == Uint(c.n)
      && t.value.fields[2] == Uint(c.n2)
      && forall i :: 3 <= i < 15 ==> t.value.fields[i] == EncodeBigint(BigintFields(c)[i - 3])
  {
    if c.Complete() then Some(Tuple(StepFields(c))) else None
  }

  /** The twelve big-integer fields of a complete step after `n2`, in the
      order the encoder pushes them. */
  function BigintFields(c: StepCert): (xs: seq<int>)
    requires c.Complete()
    ensures |xs| == 12
  {
    [ c.a, c.bu, c.bv, c.v.value, c.s.value, c.exprSqrt.value,
      c.pLessOneDivF.value, c.pLessOneDivTwo.value,
      c.bPDivF1.value, c.bPDivF2.value, c.bPDivTwo1.value, c.bPDivTwo2.value ]
  }

  /** The fifteen tokens of a complete step: `f`, `n`, `n2`, then the big
      integers of `BigintFields`. */
  function StepFields(c: StepCert): (fs: seq<Token>)
    requires c.Complete()
    ensures |fs| == 15
  {
    [EncodeBigint(c.f), Uint(c.n), Uint(c.n2)] + EncodeBigints(BigintFields(c))
  }

  /** `encode_bigint` applied to each integer, in order. */
  function EncodeBigints(xs: seq<int>): (ts: seq<Token>)
    ensures |ts| == |xs| && forall i :: 0 <= i < |xs| ==> ts[i] == EncodeBigint(xs[i])
  {
    seq(|xs|, i requires 0 <= i < |xs| => EncodeBigint(xs[i]))
  }

  function DecodeBigints(ts: seq<Token>): Option<seq<int>>
  {
    if ts == [] then Some([])
    else
      var head :- DecodeBigint(ts[0]);
      var tail :- DecodeBigints(ts[1..]);
      Some([head] + tail)
  }

  /** Tokens that decode one by one decode together. */
  lemma {:induction false} DecodeBigintsEach(ts: seq<Token>, xs: seq<int>)
    requires |ts| == |xs| && forall i :: 0 <= i < |ts| ==> DecodeBigint(ts[i]) == Some(xs[i])
    ensures DecodeBigints(ts) == Some(xs)
  {
    if ts != [] {
      assert DecodeBigint(ts[0]) == Some(xs[0]);
      DecodeBigintsEach(ts[1..], xs[1..]);
      assert [xs[0]] + xs[1..] == xs;
    }
  }

  lemma BigintsRoundTrip(xs: seq<int>)
    ensures DecodeBigints(EncodeBigints(xs)) == Some(xs)
  {
    var ts := EncodeBigints(xs);
    forall i | 0 <= i < |xs|
      ensures DecodeBigint(ts[i]) == Some(xs[i])
    {
      BigintRoundTrip(xs[i]);
    }
    DecodeBigintsEach(ts, xs);
  }

  /** Reading a step token back, field by field in the encoder's order. */
  function DecodeStepCertificate(t: Token): Option<StepCert>
  {
    if t.Tuple? && |t.fields| == 15 && t.fields[1].Uint? && t.fields[2].Uint? then
      var f :- DecodeBigint(t.fields[0]);
      var xs :- DecodeBigints(t.fields[3..]);
      if |xs| == 12 then
        Some(StepCert(f, t.fields[1].value, t.fields[2].value, xs[0], xs[1], xs[2],
          Some(xs[3]), Some(xs[4]), Some(xs[5]), Some(xs[6]), Some(xs[7]),
          Some(xs[8]), Some(xs[9]), Some(xs[10]), Some(xs[11])))
      else None
    else None
  }

  /** Every field of a complete step is recovered from its token. */
  lemma StepCertificateRoundTrip(c: StepCert)
    requires c.Complete()
    ensures DecodeStepCertificate(EncodeStepCertificate(c).value) == Some(c)
  {
    var fs := StepFields(c);
    assert fs[3..] == EncodeBigints(BigintFields(c));
    BigintRoundTrip(c.f);
    BigintsRoundTrip(BigintFields(c));
  }

  /** The steps encoded one by one, in order; `None` at the first step that
      panics. */
  function EncodeSteps(steps: seq<StepCert>): (ts: Option<seq<Token>>)
    ensures ts.Some? <==> forall i :: 0 <= i < |steps| ==> steps[i].Complete()
    ensures ts.Some? ==>
      && |ts.value| == |steps|
      && forall i :: 0 <= i < |steps| ==> ts.value[i] == EncodeStepCertificate(steps[i]).value
  {
    if steps == [] then Some([])
    else
      var head :- EncodeStepCertificate(steps[0]);
      var tail :- EncodeSteps(steps[1..]);
      Some([head] + tail)
  }

  function DecodeSteps(ts: seq<Token>): Option<seq<StepCert>>
  {
    if ts == [] then Some([])
    else
      var head :- DecodeStepCertificate(ts[0]);
      var tail :- DecodeSteps(ts[1..]);
      Some([head] + tail)
  }

  lemma {:induction false} StepsRoundTrip(steps: seq<StepCert>)
    requires forall i :: 0 <= i < |steps| ==> steps[i].Complete()
    ensures DecodeSteps(EncodeSteps(steps).value) == Some(steps)
  {
    if steps != [] {
      StepCertificateRoundTrip(steps[0]);
      StepsRoundTrip(steps[1..]);
      assert EncodeSteps(steps).value[1..] == EncodeSteps(steps[1..]).value;
      assert [steps[0]] + steps[1..] == steps;
    }
  }

  /** `encode_pocklington_certificate`: the array of step tokens in order,
      then the nonce. */
  function EncodePocklingtonCertificate(cert: PocklingtonCert): (t: Option<Token>)
    ensures t.Some? <==> forall i :: 0 <= i < |cert.stepCertificates| ==> cert.stepCertificates[i].Complete()
    ensures t.Some? ==>
      && t.value.Tuple? && |t.value.fields| == 2 && t.value.fields[0].Array?
      && t.value.fields[1] == Uint(cert.nonce)
      && |t.value.fields[0].elements| == |cert.stepCertificates|
      && forall i :: 0 <= i < |cert.stepCertificates| ==>
           t.value.fields[0].elements[i] == EncodeStepCertificate(cert.stepCertificates[i]).value
  {
    var steps :- EncodeSteps(cert.stepCertificates);
    Some(Tuple([Array(steps), Uint(cert.nonce)]))
  }

  function DecodePocklingtonCertificate(t: Token): Option<PocklingtonCert>
  {
    if t.Tuple? && |t.fields| == 2 && t.fields[0].Array? && t.fields[1].Uint? then
      var steps :- DecodeSteps(t.fields[0].elements);
      Some(PocklingtonCert(steps, t.fields[1].value))
    else None
  }

  lemma PocklingtonCertificateRoundTrip(cert: PocklingtonCert)
    requires forall i :: 0 <= i < |cert.stepCertificates| ==> cert.stepCertificates[i].Complete()
    ensures DecodePocklingtonCertificate(EncodePocklingtonCertificate(cert).value) == Some(cert)
  {
    StepsRoundTrip(cert.stepCertificates);
  }

  /** `encode_poe_proof`: the quotient element, then the certificate. */
  function EncodePoeProof(proof: PoeProof): (t: Option<Token>)
    ensures t.Some? <==> EncodePocklingtonCertificate(proof.cert).Some?
    ensures t.Some? ==> t.value == Tuple([EncodeRsaElement(proof.q), EncodePocklingtonCertificate(proof.cert).value])
  {
    var cert :- EncodePocklingtonCertificate(proof.cert);
    Some(Tuple([EncodeRsaElement(proof.q), cert]))
  }

  function DecodePoeProof(t: Token): Option<PoeProof>
  {
    if t.Tuple? && |t.fields| == 2 then
      var q :- DecodeRsaElement(t.fields[0]);
      var cert :- DecodePocklingtonCertificate(t.fields[1]);
      Some(PoeProof(q, cert))
    else None
  }

  lemma PoeProofRoundTrip(proof: PoeProof)
    requires forall i :: 0 <= i < |proof.cert.stepCertificates| ==> proof.cert.stepCertificates[i].Complete()
    ensures DecodePoeProof(EncodePoeProof(proof).value) == Some(proof)
  {
    RsaElementRoundTrip(proof.q);
    PocklingtonCertificateRoundTrip(proof.cert);
  }

  // ---------------------------------------------------------------------
  // get_rsa_library_src: the modulus as 256-bit words
  // ---------------------------------------------------------------------

  /** What separates two assignments: a newline and eight spaces. */
  const Separator: string := "\n        "

  /** The `j`-th group of four limbs, least significant limb first. */
  function Chunk(limbs: seq<u64>, j: nat): (c: seq<u64>)
    requires 4 * j + 4 <= |limbs|
    ensures |c| == 4
  {
    limbs[4 * j..4 * j + 4]
  }

  /** Sixteen hexadecimal digits span one limb. */
  lemma HexLimbBase()
    ensures Pow(16, 16) == LimbBase
  {
    PowMul(16, 2, 8);
    assert Pow(16, 2) == 256;
    assert Pow(256, 8) == 0x1_0000_0000_0000_0000;
  }

  /** Limbs as hexadecimal text, the highest limb first, each as
      `hex::encode(limb.to_be_bytes())`. */
  function LimbsHex(c: seq<u64>): (s: string)
    ensures |s| == 16 * |c| && forall i :: 0 <= i < |s| ==> IsHexDigit(s[i])
  {
    if c == [] then "" else LimbsHex(c[1..]) + Hex16(c[0])
  }

  /** Read as a number, the text is the limbs' value. */
  lemma {:induction false} LimbsHexValue(c: seq<u64>)
    ensures HexValue(LimbsHex(c)) == LimbsValue(c)
  {
    if c != [] {
      LimbsHexValue(c[1..]);
      HexValueAppend(LimbsHex(c[1..]), Hex16(c[0]));
      Hex16Value(c[0]);
      HexLimbBase();
    }
  }

  /** The limbs' text is the only hexadecimal text of its length with the
      limbs' value. */
  lemma LimbsHexUnique(c: seq<u64>, t: string)
    requires |t| == 16 * |c| && forall j :: 0 <= j < |t| ==> IsHexDigit(t[j])
    requires HexValue(t) == LimbsValue(c)
    ensures t == LimbsHex(c)
  {
    LimbsHexValue(c);
    HexTextUnique(t, LimbsHex(c));
  }

  /** Lower limbs are written after higher ones. */
  lemma {:induction false} LimbsHexAppend(lo: seq<u64>, hi: seq<u64>)
    ensures LimbsHex(lo + hi) == LimbsHex(hi) + LimbsHex(lo)
  {
    if lo == [] {
      assert lo + hi == hi;
    } else {
      assert (lo + hi)[1..] == lo[1..] + hi;
      assert (lo + hi)[0] == lo[0];
      LimbsHexAppend(lo[1..], hi);
      var h, l, d := LimbsHex(hi), LimbsHex(lo[1..]), Hex16(lo[0]);
      assert LimbsHex(lo + hi) == (h + l) + d;
      assert LimbsHex(lo) == l + d;
      assert (h + l) + d == h + (l + d);
    }
  }

  /** The four limbs of a 256-bit word, written as the loop body writes
      them. */
  lemma LimbsHexFour(c: seq<u64>)
    requires |c| == 4
    ensures LimbsHex(c) == Hex16(c[3]) + Hex16(c[2]) + Hex16(c[1]) + Hex16(c[0])
  {
    assert c[1..][1..] == c[2..];
    assert c[2..][1..] == c[3..];
    assert c[3..][1..] == [];
    assert LimbsHex(c[3..]) == Hex16(c[3]);
    assert LimbsHex(c[2..]) == Hex16(c[3]) + Hex16(c[2]);
  }

  /** The 64-digit words in the order the loop emits them:
      `chunks(4).rev()`, the most significant word first. */
  function Words(limbs: seq<u64>): (ws: seq<string>)
    requires |limbs| % 4 == 0
    ensures |ws| == |limbs| / 4
  {
    seq(|limbs| / 4, i requires 0 <= i < |limbs| / 4 => LimbsHex(Chunk(limbs, |limbs| / 4 - 1 - i)))
  }

  /** The `format!` of the `i`-th iteration: chunk `c`, the `i`-th from the
      top, assigned as its limbs high to low. The text assigns exactly the
      `i`-th emitted word. */
  function Entry(limbs: seq<u64>, i: nat): (s: string)
    requires |limbs| % 4 == 0 && i < |limbs| / 4
    ensures s == "m_u256_digits[" + Decimal(i) + "] = 0x" + Words(limbs)[i] + ";"
  {
    var c := Chunk(limbs, |limbs| / 4 - 1 - i);
    LimbsHexFour(c);
    var word := Hex16(c[3]) + Hex16(c[2]) + Hex16(c[1]) + Hex16(c[0]);
    "m_u256_digits[" + Decimal(i) + "] = 0x" + word + ";"
  }

  function Entries(limbs: seq<u64>): (es: seq<string>)
    requires |limbs| % 4 == 0
    ensures |es| == |limbs| / 4 && forall i :: 0 <= i < |es| ==> es[i] == Entry(limbs, i)
  {
    seq(|limbs| / 4, i requires 0 <= i < |limbs| / 4 => Entry(limbs, i))
  }

  /** The parts with `sep` between consecutive parts and nowhere else. */
  function Join(parts: seq<string>, sep: string): string
  {
    if |parts| == 0 then ""
    else if |parts| == 1 then parts[0]
    else Join(parts[..|parts| - 1], sep) + sep + parts[|parts| - 1]
  }

  /** The parts one after the other. */
  function Concat(parts: seq<string>): string
  {
    if parts == [] then "" else Concat(parts[..|parts| - 1]) + parts[|parts| - 1]
  }

  /** The joined text holds every part and exactly one separator fewer than
      there are parts. */
  lemma {:induction false} JoinLength(parts: seq<string>, sep: string)
    requires |parts| > 0
    ensures |Join(parts, sep)| == |Concat(parts)| + (|parts| - 1) * |sep|
  {
    if |parts| > 1 {
      var init := parts[..|parts| - 1];
      JoinLength(init, sep);
      assert init[..|init| - 1] == parts[..|parts| - 1][..|init| - 1];
      if |init| == 1 {
        assert Concat(init) == Concat(init[..0]) + init[0];
        assert init[..0] == [];
      }
    }
  }

  /** The joined text ends with the last part: no separator follows it. */
  lemma JoinEndsWithLast(parts: seq<string>, sep: string)
    requires |parts| > 0
    ensures var j := Join(parts, sep); var last := parts[|parts| - 1];
      |last| <= |j| && j[|j| - |last|..] == last
  {
    var j := Join(parts, sep);
    var last := parts[|parts| - 1];
    if |parts| > 1 {
      assert j == Join(parts[..|parts| - 1], sep) + sep + last;
    }
  }

  /** The `i`-th emitted word is the text of its chunk: 64 hexadecimal
      digits holding the chunk as a 256-bit number, limb 3 the most
      significant (and, by `LimbsHexUnique`, the only such text). */
  lemma WordValue(limbs: seq<u64>, i: nat)
    requires |limbs| % 4 == 0 && i < |limbs| / 4
    ensures var c := Chunk(limbs, |limbs| / 4 - 1 - i); var w := Words(limbs)[i];
      && w == LimbsHex(c)
      && |w| == 64 && (forall j :: 0 <= j < |w| ==> IsHexDigit(w[j]))
      && HexValue(w) == c[0] + LimbBase * (c[1] + LimbBase * (c[2] + LimbBase * c[3]))
  {
    var c := Chunk(limbs, |limbs| / 4 - 1 - i);
    assert Words(limbs)[i] == LimbsHex(c);
    LimbsHexValue(c);
    LimbsValueFour(c);
  }

  /** The last emitted word holds the low 256 bits of the value; the words
      before it hold the rest, shifted by 2^256. */
  lemma LowestWordValue(limbs: seq<u64>)
    requires |limbs| % 4 == 0 && |limbs| > 0
    ensures LimbsValue(limbs) == HexValue(Words(limbs)[|limbs| / 4 - 1]) + Pow(LimbBase, 4) * LimbsValue(limbs[4..])
  {
    LimbsValueSplit(limbs, 4);
    assert Chunk(limbs, 0) == limbs[..4];
    LimbsHexValue(limbs[..4]);
  }

  /** Dropping the lowest chunk drops the last emitted word. */
  lemma WordsDropLowest(limbs: seq<u64>)
    requires |limbs| % 4 == 0 && |limbs| > 0
    ensures Words(limbs) == Words(limbs[4..]) + [LimbsHex(limbs[..4])]
  {
    var k := |limbs| / 4;
    var rest := limbs[4..];
    var ws, ws' := Words(limbs), Words(rest);
    forall i | 0 <= i < k - 1
      ensures ws[i] == ws'[i]
    {
      assert Chunk(rest, k - 2 - i) == Chunk(limbs, k - 1 - i);
    }
    assert Chunk(limbs, 0) == limbs[..4];
  }

  lemma ConcatLast(parts: seq<string>, last: string)
    ensures Concat(parts + [last]) == Concat(parts) + last
  {
    assert (parts + [last])[..|parts|] == parts;
  }

  /** Run together, the emitted words are the hexadecimal text of all limbs,
      so read as one number they are the limbs' value. */
  lemma {:induction false} WordsValue(limbs: seq<u64>)
    requires |limbs| % 4 == 0
    ensures Concat(Words(limbs)) == LimbsHex(limbs)
    ensures HexValue(Concat(Words(limbs))) == LimbsValue(limbs)
    decreases |limbs|
  {
    LimbsHexValue(limbs);
    if limbs != [] {
      WordsDropLowest(limbs);
      ConcatLast(Words(limbs[4..]), LimbsHex(limbs[..4]));
      WordsValue(limbs[4..]);
      assert limbs == limbs[..4] + limbs[4..];
      LimbsHexAppend(limbs[..4], limbs[4..]);
    }
  }

  /** The emitted words of a `BigInt` are the hexadecimal digits of its
      magnitude. */
  lemma ModulusWordsValue(m: int)
    requires |ToU64Digits(Abs(m))| % 4 == 0
    ensures HexValue(Concat(Words(ToU64Digits(Abs(m))))) == Abs(m)
  {
    WordsValue(ToU64Digits(Abs(m)));
  }

  /** One more part joined: the separator written before it, if any, is
      the one `Join` places there. */
  lemma JoinStep(parts: seq<string>, i: nat, sep: string)
    requires i < |parts|
    ensures Join(parts[..i + 1], sep) == (if i == 0 then "" else Join(parts[..i], sep) + sep) + parts[i]
  {
    assert parts[..i + 1][..i] == parts[..i];
  }

  /** The loop's text after one more entry: a separator follows every entry
      but the last. */
  lemma JoinPrefixStep(es: seq<string>, i: nat, text: string)
    requires i < |es|
    requires text == Join(es[..i], Separator) + (if 0 < i < |es| then Separator else "")
    ensures text + es[i] + (if i < |es| - 1 then Separator else "")
      == Join(es[..i + 1], Separator) + (if 0 < i + 1 < |es| then Separator else "")
  {
    JoinStep(es, i, Separator);
  }

  /** The `<%pp_m_populate%>` text of `get_rsa_library_src`: one assignment
      per 256-bit word of `|m|`, most significant first. Every chunk must
      hold four limbs: a shorter one panics at `u256digit[3]`. */
  method PopulateModulusDigits(m: int) returns (text: string)
    requires |ToU64Digits(Abs(m))| % 4 == 0
    ensures text == Join(Entries(ToU64Digits(Abs(m))), Separator)
  {
    var limbs := ToU64Digits(Abs(m));
    var k := |limbs| / 4;
    ghost var es := Entries(limbs);
    text := "";
    var i := 0;
    while i < k
      invariant 0 <= i <= k
      invariant text == Join(es[..i], Separator) + (if 0 < i < k then Separator else "")
    {
      var entry := Entry(limbs, i);
      JoinPrefixStep(es, i, text);
      text := text + entry;
      if i < k - 1 {
        text := text + Separator;
      }
      i := i + 1;
    }
    assert es[..k] == es;
  }
}
