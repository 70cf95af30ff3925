/** `LazyTC`: a timed commitment whose message is additionally bound by a
    Pedersen commitment. The message handed to the timed commitment is the
    real message followed by the little-endian bytes of the Pedersen opening;
    opening (by the committer or by forcing) splits those bytes off again and
    decides acceptance from three facts: the timed-commitment check, the
    Pedersen check and the message claimed.

    The timed commitment (`BasicTC`), the Pedersen commitment and the field
    conversions are not modelled; they are the given functions of a
    `Backend`. */
module LazyTc {
  import opened Wrappers
  import opened Bigint

  /** The boxed error a collaborator reports, kept as its message. */
  datatype Error = Error(message: string)

  /** A commitment: the Pedersen commitment and the timed commitment. */
  datatype Comm<PC, TC> = Comm(pedComm: PC, tcComm: TC)

  /** An opening: the timed-commitment opening and, when one was obtained,
      the packed message `tcM`. */
  datatype Opening<TO> = Opening(tcOpening: TO, tcM: Option<seq<byte>>)

  /** What `split_off` leaves and what it removes. */
  datatype Recovered = Recovered(message: seq<byte>, pedValid: bool)

  /** The collaborators, with the time and Pedersen parameters fixed inside:
      - fBytes: `NUM_LIMBS * 8`, the byte length of a scalar-field element;
      - scalarToBytes: `into_repr().to_bytes_le()` of the Pedersen opening;
      - bytesToScalar: `nat_to_f(from_bytes_le(..))`, which may fail;
      - pedersenVerOpen: `PedersenComm::ver_open`;
      - tcCommit, tcForceOpen, tcVerOpen: `BasicTC::commit`, `force_open`
        and `ver_open` (the randomness of `commit` fixed inside). */
  datatype Backend<!PC, !TC, !TO, !F> = Backend(
    fBytes: nat,
    scalarToBytes: F -> seq<byte>,
    bytesToScalar: seq<byte> -> Result<F, Error>,
    pedersenVerOpen: (PC, seq<byte>, F) -> Result<bool, Error>,
    tcCommit: (seq<byte>, seq<byte>) -> Result<(TC, TO), Error>,
    tcForceOpen: (TC, seq<byte>) -> Result<(Option<seq<byte>>, TO), Error>,
    tcVerOpen: (TC, seq<byte>, Option<seq<byte>>, TO) -> Result<bool, Error>)

  // ---------------------------------------------------------------------
  // Packing
  // ---------------------------------------------------------------------

  /** `tc_m.append(..)`: the message followed by the opening bytes. */
  function Pack(m: seq<byte>, openingBytes: seq<byte>): (tcM: seq<byte>)
    ensures |tcM| == |m| + |openingBytes|
    ensures tcM[..|m|] == m && tcM[|m|..] == openingBytes
  {
    m + openingBytes
  }

  /** `split_off(len - f_bytes)`: the last `fBytes` bytes and what precedes
      them. The subtraction underflows when `tcM` is shorter than `fBytes`. */
  function Split(tcM: seq<byte>, fBytes: nat): (parts: (seq<byte>, seq<byte>))
    requires |tcM| >= fBytes
    ensures |parts.1| == fBytes && parts.0 + parts.1 == tcM
  {
    (tcM[..|tcM| - fBytes], tcM[|tcM| - fBytes..])
  }

  /** Unpacking recovers exactly the message and the opening bytes. */
  lemma SplitPack(m: seq<byte>, openingBytes: seq<byte>)
    ensures Split(Pack(m, openingBytes), |openingBytes|) == (m, openingBytes)
  {
    var t := Pack(m, openingBytes);
    assert t[..|t| - |openingBytes|] == m;
  }

  /** Packing the two parts of a split gives back the packed message. */
  lemma PackSplit(tcM: seq<byte>, fBytes: nat)
    requires |tcM| >= fBytes
    ensures Pack(Split(tcM, fBytes).0, Split(tcM, fBytes).1) == tcM
  {
  }

  /** The unpacking both openings share: split off the opening bytes, decode
      them as a field element and check the Pedersen commitment on the rest. */
  function PedersenRecover<PC, TC, TO, F>(b: Backend<PC, TC, TO, F>, pedComm: PC, tcM: seq<byte>): (r: Result<Recovered, Error>)
    requires |tcM| >= b.fBytes
    ensures r.Ok? ==> r.value.message == Split(tcM, b.fBytes).0
    ensures r.Ok? <==>
      (b.bytesToScalar(Split(tcM, b.fBytes).1).Ok? &&
       b.pedersenVerOpen(pedComm, Split(tcM, b.fBytes).0, b.bytesToScalar(Split(tcM, b.fBytes).1).value).Ok?)
    ensures var s := b.bytesToScalar(Split(tcM, b.fBytes).1);
      && (s.Err? ==> r == Err(s.error))
      && (s.Ok? && b.pedersenVerOpen(pedComm, Split(tcM, b.fBytes).0, s.value).Err? ==>
            r == Err(b.pedersenVerOpen(pedComm, Split(tcM, b.fBytes).0, s.value).error))
    ensures r.Ok? ==>
      (r.value.pedValid <==>
       b.pedersenVerOpen(pedComm, Split(tcM, b.fBytes).0, b.bytesToScalar(Split(tcM, b.fBytes).1).value).value)
  {
    var (m, openingBytes) := Split(tcM, b.fBytes);
    var pedOpening :- b.bytesToScalar(openingBytes);
    var pedValid :- b.pedersenVerOpen(pedComm, m, pedOpening);
    Ok(Recovered(m, pedValid))
  }

  // ---------------------------------------------------------------------
  // The three operations
  // ---------------------------------------------------------------------

  /** `commit`: `ped` is the result of the Pedersen commitment to `m` (the
      commitment and its opening, drawn with the caller's randomness). The
      opening carries `m` packed with the opening bytes. */
  function Commit<PC, TC, TO, F>(b: Backend<PC, TC, TO, F>, ped: Result<(PC, F), Error>, m: seq<byte>, ad: seq<byte>)
    : (r: Result<(Comm<PC, TC>, Opening<TO>), Error>)
    ensures r.Ok? <==> ped.Ok? && b.tcCommit(Pack(m, b.scalarToBytes(ped.value.1)), ad).Ok?
    ensures r.Ok? ==>
      var tcM := Pack(m, b.scalarToBytes(ped.value.1));
      && r.value.0 == Comm(ped.value.0, b.tcCommit(tcM, ad).value.0)
      && r.value.1 == Opening(b.tcCommit(tcM, ad).value.1, Some(tcM))
    ensures ped.Err? ==> r == Err(ped.error)
    ensures ped.Ok? && b.tcCommit(Pack(m, b.scalarToBytes(ped.value.1)), ad).Err? ==>
      r == Err(b.tcCommit(Pack(m, b.scalarToBytes(ped.value.1)), ad).error)
  {
    var (pedComm, pedOpening) :- ped;
    var tcM := Pack(m, b.scalarToBytes(pedOpening));
    var (tcComm, tcOpening) :- b.tcCommit(tcM, ad);
    Ok((Comm(pedComm, tcComm), Opening(tcOpening, Some(tcM))))
  }

  /** The packed message a forced opening yields is long enough to unpack. */
  predicate ForceOpenUnpackable<PC, TC, TO, F>(b: Backend<PC, TC, TO, F>, comm: Comm<PC, TC>, ad: seq<byte>)
  {
    var f := b.tcForceOpen(comm.tcComm, ad);
    f.Ok? && f.value.0.Some? ==> |f.value.0.value| >= b.fBytes
  }

  /** `force_open`: force the timed commitment; the message is reported only
      when the Pedersen check on the unpacked message passes, and the opening
      always carries the packed message the forcing produced. */
  function ForceOpen<PC, TC, TO, F>(b: Backend<PC, TC, TO, F>, comm: Comm<PC, TC>, ad: seq<byte>)
    : (r: Result<(Option<seq<byte>>, Opening<TO>), Error>)
    requires ForceOpenUnpackable(b, comm, ad)
    ensures var f := b.tcForceOpen(comm.tcComm, ad);
      && (r.Ok? <==> f.Ok? && (f.value.0.Some? ==> PedersenRecover(b, comm.pedComm, f.value.0.value).Ok?))
      && (f.Err? ==> r == Err(f.error))
      && (f.Ok? && f.value.0.Some? && PedersenRecover(b, comm.pedComm, f.value.0.value).Err? ==>
            r == Err(PedersenRecover(b, comm.pedComm, f.value.0.value).error))
      && (r.Ok? ==> r.value.1 == Opening(f.value.1, f.value.0))
      && (r.Ok? ==> (r.value.0.Some? <==> f.value.0.Some? && PedersenRecover(b, comm.pedComm, f.value.0.value).value.pedValid))
      && (r.Ok? && r.value.0.Some? ==> r.value.0.value == Split(f.value.0.value, b.fBytes).0)
  {
    var (tcM, tcOpening) :- b.tcForceOpen(comm.tcComm, ad);
    match tcM
    case Some(t) =>
      var rec :- PedersenRecover(b, comm.pedComm, t);
      if rec.pedValid then
        Ok((Some(rec.message), Opening(tcOpening, tcM)))
      else
        Ok((None, Opening(tcOpening, tcM)))
    case None =>
      Ok((None, Opening(tcOpening, tcM)))
  }

  /** `ver_open`: the acceptance table. With a packed message present, a
      claimed message is accepted iff both checks pass and it equals the
      unpacked message, and the claim "no message" iff the timed check passes
      and the Pedersen check fails; without a packed message only the claim
      "no message" can be accepted, iff the timed check passes. */
  function VerOpen<PC, TC, TO, F>(b: Backend<PC, TC, TO, F>, comm: Comm<PC, TC>, ad: seq<byte>, m: Option<seq<byte>>, opening: Opening<TO>)
    : (r: Result<bool, Error>)
    requires opening.tcM.Some? ==> |opening.tcM.value| >= b.fBytes
    ensures var tc := b.tcVerOpen(comm.tcComm, ad, opening.tcM, opening.tcOpening);
      && (r.Ok? <==> tc.Ok? && (opening.tcM.Some? ==> PedersenRecover(b, comm.pedComm, opening.tcM.value).Ok?))
      && (tc.Err? ==> r == Err(tc.error))
      && (tc.Ok? && opening.tcM.Some? && PedersenRecover(b, comm.pedComm, opening.tcM.value).Err? ==>
            r == Err(PedersenRecover(b, comm.pedComm, opening.tcM.value).error))
      && (r.Ok? && opening.tcM.None? ==> (r.value <==> tc.value && m.None?))
      && (r.Ok? && opening.tcM.Some? ==>
            var rec := PedersenRecover(b, comm.pedComm, opening.tcM.value).value;
            && (m.Some? ==> (r.value <==> tc.value && rec.pedValid && rec.message == m.value))
            && (m.None? ==> (r.value <==> tc.value && !rec.pedValid)))
  {
    var tcValid :- b.tcVerOpen(comm.tcComm, ad, opening.tcM, opening.tcOpening);
    match opening.tcM
    case Some(t) =>
      var rec :- PedersenRecover(b, comm.pedComm, t);
      (match m
       case Some(claimed) => Ok(tcValid && rec.pedValid && rec.message == claimed)
       case None => Ok(tcValid && !rec.pedValid))
    case None =>
      Ok(tcValid && m.None?)
  }

  /** `ver_open` as written, its crash made explicit: `None` where
      `m_computed.len() - f_bytes` underflows. That happens whenever the
      timed check returns and the packed message is shorter than `fBytes`,
      whatever the timed check answered. */
  function VerOpenAsWritten<PC, TC, TO, F>(b: Backend<PC, TC, TO, F>, comm: Comm<PC, TC>, ad: seq<byte>, m: Option<seq<byte>>, opening: Opening<TO>)
    : (r: Option<Result<bool, Error>>)
    ensures var tc := b.tcVerOpen(comm.tcComm, ad, opening.tcM, opening.tcOpening);
      && (r.None? <==> tc.Ok? && opening.tcM.Some? && |opening.tcM.value| < b.fBytes)
      && (tc.Err? ==> r == Some(Err(tc.error)))
      && ((opening.tcM.Some? ==> |opening.tcM.value| >= b.fBytes) ==> r == Some(VerOpen(b, comm, ad, m, opening)))
  {
    if opening.tcM.Some? && |opening.tcM.value| < b.fBytes then
      match b.tcVerOpen(comm.tcComm, ad, opening.tcM, opening.tcOpening)
      case Ok(_) => None
      case Err(e) => Some(Err(e))
    else
      Some(VerOpen(b, comm, ad, m, opening))
  }

  /** An opening whose packed message is shorter than the opening bytes
      crashes `ver_open`, even when the timed check has already rejected
      it. */
  lemma ShortOpeningCrashes<PC, TC, TO, F>(b: Backend<PC, TC, TO, F>, comm: Comm<PC, TC>, ad: seq<byte>, m: Option<seq<byte>>, tcOpening: TO)
    requires b.fBytes > 0
    requires b.tcVerOpen(comm.tcComm, ad, Some([]), tcOpening) == Ok(false)
    ensures VerOpenAsWritten(b, comm, ad, m, Opening(tcOpening, Some([]))) == None
  {
  }

  /** `ver_open` with the length checked before unpacking: a packed message
      too short to hold the opening bytes is rejected instead of crashing,
      and every other opening is decided as `VerOpen` decides it. */
  function VerOpenChecked<PC, TC, TO, F>(b: Backend<PC, TC, TO, F>, comm: Comm<PC, TC>, ad: seq<byte>, m: Option<seq<byte>>, opening: Opening<TO>)
    : (r: Result<bool, Error>)
    ensures var tc := b.tcVerOpen(comm.tcComm, ad, opening.tcM, opening.tcOpening);
      && (opening.tcM.Some? && |opening.tcM.value| < b.fBytes ==>
            (r.Ok? <==> tc.Ok?) && (r.Ok? ==> !r.value))
      && (tc.Err? ==> r == Err(tc.error))
      && ((opening.tcM.Some? ==> |opening.tcM.value| >= b.fBytes) ==> r == VerOpen(b, comm, ad, m, opening))
  {
    var tcValid :- b.tcVerOpen(comm.tcComm, ad, opening.tcM, opening.tcOpening);
    if opening.tcM.Some? && |opening.tcM.value| < b.fBytes then
      Ok(false)
    else
      VerOpen(b, comm, ad, m, opening)
  }

  /** Wherever `ver_open` as written does not crash, the checked version
      gives the same answer. */
  lemma CheckedAgreesWhereDefined<PC, TC, TO, F>(b: Backend<PC, TC, TO, F>, comm: Comm<PC, TC>, ad: seq<byte>, m: Option<seq<byte>>, opening: Opening<TO>)
    requires VerOpenAsWritten(b, comm, ad, m, opening).Some?
    ensures VerOpenAsWritten(b, comm, ad, m, opening) == Some(VerOpenChecked(b, comm, ad, m, opening))
  {
  }

  // ---------------------------------------------------------------------
  // Properties of the composition
  // ---------------------------------------------------------------------

  /** The committer's own opening is accepted for the committed message when
      the collaborators behave honestly: the opening bytes have the scalar
      length and decode back, the Pedersen and timed checks accept what
      `commit` produced. */
  lemma SelfOpeningAccepted<PC, TC, TO, F>(b: Backend<PC, TC, TO, F>, pedComm: PC, pedOpening: F, m: seq<byte>, ad: seq<byte>)
    requires |b.scalarToBytes(pedOpening)| == b.fBytes
    requires b.bytesToScalar(b.scalarToBytes(pedOpening)) == Ok(pedOpening)
    requires b.pedersenVerOpen(pedComm, m, pedOpening) == Ok(true)
    requires Commit(b, Ok((pedComm, pedOpening)), m, ad).Ok?
    requires var (c, o) := Commit(b, Ok((pedComm, pedOpening)), m, ad).value;
      b.tcVerOpen(c.tcComm, ad, o.tcM, o.tcOpening) == Ok(true)
    ensures var (c, o) := Commit(b, Ok((pedComm, pedOpening)), m, ad).value;
      VerOpen(b, c, ad, Some(m), o) == Ok(true)
  {
    var bytes := b.scalarToBytes(pedOpening);
    SplitPack(m, bytes);
  }

  /** Whatever the collaborators answer, an opening never accepts a claimed
      message other than the one unpacked from it. */
  lemma OtherMessageRejected<PC, TC, TO, F>(b: Backend<PC, TC, TO, F>, comm: Comm<PC, TC>, ad: seq<byte>, claimed: seq<byte>, opening: Opening<TO>)
    requires opening.tcM.Some? && |opening.tcM.value| >= b.fBytes
    requires claimed != Split(opening.tcM.value, b.fBytes).0
    ensures VerOpen(b, comm, ad, Some(claimed), opening) != Ok(true)
  {
  }

  /** Claiming "no message" is rejected whenever the Pedersen check on the
      unpacked message passes. */
  lemma AbsentClaimRejected<PC, TC, TO, F>(b: Backend<PC, TC, TO, F>, comm: Comm<PC, TC>, ad: seq<byte>, opening: Opening<TO>)
    requires opening.tcM.Some? && |opening.tcM.value| >= b.fBytes
    requires PedersenRecover(b, comm.pedComm, opening.tcM.value) == Ok(Recovered(Split(opening.tcM.value, b.fBytes).0, true))
    ensures VerOpen(b, comm, ad, None, opening) != Ok(true)
  {
  }

  /** A message altered in any way is rejected under the committer's own
      opening and under a forced opening that recovered the same packed
      message. */
  lemma TamperedMessageRejected<PC, TC, TO, F>(b: Backend<PC, TC, TO, F>, pedComm: PC, pedOpening: F, m: seq<byte>, ad: seq<byte>, tampered: seq<byte>, forced: TO)
    requires |b.scalarToBytes(pedOpening)| == b.fBytes
    requires Commit(b, Ok((pedComm, pedOpening)), m, ad).Ok?
    requires tampered != m
    ensures var (c, o) := Commit(b, Ok((pedComm, pedOpening)), m, ad).value;
      && VerOpen(b, c, ad, Some(tampered), o) != Ok(true)
      && VerOpen(b, c, ad, Some(tampered), Opening(forced, o.tcM)) != Ok(true)
  {
    var (c, o) := Commit(b, Ok((pedComm, pedOpening)), m, ad).value;
    SplitPack(m, b.scalarToBytes(pedOpening));
    OtherMessageRejected(b, c, ad, tampered, o);
    OtherMessageRejected(b, c, ad, tampered, Opening(forced, o.tcM));
  }

  /** What `force_open` returns is accepted by `ver_open` whenever the timed
      check accepts the forced opening: a reported message when the Pedersen
      check passed, "no message" otherwise. */
  lemma ForcedOpeningAccepted<PC, TC, TO, F>(b: Backend<PC, TC, TO, F>, comm: Comm<PC, TC>, ad: seq<byte>)
    requires ForceOpenUnpackable(b, comm, ad)
    requires ForceOpen(b, comm, ad).Ok?
    requires var (_, o) := ForceOpen(b, comm, ad).value;
      b.tcVerOpen(comm.tcComm, ad, o.tcM, o.tcOpening) == Ok(true)
    ensures var (m, o) := ForceOpen(b, comm, ad).value;
      VerOpen(b, comm, ad, m, o) == Ok(true)
  {
  }

  /** An opening accepts at most one claim: two accepted claims are equal. */
  lemma AtMostOneClaimAccepted<PC, TC, TO, F>(b: Backend<PC, TC, TO, F>, comm: Comm<PC, TC>, ad: seq<byte>, m1: Option<seq<byte>>, m2: Option<seq<byte>>, opening: Opening<TO>)
    requires opening.tcM.Some? ==> |opening.tcM.value| >= b.fBytes
    requires VerOpen(b, comm, ad, m1, opening) == Ok(true)
    requires VerOpen(b, comm, ad, m2, opening) == Ok(true)
    ensures m1 == m2
  {
  }

  /** The checked `ver_open` also accepts at most one claim, for every
      opening, however short its packed message. */
  lemma CheckedAtMostOneClaimAccepted<PC, TC, TO, F>(b: Backend<PC, TC, TO, F>, comm: Comm<PC, TC>, ad: seq<byte>, m1: Option<seq<byte>>, m2: Option<seq<byte>>, opening: Opening<TO>)
    requires VerOpenChecked(b, comm, ad, m1, opening) == Ok(true)
    requires VerOpenChecked(b, comm, ad, m2, opening) == Ok(true)
    ensures m1 == m2
  {
    AtMostOneClaimAccepted(b, comm, ad, m1, m2, opening);
  }

  /** Forcing a commitment whose timed part yields back the packed message
      recovers the committed message, when the Pedersen part is honest. */
  lemma ForceOpenRecoversMessage<PC, TC, TO, F>(b: Backend<PC, TC, TO, F>, pedComm: PC, pedOpening: F, m: seq<byte>, ad: seq<byte>, forced: TO)
    requires |b.scalarToBytes(pedOpening)| == b.fBytes
    requires b.bytesToScalar(b.scalarToBytes(pedOpening)) == Ok(pedOpening)
    requires b.pedersenVerOpen(pedComm, m, pedOpening) == Ok(true)
    requires Commit(b, Ok((pedComm, pedOpening)), m, ad).Ok?
    requires var (c, o) := Commit(b, Ok((pedComm, pedOpening)), m, ad).value;
      b.tcForceOpen(c.tcComm, ad) == Ok((o.tcM, forced))
    ensures var (c, o) := Commit(b, Ok((pedComm, pedOpening)), m, ad).value;
      ForceOpenUnpackable(b, c, ad) && ForceOpen(b, c, ad) == Ok((Some(m), Opening(forced, o.tcM)))
  {
    SplitPack(m, b.scalarToBytes(pedOpening));
  }
}
