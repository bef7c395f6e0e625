/** The grammar of the frame stream that one direction of a session carries. */
module Stream {
  import opened Machine
  import opened Wire

  /** How one logical message ended: delivered whole, or cut off by ABORT. */
  datatype Outcome = Whole(payload: seq<byte>) | Reset

  /** The frames of one closed message. */
  datatype Group = Group(id: u64, frames: seq<Frame>, outcome: Outcome)

  /** The payload bytes of `frames`, concatenated. */
  function Payload(frames: seq<Frame>): seq<byte> {
    if frames == [] then []
    else Payload(frames[..|frames| - 1]) + frames[|frames| - 1].payload
  }

  function Flatten(groups: seq<Group>): seq<Frame> {
    if groups == [] then []
    else Flatten(groups[..|groups| - 1]) + groups[|groups| - 1].frames
  }

  function Outcomes(groups: seq<Group>): seq<Outcome> {
    seq(|groups|, i requires 0 <= i < |groups| => groups[i].outcome)
  }

  /** A message under way: FIRST only on the first frame, at least one byte in
      every frame, and fewer bytes so far than the declared length. */
  ghost predicate IsOpen(frames: seq<Frame>, id: u64, len: u64) {
    && |frames| > 0
    && (forall i :: 0 <= i < |frames| ==> IsMiddle(frames[i], id, len, i == 0))
    && |Payload(frames)| < len
  }

  predicate IsMiddle(f: Frame, id: u64, len: u64, first: bool) {
    && f == Frame(id, len, first, false, false, f.payload)
    && 0 < |f.payload| <= FRAGMENT_CAPACITY
  }

  /** A complete message: an open prefix, possibly empty, and the LAST frame that
      brings the payload to exactly the declared length. */
  ghost predicate IsWhole(frames: seq<Frame>, id: u64, payload: seq<byte>) {
    && |frames| > 0
    && |payload| <= U64_MAX
    && var n := |frames| - 1;
    && (n > 0 ==> IsOpen(frames[..n], id, |payload|))
    && frames[n] == Frame(id, |payload|, n == 0, true, false, frames[n].payload)
    && |frames[n].payload| <= FRAGMENT_CAPACITY
    && (|payload| > 0 ==> |frames[n].payload| > 0)
    && Payload(frames) == payload
  }

  /** A cancelled message: a nonempty open prefix and one ABORT frame. */
  ghost predicate IsReset(frames: seq<Frame>, id: u64) {
    && |frames| > 1
    && var n := |frames| - 1;
    && IsOpen(frames[..n], id, frames[n].len)
    && frames[n] == Frame(id, frames[n].len, false, false, true, [])
  }

  ghost predicate IsClosed(g: Group) {
    && g.id != 0
    && match g.outcome
       case Whole(payload) => IsWhole(g.frames, g.id, payload)
       case Reset => IsReset(g.frames, g.id)
  }

  /** Closed messages in order of strictly increasing nonzero ids. */
  ghost predicate IsHistory(groups: seq<Group>) {
    && (forall i :: 0 <= i < |groups| ==> IsClosed(groups[i]))
    && (forall i, j :: 0 <= i < j < |groups| ==> groups[i].id < groups[j].id)
  }

  predicate AllEncodable(frames: seq<Frame>) {
    forall i :: 0 <= i < |frames| ==> Encodable(frames[i])
  }

  lemma PayloadSnoc(frames: seq<Frame>, f: Frame)
    ensures Payload(frames + [f]) == Payload(frames) + f.payload
  {
    assert (frames + [f])[..|frames|] == frames;
  }

  lemma FlattenSnoc(groups: seq<Group>, g: Group)
    ensures Flatten(groups + [g]) == Flatten(groups) + g.frames
  {
    assert (groups + [g])[..|groups|] == groups;
  }

  lemma OutcomesSnoc(groups: seq<Group>, g: Group)
    ensures Outcomes(groups + [g]) == Outcomes(groups) + [g.outcome]
  {
  }

  lemma OpenEncodable(frames: seq<Frame>, id: u64, len: u64)
    requires IsOpen(frames, id, len) && id != 0
    ensures AllEncodable(frames)
  {
    forall i | 0 <= i < |frames|
      ensures Encodable(frames[i])
    {
      assert IsMiddle(frames[i], id, len, i == 0);
    }
  }

  lemma ClosedEncodable(g: Group)
    requires IsClosed(g)
    ensures AllEncodable(g.frames)
  {
    var n := |g.frames| - 1;
    if n > 0 {
      OpenEncodable(g.frames[..n], g.id, g.frames[n].len);
    }
    assert Encodable(g.frames[n]) by {
      if g.outcome.Whole? && n == 0 {
        assert g.frames == [] + [g.frames[0]];
        PayloadSnoc([], g.frames[0]);
      }
    }
    forall i | 0 <= i < |g.frames|
      ensures Encodable(g.frames[i])
    {
      if i < n {
        assert g.frames[..n][i] == g.frames[i];
      }
    }
  }

  lemma {:induction false} HistoryEncodable(groups: seq<Group>)
    requires IsHistory(groups)
    ensures AllEncodable(Flatten(groups))
  {
    if groups != [] {
      var n := |groups| - 1;
      HistoryEncodable(groups[..n]);
      ClosedEncodable(groups[n]);
    }
  }

  /** From position `base` on, `slots` carries exactly `frames`. */
  ghost predicate Carries(slots: seq<Slot>, base: nat, frames: seq<Frame>) {
    && |slots| == base + |frames|
    && forall i :: 0 <= i < |frames| ==> Encodable(frames[i]) && slots[base + i] == SlotOf(frames[i])
  }

  lemma CarriesSnoc(slots: seq<Slot>, base: nat, frames: seq<Frame>, f: Frame)
    requires Carries(slots, base, frames) && Encodable(f)
    ensures Carries(slots + [SlotOf(f)], base, frames + [f])
  {
  }
}
