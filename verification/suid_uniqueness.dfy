/** Uniqueness of the SUIDs one builder issues.

    `create` promises that a builder never hands out the same ID twice as
    long as the clock does not move backwards: inside one second the
    free-running sequence takes at most MAX_SEQ+1 consecutive values, and
    once those are used up the ID moves on to the next second.  This module
    proves that promise for any run of clock readings whose seconds fit the
    34-bit time field. */
module SuidUniqueness {

  import opened Words
  import opened Suid

  /** No SUID occurs twice. */
  ghost predicate Distinct(ids: seq<SUID>) {
    forall i, j :: 0 <= i < j < |ids| ==> ids[i] != ids[j]
  }

  /** How many steps back, modulo MAX_SEQ+1, the sequence number `x` lies
      behind the sequence number `s`. */
  function SeqLag(s: int, x: int): (d: int)
    requires 0 <= s <= MAX_SEQ && 0 <= x <= MAX_SEQ
    ensures 0 <= d <= MAX_SEQ
    ensures d == 0 <==> s == x
    ensures (x + d) % (MAX_SEQ + 1) == s
  {
    if x <= s then s - x else s + (MAX_SEQ + 1) - x
  }

  /** Moving the sequence one step forward moves every lag that is not yet
      the largest one step further back. */
  lemma LagAfterStep(s: int, x: int)
    requires 0 <= s <= MAX_SEQ && 0 <= x <= MAX_SEQ && SeqLag(s, x) < MAX_SEQ
    ensures SeqLag(NextSequence(s), x) == SeqLag(s, x) + 1
  {
    if s == MAX_SEQ {
      assert NextSequence(s) == 0;
    } else {
      assert NextSequence(s) == s + 1;
    }
  }

  /** What holds between a builder and the IDs it has issued so far: all of
      them carry its group and the host, none lies after its zero time, the
      ones in the zero-time second lie at most `seqCount` steps back in the
      sequence, and no two are equal. */
  ghost predicate Inv(b: Builder, host: int, issued: seq<SUID>) {
    && WellFormed(b) && 0 <= b.zeroTime <= MAX_TIME && 0 <= host <= MAX_HOST
    && (forall i :: 0 <= i < |issued| ==>
          Group(issued[i]) == b.group && Host(issued[i]) == host && Time(issued[i]) <= b.zeroTime)
    && (forall i :: 0 <= i < |issued| && Time(issued[i]) == b.zeroTime ==>
          SeqLag(b.sequence, Seq(issued[i])) <= b.seqCount)
    && Distinct(issued)
  }

  /** A fresh builder, created at a second that fits 34 bits, has issued
      nothing and satisfies the invariant. */
  lemma FreshBuilderInv(g: int, now: Int64, host: int)
    requires 0 <= g <= MAX_GROUP && 0 <= now <= MAX_TIME && 0 <= host <= MAX_HOST
    ensures Inv(NewBuilder(g, now), host, [])
  {
  }

  /** Appending an ID that differs from all earlier ones keeps them distinct. */
  lemma AppendDistinct(issued: seq<SUID>, id: SUID)
    requires Distinct(issued)
    requires forall i :: 0 <= i < |issued| ==> issued[i] != id
    ensures Distinct(issued + [id])
  {
    var all := issued + [id];
    forall i, j | 0 <= i < j < |all|
      ensures all[i] != all[j]
    {
      assert all[i] == issued[i];
      if j < |issued| {
        assert all[j] == issued[j];
      }
    }
  }

  /** A `create` in the builder's zero-time second that does not exhaust the
      count: the new SUID has lag 0 and every earlier SUID of that second
      moves one step further back, so none of them equals the new one. */
  lemma SameSecondStep(b: Builder, host: int, issued: seq<SUID>, b': Builder, id: SUID)
    requires Inv(b, host, issued)
    requires WellFormed(b') && b'.group == b.group
    requires b'.zeroTime == b.zeroTime && b'.seqCount == b.seqCount + 1
    requires b'.sequence == NextSequence(b.sequence)
    requires Group(id) == b.group && Host(id) == host && Time(id) == b.zeroTime && Seq(id) == b'.sequence
    ensures Inv(b', host, issued + [id])
  {
    var all := issued + [id];
    forall i | 0 <= i < |issued| && Time(issued[i]) == b.zeroTime
      ensures SeqLag(b'.sequence, Seq(issued[i])) == SeqLag(b.sequence, Seq(issued[i])) + 1
    {
      LagAfterStep(b.sequence, Seq(issued[i]));
    }
    forall i | 0 <= i < |issued|
      ensures issued[i] != id
    {
      if Time(issued[i]) == b.zeroTime {
        assert SeqLag(b'.sequence, Seq(issued[i])) != 0;
      }
    }
    AppendDistinct(issued, id);
    forall i | 0 <= i < |all| && Time(all[i]) == b'.zeroTime
      ensures SeqLag(b'.sequence, Seq(all[i])) <= b'.seqCount
    {
      if i < |issued| {
        assert all[i] == issued[i];
      }
    }
  }

  /** A `create` that moves the builder to a later second: every earlier SUID
      is older than the new one, which is alone in the new second. */
  lemma NewSecondStep(b: Builder, host: int, issued: seq<SUID>, b': Builder, id: SUID)
    requires Inv(b, host, issued)
    requires WellFormed(b') && b'.group == b.group && b.zeroTime < b'.zeroTime <= MAX_TIME
    requires Group(id) == b.group && Host(id) == host && Time(id) == b'.zeroTime && Seq(id) == b'.sequence
    ensures Inv(b', host, issued + [id])
  {
    var all := issued + [id];
    forall i | 0 <= i < |issued|
      ensures issued[i] != id
    {
      assert Time(issued[i]) < Time(id);
    }
    AppendDistinct(issued, id);
    assert forall i :: 0 <= i < |issued| ==> all[i] == issued[i];
  }

  /** One successful `create` at a clock reading below MAX_TIME keeps the
      invariant, with the new SUID appended to the issued ones. */
  lemma CreateKeepsInv(b: Builder, host: int, issued: seq<SUID>, clock: Int64)
    requires Inv(b, host, issued)
    requires clock < MAX_TIME
    requires Create(b, clock, host).Ok?
    ensures var (b', id) := Create(b, clock, host).value; Inv(b', host, issued + [id])
  {
    var (b', id) := Create(b, clock, host).value;
    if clock == b.zeroTime && b.seqCount < MAX_SEQ {
      SameSecondStep(b, host, issued, b', id);
    } else {
      NewSecondStep(b, host, issued, b', id);
    }
  }

  /** One `create` per clock reading, until one fails: the builder after the
      last success and the SUIDs issued, in order. */
  function Run(b: Builder, clocks: seq<Int64>, host: int): (r: (Builder, seq<SUID>))
    requires WellFormed(b) && 0 <= host <= MAX_HOST
    ensures WellFormed(r.0) && r.0.group == b.group && |r.1| <= |clocks|
    decreases |clocks|
  {
    if |clocks| == 0 then (b, [])
    else
      match Create(b, clocks[0], host)
      case Err(_) => (b, [])
      case Ok((b1, id)) =>
        var (b2, ids) := Run(b1, clocks[1..], host);
        (b2, [id] + ids)
  }

  /** The invariant survives a whole run. */
  lemma {:induction false} RunKeepsInv(b: Builder, host: int, issued: seq<SUID>, clocks: seq<Int64>)
    requires Inv(b, host, issued)
    requires forall i :: 0 <= i < |clocks| ==> clocks[i] < MAX_TIME
    ensures Inv(Run(b, clocks, host).0, host, issued + Run(b, clocks, host).1)
    decreases |clocks|
  {
    if |clocks| == 0 {
      assert issued + [] == issued;
    } else {
      match Create(b, clocks[0], host)
      case Err(_) =>
        assert issued + [] == issued;
      case Ok((b1, id)) =>
        CreateKeepsInv(b, host, issued, clocks[0]);
        RunKeepsInv(b1, host, issued + [id], clocks[1..]);
        var ids := Run(b1, clocks[1..], host).1;
        assert issued + [id] + ids == issued + ([id] + ids);
    }
  }

  /** The guarantee of `create`: a builder created at a second that fits 34
      bits, fed clock readings below MAX_TIME, issues pairwise distinct
      SUIDs, all carrying its group and the host, until the clock moves
      backwards. */
  lemma FreshBuilderNeverRepeats(g: int, now: Int64, host: int, clocks: seq<Int64>)
    requires 0 <= g <= MAX_GROUP && 0 <= now <= MAX_TIME && 0 <= host <= MAX_HOST
    requires forall i :: 0 <= i < |clocks| ==> clocks[i] < MAX_TIME
    ensures var ids := Run(NewBuilder(g, now), clocks, host).1;
      && Distinct(ids)
      && forall i :: 0 <= i < |ids| ==> Group(ids[i]) == g && Host(ids[i]) == host
  {
    var b := NewBuilder(g, now);
    FreshBuilderInv(g, now, host);
    RunKeepsInv(b, host, [], clocks);
    var ids := Run(b, clocks, host).1;
    assert [] + ids == ids;
    assert Inv(Run(b, clocks, host).0, host, ids);
  }
}
