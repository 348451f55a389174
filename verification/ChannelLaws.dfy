/** What the state of the channel says about the datagrams that have arrived. */
module ChannelLaws {
  import opened Types
  import opened ItchWire
  import opened MoldWire
  import IR = ItchReference
  import opened ReferenceBook
  import opened GapBuffer
  import opened Sequencing
  import opened SequencingRuns
  import opened AnyPackets

  // ----- Announced sequence numbers -----------------------------------------------------

  /** A heartbeat or end marker that names `n` as the next number to be sent. */
  predicate Announces(d: seq<byte>, n: u64) {
    |d| == 20 && (MessageCount(d) == 0 || MessageCount(d) == 0xFFFF) && FirstSequence(d) == n
  }

  ghost predicate Announced(ds: seq<seq<byte>>, n: u64) { exists d :: d in ds && Announces(d, n) }

  /** The watermark is the greatest announced number, unless that is no longer ahead. */
  ghost predicate Heard(c: Channel, ds: seq<seq<byte>>) {
    && (forall n: u64 :: Announced(ds, n) ==> n <= c.next || n <= c.watermark)
    && (c.watermark != 0 ==> Announced(ds, c.watermark))
  }

  /** How a step may move `next` and the watermark. */
  ghost predicate Advances(c: Channel, c': Channel) {
    && c.next <= c'.next
    && (c'.watermark == c.watermark || (c'.watermark == 0 && c.watermark <= c'.next))
  }

  lemma InOrderAdvances(c: Channel, end: u64, ms: seq<Message>, z: Sizes)
    requires z.Valid() && Sound(c) && AllMessages(ms) && c.next <= end
    requires InOrder(c, end, ms, z).channel.terminal == Ok
    ensures Advances(c, InOrder(c, end, ms, z).channel)
  {
    hide PhaseAfter, Storable, Drain, Taken, Accepts;
    var a := Delivered(c, end, ms, z);
    if a.status == Ok {
      DrainEnds(if c.health == GapDetected then a.channel.(health := Recovering) else a.channel, z);
    }
  }

  lemma SequencedAdvances(c: Channel, d: seq<byte>, e: Setting)
    requires e.Valid() && Sound(c) && |d| >= HEADER_SIZE && MessageCount(d) > 0
    requires Sequenced(c, d, e).channel.terminal == Ok
    ensures Advances(c, Sequenced(c, d, e).channel)
  {
    hide Unframe, InOrder, ReadU16, ReadU64, Storable;
    var first, count := FirstSequence(d), MessageCount(d);
    if first <= U64_MAX - count && Contents(d).Framed? && first <= c.next < first + count {
      Unframed(d, count);
      var ms := Contents(d).messages[c.next - first..];
      if InOrder(c, first + count, ms, e.room).channel.terminal == Ok {
        InOrderAdvances(c, first + count, ms, e.room);
      }
    }
  }

  lemma OneMoreAnnounced(ds: seq<seq<byte>>, d: seq<byte>, n: u64)
    ensures Announced(ds + [d], n) <==> Announced(ds, n) || Announces(d, n)
  {
    hide Announces;
    if Announced(ds, n) {
      var x :| x in ds && Announces(x, n);
      assert x in ds + [d];
    }
    if Announces(d, n) { assert d in ds + [d]; }
  }

  lemma HeardStep(c: Channel, ds: seq<seq<byte>>, d: seq<byte>, e: Setting)
    requires e.Valid() && Sound(c) && Heard(c, ds) && Healthy(c) && Healthy(Process(c, d, e).channel)
    ensures Heard(Process(c, d, e).channel, ds + [d])
  {
    hide Sequenced, PhaseAfter, ReadU16, ReadU64, Announced, Storable;
    forall n: u64 ensures Announced(ds + [d], n) <==> Announced(ds, n) || Announces(d, n) {
      OneMoreAnnounced(ds, d, n);
    }
    if IsSequenced(d) { SequencedAdvances(Bound(c, d), d, e); }
  }

  lemma {:induction false} RunHeard(initial: u64, ds: seq<seq<byte>>, e: Setting)
    requires e.Valid() && Healthy(Run(Start(initial), ds, e))
    ensures Heard(Run(Start(initial), ds, e), ds)
  {
    hide Process, Between, Healthy, Heard;
    if ds == [] {
      StartHeard(initial);
    } else {
      var n := |ds| - 1;
      var c := Run(Start(initial), ds[..n], e);
      RunBetween(initial, ds[..n], e);
      WasHealthy(c, ds[n], e);
      RunHeard(initial, ds[..n], e);
      HeardStep(c, ds[..n], ds[n], e);
      assert ds[..n] + [ds[n]] == ds;
    }
  }

  lemma StartHeard(initial: u64)
    ensures Heard(Start(initial), [])
  {
  }

  /** As long as no data is lost for good, the channel is good exactly when nothing is stored and
      everything announced by a heartbeat or an end marker has been delivered. */
  lemma GoodExactly(initial: u64, ds: seq<seq<byte>>, e: Setting)
    requires e.Valid() && Healthy(Run(Start(initial), ds, e))
    ensures var c := Run(Start(initial), ds, e);
            c.health == Good <==> c.buffer == map[] && forall n: u64 :: Announced(ds, n) ==> n <= c.next
  {
    hide Run, Storable, Announced, NothingCoversNext;
    RunHeard(initial, ds, e);
    RunBetween(initial, ds, e);
  }

  /** A good channel lacks nothing: every number announced, and every message of every packet that
      arrived, has been delivered. */
  lemma GoodIsComplete(initial: u64, ds: seq<seq<byte>>, e: Setting)
    requires e.Valid() && Healthy(Run(Start(initial), ds, e)) && Run(Start(initial), ds, e).health == Good
    ensures var next := Run(Start(initial), ds, e).next;
            && (forall n: u64 :: Announced(ds, n) ==> n <= next)
            && (forall d :: d in ds && IsSequenced(d) ==> FirstSequence(d) + MessageCount(d) <= next)
  {
    hide Run, Storable, Announced, ReadU16, ReadU64, Supplied;
    GoodExactly(initial, ds, e);
    RunTally(initial, ds, e);
    forall d | d in ds && IsSequenced(d)
      ensures FirstSequence(d) + MessageCount(d) <= Run(Start(initial), ds, e).next
    {
      assert Kept(Run(Start(initial), ds, e), PacketOf(d));
    }
  }

  // ----- The gap flag -------------------------------------------------------------------

  /** The answer reports a gap exactly for a datagram of any kind that is ahead of `next`, and for a
      packet that closes or narrows a gap. */
  lemma GapFlag(c: Channel, d: seq<byte>, e: Setting)
    requires e.Valid() && Sound(c) && c.terminal == Ok
    requires Process(c, d, e).status == Ok || Process(c, d, e).status == EndOfStream
    ensures |d| >= HEADER_SIZE
    ensures Process(c, d, e).hadGap <==>
              || FirstSequence(d) > c.next
              || (IsSequenced(d) && Covers(d, c.next) && (c.health == GapDetected || c.health == Recovering))
  {
    hide Sequenced, PhaseAfter, ReadU16, ReadU64, Storable;
    if IsSequenced(d) { SequencedFlag(Bound(c, d), d, e); }
  }

  lemma SequencedFlag(c: Channel, d: seq<byte>, e: Setting)
    requires e.Valid() && Sound(c) && c.terminal == Ok && IsSequenced(d)
    requires Sequenced(c, d, e).status == Ok || Sequenced(c, d, e).status == EndOfStream
    ensures Sequenced(c, d, e).hadGap <==>
              FirstSequence(d) > c.next || (Covers(d, c.next) && (c.health == GapDetected || c.health == Recovering))
  {
    hide Unframe, InOrder, ReadU16, ReadU64, Storable;
    var first, count := FirstSequence(d), MessageCount(d);
    if first <= U64_MAX - count && Contents(d).Framed? && first <= c.next < first + count {
      Unframed(d, count);
      InOrderFlag(c, first + count, Contents(d).messages[c.next - first..], e.room);
    }
  }

  lemma InOrderFlag(c: Channel, end: u64, ms: seq<Message>, z: Sizes)
    requires z.Valid() && Sound(c) && AllMessages(ms) && c.terminal == Ok
    ensures var a := InOrder(c, end, ms, z);
            && (a.status == Ok || a.status == EndOfStream ==>
                 (a.hadGap <==> c.health == GapDetected || c.health == Recovering))
            && (a.channel.terminal == Ok && Healthy(c) ==> a.channel.health == Good || a.channel.health == Recovering)
  {
    hide PhaseAfter, Storable, Drain, Taken, Accepts;
    var a := Delivered(c, end, ms, z);
    if a.status == Ok {
      DrainEnds(if c.health == GapDetected then a.channel.(health := Recovering) else a.channel, z);
    }
  }

  /** A heartbeat ahead of `next` is never passed over. */
  lemma HeartbeatAhead(c: Channel, d: seq<byte>, e: Setting)
    requires e.Valid() && Sound(c) && c.terminal == Ok && |d| == HEADER_SIZE && MessageCount(d) == 0
    requires FirstSequence(d) > c.next && (c.session.Some? ==> c.session.value == SessionOf(d))
    requires c.pendingEnd == 0 || FirstSequence(d) <= c.pendingEnd
    ensures var a := Process(c, d, e); a.status == Ok && a.hadGap && a.channel.health != Good
  {
    hide Sequenced, EndMarker, ReadU16, ReadU64, Storable;
  }

  /** Between data lost for good and a good channel: ahead of `next` means a detected gap, delivery
      means recovering or good. */
  lemma HealthAfter(c: Channel, d: seq<byte>, e: Setting)
    requires e.Valid() && Sound(c) && Healthy(c) && Healthy(Process(c, d, e).channel) && |d| >= HEADER_SIZE
    ensures FirstSequence(d) > c.next ==> Process(c, d, e).channel.health == GapDetected
    ensures IsSequenced(d) && Covers(d, c.next) ==> Process(c, d, e).channel.health in {Good, Recovering}
  {
    hide Unframe, InOrder, PhaseAfter, ReadU16, ReadU64, Storable;
    var first, count := FirstSequence(d), MessageCount(d);
    if IsSequenced(d) && first <= U64_MAX - count && Contents(d).Framed? && Covers(d, c.next) {
      Unframed(d, count);
      InOrderFlag(Bound(c, d), first + count, Contents(d).messages[c.next - first..], e.room);
    }
  }

  // ----- The announced end --------------------------------------------------------------

  predicate IsEndMarker(d: seq<byte>) { |d| == 20 && MessageCount(d) == 0xFFFF }

  /** Every end marker named the pending end, and nothing was announced beyond it. */
  ghost predicate EndHeard(c: Channel, ds: seq<seq<byte>>) {
    && (forall d :: d in ds && IsEndMarker(d) ==> c.pendingEnd == FirstSequence(d) > 0)
    && (c.pendingEnd != 0 ==> forall n: u64 :: Announced(ds, n) ==> n <= c.pendingEnd)
  }

  lemma EndHeardStep(c: Channel, ds: seq<seq<byte>>, d: seq<byte>, e: Setting)
    requires e.Valid() && Sound(c) && Heard(c, ds) && EndHeard(c, ds) && Healthy(c) && Healthy(Process(c, d, e).channel)
    ensures EndHeard(Process(c, d, e).channel, ds + [d])
  {
    hide Sequenced, PhaseAfter, ReadU16, ReadU64, Announced, Storable;
    forall n: u64 ensures Announced(ds + [d], n) <==> Announced(ds, n) || Announces(d, n) {
      OneMoreAnnounced(ds, d, n);
    }
    if IsSequenced(d) { SequencedMoves(Bound(c, d), d, e); }
  }

  lemma {:induction false} RunEndHeard(initial: u64, ds: seq<seq<byte>>, e: Setting)
    requires e.Valid() && Healthy(Run(Start(initial), ds, e))
    ensures EndHeard(Run(Start(initial), ds, e), ds)
  {
    hide Process, Between, Healthy, Heard, Announced, ReadU16, ReadU64;
    if ds == [] {
      assert forall n: u64 :: !Announced([], n) by { NoneAnnounced(); }
    } else {
      var n := |ds| - 1;
      var c := Run(Start(initial), ds[..n], e);
      RunBetween(initial, ds[..n], e);
      WasHealthy(c, ds[n], e);
      RunHeard(initial, ds[..n], e);
      RunEndHeard(initial, ds[..n], e);
      EndHeardStep(c, ds[..n], ds[n], e);
      assert ds[..n] + [ds[n]] == ds;
    }
  }

  lemma NoneAnnounced()
    ensures forall n: u64 :: !Announced([], n)
  {
  }

  /** While a channel still waits, all end markers it has seen name one and the same end, nothing was
      announced beyond that end, and it has not been delivered past. */
  lemma EndsAgree(initial: u64, ds: seq<seq<byte>>, e: Setting, d: seq<byte>)
    requires e.Valid() && Healthy(Run(Start(initial), ds, e)) && d in ds && IsEndMarker(d)
    ensures Run(Start(initial), ds, e).next <= FirstSequence(d)
    ensures forall n: u64 :: Announced(ds, n) ==> n <= FirstSequence(d)
    ensures forall d' :: d' in ds && IsEndMarker(d') ==> FirstSequence(d') == FirstSequence(d)
  {
    hide Run, Storable, Announced, NothingCoversNext, ReadU16, ReadU64;
    RunEndHeard(initial, ds, e);
    RunBetween(initial, ds, e);
  }

  /** Once the end is known, a packet that goes beyond it, a heartbeat that announces more and a marker
      that names another end all fail the session as out of sequence. */
  lemma BeyondEndFails(initial: u64, ds: seq<seq<byte>>, e: Setting, marker: seq<byte>, d: seq<byte>)
    requires e.Valid() && Healthy(Run(Start(initial), ds, e)) && marker in ds && IsEndMarker(marker)
    requires |d| >= HEADER_SIZE && Legible(d) && d[..10] == marker[..10]
    requires || (IsEndMarker(d) && FirstSequence(d) != FirstSequence(marker))
             || (|d| == 20 && MessageCount(d) == 0 && FirstSequence(d) > FirstSequence(marker))
             || (IsSequenced(d) && FirstSequence(d) + MessageCount(d) > FirstSequence(marker))
    ensures Process(Run(Start(initial), ds, e), d, e).status == InvalidSequence
  {
    hide Run, Storable, Announced, ReadU16, ReadU64, PhaseAfter, InOrder, Ahead;
    RunEndHeard(initial, ds, e);
    RunUniform(initial, ds, e);
  }

  // ----- What a run that has not failed tells of its arrivals ---------------------------

  /** A datagram the channel can take at all, or too short to say anything. */
  ghost predicate Legible(d: seq<byte>) {
    |d| >= HEADER_SIZE ==>
      if MessageCount(d) == 0 || MessageCount(d) == END_OF_SESSION then |d| == HEADER_SIZE
      else Contents(d).Framed? && FirstSequence(d) + MessageCount(d) <= U64_MAX
  }

  /** All datagrams so far are legible and of the channel's session. */
  ghost predicate Uniform(c: Channel, ds: seq<seq<byte>>) {
    forall d :: d in ds ==> Legible(d) && (|d| >= HEADER_SIZE ==> c.session == Some(SessionOf(d)))
  }

  lemma UniformStep(c: Channel, ds: seq<seq<byte>>, d: seq<byte>, e: Setting)
    requires e.Valid() && Sound(c) && Uniform(c, ds) && c.terminal == Ok && Process(c, d, e).channel.terminal == Ok
    ensures Uniform(Process(c, d, e).channel, ds + [d])
  {
    hide Unframe, InOrder, PhaseAfter, ReadU16, ReadU64, Storable;
    if IsSequenced(d) {
      var first, count := FirstSequence(d), MessageCount(d);
      if first <= U64_MAX - count && Contents(d).Framed? && first <= c.next < first + count {
        Unframed(d, count);
        InOrderSession(Bound(c, d), first + count, Contents(d).messages[c.next - first..], e.room);
      }
    }
  }

  lemma InOrderSession(c: Channel, end: u64, ms: seq<Message>, z: Sizes)
    requires z.Valid() && Sound(c) && AllMessages(ms)
    ensures InOrder(c, end, ms, z).channel.session == c.session
  {
    hide PhaseAfter, Storable, Drain, Taken, Accepts;
    var a := Delivered(c, end, ms, z);
    if a.status == Ok {
      DrainEnds(if c.health == GapDetected then a.channel.(health := Recovering) else a.channel, z);
    }
  }

  lemma {:induction false} RunUniform(initial: u64, ds: seq<seq<byte>>, e: Setting)
    requires e.Valid() && Run(Start(initial), ds, e).terminal == Ok
    ensures Uniform(Run(Start(initial), ds, e), ds)
  {
    hide Process, Storable, Legible;
    if ds != [] {
      var n := |ds| - 1;
      var c := Run(Start(initial), ds[..n], e);
      if c.terminal != Ok { TerminalIsForever(c, [], ds[n], e); }
      RunUniform(initial, ds[..n], e);
      UniformStep(c, ds[..n], ds[n], e);
      assert ds[..n] + [ds[n]] == ds;
    }
  }

  /** A run that has not failed has seen one session only and no malformed datagram. */
  lemma OneSession(initial: u64, ds: seq<seq<byte>>, e: Setting)
    requires e.Valid() && Run(Start(initial), ds, e).terminal == Ok
    ensures forall d :: d in ds ==> Legible(d)
    ensures forall d, d' :: d in ds && d' in ds && |d| >= HEADER_SIZE && |d'| >= HEADER_SIZE ==>
              d[..10] == d'[..10]
  {
    hide Run, Legible, Storable;
    RunUniform(initial, ds, e);
  }

  /** A datagram of another session ends it, with the status that says so. */
  lemma OtherSessionFails(initial: u64, ds: seq<seq<byte>>, e: Setting, d0: seq<byte>, d: seq<byte>)
    requires e.Valid() && Run(Start(initial), ds, e).terminal == Ok && d0 in ds && |d0| >= HEADER_SIZE
    requires |d| >= HEADER_SIZE && Legible(d) && d[..10] != d0[..10]
    ensures Process(Run(Start(initial), ds, e), d, e).status == InvalidSession
  {
    hide Run, Sequenced, Heartbeat, EndMarker, ReadU16, ReadU64, Storable;
    RunUniform(initial, ds, e);
  }

  // ----- Datagrams that do not count ----------------------------------------------------

  /** The datagrams that have a header. */
  function WithHeader(ds: seq<seq<byte>>): seq<seq<byte>> {
    if ds == [] then []
    else
      var n := |ds| - 1;
      WithHeader(ds[..n]) + if |ds[n]| >= 20 then [ds[n]] else []
  }

  /** Datagrams without a whole header leave no trace on any run. */
  lemma {:induction false} ShortIgnored(initial: u64, ds: seq<seq<byte>>, e: Setting)
    requires e.Valid()
    ensures Run(Start(initial), ds, e) == Run(Start(initial), WithHeader(ds), e)
  {
    hide Sequenced, Heartbeat, EndMarker, Storable, ReadU16, ReadU64;
    if ds != [] {
      var n := |ds| - 1;
      ShortIgnored(initial, ds[..n], e);
      var kept := WithHeader(ds[..n]);
      assert (kept + [ds[n]])[..|kept|] == kept;
      assert kept + [] == kept;
    }
  }

  /** A packet that comes again after all of its messages were delivered changes nothing. */
  lemma OldIgnored(initial: u64, ds: seq<seq<byte>>, e: Setting, d: seq<byte>)
    requires e.Valid() && Healthy(Run(Start(initial), ds, e)) && d in ds && IsSequenced(d)
    requires FirstSequence(d) + MessageCount(d) <= Run(Start(initial), ds, e).next
    ensures Process(Run(Start(initial), ds, e), d, e) == Answer(Run(Start(initial), ds, e), Ok, false)
  {
    hide Run, Storable, ReadU16, ReadU64, PhaseAfter, InOrder, Ahead, Unframe;
    hide NothingCoversNext;
    RunUniform(initial, ds, e);
    RunBetween(initial, ds, e);
  }
}
