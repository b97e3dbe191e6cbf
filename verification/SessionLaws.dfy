/** Laws of the secure-flash session over whole message sequences. */
module SessionLaws {
  import opened Bytes
  import opened BlockIo
  import opened StreamFlash
  import opened Proto
  import opened Session
  import StreamRuns

  // ----- runs in sequence -----

  lemma {:induction false} ServeAppend(s: Session, a: seq<seq<byte>>, b: seq<seq<byte>>)
    requires Consistent(s) && !Serve(s, a).exit
    ensures var r := Serve(s, a);
            var q := Serve(r.session, b);
            Serve(s, a + b) == q.(log := r.log + q.log)
    decreases |a|
  {
    hide Handle, Consistent;
    if a == [] {
      assert a + b == b;
      assert [] + Serve(s, b).log == Serve(s, b).log;
    } else {
      assert (a + b)[1..] == a[1..] + b;
      var h := Handle(s, a[0]);
      ServeAppend(h.session, a[1..], b);
      var entry := [Exchange(a[0], h.replies)];
      var x, y := Serve(h.session, a[1..]).log, Serve(Serve(s, a).session, b).log;
      assert entry + (x + y) == (entry + x) + y;
    }
  }

  lemma {:induction false} ServeExits(s: Session, a: seq<seq<byte>>, b: seq<seq<byte>>)
    requires Consistent(s) && Serve(s, a).exit
    ensures Serve(s, a + b) == Serve(s, a)
    decreases |a|
  {
    hide Handle, Consistent;
    assert (a + b)[1..] == a[1..] + b;
    assert (a + b)[0] == a[0];
    var h := Handle(s, a[0]);
    if !h.exit {
      ServeExits(h.session, a[1..], b);
    }
  }

  // ----- queries -----

  /** A message that only asks something: hello, info, GPT, telemetry and parameter traffic, unlock
      and relock, logs, and the common extension other than its reboot request. */
  predicate IsQuery(msg: seq<byte>) {
    |msg| >= 4 && msg[..3] == NOK &&
    (msg[3] in {0x49, 0x56, 0x54} ||
     (|msg| >= 6 && msg[3] == 0x58 &&
      ((msg[4] == 0x43 && !(msg[5] == 0x42 && |msg| > 6 && msg[6] == 0x52)) ||
       (msg[4] == 0x46 && msg[5] in {0x52, 0x57, 0x49, 0x4F, 0x54, 0x58}))))
  }

  function WithoutQueries(msgs: seq<seq<byte>>): seq<seq<byte>> {
    if msgs == [] then []
    else if IsQuery(msgs[0]) then WithoutQueries(msgs[1..])
    else [msgs[0]] + WithoutQueries(msgs[1..])
  }

  function OtherExchanges(log: seq<Exchange>): seq<Exchange> {
    if log == [] then []
    else if IsQuery(log[0].msg) then OtherExchanges(log[1..])
    else [log[0]] + OtherExchanges(log[1..])
  }

  lemma QueryIsIdle(s: Session, msg: seq<byte>)
    requires Consistent(s) && IsQuery(msg)
    ensures Handle(s, msg).session == s && !Handle(s, msg).exit
  {
    hide Consistent, HandleAsync, HandleSecure, HandleLegacy;
  }

  /** Deleting the queries from any run changes neither how it ends, nor any of the session's
      state, nor the answers to the other messages. */
  lemma {:induction false} QueriesAreTransparent(s: Session, msgs: seq<seq<byte>>)
    requires Consistent(s)
    ensures var r := Serve(s, msgs);
            var q := Serve(s, WithoutQueries(msgs));
            r.session == q.session && r.exit == q.exit && OtherExchanges(r.log) == q.log
    decreases |msgs|
  {
    hide Consistent, Handle, IsQuery;
    if msgs != [] {
      var h := Handle(s, msgs[0]);
      var entry := Exchange(msgs[0], h.replies);
      if IsQuery(msgs[0]) {
        QueryIsIdle(s, msgs[0]);
        QueriesAreTransparent(s, msgs[1..]);
        assert Serve(s, msgs).log[1..] == Serve(s, msgs[1..]).log;
      } else {
        var rest := WithoutQueries(msgs[1..]);
        assert ([msgs[0]] + rest)[1..] == rest;
        if h.exit {
          assert Serve(s, msgs).log[1..] == [];
        } else {
          QueriesAreTransparent(h.session, msgs[1..]);
          assert Serve(s, msgs).log[1..] == Serve(h.session, msgs[1..]).log;
        }
      }
    }
  }

  // ----- completion -----

  /** Only an exhausted plan can make a payload call fail and still leave the plan done. */
  lemma {:induction false} FailedAndDone(s: Stream, d: Disk, data: seq<byte>)
    requires Steppable(s) && d.Valid()
    ensures var r := Run(s, d, data);
            IsError(r.status) && Done(r.stream) ==> r.status == BAD_BUFFER_SIZE
    decreases |data|, |s.plan.entries| - s.index
  {
    hide WriteFrom, Overlay;
    if data != [] {
      var t := Step(s, d, data);
      if !IsError(t.status) {
        FailedAndDone(t.stream, t.disk, data[t.took..]);
      }
    }
  }

  /** What a payload packet's data does to the machine. */
  function Fate(s: Session, data: seq<byte>): Fed
    requires Consistent(s)
  {
    if s.ready && data != [] then Feed(s.flash, s.disk, data) else Fed(SUCCESS, s.flash, s.disk)
  }

  /** Host and device agree on completion: the host's parser accepts the answer to a progress-100
      packet exactly when the device was ready, the packet raised no error and every entry has been
      flashed; and the device leaves its loop in exactly that case. */
  lemma CompletionAgreement(s: Session, data: seq<byte>)
    requires Consistent(s)
    ensures var h := Deliver(s, data, 100);
            var complete := s.ready && Fate(s, data).status == SUCCESS && Done(Fate(s, data).stream);
            && |h.replies| == 1 && h.replies[0].Answer?
            && (ParsePayloadResponse(h.replies[0].bytes, true).result == STATUS_OK <==> complete)
            && (h.exit <==> complete)
  {
    hide Run, SecureStatusBytes, ParsePayloadResponse, Consistent;
    if s.ready && data != [] {
      assert Steppable(s.flash) && s.disk.Valid() by {
        ReadyIsSteppable(s);
      }
      FailedAndDone(s.flash, s.disk, data);
    }
    var r := Fate(s, data);
    var status: u16 := if !s.ready then 6 else StatusFromEfi(r.status);
    var specifier: u32 := if IsError(r.status) then Wrap32(r.status) else 0;
    var finalState: byte := if Done(r.stream) then 1 else 0;
    StatusRoundTrip(
      if finalState == 0 && status == 0 then 8 else status, specifier, 0xFFFF_FFFF, r.stream.lastSector, finalState,
      true);
  }

  lemma ReadyIsSteppable(s: Session)
    requires Consistent(s) && s.ready
    ensures Steppable(s.flash) && s.disk.Valid()
  {
  }

  /** Before the last packet the host can be misled: its parser accepts the answer exactly when the
      device was ready and the error code, if any, is zero in its low 16 bits, which is all the
      answer carries. */
  lemma ProgressAnswer(s: Session, data: seq<byte>, progress: byte)
    requires Consistent(s) && progress != 100
    ensures var h := Deliver(s, data, progress);
            && |h.replies| == 1 && h.replies[0].Answer? && !h.exit
            && (ParsePayloadResponse(h.replies[0].bytes, false).result == STATUS_OK <==>
                s.ready && (Fate(s, data).status == SUCCESS || Fate(s, data).status % 0x1_0000 == 0))
  {
    hide Run, SecureStatusBytes, ParsePayloadResponse, Consistent;
    var r := Fate(s, data);
    var status: u16 := if !s.ready then 6 else StatusFromEfi(r.status);
    var specifier: u32 := if IsError(r.status) then Wrap32(r.status) else 0;
    FateStatus(s, data);
    StatusRoundTrip(status, specifier, 0xFFFF_FFFF, r.stream.lastSector, 0, false);
  }

  lemma FateStatus(s: Session, data: seq<byte>)
    requires Consistent(s)
    ensures Fate(s, data).status == SUCCESS || IsError(Fate(s, data).status)
  {
  }

  /** No error in the device's script is zero in its low 16 bits. */
  predicate SpeaksUp(d: Disk) {
    forall i :: 0 <= i < |d.outcomes| ==> !StreamRuns.Silent(d.outcomes[i].status)
  }

  /** On a device whose error codes reach the answer the host is never misled: it accepts the answer
      exactly if the device was ready and the packet raised no error. On any device, an accepted
      failure is the device's own: its code is scripted, and is zero in the bits the answer carries. */
  lemma ProgressAnswerHonest(s: Session, data: seq<byte>, progress: byte)
    requires Consistent(s) && progress != 100
    ensures var h := Deliver(s, data, progress);
            var fine := s.ready && Fate(s, data).status == SUCCESS;
            && |h.replies| == 1 && h.replies[0].Answer?
            && var accepted := ParsePayloadResponse(h.replies[0].bytes, false).result == STATUS_OK;
            && (fine ==> accepted) && (SpeaksUp(s.disk) ==> (accepted <==> fine))
            && (accepted && !fine ==>
                  s.ready && StreamRuns.Silent(Fate(s, data).status)
                    && StreamRuns.Scripted(s.disk, Fate(s, data).status))
  {
    hide Deliver, Fate, ParsePayloadResponse, Consistent, StreamRuns.Scripted, SpeaksUp;
    ProgressAnswer(s, data, progress);
    FateStatus(s, data);
    if StreamRuns.Silent(Fate(s, data).status) {
      SilentFate(s, data);
    }
  }

  lemma SilentFate(s: Session, data: seq<byte>)
    requires Consistent(s) && StreamRuns.Silent(Fate(s, data).status)
    ensures StreamRuns.Scripted(s.disk, Fate(s, data).status) && !SpeaksUp(s.disk)
  {
    hide Run, Steppable, Disk.Valid;
    ReadyIsSteppable(s);
    StreamRuns.SilentIsScripted(s.flash, s.disk, data);
  }
}
