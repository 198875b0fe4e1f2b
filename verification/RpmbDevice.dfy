/** An abstract RPMB target that follows section 8.10 of the NVM Express Base
    Specification 1.4, as far as the host code in nvme-cli/nvme-rpmb.c exercises it. */
module RpmbDevice {
  import opened Bytes
  import opened Common
  import opened RpmbFrames

  /** `pending` is what the next receive command returns, `outcome` the response to the
      last write request, kept until it is asked for. */
  datatype Device = Device(key: Option<seq<u8>>, accessSize: nat, counter: nat, store: seq<u8>,
                           pending: seq<u8>, outcome: seq<u8>)

  const OK := 0
  const GENERAL_FAILURE := 1
  const MAC_FAILURE := 2
  const COUNTER_FAILURE := 3
  const ADDRESS_FAILURE := 4
  const EXPIRED_WRITE_FAILURE := 0x85
  const NO_KEY := 7
  const EXPIRED := 0x80
  const LAST_COUNTER := 0xFFFF_FFFF

  /** The sectors lie inside the target and fit one access. */
  predicate InRange(d: Device, address: nat, sectors: nat) {
    0 < sectors <= d.accessSize && SECTOR * (address + sectors) <= |d.store|
  }

  /** The outcome of a write request. */
  function WriteResult(hmac: Hmac, d: Device, f: seq<u8>): nat
    requires |f| >= HEADER
  {
    if d.key.None? then NO_KEY
    else if d.counter >= LAST_COUNTER then EXPIRED_WRITE_FAILURE
    else if !InRange(d, AddressOf(f), SectorsOf(f)) || |f| != HEADER + SECTOR * SectorsOf(f) then ADDRESS_FAILURE
    else if hmac(d.key.value, BodyOf(f)) != MacOf(f) then MAC_FAILURE
    else if CounterOf(f) != d.counter then COUNTER_FAILURE
    else OK
  }

  predicate IsWrite(f: seq<u8>) {
    |f| >= HEADER && KindOf(f) == REQ_AUTH_DATA_WRITE
  }

  /** The frame is a write request that takes effect. */
  predicate Accepts(hmac: Hmac, d: Device, f: seq<u8>) {
    IsWrite(f) && WriteResult(hmac, d, f) == OK
  }

  function Response(kind: nat, nonce: Nonce, counter: nat, address: nat, sectors: nat, result: nat, data: seq<u8>): seq<u8> {
    Encode(Zeros(32), Fields(0, nonce, counter, address, sectors, result, kind * 0x100, data))
  }

  function CounterResult(d: Device): nat {
    if d.key.None? then NO_KEY else if d.counter >= LAST_COUNTER then EXPIRED else OK
  }

  /** The effect of a security send command that delivers the frame f. */
  function Process(hmac: Hmac, d: Device, f: seq<u8>): Device {
    if |f| < HEADER then d
    else if KindOf(f) == REQ_READ_WRITE_CNTR then
      d.(pending := Response(REQ_READ_WRITE_CNTR, NonceOf(f), d.counter, 0, 0, CounterResult(d), []))
    else if KindOf(f) == REQ_AUTH_DATA_WRITE then
      var r := WriteResult(hmac, d, f);
      var d' := if r == OK then Written(d, f) else d;
      d'.(outcome := Response(REQ_AUTH_DATA_WRITE, NonceOf(f), d'.counter, AddressOf(f), 0, r, []))
    else if KindOf(f) == REQ_AUTH_DATA_READ then
      if !InRange(d, AddressOf(f), SectorsOf(f)) then
        d.(pending := Response(REQ_AUTH_DATA_READ, NonceOf(f), 0, AddressOf(f), 0, ADDRESS_FAILURE, []))
      else
        d.(pending := Response(REQ_AUTH_DATA_READ, NonceOf(f), 0, AddressOf(f), SectorsOf(f), OK,
                               d.store[SECTOR * AddressOf(f)..SECTOR * (AddressOf(f) + SectorsOf(f))]))
    else if KindOf(f) == REQ_READ_RESULT then d.(pending := d.outcome)
    else d.(pending := Response(0, NonceOf(f), 0, 0, 0, GENERAL_FAILURE, []))
  }

  /** The store and the counter after an accepted write. */
  function Written(d: Device, f: seq<u8>): Device
    requires |f| >= HEADER && SECTOR * AddressOf(f) + |DataOf(f)| <= |d.store|
  {
    d.(counter := d.counter + 1, store := Splice(d.store, SECTOR * AddressOf(f), DataOf(f)))
  }

  function Run(hmac: Hmac, d: Device, frames: seq<seq<u8>>): Device {
    if frames == [] then d else Process(hmac, Run(hmac, d, frames[..|frames| - 1]), frames[|frames| - 1])
  }

  // ---------------------------------------------------------------- every run

  /** A write request is all that changes the store or the counter, and it changes them
      exactly when it is accepted. */
  lemma ProcessFrame(hmac: Hmac, d: Device, f: seq<u8>)
    ensures var d' := Process(hmac, d, f);
            && d'.key == d.key && d'.accessSize == d.accessSize
            && (Accepts(hmac, d, f) ==> SECTOR * AddressOf(f) + |DataOf(f)| <= |d.store|
                                        && d'.counter == d.counter + 1 == CounterOf(f) + 1
                                        && d'.store == Splice(d.store, SECTOR * AddressOf(f), DataOf(f)))
            && (!Accepts(hmac, d, f) ==> d'.counter == d.counter && d'.store == d.store)
            && (!IsWrite(f) ==> d'.outcome == d.outcome)
  {
    hide Response, Splice, FromLe, Encode;
  }

  lemma {:induction false} CounterGrows(hmac: Hmac, d: Device, frames: seq<seq<u8>>)
    ensures Run(hmac, d, frames).counter >= d.counter
    ensures Run(hmac, d, frames).counter == d.counter ==> Run(hmac, d, frames).store == d.store
  {
    hide Process, Accepts;
    if frames != [] {
      var init := frames[..|frames| - 1];
      CounterGrows(hmac, d, init);
      ProcessFrame(hmac, Run(hmac, d, init), frames[|frames| - 1]);
    }
  }

  lemma {:induction false} RunConcat(hmac: Hmac, d: Device, a: seq<seq<u8>>, b: seq<seq<u8>>)
    ensures Run(hmac, d, a + b) == Run(hmac, Run(hmac, d, a), b)
    decreases |b|
  {
    hide Process;
    if b == [] {
      assert a + b == a;
    } else {
      assert (a + b)[..|a + b| - 1] == a + b[..|b| - 1];
      RunConcat(hmac, d, a, b[..|b| - 1]);
    }
  }

  lemma AcceptedCounter(hmac: Hmac, d: Device, f: seq<u8>)
    requires Accepts(hmac, d, f)
    ensures CounterOf(f) == d.counter
  {}

  /** A write takes effect only on the very store that was there when its counter was read:
      whatever other hosts send in between, no write of theirs came first. */
  lemma CompareAndSwap(hmac: Hmac, d: Device, others: seq<seq<u8>>, f: seq<u8>)
    requires IsWrite(f) && CounterOf(f) == d.counter
    requires Accepts(hmac, Run(hmac, d, others), f)
    ensures Run(hmac, d, others).counter == d.counter
    ensures Run(hmac, d, others).store == d.store
  {
    hide Accepts, Run;
    AcceptedCounter(hmac, Run(hmac, d, others), f);
    CounterGrows(hmac, d, others);
  }

  /** No frame takes effect twice, however the frames of a run are interleaved. */
  lemma NoFrameTwice(hmac: Hmac, d: Device, frames: seq<seq<u8>>, i: nat, j: nat)
    requires i < j < |frames| && frames[i] == frames[j]
    requires Accepts(hmac, Run(hmac, d, frames[..i]), frames[i])
    ensures !Accepts(hmac, Run(hmac, d, frames[..j]), frames[j])
  {
    hide Accepts, Process;
    var f := frames[i];
    var x := Run(hmac, d, frames[..i]);
    AcceptedCounter(hmac, x, f);
    ProcessFrame(hmac, x, f);
    assert frames[..i + 1][..i] == frames[..i];
    assert frames[..j] == frames[..i + 1] + frames[i + 1..j];
    RunConcat(hmac, d, frames[..i + 1], frames[i + 1..j]);
    CounterGrows(hmac, Run(hmac, d, frames[..i + 1]), frames[i + 1..j]);
    if Accepts(hmac, Run(hmac, d, frames[..j]), f) {
      AcceptedCounter(hmac, Run(hmac, d, frames[..j]), f);
    }
  }

  // ---------------------------------------------------------------- write frames

  /** The frame of a data write, as the host builds it. */
  function WriteFields(target: u8, counter: nat, address: nat, data: seq<u8>): Fields {
    Fields(target, Zeros(16), counter, address, |data| / SECTOR, OK, REQ_AUTH_DATA_WRITE, data)
  }

  function WriteFrame(hmac: Hmac, key: seq<u8>, target: u8, counter: nat, address: nat, data: seq<u8>): seq<u8> {
    var f := WriteFields(target, counter, address, data);
    Encode(hmac(key, Body(f)), f)
  }

  /** When a write of whole sectors is accepted. */
  lemma WriteFrameAcceptedIff(hmac: Hmac, d: Device, key: seq<u8>, target: u8, counter: nat, address: nat, data: seq<u8>)
    requires |data| % SECTOR == 0 && |data| < TWO32 && address < TWO32 && counter < TWO32
    ensures Accepts(hmac, d, WriteFrame(hmac, key, target, counter, address, data))
            <==> && d.key.Some? && d.counter < LAST_COUNTER && InRange(d, address, |data| / SECTOR) && counter == d.counter
                 && hmac(d.key.value, Body(WriteFields(target, counter, address, data)))
                    == hmac(key, Body(WriteFields(target, counter, address, data)))
    ensures var f := WriteFrame(hmac, key, target, counter, address, data);
            && |f| == HEADER + |data| && IsWrite(f) && TargetOf(f) == target
            && CounterOf(f) == counter && AddressOf(f) == address && DataOf(f) == data
  {
    hide Encode, Body, FromLe, TargetOf, CounterOf, AddressOf, SectorsOf, KindOf, MacOf, BodyOf, DataOf;
    var f := WriteFields(target, counter, address, data);
    EncodeFields(hmac(key, Body(f)), f);
  }

  // ---------------------------------------------------------------- what is reported

  predicate AsksForResult(f: seq<u8>) {
    |f| >= HEADER && KindOf(f) == REQ_READ_RESULT
  }

  lemma ResponseResult(kind: nat, nonce: Nonce, counter: nat, address: nat, sectors: nat, result: nat, data: seq<u8>)
    requires kind < 0x100 && counter < TWO32 && address < TWO32 && sectors < TWO32 && result < 0x1_0000
    ensures var r := Response(kind, nonce, counter, address, sectors, result, data);
            && |r| == HEADER + |data| && ResultOf(r) == result && CounterOf(r) == counter && SectorsOf(r) == sectors
            && DataOf(r) == data && KindOf(r) == kind * 0x100
  {
    hide Encode, FromLe, ResultOf, CounterOf, SectorsOf, DataOf, KindOf;
    EncodeFields(Zeros(32), Fields(0, nonce, counter, address, sectors, result, kind * 0x100, data));
  }

  lemma AddressSmall(f: seq<u8>)
    requires |f| >= HEADER
    ensures AddressOf(f) < TWO32 && SectorsOf(f) < TWO32 && CounterOf(f) < TWO32
  {
    hide FromLe;
    Pow256Values();
    FromLeBound(f[ADDRESS_AT..SECTORS_AT]);
    FromLeBound(f[SECTORS_AT..RESULT_AT]);
    FromLeBound(f[COUNTER_AT..ADDRESS_AT]);
  }

  /** The result of the last write request of a run. */
  function LastWrite(hmac: Hmac, d: Device, frames: seq<seq<u8>>): nat {
    if frames == [] then GENERAL_FAILURE
    else
      var init, f := frames[..|frames| - 1], frames[|frames| - 1];
      if IsWrite(f) then WriteResult(hmac, Run(hmac, d, init), f) else LastWrite(hmac, d, init)
  }

  lemma OutcomeOfWrite(hmac: Hmac, d: Device, f: seq<u8>)
    requires IsWrite(f) && d.counter <= LAST_COUNTER
    ensures |Process(hmac, d, f).outcome| == HEADER
    ensures ResultOf(Process(hmac, d, f).outcome) == WriteResult(hmac, d, f)
    ensures CounterOf(Process(hmac, d, f).outcome) == Process(hmac, d, f).counter
    ensures SectorsOf(Process(hmac, d, f).outcome) == 0
  {
    hide Response, FromLe, ResultOf, AddressOf, SectorsOf, Encode;
    var r := WriteResult(hmac, d, f);
    var d' := if r == OK then Written(d, f) else d;
    AddressSmall(f);
    ResponseResult(REQ_AUTH_DATA_WRITE, NonceOf(f), d'.counter, AddressOf(f), 0, r, []);
  }

  lemma CounterStays(hmac: Hmac, d: Device, f: seq<u8>)
    requires d.counter <= LAST_COUNTER
    ensures Process(hmac, d, f).counter <= LAST_COUNTER
  {
    hide Response, FromLe, Splice, Encode;
  }

  lemma {:induction false} CounterInRange(hmac: Hmac, d: Device, frames: seq<seq<u8>>)
    requires d.counter <= LAST_COUNTER
    ensures Run(hmac, d, frames).counter <= LAST_COUNTER
  {
    hide Process;
    if frames != [] {
      CounterInRange(hmac, d, frames[..|frames| - 1]);
      CounterStays(hmac, Run(hmac, d, frames[..|frames| - 1]), frames[|frames| - 1]);
    }
  }

  /** The outcome that the target keeps is that of the last write request it has processed,
      whoever sent it. */
  lemma {:induction false} ReportedResult(hmac: Hmac, d: Device, f: seq<u8>, others: seq<seq<u8>>)
    requires IsWrite(f) && d.counter <= LAST_COUNTER
    ensures |Run(hmac, d, [f] + others).outcome| >= HEADER
    ensures ResultOf(Run(hmac, d, [f] + others).outcome) == LastWrite(hmac, d, [f] + others)
    decreases |others|
  {
    hide Process, WriteResult, ResultOf, IsWrite;
    var all := [f] + others;
    var init, last := all[..|others|], all[|others|];
    assert all[..|all| - 1] == init;
    if others == [] {
      assert init == [] && last == f;
      OutcomeOfWrite(hmac, d, f);
    } else {
      assert init == [f] + others[..|others| - 1];
      ReportedResult(hmac, d, f, others[..|others| - 1]);
      var x := Run(hmac, d, init);
      CounterInRange(hmac, d, init);
      if IsWrite(last) {
        OutcomeOfWrite(hmac, x, last);
      } else {
        ProcessFrame(hmac, x, last);
      }
    }
  }

  /** That is what waits right after a request for the result. */
  lemma ResultAfterRequest(hmac: Hmac, d: Device, f: seq<u8>, others: seq<seq<u8>>, q: seq<u8>)
    requires IsWrite(f) && d.counter <= LAST_COUNTER && AsksForResult(q)
    ensures var p := Run(hmac, d, [f] + others + [q]).pending;
            |p| >= HEADER && ResultOf(p) == LastWrite(hmac, d, [f] + others)
  {
    hide Process, ResultOf, LastWrite;
    var all := [f] + others + [q];
    assert all[..|all| - 1] == [f] + others;
    ReportedResult(hmac, d, f, others);
    ResultAsked(hmac, Run(hmac, d, [f] + others), q);
  }

  /** If nobody else sends a write request in between, it is the outcome of the host's own. */
  lemma {:induction false} OwnResult(hmac: Hmac, d: Device, f: seq<u8>, others: seq<seq<u8>>)
    requires IsWrite(f)
    requires forall g :: g in others ==> !IsWrite(g)
    ensures LastWrite(hmac, d, [f] + others) == WriteResult(hmac, d, f)
    decreases |others|
  {
    hide WriteResult, IsWrite, Process;
    var all := [f] + others;
    if others == [] {
      assert all[..0] == [] && all[0] == f;
    } else {
      assert all[..|all| - 1] == [f] + others[..|others| - 1];
      assert all[|all| - 1] in others;
      OwnResult(hmac, d, f, others[..|others| - 1]);
    }
  }

  /** The host tests nothing but the result. Between two writes of another host its own
      frame is refused, yet the answer it gets says success: the data is not written. */
  lemma SuccessOfAnother(hmac: Hmac, d: Device, key: seq<u8>, mine: seq<u8>, a: seq<u8>, b: seq<u8>, q: seq<u8>)
    requires d.key == Some(key) && d.counter + 1 < LAST_COUNTER && InRange(d, 0, 1)
    requires |mine| == |a| == |b| == SECTOR && AsksForResult(q)
    ensures var c := d.counter;
            var f, g, h := WriteFrame(hmac, key, 0, c, 0, mine), WriteFrame(hmac, key, 0, c, 0, a), WriteFrame(hmac, key, 0, c + 1, 0, b);
            var end := Run(hmac, d, [g, f, h, q]);
            && !Accepts(hmac, Run(hmac, d, [g]), f)
            && |end.pending| >= HEADER && ResultOf(end.pending) == OK
            && end.store == Splice(d.store, 0, b)
  {
    hide WriteFrame, Process, Accepts, WriteResult, ResultOf, Body;
    var c := d.counter;
    var f, g, h := WriteFrame(hmac, key, 0, c, 0, mine), WriteFrame(hmac, key, 0, c, 0, a), WriteFrame(hmac, key, 0, c + 1, 0, b);
    var d1 := Process(hmac, d, g);
    var d2 := Process(hmac, d1, f);
    var d3 := Process(hmac, d2, h);
    FourSteps(hmac, d, g, f, h, q);
    WriteFrameAcceptedIff(hmac, d, key, 0, c, 0, a);
    ProcessFrame(hmac, d, g);
    WriteFrameAcceptedIff(hmac, d1, key, 0, c, 0, mine);
    ProcessFrame(hmac, d1, f);
    WriteFrameAcceptedIff(hmac, d2, key, 0, c + 1, 0, b);
    ProcessFrame(hmac, d2, h);
    AcceptedIsOk(hmac, d2, h);
    OutcomeOfWrite(hmac, d2, h);
    ResultAsked(hmac, d3, q);
    assert Splice(Splice(d.store, 0, a), 0, b) == Splice(d.store, 0, b);
  }

  /** The target can still be written to by whoever has the key. */
  predicate Open(d: Device) {
    d.key.Some? && d.counter < LAST_COUNTER && d.accessSize > 0 && SECTOR <= |d.store|
  }

  lemma ClosedStays(hmac: Hmac, d: Device, f: seq<u8>)
    requires !Open(d)
    ensures !Accepts(hmac, d, f) && !Open(Process(hmac, d, f))
  {
    hide Process, FromLe;
    ProcessFrame(hmac, d, f);
  }

  lemma {:induction false} ClosedRefuses(hmac: Hmac, d: Device, frames: seq<seq<u8>>)
    requires !Open(d)
    ensures !Open(Run(hmac, d, frames)) && LastWrite(hmac, d, frames) != OK
  {
    hide Process, WriteResult, Open;
    if frames != [] {
      var init := frames[..|frames| - 1];
      ClosedRefuses(hmac, d, init);
      ClosedStays(hmac, Run(hmac, d, init), frames[|frames| - 1]);
    }
  }

  /** The frame carries as many sectors as it says, and at least one. */
  predicate WellSized(f: seq<u8>) {
    |f| >= HEADER && SectorsOf(f) > 0 && |f| == HEADER + SECTOR * SectorsOf(f)
  }

  predicate Authentic(hmac: Hmac, key: seq<u8>, f: seq<u8>)
    requires |f| >= HEADER
  {
    hmac(key, BodyOf(f)) == MacOf(f)
  }

  function EndOf(f: seq<u8>): nat
    requires |f| >= HEADER
  {
    AddressOf(f) + SectorsOf(f)
  }

  /** Wherever the frame g is accepted, f would have been: it is as well-formed, has the same
      counter, and is neither longer nor reaches further. */
  predicate Covered(hmac: Hmac, key: seq<u8>, f: seq<u8>, g: seq<u8>)
    requires |g| >= HEADER
  {
    && WellSized(f) && Authentic(hmac, key, f)
    && CounterOf(f) == CounterOf(g) && SectorsOf(f) <= SectorsOf(g) && EndOf(f) <= EndOf(g)
  }

  /** A write of somebody else that some target accepts although it refuses f. */
  predicate Rival(hmac: Hmac, key: seq<u8>, f: seq<u8>, g: seq<u8>) {
    && IsWrite(g) && WellSized(g) && Authentic(hmac, key, g) && CounterOf(g) < LAST_COUNTER
    && !Covered(hmac, key, f, g)
  }

  /** If the last write of a run succeeded then some frame of it is the first one accepted,
      and up to there nothing changed. */
  lemma {:induction false} FirstAccepted(hmac: Hmac, d: Device, frames: seq<seq<u8>>) returns (i: nat)
    ensures i <= |frames|
    ensures var x := Run(hmac, d, frames[..i]);
            x.key == d.key && x.accessSize == d.accessSize && x.counter == d.counter && x.store == d.store
    ensures i < |frames| ==> Accepts(hmac, Run(hmac, d, frames[..i]), frames[i])
    ensures i == |frames| ==> LastWrite(hmac, d, frames) != OK
  {
    hide Process, WriteResult, IsWrite;
    if frames == [] {
      return 0;
    }
    var n := |frames| - 1;
    var init, f := frames[..n], frames[n];
    i := FirstAccepted(hmac, d, init);
    assert init[..i] == frames[..i] && frames[..n + 1] == frames;
    if i == n {
      assert init[..n] == init;
      ProcessFrame(hmac, Run(hmac, d, init), f);
      if !Accepts(hmac, Run(hmac, d, init), f) {
        i := n + 1;
      }
    }
  }

  lemma CoveredIsAccepted(hmac: Hmac, d: Device, key: seq<u8>, f: seq<u8>, g: seq<u8>)
    requires d.key == Some(key) && IsWrite(f)
    ensures Accepts(hmac, d, g) ==> WellSized(g) && Authentic(hmac, key, g) && CounterOf(g) < LAST_COUNTER
    ensures Accepts(hmac, d, g) && Covered(hmac, key, f, g) ==> Accepts(hmac, d, f)
  {
    hide FromLe;
  }

  /** The target that has just room for g, and expects it. */
  function Expecting(key: seq<u8>, g: seq<u8>): Device
    requires |g| >= HEADER
  {
    Device(Some(key), SectorsOf(g), CounterOf(g), Zeros(SECTOR * EndOf(g)), [], [])
  }

  lemma RivalWins(hmac: Hmac, key: seq<u8>, f: seq<u8>, g: seq<u8>)
    requires Rival(hmac, key, f, g)
    ensures |g| >= HEADER && Accepts(hmac, Expecting(key, g), g) && !Accepts(hmac, Expecting(key, g), f)
  {
    hide FromLe;
  }

  /** A host whose frame is followed by no other write, and whose request for the result by
      nothing but such requests, receives the outcome of its own frame. */
  lemma {:induction false} OwnReceived(hmac: Hmac, d: Device, f: seq<u8>, a: seq<seq<u8>>, q: seq<u8>, b: seq<seq<u8>>)
    requires IsWrite(f) && d.counter <= LAST_COUNTER && AsksForResult(q)
    requires forall g :: g in a ==> !IsWrite(g)
    requires forall g :: g in b ==> |g| < HEADER || AsksForResult(g)
    ensures var p := Received(hmac, d, f, a, q, b); |p| >= HEADER && ResultOf(p) == WriteResult(hmac, d, f)
    decreases |b|
  {
    hide Process, ResultOf, WriteResult, KindOf, LastWrite;
    var all := [f] + a + [q] + b;
    if b == [] {
      assert all == [f] + a + [q];
      ResultAfterRequest(hmac, d, f, a, q);
      OwnResult(hmac, d, f, a);
    } else {
      var b', g := b[..|b| - 1], b[|b| - 1];
      var others := a + [q] + b';
      assert g in b && all[..|all| - 1] == [f] + a + [q] + b' == [f] + others;
      OwnReceived(hmac, d, f, a, q, b');
      if AsksForResult(g) {
        ReportedResult(hmac, d, f, others);
        ResultAsked(hmac, Run(hmac, d, [f] + others), g);
        OwnResult(hmac, d, f, others);
      } else {
        ShortIsIgnored(hmac, Run(hmac, d, [f] + others), g);
      }
    }
  }

  lemma ShortIsIgnored(hmac: Hmac, d: Device, g: seq<u8>)
    requires |g| < HEADER
    ensures Process(hmac, d, g) == d
  {}

  /** A request whose answer some target gives with result OK: it takes the place of the
      outcome that the host is waiting for. */
  predicate Answered(g: seq<u8>) {
    && |g| >= HEADER
    && (KindOf(g) == REQ_READ_WRITE_CNTR || (KindOf(g) == REQ_AUTH_DATA_READ && SectorsOf(g) > 0))
  }

  /** What a host receives that sends f and then q, with frames of others after either. */
  function Received(hmac: Hmac, d: Device, f: seq<u8>, a: seq<seq<u8>>, q: seq<u8>, b: seq<seq<u8>>): seq<u8> {
    Run(hmac, d, [f] + a + [q] + b).pending
  }

  /** Whatever other hosts send out of s, a received success means that the host's own frame
      f took effect. */
  ghost predicate ReportTrusted(hmac: Hmac, key: seq<u8>, f: seq<u8>, s: iset<seq<u8>>) {
    forall d: Device, a: seq<seq<u8>>, q: seq<u8>, b: seq<seq<u8>> ::
      Told(hmac, key, d, f, a, q, b) && Drawn(a, s) && Drawn(b, s) ==> Accepts(hmac, d, f)
  }

  /** The run is one at a target with this key and ends with a success for the host. */
  ghost predicate Told(hmac: Hmac, key: seq<u8>, d: Device, f: seq<u8>, a: seq<seq<u8>>, q: seq<u8>, b: seq<seq<u8>>) {
    && d.key == Some(key) && d.counter <= LAST_COUNTER && AsksForResult(q)
    && var p := Received(hmac, d, f, a, q, b); |p| >= HEADER && ResultOf(p) == OK
  }

  ghost predicate Drawn(frames: seq<seq<u8>>, s: iset<seq<u8>>) {
    forall g :: g in frames ==> g in s
  }

  /** No frame of s is a rival of f, and none is answered in place of its outcome. */
  ghost predicate Harmless(hmac: Hmac, key: seq<u8>, f: seq<u8>, s: iset<seq<u8>>) {
    forall g :: g in s ==> !Rival(hmac, key, f, g) && !Answered(g)
  }

  /** A received success can be trusted exactly then. */
  lemma ReportTrustedIff(hmac: Hmac, key: seq<u8>, f: seq<u8>, s: iset<seq<u8>>)
    requires IsWrite(f)
    ensures ReportTrusted(hmac, key, f, s) <==> Harmless(hmac, key, f, s)
  {
    hide IsWrite, Rival, Answered, Accepts, Told;
    if Harmless(hmac, key, f, s) {
      forall d: Device, a: seq<seq<u8>>, q: seq<u8>, b: seq<seq<u8>>
        | Told(hmac, key, d, f, a, q, b) && Drawn(a, s) && Drawn(b, s)
        ensures Accepts(hmac, d, f)
      {
        HarmlessIsTrusted(hmac, d, key, f, a, q, b, s);
      }
    } else {
      var g :| g in s && (Rival(hmac, key, f, g) || Answered(g));
      var q := Zeros(TYPE_AT) + [5, 0];
      QuestionAsks();
      assert Drawn([g], s) && Drawn([], s);
      if Rival(hmac, key, f, g) {
        RivalLies(hmac, key, f, g, q);
        assert Told(hmac, key, Expecting(key, g), f, [g], q, []);
      } else {
        AnswerLies(hmac, key, f, g, q);
        assert Told(hmac, key, Unlike(key, f, g), f, [], q, [g]);
      }
    }
  }

  lemma QuestionAsks()
    ensures AsksForResult(Zeros(TYPE_AT) + [5, 0])
  {
    var b := Zeros(TYPE_AT) + [5, 0];
    assert b[TYPE_AT..HEADER] == [5, 0];
    assert FromLe([5, 0]) == 5 by { assert [5, 0][1..] == [0] && [0][1..] == []; }
  }

  /** A rival that comes first: its outcome is what the host is told. */
  lemma RivalLies(hmac: Hmac, key: seq<u8>, f: seq<u8>, g: seq<u8>, q: seq<u8>)
    requires IsWrite(f) && Rival(hmac, key, f, g) && AsksForResult(q)
    ensures |g| >= HEADER && var d := Expecting(key, g); Told(hmac, key, d, f, [g], q, []) && !Accepts(hmac, d, f)
  {
    hide Process, WriteResult, WellSized, Authentic, Covered, ResultOf;
    RivalWins(hmac, key, f, g);
    var d := Expecting(key, g);
    ProcessFrame(hmac, d, f);
    TwoWrites(hmac, d, f, g);
    SameJudgement(hmac, d, Process(hmac, d, f), g);
    AcceptedIsOk(hmac, Process(hmac, d, f), g);
    ResultAfterRequest(hmac, d, f, [g], q);
    assert [f] + [g] + [q] + [] == [f] + [g] + [q];
  }

  /** A target with another counter than f, which answers g. */
  function Unlike(key: seq<u8>, f: seq<u8>, g: seq<u8>): Device
    requires |f| >= HEADER && |g| >= HEADER
  {
    Device(Some(key), SectorsOf(g), if CounterOf(f) == 0 then 1 else 0, Zeros(SECTOR * EndOf(g)), [], [])
  }

  /** A counter or read request that comes last: its answer is what the host is told. */
  lemma AnswerLies(hmac: Hmac, key: seq<u8>, f: seq<u8>, g: seq<u8>, q: seq<u8>)
    requires IsWrite(f) && Answered(g) && AsksForResult(q)
    ensures |f| >= HEADER && |g| >= HEADER
    ensures var d := Unlike(key, f, g); Told(hmac, key, d, f, [], q, [g]) && !Accepts(hmac, d, f)
  {
    hide Process, ResultOf, FromLe, KindOf, CounterOf, AddressOf, SectorsOf;
    var d := Unlike(key, f, g);
    if Accepts(hmac, d, f) { AcceptedCounter(hmac, d, f); }
    var x := Process(hmac, d, f);
    ProcessFrame(hmac, d, f);
    ResultAsked(hmac, x, q);
    FourSteps(hmac, d, f, q, g, g);
    assert [f] + [] + [q] + [g] == [f, q, g];
    assert Run(hmac, d, [f, q, g]) == Process(hmac, Process(hmac, x, q), g);
    AnswerSaysOk(hmac, x.(pending := x.outcome), g);
  }

  lemma AnswerSaysOk(hmac: Hmac, d: Device, g: seq<u8>)
    requires Answered(g) && d.key.Some? && d.counter < LAST_COUNTER
    requires d.accessSize == SectorsOf(g) && |d.store| == SECTOR * EndOf(g)
    ensures var p := Process(hmac, d, g).pending; |p| >= HEADER && ResultOf(p) == OK
  {
    hide Response, ResultOf, FromLe, KindOf, AddressOf, SectorsOf;
    AddressSmall(g);
    var a, n := AddressOf(g), SectorsOf(g);
    ResponseResult(REQ_READ_WRITE_CNTR, NonceOf(g), d.counter, 0, 0, CounterResult(d), []);
    if n > 0 {
      ResponseResult(REQ_AUTH_DATA_READ, NonceOf(g), 0, a, n, OK, d.store[SECTOR * a..SECTOR * (a + n)]);
    }
  }

  /** A frame that is not answered leaves what waits, replaces it by a failure, or, if it asks
      for the result itself, by the outcome. */
  lemma NotAnswered(hmac: Hmac, d: Device, g: seq<u8>)
    requires !Answered(g)
    ensures var p := Process(hmac, d, g).pending;
            || p == d.pending
            || (AsksForResult(g) && p == d.outcome)
            || (|p| >= HEADER && ResultOf(p) != OK)
  {
    hide Response, ResultOf, FromLe, KindOf, AddressOf, SectorsOf, WriteResult;
    if |g| >= HEADER {
      AddressSmall(g);
      ResponseResult(REQ_AUTH_DATA_READ, NonceOf(g), 0, AddressOf(g), 0, ADDRESS_FAILURE, []);
      ResponseResult(0, NonceOf(g), 0, 0, 0, GENERAL_FAILURE, []);
    }
  }

  /** Among harmless frames, what is received is no success unless f took effect. */
  lemma {:induction false} HarmlessIsTrusted(hmac: Hmac, d: Device, key: seq<u8>, f: seq<u8>, a: seq<seq<u8>>, q: seq<u8>,
                                             b: seq<seq<u8>>, s: iset<seq<u8>>)
    requires IsWrite(f) && Told(hmac, key, d, f, a, q, b) && Drawn(a, s) && Drawn(b, s)
    requires Harmless(hmac, key, f, s)
    ensures Accepts(hmac, d, f)
    decreases |b|
  {
    hide Process, ResultOf, IsWrite, Rival, Answered, Accepts, AsksForResult, LastWrite;
    var all := [f] + a + [q] + b;
    var s' := s + iset{q};
    AskingIsNoRival(hmac, key, f, q);
    if b == [] {
      assert all == [f] + a + [q];
      ResultAfterRequest(hmac, d, f, a, q);
      NoRivalNoLie(hmac, d, key, f, a, s');
    } else {
      var b', g := b[..|b| - 1], b[|b| - 1];
      var others := a + [q] + b';
      assert g in b && all[..|all| - 1] == [f] + a + [q] + b' == [f] + others;
      NotAnswered(hmac, Run(hmac, d, [f] + others), g);
      if Run(hmac, d, all).pending == Run(hmac, d, [f] + others).pending {
        HarmlessIsTrusted(hmac, d, key, f, a, q, b', s);
      } else {
        ReportedResult(hmac, d, f, others);
        NoRivalNoLie(hmac, d, key, f, others, s');
      }
    }
  }

  lemma AskingIsNoRival(hmac: Hmac, key: seq<u8>, f: seq<u8>, q: seq<u8>)
    requires AsksForResult(q)
    ensures !Rival(hmac, key, f, q) && !Answered(q)
  {}

  lemma NoRivalNoLie(hmac: Hmac, d: Device, key: seq<u8>, f: seq<u8>, others: seq<seq<u8>>, s: iset<seq<u8>>)
    requires IsWrite(f) && d.key == Some(key) && Drawn(others, s) && LastWrite(hmac, d, [f] + others) == OK
    requires forall g :: g in s ==> !Rival(hmac, key, f, g)
    ensures Accepts(hmac, d, f)
  {
    hide Process, WriteResult, WellSized, Authentic, Covered;
    var all := [f] + others;
    var i := FirstAccepted(hmac, d, all);
    var x := Run(hmac, d, all[..i]);
    var g := all[i];
    SameJudgement(hmac, d, x, g);
    if i > 0 {
      assert g in others;
      CoveredIsAccepted(hmac, d, key, f, g);
      AcceptedIsOk(hmac, d, g);
    }
  }

  /** Targets with the same contents accept the same frames. */
  lemma SameJudgement(hmac: Hmac, d: Device, e: Device, g: seq<u8>)
    requires d.key == e.key && d.accessSize == e.accessSize && d.counter == e.counter && d.store == e.store
    ensures Accepts(hmac, d, g) == Accepts(hmac, e, g)
  {}

  lemma TwoWrites(hmac: Hmac, d: Device, f: seq<u8>, g: seq<u8>)
    requires IsWrite(g)
    ensures LastWrite(hmac, d, [f] + [g]) == WriteResult(hmac, Process(hmac, d, f), g)
  {
    hide Process, WriteResult, IsWrite;
    var s := [f] + [g];
    assert s[1] == g && s[..1] == [f] && [f][..0] == [];
    assert Run(hmac, d, [f]) == Process(hmac, d, f);
  }

  lemma AcceptedIsOk(hmac: Hmac, d: Device, f: seq<u8>)
    requires Accepts(hmac, d, f)
    ensures IsWrite(f) && WriteResult(hmac, d, f) == OK
  {}

  lemma ResultAsked(hmac: Hmac, d: Device, q: seq<u8>)
    requires AsksForResult(q)
    ensures Process(hmac, d, q) == d.(pending := d.outcome)
  {}

  lemma FourSteps(hmac: Hmac, d: Device, g: seq<u8>, f: seq<u8>, h: seq<u8>, q: seq<u8>)
    ensures Run(hmac, d, [g]) == Process(hmac, d, g)
    ensures Run(hmac, d, [g, f, h]) == Process(hmac, Process(hmac, Process(hmac, d, g), f), h)
    ensures Run(hmac, d, [g, f, h, q]) == Process(hmac, Process(hmac, Process(hmac, Process(hmac, d, g), f), h), q)
  {
    hide Process;
    var s := [g, f, h, q];
    assert [g][..0] == [] && s[..3] == [g, f, h] && [g, f, h][..2] == [g, f] && [g, f][..1] == [g];
    assert Run(hmac, d, [g]) == Process(hmac, d, g);
    assert Run(hmac, d, [g, f]) == Process(hmac, Run(hmac, d, [g]), f);
    assert Run(hmac, d, [g, f, h]) == Process(hmac, Run(hmac, d, [g, f]), h);
  }
}
