/** Model of the host side of nvme-cli/nvme-rpmb.c: request frames, the counter, and the
    chunked authenticated write and read. */
module RpmbHost {
  import opened Bytes
  import opened Common
  import opened RpmbDevice
  import opened RpmbFrames

  /** The first n bytes of b, filled up with zeros: what a receive command leaves in a
      zeroed buffer of n bytes. */
  function Resize(b: seq<u8>, n: nat): (r: seq<u8>)
    ensures |r| == n
  {
    if |b| >= n then b[..n] else b + Zeros(n - |b|)
  }

  // ---------------------------------------------------------------- the link to the target

  /** A target and the commands that reach it. Other hosts may send frames at any time
      unless the link is `exclusive`; commands may fail, before or after they had their
      effect, and memory may run out, unless the link is `reliable`. */
  class Link {
    const hmac: Hmac
    const exclusive: bool
    const reliable: bool
    ghost const initial: Device
    var dev: Device
    /** All frames processed so far, by whomever they were sent. */
    ghost var sent: seq<seq<u8>>

    ghost predicate Valid()
      reads this
    {
      dev == Run(hmac, initial, sent) && Sound(initial) && Sound(dev)
    }

    constructor (hmac: Hmac, d: Device, exclusive: bool, reliable: bool)
      requires Sound(d)
      ensures Valid() && dev == d && this.hmac == hmac && this.exclusive == exclusive && this.reliable == reliable
      ensures initial == d && sent == []
    {
      this.hmac, this.exclusive, this.reliable, this.initial := hmac, exclusive, reliable, d;
      dev, sent := d, [];
    }

    method Deliver(f: seq<u8>)
      requires Valid()
      modifies this
      ensures Valid() && dev == Process(hmac, old(dev), f) && sent == old(sent) + [f]
    {
      hide Process, Sound;
      SoundStays(hmac, dev, f);
      dev := Process(hmac, dev, f);
      sent := sent + [f];
      assert sent[..|sent| - 1] == old(sent);
    }

    /** Any number of frames from other hosts. */
    method Interfere()
      requires Valid()
      modifies this
      ensures Valid() && old(sent) <= sent
      ensures exclusive ==> dev == old(dev) && sent == old(sent)
    {
      if !exclusive {
        var n: nat := *;
        while n > 0
          invariant Valid() && old(sent) <= sent
        {
          var f: seq<u8> := *;
          Deliver(f);
          n := n - 1;
        }
      }
    }

    /** Whether the next `calloc` or `malloc` of the host finds memory. */
    method Allocates() returns (ok: bool)
      ensures reliable ==> ok
    {
      ok := *;
      if reliable {
        ok := true;
      }
    }

    /** `nvme_security_send`. */
    method Send(f: seq<u8>) returns (err: int)
      requires Valid()
      modifies this
      ensures Valid() && old(sent) <= sent
      ensures err == 0 ==> exists i :: |old(sent)| <= i < |sent| && sent[i] == f
      ensures exclusive ==>
                || (dev == Process(hmac, old(dev), f) && sent == old(sent) + [f])
                || (err != 0 && dev == old(dev) && sent == old(sent))
      ensures reliable ==> err == 0
    {
      hide Process, Valid;
      Interfere();
      err := *;
      var delivered: bool := *;
      if reliable {
        err := 0;
      }
      if err == 0 || delivered {
        ghost var i := |sent|;
        Deliver(f);
        assert sent[i] == f;
      }
    }

    /** `nvme_security_receive` into a zeroed buffer of n bytes. */
    method Receive(n: nat) returns (err: int, rsp: seq<u8>)
      requires Valid()
      modifies this
      ensures Valid() && old(sent) <= sent
      ensures rsp == Resize(dev.pending, n)
      ensures exclusive ==> dev == old(dev) && sent == old(sent)
      ensures reliable ==> err == 0
    {
      Interfere();
      err := *;
      if reliable {
        err := 0;
      }
      rsp := Resize(dev.pending, n);
    }
  }

  /** The counter is a 32-bit number; the outcome of the last write states it, and no sectors. */
  ghost predicate Sound(d: Device) {
    && d.counter <= LAST_COUNTER && |d.outcome| >= HEADER
    && CounterOf(d.outcome) == d.counter && SectorsOf(d.outcome) == 0
  }

  lemma SoundStays(hmac: Hmac, d: Device, f: seq<u8>)
    requires Sound(d)
    ensures Sound(Process(hmac, d, f))
  {
    hide Process, IsWrite;
    CounterStays(hmac, d, f);
    ProcessFrame(hmac, d, f);
    if IsWrite(f) {
      OutcomeOfWrite(hmac, d, f);
    }
  }

  /** What fits the target never changes. */
  lemma {:induction false} SameBounds(hmac: Hmac, d: Device, frames: seq<seq<u8>>)
    requires Sound(d)
    ensures var x := Run(hmac, d, frames);
            x.key == d.key && x.accessSize == d.accessSize && |x.store| == |d.store| && Sound(x)
  {
    hide Process, Sound, Accepts;
    if frames != [] {
      var init, f := frames[..|frames| - 1], frames[|frames| - 1];
      SameBounds(hmac, d, init);
      ProcessFrame(hmac, Run(hmac, d, init), f);
      SoundStays(hmac, Run(hmac, d, init), f);
    }
  }

  // ---------------------------------------------------------------- requests

  lemma {:induction false} ZeroBytes(k: nat)
    ensures ToLe(0, k) == Zeros(k)
  {
    if k > 0 { ZeroBytes(k - 1); }
  }

  function Blank(n: nat): Fields {
    Fields(0, Zeros(16), 0, 0, 0, 0, 0, Zeros(n))
  }

  lemma BlankFrame(n: nat)
    ensures Encode(Zeros(32), Blank(n)) == Zeros(HEADER + n)
  {
    ZeroBytes(4);
    ZeroBytes(2);
  }

  /** Putting a field into a frame changes that field and no other. */
  lemma SpliceMac(mac: Digest, f: Fields, mac': Digest)
    ensures Splice(Encode(mac, f), MAC_AT, mac') == Encode(mac', f)
  {
    hide Body;
  }

  lemma SpliceBody(mac: Digest, f: Fields, at: nat, b: seq<u8>, f': Fields)
    requires TARGET_AT <= at && at + |b| <= HEADER + |f.data| && |f.data| == |f'.data|
    requires Splice(Body(f), at - TARGET_AT, b) == Body(f')
    ensures Splice(Encode(mac, f), at, b) == Encode(mac, f')
  {
    hide Body;
    var e := Encode(mac, f);
    assert e[..at] == Zeros(MAC_AT) + mac + Body(f)[..at - TARGET_AT];
    assert e[at + |b|..] == Body(f)[at + |b| - TARGET_AT..];
  }

  lemma SpliceTarget(mac: Digest, f: Fields, x: u8)
    ensures Splice(Encode(mac, f), TARGET_AT, [x]) == Encode(mac, f.(target := x))
  {
    hide ToLe, Encode;
    SpliceBody(mac, f, TARGET_AT, [x], f.(target := x));
  }

  lemma SpliceNonce(mac: Digest, f: Fields, x: Nonce)
    ensures Splice(Encode(mac, f), NONCE_AT, x) == Encode(mac, f.(nonce := x))
  {
    hide ToLe, Encode;
    SpliceBody(mac, f, NONCE_AT, x, f.(nonce := x));
  }

  lemma SpliceCounter(mac: Digest, f: Fields, n: nat)
    ensures Splice(Encode(mac, f), COUNTER_AT, ToLe(n, 4)) == Encode(mac, f.(counter := n))
  {
    hide ToLe, Encode;
    SpliceBody(mac, f, COUNTER_AT, ToLe(n, 4), f.(counter := n));
  }

  lemma SpliceAddress(mac: Digest, f: Fields, n: nat)
    ensures Splice(Encode(mac, f), ADDRESS_AT, ToLe(n, 4)) == Encode(mac, f.(address := n))
  {
    hide ToLe, Encode;
    SpliceBody(mac, f, ADDRESS_AT, ToLe(n, 4), f.(address := n));
  }

  lemma SpliceSectors(mac: Digest, f: Fields, n: nat)
    ensures Splice(Encode(mac, f), SECTORS_AT, ToLe(n, 4)) == Encode(mac, f.(sectors := n))
  {
    hide ToLe, Encode;
    SpliceBody(mac, f, SECTORS_AT, ToLe(n, 4), f.(sectors := n));
  }

  lemma SpliceKind(mac: Digest, f: Fields, n: nat)
    ensures Splice(Encode(mac, f), TYPE_AT, ToLe(n, 2)) == Encode(mac, f.(kind := n))
  {
    hide ToLe, Encode;
    SpliceBody(mac, f, TYPE_AT, ToLe(n, 2), f.(kind := n));
  }

  lemma SpliceData(mac: Digest, f: Fields, data: seq<u8>)
    requires |data| == |f.data|
    ensures Splice(Encode(mac, f), HEADER, data) == Encode(mac, f.(data := data))
  {
    hide ToLe, Encode;
    SpliceBody(mac, f, HEADER, data, f.(data := data));
  }

  /** Model of `rpmb_request_init`: a zeroed buffer whose fields are set one by one. The
      nonce is the outcome of the random generator, if one is wanted; `memory` says whether
      there is any for the buffer. */
  method RequestInit(memory: bool, kind: nat, target: u8, nonce: Option<Nonce>, addr: nat, sectors: nat, data: seq<u8>)
    returns (req: array?<u8>)
    ensures req == null <==> !memory
    ensures memory ==> fresh(req)
    ensures memory ==> req[..] == Encode(Zeros(32), Fields(target, if nonce.Some? then nonce.value else Zeros(16), 0, addr, sectors, 0, kind, data))
  {
    hide Encode, Splice;
    if !memory {
      return null;
    }
    req := new u8[HEADER + |data|](i => 0);
    var z: Digest := Zeros(32);
    var f := Blank(|data|);
    BlankFrame(|data|);
    assert req[..] == Zeros(HEADER + |data|);

    SpliceKind(z, f, kind);
    f := f.(kind := kind);
    Copy(req, TYPE_AT, ToLe(kind, 2));
    SpliceTarget(z, f, target);
    f := f.(target := target);
    Copy(req, TARGET_AT, [target]);
    SpliceAddress(z, f, addr);
    f := f.(address := addr);
    Copy(req, ADDRESS_AT, ToLe(addr, 4));
    SpliceSectors(z, f, sectors);
    f := f.(sectors := sectors);
    Copy(req, SECTORS_AT, ToLe(sectors, 4));
    if nonce.Some? {
      SpliceNonce(z, f, nonce.value);
      f := f.(nonce := nonce.value);
      Copy(req, NONCE_AT, nonce.value);
    }
    SpliceData(z, f, data);
    f := f.(data := data);
    Copy(req, HEADER, data);
  }

  // ---------------------------------------------------------------- the counter

  /** Same key, limits, counter and contents; only what is waiting to be received differs. */
  predicate SameContents(d: Device, e: Device) {
    d.key == e.key && d.accessSize == e.accessSize && d.counter == e.counter && d.store == e.store
  }

  lemma NoWriteNoChange(hmac: Hmac, d: Device, f: seq<u8>)
    requires !IsWrite(f)
    ensures SameContents(d, Process(hmac, d, f)) && Process(hmac, d, f).outcome == d.outcome
  {
    hide Process, IsWrite;
    ProcessFrame(hmac, d, f);
  }

  /** All frames after the first n go to this target. */
  ghost predicate AllTo(sent: seq<seq<u8>>, n: nat, target: u8) {
    forall i :: n <= i < |sent| ==> |sent[i]| >= HEADER && TargetOf(sent[i]) == target
  }

  lemma NoneTo(sent: seq<seq<u8>>, target: u8)
    ensures AllTo(sent, |sent|, target)
  {}

  lemma OneTo(sent: seq<seq<u8>>, f: seq<u8>, target: u8)
    requires |f| >= HEADER && TargetOf(f) == target
    ensures AllTo(sent, |sent|, target) && AllTo(sent + [f], |sent|, target)
  {
    hide TargetOf;
  }

  lemma AllToThen(sent: seq<seq<u8>>, more: seq<seq<u8>>, n: nat, target: u8)
    requires sent <= more && n <= |sent| && AllTo(sent, n, target) && AllTo(more, |sent|, target)
    ensures AllTo(more, n, target)
  {
    hide TargetOf;
    forall i | n <= i < |more| ensures |more[i]| >= HEADER && TargetOf(more[i]) == target {
      if i < |sent| { assert more[i] == sent[i]; }
    }
  }

  /** Model of `rpmb_read_request`: send, receive, and look at the result. */
  method ReadRequest(link: Link, req: seq<u8>, size: nat) returns (rsp: Option<seq<u8>>)
    requires link.Valid() && |req| >= HEADER && size >= HEADER
    modifies link
    ensures link.Valid() && old(link.sent) <= link.sent
    ensures rsp.Some? ==> rsp.value == Resize(link.dev.pending, size) && ResultOf(rsp.value) == 0
    ensures rsp.Some? ==> exists i :: |old(link.sent)| <= i < |link.sent| && link.sent[i] == req
    ensures link.exclusive ==> link.dev == Process(link.hmac, old(link.dev), req) || (rsp.None? && link.dev == old(link.dev))
    ensures link.exclusive && link.reliable ==>
              link.dev == Process(link.hmac, old(link.dev), req) && (rsp.Some? <==> ResultOf(Resize(link.dev.pending, size)) == 0)
    ensures link.exclusive ==> AllTo(link.sent, |old(link.sent)|, TargetOf(req))
  {
    hide Process, Resize, ResultOf, AllTo, TargetOf;
    OneTo(link.sent, req, TargetOf(req));
    var error := link.Send(req);
    if error != 0 {
      return None;
    }
    ghost var i :| |old(link.sent)| <= i < |link.sent| && link.sent[i] == req;
    var memory := link.Allocates();
    if !memory {
      return None;
    }
    var buf;
    error, buf := link.Receive(size);
    assert link.sent[i] == req;
    if error != 0 {
      return None;
    }
    error := ResultOf(buf);
    if error == 0 {
      return Some(buf);
    }
    return None;
  }

  function CounterFields(target: u8, nonce: Nonce): Fields {
    Fields(target, nonce, 0, 0, 0, 0, REQ_READ_WRITE_CNTR, [])
  }

  lemma CounterAsked(hmac: Hmac, d: Device, f: seq<u8>)
    requires |f| >= HEADER && KindOf(f) == REQ_READ_WRITE_CNTR && d.counter <= LAST_COUNTER
    ensures var p := Process(hmac, d, f).pending;
            |p| == HEADER && ResultOf(p) == CounterResult(d) && CounterOf(p) == d.counter && SectorsOf(p) == 0
    ensures !IsWrite(f)
  {
    hide Response, ResultOf, CounterOf, SectorsOf, FromLe;
    ResponseResult(REQ_READ_WRITE_CNTR, NonceOf(f), d.counter, 0, 0, CounterResult(d), []);
  }

  /** Whatever a frame asks for, the response waiting afterwards is the one that waited
      before, states the counter of that moment, or states zero. */
  lemma NextPending(hmac: Hmac, d: Device, f: seq<u8>)
    requires Sound(d)
    ensures var p := Process(hmac, d, f).pending;
            p == d.pending || (|p| >= HEADER && (CounterOf(p) == 0 || CounterOf(p) == d.counter))
  {
    hide Response, FromLe, KindOf, CounterOf, AddressOf, SectorsOf, WriteResult;
    if |f| >= HEADER {
      AddressSmall(f);
      var a, n := AddressOf(f), SectorsOf(f);
      ResponseResult(REQ_READ_WRITE_CNTR, NonceOf(f), d.counter, 0, 0, CounterResult(d), []);
      ResponseResult(REQ_AUTH_DATA_READ, NonceOf(f), 0, a, 0, ADDRESS_FAILURE, []);
      if InRange(d, a, n) {
        ResponseResult(REQ_AUTH_DATA_READ, NonceOf(f), 0, a, n, OK, d.store[SECTOR * a..SECTOR * (a + n)]);
      }
      ResponseResult(0, NonceOf(f), 0, 0, 0, GENERAL_FAILURE, []);
    }
  }

  /** The value c is the target's counter at some moment after the first n frames, or zero. */
  ghost predicate CounterTaken(hmac: Hmac, d: Device, sent: seq<seq<u8>>, n: nat, c: nat) {
    c == 0 || exists i :: n <= i <= |sent| && c == Run(hmac, d, sent[..i]).counter
  }

  /** The response waiting at the target states such a value. */
  ghost predicate CounterSeen(hmac: Hmac, d: Device, sent: seq<seq<u8>>, p: nat) {
    var pending := Run(hmac, d, sent).pending;
    |pending| >= HEADER && CounterTaken(hmac, d, sent, p, CounterOf(pending))
  }

  /** Once the counter request at position p has been processed, that is so for every
      response, whoever asked for it. */
  lemma {:induction false} CounterIsSeen(hmac: Hmac, d: Device, sent: seq<seq<u8>>, p: nat)
    requires p < |sent| && |sent[p]| >= HEADER && KindOf(sent[p]) == REQ_READ_WRITE_CNTR
    requires forall i :: 0 <= i <= |sent| ==> Sound(Run(hmac, d, sent[..i]))
    ensures CounterSeen(hmac, d, sent, p)
    decreases |sent|
  {
    hide Process, Sound, KindOf, CounterOf;
    var n := |sent| - 1;
    var init, f := sent[..n], sent[n];
    var x := Run(hmac, d, init);
    assert sent == sent[..|sent|] && sent[..n] == init;
    SoundCounter(x);
    NextPending(hmac, x, f);
    if p == n {
      CounterAsked(hmac, x, f);
      assert CounterOf(Run(hmac, d, sent).pending) == Run(hmac, d, sent[..n]).counter;
    } else {
      forall i | 0 <= i <= n ensures Sound(Run(hmac, d, init[..i])) { assert init[..i] == sent[..i]; }
      CounterIsSeen(hmac, d, init, p);
      TakenStays(hmac, d, init, sent, p, CounterOf(x.pending));
    }
  }

  lemma SoundCounter(d: Device)
    requires Sound(d)
    ensures d.counter <= LAST_COUNTER
  {}

  lemma TakenStays(hmac: Hmac, d: Device, sent: seq<seq<u8>>, more: seq<seq<u8>>, n: nat, c: nat)
    requires sent <= more && CounterTaken(hmac, d, sent, n, c)
    ensures CounterTaken(hmac, d, more, n, c)
  {
    hide Run;
    if c != 0 {
      var i :| n <= i <= |sent| && c == Run(hmac, d, sent[..i]).counter;
      assert more[..i] == sent[..i];
    }
  }

  lemma TakenLater(hmac: Hmac, d: Device, sent: seq<seq<u8>>, n: nat, p: nat, c: nat)
    requires n <= p && CounterTaken(hmac, d, sent, p, c)
    ensures CounterTaken(hmac, d, sent, n, c)
  {
    hide Run;
  }

  /** Model of `rpmb_read_write_counter`. The code takes the counter of whatever response
      arrives with result zero. */
  method ReadWriteCounter(link: Link, target: u8) returns (error: int, counter: nat)
    requires link.Valid()
    modifies link
    ensures link.Valid() && old(link.sent) <= link.sent
    ensures counter < TWO32
    ensures error == 0 ==> CounterTaken(link.hmac, link.initial, link.sent, |old(link.sent)|, counter)
    ensures link.exclusive ==> SameContents(old(link.dev), link.dev) && (error == 0 ==> counter == link.dev.counter)
    ensures link.exclusive && link.reliable ==> (error == 0 <==> CounterResult(link.dev) == OK)
    ensures link.exclusive ==> AllTo(link.sent, |old(link.sent)|, target)
  {
    hide Process, Encode, KindOf, CounterOf, Sound, Resize, ResultOf, CounterTaken, AllTo, TargetOf;
    NoneTo(link.sent, target);
    error, counter := -1, 0;
    var nonce: Nonce := *;
    var memory := link.Allocates();
    var req := RequestInit(memory, REQ_READ_WRITE_CNTR, target, Some(nonce), 0, 0, []);
    if req == null {
      return;
    }
    ghost var d, f := link.dev, req[..];
    EncodeFields(Zeros(32), CounterFields(target, nonce));
    SoundCounter(d);
    CounterAsked(link.hmac, d, f);
    NoWriteNoChange(link.hmac, d, f);
    var rsp := ReadRequest(link, req[..], HEADER);
    ResizeSame(link.dev.pending, HEADER);
    if rsp.None? {
      return;
    }
    counter := CounterOf(rsp.value);
    AddressSmall(rsp.value);
    error := 0;
    ghost var p :| |old(link.sent)| <= p < |link.sent| && link.sent[p] == f;
    CounterIsSeenNow(link, p);
    ResizeFields(link.dev.pending);
    TakenLater(link.hmac, link.initial, link.sent, |old(link.sent)|, p, counter);
  }

  lemma ResizeSame(b: seq<u8>, n: nat)
    ensures |b| == n ==> Resize(b, n) == b
  {}

  lemma ResizeFields(b: seq<u8>)
    requires |b| >= HEADER
    ensures CounterOf(Resize(b, HEADER)) == CounterOf(b) && ResultOf(Resize(b, HEADER)) == ResultOf(b)
  {
    hide FromLe;
    var r := Resize(b, HEADER);
    assert r[COUNTER_AT..ADDRESS_AT] == b[COUNTER_AT..ADDRESS_AT];
    assert r[RESULT_AT..TYPE_AT] == b[RESULT_AT..TYPE_AT];
  }

  lemma CounterIsSeenNow(link: Link, p: nat)
    requires link.Valid() && p < |link.sent| && |link.sent[p]| >= HEADER && KindOf(link.sent[p]) == REQ_READ_WRITE_CNTR
    ensures CounterSeen(link.hmac, link.initial, link.sent, p)
  {
    hide Sound, Run, CounterSeen, KindOf;
    forall i | 0 <= i <= |link.sent| ensures Sound(Run(link.hmac, link.initial, link.sent[..i])) {
      SameBounds(link.hmac, link.initial, link.sent[..i]);
    }
    CounterIsSeen(link.hmac, link.initial, link.sent, p);
  }

  // ---------------------------------------------------------------- one chunk

  /** The chunk has been written: contents and counter are those after the accepted frame. */
  ghost predicate ChunkWritten(d: Device, e: Device, address: nat, data: seq<u8>) {
    && SECTOR * address + |data| <= |d.store|
    && e.key == d.key && e.accessSize == d.accessSize && e.counter == d.counter + 1
    && e.store == Splice(d.store, SECTOR * address, data)
  }

  /** Nothing keeps the target from accepting the chunk under this key. */
  predicate Writable(d: Device, key: seq<u8>, address: nat, size: nat) {
    d.key == Some(key) && d.counter < LAST_COUNTER && InRange(d, address, size / SECTOR)
  }

  lemma WriteStep(hmac: Hmac, d: Device, key: seq<u8>, target: u8, address: nat, data: seq<u8>)
    requires |data| % SECTOR == 0 && |data| < TWO32 && address < TWO32 && d.counter <= LAST_COUNTER
    ensures var f := WriteFrame(hmac, key, target, d.counter, address, data);
            var e := Process(hmac, d, f);
            && |f| >= HEADER && IsWrite(f) && |e.outcome| == HEADER
            && (ResultOf(e.outcome) == OK ==> ChunkWritten(d, e, address, data))
            && (ResultOf(e.outcome) != OK ==> SameContents(d, e))
            && (Writable(d, key, address, |data|) ==> ResultOf(e.outcome) == OK)
  {
    hide WriteFrame, Process, ResultOf, Body, Splice, CounterOf, AddressOf, DataOf, WriteResult, InRange;
    var f := WriteFrame(hmac, key, target, d.counter, address, data);
    WriteFrameAcceptedIff(hmac, d, key, target, d.counter, address, data);
    ProcessFrame(hmac, d, f);
    OutcomeOfWrite(hmac, d, f);
  }

  /** What holds of a target holds of one with the same contents. */
  lemma LikeBefore(d: Device, d': Device, key: seq<u8>, address: nat, data: seq<u8>)
    requires SameContents(d, d')
    ensures Writable(d, key, address, |data|) == Writable(d', key, address, |data|)
    ensures forall e: Device :: ChunkWritten(d', e, address, data) ==> ChunkWritten(d, e, address, data)
    ensures forall e: Device :: SameContents(d', e) ==> SameContents(d, e)
  {}

  /** The frame asking for the result of the last write. */
  function ResultFields(target: u8): Fields {
    Fields(target, Zeros(16), 0, 0, 0, 0, REQ_READ_RESULT, [])
  }

  /** The frame is built in place: request, then counter, then MAC over the bytes behind it. */
  method BuildWriteFrame(memory: bool, hmac: Hmac, target: u8, addr: nat, msg: seq<u8>, key: seq<u8>, counter: nat)
    returns (req: array?<u8>)
    ensures req == null <==> !memory
    ensures memory ==> fresh(req) && req[..] == WriteFrame(hmac, key, target, counter, addr, msg)
  {
    hide Encode, Splice;
    req := RequestInit(memory, REQ_AUTH_DATA_WRITE, target, None, addr, |msg| / SECTOR, msg);
    if req == null {
      return;
    }
    var z: Digest := Zeros(32);
    SpliceCounter(z, WriteFields(target, 0, addr, msg), counter);
    Copy(req, COUNTER_AT, ToLe(counter, 4));
    ghost var f := WriteFields(target, counter, addr, msg);
    BodyBytes(z, f);
    var mac := hmac(key, req[TARGET_AT..]);
    SpliceMac(z, f, mac);
    Copy(req, MAC_AT, mac);
  }

  lemma BodyBytes(mac: Digest, f: Fields)
    ensures |Encode(mac, f)| >= HEADER && Encode(mac, f)[TARGET_AT..] == Body(f)
  {}

  /** The request for the result of the last write is sent. */
  method AskForResult(link: Link, target: u8) returns (error: int, ghost q: seq<u8>)
    requires link.Valid()
    modifies link
    ensures link.Valid() && old(link.sent) <= link.sent
    ensures AsksForResult(q) && TargetOf(q) == target
    ensures error == 0 ==> exists j :: |old(link.sent)| <= j < |link.sent| && link.sent[j] == q
    ensures link.exclusive ==>
              || link.dev == old(link.dev).(pending := old(link.dev).outcome)
              || (error != 0 && link.dev == old(link.dev))
    ensures link.exclusive ==> AllTo(link.sent, |old(link.sent)|, target)
    ensures link.reliable ==> error == 0
  {
    hide Process, Encode, KindOf, Sound, AllTo, TargetOf, ResultOf;
    var rsp := RequestInit(true, REQ_READ_RESULT, target, None, 0, 0, []);
    EncodeFields(Zeros(32), ResultFields(target));
    q := rsp[..];
    ResultAsked(link.hmac, link.dev, q);
    OneTo(link.sent, q, target);
    error := link.Send(rsp[..]);
    assert ResultOf(rsp[..]) == 0;
  }

  /** The frame goes to the target, then the request for its result; the response is read. */
  method Submit(link: Link, target: u8, frame: seq<u8>) returns (error: int)
    requires link.Valid() && |frame| >= HEADER && IsWrite(frame) && TargetOf(frame) == target
    modifies link
    ensures link.Valid() && old(link.sent) <= link.sent
    ensures error == 0 ==> ToldOf(link.hmac, link.initial, link.sent, |old(link.sent)|, frame)
    ensures link.exclusive ==> Submitted(old(link.dev), Process(link.hmac, old(link.dev), frame), link.dev, error, link.reliable)
    ensures link.exclusive ==> AllTo(link.sent, |old(link.sent)|, target)
  {
    hide Process, Encode, KindOf, Sound, Resize, ResultOf, IsWrite, Run, AllTo, TargetOf, AsksForResult;
    SoundCounter(link.dev);
    OutcomeOfWrite(link.hmac, link.dev, frame);
    OneTo(link.sent, frame, target);
    error := link.Send(frame);
    if error != 0 {
      return;
    }
    ghost var i :| |old(link.sent)| <= i < |link.sent| && link.sent[i] == frame;
    ghost var before := link.sent;
    ghost var q;
    error, q := AskForResult(link, target);
    if link.exclusive { AllToThen(before, link.sent, |old(link.sent)|, target); }
    if error != 0 {
      return;
    }
    ghost var j :| |before| <= j < |link.sent| && link.sent[j] == q;
    var buf;
    error, buf := link.Receive(HEADER);
    assert link.sent[i] == frame && link.sent[j] == q;
    ResizeSame(link.dev.pending, HEADER);
    PendingIsLong(link, j);
    ResizeFields(link.dev.pending);
    if error == 0 {
      error := ResultOf(buf);
    }
  }

  /** The frame was processed after the first n, then a request for its result, and what
      waits now says success. */
  ghost predicate ToldOf(hmac: Hmac, d: Device, sent: seq<seq<u8>>, n: nat, frame: seq<u8>)
    requires |frame| >= HEADER
  {
    && (exists i, j :: n <= i < j < |sent| && sent[i] == frame && AsksForResult(sent[j]) && TargetOf(sent[j]) == TargetOf(frame))
    && |Run(hmac, d, sent).pending| >= HEADER && ResultOf(Run(hmac, d, sent).pending) == OK
  }

  lemma PendingIsLong(link: Link, j: nat)
    requires link.Valid() && j < |link.sent| && AsksForResult(link.sent[j])
    ensures |link.dev.pending| >= HEADER
  {
    hide Run, Sound, AsksForResult;
    LongStays(link.hmac, link.initial, link.sent, j);
  }

  lemma {:induction false} LongStays(hmac: Hmac, d: Device, sent: seq<seq<u8>>, j: nat)
    requires Sound(d) && j < |sent| && AsksForResult(sent[j])
    ensures |Run(hmac, d, sent).pending| >= HEADER
    decreases |sent|
  {
    hide Process, Sound, AsksForResult;
    var n := |sent| - 1;
    var x := Run(hmac, d, sent[..n]);
    SameBounds(hmac, d, sent[..n]);
    NextPending(hmac, x, sent[n]);
    if j == n {
      ResultAsked(hmac, x, sent[n]);
      OutcomeIsLong(x);
    } else {
      LongStays(hmac, d, sent[..n], j);
    }
  }

  lemma OutcomeIsLong(d: Device)
    requires Sound(d)
    ensures |d.outcome| >= HEADER
  {}

  /** If the other hosts send only what is harmless to the frame, then a host that is told of
      success has had its frame accepted. */
  lemma SuccessMeansWritten(hmac: Hmac, d: Device, sent: seq<seq<u8>>, n: nat, key: seq<u8>, frame: seq<u8>, s: iset<seq<u8>>)
    requires Sound(d) && d.key == Some(key) && IsWrite(frame)
    requires n <= |sent| && ToldOf(hmac, d, sent, n, frame)
    requires Harmless(hmac, key, frame, s)
    requires forall k :: n <= k < |sent| ==> sent[k] == frame || AsksForResult(sent[k]) || sent[k] in s
    ensures exists i :: n <= i < |sent| && sent[i] == frame && Accepts(hmac, Run(hmac, d, sent[..i]), frame)
  {
    hide Run, Sound, AsksForResult, IsWrite, Rival, Answered, Accepts, ResultOf, TargetOf, Harmless;
    var i, j :| n <= i < j < |sent| && sent[i] == frame && AsksForResult(sent[j]);
    var all := Also(s, frame);
    StillHarmless(hmac, key, frame, s);
    assert Drawn(sent[n..], all) by {
      forall g | g in sent[n..] ensures g in all {
        var k :| 0 <= k < |sent[n..]| && sent[n..][k] == g;
        assert sent[n + k] == g;
      }
    }
    TrustedAt(hmac, d, sent, n, i, j, key, all);
  }

  /** The frames of s, the frame itself and all requests for a result. */
  ghost function Also(s: iset<seq<u8>>, frame: seq<u8>): iset<seq<u8>> {
    iset g | g in s || g == frame || AsksForResult(g)
  }

  lemma StillHarmless(hmac: Hmac, key: seq<u8>, frame: seq<u8>, s: iset<seq<u8>>)
    requires IsWrite(frame) && Harmless(hmac, key, frame, s)
    ensures Harmless(hmac, key, frame, Also(s, frame))
  {
    hide AsksForResult, IsWrite, Rival, Answered;
    forall g | g in Also(s, frame) ensures !Rival(hmac, key, frame, g) && !Answered(g) {
      if AsksForResult(g) {
        AskingIsNoRival(hmac, key, frame, g);
      } else if g == frame {
        OwnIsNoRival(hmac, key, frame);
      }
    }
  }

  lemma TrustedAt(hmac: Hmac, d: Device, sent: seq<seq<u8>>, n: nat, i: nat, j: nat, key: seq<u8>, s: iset<seq<u8>>)
    requires Sound(d) && d.key == Some(key) && n <= i < j < |sent| && IsWrite(sent[i]) && AsksForResult(sent[j])
    requires |Run(hmac, d, sent).pending| >= HEADER && ResultOf(Run(hmac, d, sent).pending) == OK
    requires Harmless(hmac, key, sent[i], s) && Drawn(sent[n..], s)
    ensures Accepts(hmac, Run(hmac, d, sent[..i]), sent[i])
  {
    hide Run, Sound, AsksForResult, IsWrite, Accepts, ResultOf, Harmless;
    var x := Run(hmac, d, sent[..i]);
    var f, a, q, b := sent[i], sent[i + 1..j], sent[j], sent[j + 1..];
    SameBounds(hmac, d, sent[..i]);
    SoundCounter(x);
    CutTwice(sent, i, j);
    RunConcat(hmac, d, sent[..i], sent[i..]);
    DrawnSlice(sent, n, i + 1, j, s);
    DrawnSlice(sent, n, j + 1, |sent|, s);
    assert sent[j + 1..|sent|] == b;
    assert Told(hmac, key, x, f, a, q, b);
    HarmlessIsTrusted(hmac, x, key, f, a, q, b, s);
  }

  lemma CutTwice(sent: seq<seq<u8>>, i: nat, j: nat)
    requires i < j < |sent|
    ensures sent == sent[..i] + sent[i..]
    ensures sent[i..] == [sent[i]] + sent[i + 1..j] + [sent[j]] + sent[j + 1..]
  {}

  lemma DrawnSlice(sent: seq<seq<u8>>, n: nat, a: nat, b: nat, s: iset<seq<u8>>)
    requires n <= a <= b <= |sent| && Drawn(sent[n..], s)
    ensures Drawn(sent[a..b], s)
  {
    forall g | g in sent[a..b] ensures g in s {
      var k :| 0 <= k < b - a && sent[a..b][k] == g;
      assert sent[n..][a - n + k] == g;
    }
  }

  lemma OwnIsNoRival(hmac: Hmac, key: seq<u8>, f: seq<u8>)
    requires IsWrite(f)
    ensures !Rival(hmac, key, f, f) && !Answered(f)
  {}

  /** From d, where the frame leads to e, the target has come to now. */
  ghost predicate Submitted(d: Device, e: Device, now: Device, error: int, reliable: bool) {
    && |e.outcome| >= HEADER
    && (now == d || now == e || now == e.(pending := e.outcome))
    && (error == 0 ==> now == e.(pending := e.outcome) && ResultOf(e.outcome) == OK)
    && (reliable && ResultOf(e.outcome) == OK ==> error == 0)
  }

  /** Model of `auth_data_write_chunk`: read the counter, send the frame, ask for the result.
      `read` is the number of frames processed when the counter had been read. If there is no
      memory for the request, not `built`, the source returns the success of reading the
      counter. */
  method WriteChunk(link: Link, target: u8, addr: nat, msg: seq<u8>, key: seq<u8>)
    returns (error: int, ghost frame: seq<u8>, ghost read: nat, ghost built: bool)
    requires link.Valid()
    requires |msg| % SECTOR == 0 && |msg| < TWO32 && addr < TWO32
    modifies link
    ensures link.Valid() && old(link.sent) <= link.sent
    ensures frame != [] ==> IsWrite(frame) && frame == WriteFrame(link.hmac, key, target, CounterOf(frame), addr, msg)
    ensures frame != [] ==> |old(link.sent)| <= read <= |link.sent|
                            && CounterTaken(link.hmac, link.initial, link.sent[..read], |old(link.sent)|, CounterOf(frame))
                            && Atomic(link.hmac, link.initial, link.sent, |old(link.sent)|, read, frame)
    ensures error == 0 && built ==> frame != [] && ToldOf(link.hmac, link.initial, link.sent, read, frame)
    ensures !built ==> error == 0 && frame == []
    ensures link.reliable ==> built
    ensures link.exclusive && error == 0 ==> (ChunkWritten(old(link.dev), link.dev, addr, msg) <==> built)
    ensures link.exclusive ==> SameContents(old(link.dev), link.dev) || ChunkWritten(old(link.dev), link.dev, addr, msg)
    ensures link.exclusive && link.reliable && Writable(old(link.dev), key, addr, |msg|) ==> error == 0
    ensures link.exclusive ==> AllTo(link.sent, |old(link.sent)|, target)
  {
    hide Process, Encode, WriteFrame, KindOf, CounterOf, Sound, Resize, ResultOf, ChunkWritten, CounterTaken, InRange, Run, IsWrite, Atomic, ToldOf,
         AllTo, TargetOf;
    frame, built := [], true;
    var counter;
    error, counter := ReadWriteCounter(link, target);
    read := |link.sent|;
    if error != 0 {
      return;
    }
    ghost var d, before := link.dev, link.sent;
    var memory := link.Allocates();
    var req := BuildWriteFrame(memory, link.hmac, target, addr, msg, key, counter);
    if req == null {
      built := false;
      NotBoth(old(link.dev), d, addr, msg);
      return;
    }
    var computed: bool := *;
    if !computed && !link.reliable {
      error := -1;
      return;
    }
    frame := req[..];
    WriteFrameAcceptedIff(link.hmac, d, key, target, counter, addr, msg);
    SoundCounter(d);
    WriteStep(link.hmac, d, key, target, addr, msg);
    if link.exclusive { LikeBefore(old(link.dev), d, key, addr, msg); }
    error := Submit(link, target, req[..]);
    assert link.sent[..read] == before;
    if link.exclusive { AllToThen(before, link.sent, |old(link.sent)|, target); }
    ChunkIsAtomic(link.hmac, link.initial, link.sent, |old(link.sent)|, read, frame);
    WrittenStays(d, Process(link.hmac, d, frame), addr, msg);
  }

  lemma NotBoth(d: Device, e: Device, addr: nat, msg: seq<u8>)
    ensures !(SameContents(d, e) && ChunkWritten(d, e, addr, msg))
  {}

  lemma WrittenStays(d: Device, e: Device, addr: nat, msg: seq<u8>)
    ensures ChunkWritten(d, e, addr, msg) ==> ChunkWritten(d, e.(pending := e.outcome), addr, msg)
  {}

  /** Between the first n frames and the first m, both included, there is a moment such that
      the frame takes effect from then on, if at all, on the contents of that moment. */
  ghost predicate Atomic(hmac: Hmac, d: Device, sent: seq<seq<u8>>, n: nat, m: nat, frame: seq<u8>) {
    exists i :: n <= i <= m <= |sent| && TakesEffectOn(hmac, d, sent, i, m, frame)
  }

  ghost predicate TakesEffectOn(hmac: Hmac, d: Device, sent: seq<seq<u8>>, i: nat, m: nat, frame: seq<u8>)
    requires i <= |sent|
  {
    forall q :: m <= q <= |sent| && Accepts(hmac, Run(hmac, d, sent[..q]), frame) ==>
      Run(hmac, d, sent[..q]).store == Run(hmac, d, sent[..i]).store
      && Run(hmac, d, sent[..q]).counter == Run(hmac, d, sent[..i]).counter
  }

  /** A frame whose counter was taken from any response that arrived between n and m is
      atomic: nothing was written between that moment and the frame. A counter of zero that
      was never the target's is refused, unless nothing has been written at all. */
  lemma ChunkIsAtomic(hmac: Hmac, d: Device, sent: seq<seq<u8>>, n: nat, m: nat, frame: seq<u8>)
    requires n <= m <= |sent| && IsWrite(frame) && CounterTaken(hmac, d, sent[..m], n, CounterOf(frame))
    ensures Atomic(hmac, d, sent, n, m, frame)
  {
    hide Run, Accepts, CounterOf;
    var i := n;
    if exists j :: n <= j <= m && CounterOf(frame) == Run(hmac, d, sent[..m][..j]).counter {
      i :| n <= i <= m && CounterOf(frame) == Run(hmac, d, sent[..m][..i]).counter;
      assert sent[..m][..i] == sent[..i];
    }
    var x := Run(hmac, d, sent[..i]);
    forall q | m <= q <= |sent| && Accepts(hmac, Run(hmac, d, sent[..q]), frame)
      ensures Run(hmac, d, sent[..q]).store == x.store && Run(hmac, d, sent[..q]).counter == x.counter
    {
      assert sent[..q] == sent[..i] + sent[i..q];
      RunConcat(hmac, d, sent[..i], sent[i..q]);
      AcceptedCounter(hmac, Run(hmac, d, sent[..q]), frame);
      CounterGrows(hmac, x, sent[i..q]);
    }
    assert TakesEffectOn(hmac, d, sent, i, m, frame);
  }

  // ---------------------------------------------------------------- the chunked write

  const INT_MAX := 0x7FFF_FFFF

  function Min(a: int, b: int): int {
    if a < b then a else b
  }

  /** Number of chunks of c bytes that n bytes need. */
  function ChunkCount(n: int, c: nat): nat
    requires c > 0
    decreases n
  {
    if n <= 0 then 0 else 1 + ChunkCount(n - c, c)
  }

  /** The contents of e are those of d with data put in at position `at`. */
  ghost predicate Holds(d: Device, e: Device, at: nat, data: seq<u8>) {
    && e.key == d.key && e.accessSize == d.accessSize
    && (data == [] ==> e.store == d.store)
    && (data != [] ==> at + |data| <= |d.store| && e.store == Splice(d.store, at, data))
  }

  /** The target takes the whole message: key, range, chunk size and counter allow it. */
  predicate Healthy(d: Device, key: seq<u8>, addr: nat, size: nat, chunk: nat)
    requires chunk > 0
  {
    && d.key == Some(key) && chunk <= SECTOR * d.accessSize
    && SECTOR * addr + size <= |d.store|
    && d.counter + ChunkCount(size, chunk) <= LAST_COUNTER
  }

  /** From d to e the first |data| bytes of a message of `size` bytes have been written, and
      the counter has advanced by the number of chunks they came in. */
  ghost predicate Transferred(d: Device, e: Device, at: nat, data: seq<u8>, size: nat, chunk: int) {
    && Holds(d, e, at, data)
    && (chunk > 0 ==> e.counter + ChunkCount(size - |data|, chunk) == d.counter + ChunkCount(size, chunk))
  }

  lemma CountStep(n: nat, c: nat)
    requires n > 0 && c > 0
    ensures ChunkCount(n, c) == 1 + ChunkCount(n - Min(c, n), c)
  {}

  /** A stretch of the message that was written, or counted as written and dropped. */
  datatype Part = Part(offset: nat, length: nat, stored: bool)

  /** The parts tile the first `end` bytes of a message of `size` bytes, chunk by chunk. */
  predicate Tiles(parts: seq<Part>, end: nat, size: nat, chunk: int) {
    if parts == [] then end == 0
    else
      var p := parts[|parts| - 1];
      && p.offset + p.length == end <= size && 0 < p.length == Min(chunk, size - p.offset)
      && Tiles(parts[..|parts| - 1], p.offset, size, chunk)
  }

  predicate AllStored(parts: seq<Part>) {
    forall p :: p in parts ==> p.stored
  }

  function StoredCount(parts: seq<Part>): nat {
    if parts == [] then 0 else StoredCount(parts[..|parts| - 1]) + (if parts[|parts| - 1].stored then 1 else 0)
  }

  /** The parts that are stored put in, in order; the others leave what is there. */
  function Patched(s: seq<u8>, at: nat, msg: seq<u8>, parts: seq<Part>): (r: seq<u8>)
    ensures |r| == |s|
  {
    if parts == [] then s
    else
      var t, p := Patched(s, at, msg, parts[..|parts| - 1]), parts[|parts| - 1];
      var end := p.offset + p.length;
      if p.stored && at + end <= |s| && end <= |msg| then Splice(t, at + p.offset, msg[p.offset..end]) else t
  }

  predicate InStore(parts: seq<Part>, at: nat, room: nat) {
    forall p :: p in parts && p.stored ==> at + p.offset + p.length <= room
  }

  /** From d to e exactly the stored parts have been written, and each raised the counter. */
  ghost predicate Stores(d: Device, e: Device, at: nat, msg: seq<u8>, parts: seq<Part>) {
    && e.key == d.key && e.accessSize == d.accessSize
    && e.counter == d.counter + StoredCount(parts)
    && e.store == Patched(d.store, at, msg, parts) && InStore(parts, at, |d.store|)
  }

  lemma StoresNothing(d: Device, at: nat, msg: seq<u8>, size: nat, chunk: int)
    ensures Stores(d, d, at, msg, []) && Tiles([], 0, size, chunk) && AllStored([])
  {}

  /** One round of the loop: the next chunk behind the parts so far is written, or dropped. */
  lemma StoreStep(d: Device, e: Device, e': Device, addr: nat, msg: seq<u8>, parts: seq<Part>, end: nat, n: nat, chunk: int)
    requires Stores(d, e, SECTOR * addr, msg, parts) && Tiles(parts, end, |msg|, chunk)
    requires end % SECTOR == 0 && end < |msg| && 0 < n == Min(chunk, |msg| - end)
    ensures ChunkWritten(e, e', addr + end / SECTOR, msg[end..end + n]) ==>
              Stores(d, e', SECTOR * addr, msg, parts + [Part(end, n, true)])
    ensures SameContents(e, e') ==>
              Stores(d, e', SECTOR * addr, msg, parts) && Stores(d, e', SECTOR * addr, msg, parts + [Part(end, n, false)])
  {
    hide Splice;
    StoredStep(d, e, e', SECTOR * addr, msg, parts, Part(end, n, true));
    StoredStep(d, e, e', SECTOR * addr, msg, parts, Part(end, n, false));
    assert SECTOR * (addr + end / SECTOR) == SECTOR * addr + end;
  }

  lemma StoredStep(d: Device, e: Device, e': Device, at: nat, msg: seq<u8>, parts: seq<Part>, p: Part)
    requires Stores(d, e, at, msg, parts) && p.offset + p.length <= |msg|
    ensures p.stored && at + p.offset + p.length <= |e.store| && e'.key == e.key && e'.accessSize == e.accessSize && e'.counter == e.counter + 1
            && e'.store == Splice(e.store, at + p.offset, msg[p.offset..p.offset + p.length]) ==>
              Stores(d, e', at, msg, parts + [p])
    ensures !p.stored && SameContents(e, e') ==> Stores(d, e', at, msg, parts + [p])
  {
    hide Splice;
    var more := parts + [p];
    assert more[..|more| - 1] == parts && more[|more| - 1] == p;
  }

  lemma TilesStep(parts: seq<Part>, end: nat, size: nat, chunk: int, n: nat, stored: bool)
    requires Tiles(parts, end, size, chunk) && end < size && 0 < n == Min(chunk, size - end)
    ensures Tiles(parts + [Part(end, n, stored)], end + n, size, chunk)
  {
    var more := parts + [Part(end, n, stored)];
    assert more[..|more| - 1] == parts;
  }

  lemma {:induction false} CountTiles(parts: seq<Part>, end: nat, size: nat, chunk: nat)
    requires chunk > 0 && Tiles(parts, end, size, chunk)
    ensures |parts| + ChunkCount(size - end, chunk) == ChunkCount(size, chunk)
  {
    hide ChunkCount;
    if parts != [] {
      var p := parts[|parts| - 1];
      CountTiles(parts[..|parts| - 1], p.offset, size, chunk);
      CountStep(size - p.offset, chunk);
    }
  }

  lemma {:induction false} CountStored(parts: seq<Part>)
    ensures StoredCount(parts) <= |parts|
    ensures StoredCount(parts) == |parts| <==> AllStored(parts)
  {
    if parts != [] {
      var init := parts[..|parts| - 1];
      CountStored(init);
      assert forall p :: p in parts <==> p in init || p == parts[|parts| - 1];
    }
  }

  lemma {:induction false} PatchedWhole(s: seq<u8>, at: nat, msg: seq<u8>, parts: seq<Part>, end: nat, chunk: int)
    requires Tiles(parts, end, |msg|, chunk) && AllStored(parts) && InStore(parts, at, |s|)
    ensures end <= |msg|
    ensures end > 0 ==> at + end <= |s| && Patched(s, at, msg, parts) == Splice(s, at, msg[..end])
    ensures end == 0 ==> Patched(s, at, msg, parts) == s
  {
    hide Splice;
    if parts != [] {
      var init, p := parts[..|parts| - 1], parts[|parts| - 1];
      PatchedWhole(s, at, msg, init, p.offset, chunk);
      if p.offset > 0 {
        SpliceSplice(s, at, msg[..p.offset], msg[p.offset..end]);
      } else {
        assert msg[0..end] == msg[..end];
      }
      assert msg[..p.offset] + msg[p.offset..end] == msg[..end];
    }
  }

  /** The bytes up to `end` are on the target, with a step of the counter for each chunk,
      exactly if every part is stored. */
  lemma TransferredIff(d: Device, e: Device, at: nat, msg: seq<u8>, parts: seq<Part>, end: nat, chunk: int)
    requires Stores(d, e, at, msg, parts) && Tiles(parts, end, |msg|, chunk)
    ensures end <= |msg|
    ensures Transferred(d, e, at, msg[..end], |msg|, chunk) <==> AllStored(parts)
  {
    hide Splice, Patched, ChunkCount;
    if parts == [] {
      assert msg[..0] == [];
      PatchedWhole(d.store, at, msg, [], 0, chunk);
    } else {
      CountTiles(parts, end, |msg|, chunk);
      CountStored(parts);
      if AllStored(parts) {
        PatchedWhole(d.store, at, msg, parts, end, chunk);
      }
    }
  }

  lemma HealthyStep(d: Device, e: Device, key: seq<u8>, addr: nat, data: seq<u8>, size: nat, chunk: nat)
    requires chunk > 0 && Healthy(d, key, addr, size, chunk) && Transferred(d, e, SECTOR * addr, data, size, chunk)
    requires |data| % SECTOR == 0 && size % SECTOR == 0 && chunk % SECTOR == 0 && |data| < size
    ensures Writable(e, key, addr + |data| / SECTOR, Min(chunk, size - |data|))
  {
    hide Splice;
    CountStep(size - |data|, chunk);
  }

  /** Where the write loop stands. */
  ghost predicate WriteState(size: nat, chunk: int, offset: nat, xfer: int) {
    && offset <= size && offset % SECTOR == 0 && size % SECTOR == 0 && chunk % SECTOR == 0
    && (chunk > 0 ==> xfer == Min(chunk, size - offset))
    && (chunk <= 0 ==> xfer == chunk && offset == 0)
  }

  lemma WriteStart(size: nat, acc: int)
    requires size % SECTOR == 0 && acc % SECTOR == 0
    ensures WriteState(size, Min(acc, size), 0, Min(acc, size))
  {}

  lemma WriteStateStep(size: nat, chunk: int, offset: nat, xfer: int, addr: nat)
    requires WriteState(size, chunk, offset, xfer) && xfer > 0 && addr + size / SECTOR <= TWO32
    ensures var o := offset + xfer;
            && 0 < chunk && o <= size && xfer % SECTOR == 0 && xfer == Min(chunk, size - offset)
            && addr + offset / SECTOR < TWO32
            && WriteState(size, chunk, o, if o + chunk > size then size - o else chunk)
  {}

  lemma WriteStateEnd(size: nat, chunk: int, offset: nat, xfer: int)
    requires WriteState(size, chunk, offset, xfer) && xfer <= 0 && chunk > 0
    ensures offset == size
  {}

  /** One round of the write loop: the chunk, and what is on the target afterwards. */
  method SendChunk(link: Link, target: u8, addr: nat, msg: array<u8>, msgSize: nat, offset: nat, xfer: nat, key: seq<u8>,
                   ghost d: Device, ghost parts: seq<Part>, ghost chunk: nat)
    returns (error: int, ghost extra: nat, ghost more: seq<Part>)
    requires link.Valid() && msgSize <= msg.Length && msgSize < TWO32
    requires offset % SECTOR == 0 && xfer % SECTOR == 0 && addr + offset / SECTOR < TWO32
    requires offset < msgSize && 0 < xfer == Min(chunk, msgSize - offset)
    requires Tiles(parts, offset, msgSize, chunk)
    requires link.exclusive ==> Stores(d, link.dev, SECTOR * addr, msg[..msgSize], parts)
    requires link.reliable ==> AllStored(parts)
    modifies link
    ensures link.Valid() && old(link.sent) <= link.sent
    ensures error == 0 ==> extra == xfer
    ensures error != 0 ==> extra == 0 || extra == xfer
    ensures Tiles(more, offset + extra, msgSize, chunk)
    ensures link.exclusive ==> Stores(d, link.dev, SECTOR * addr, msg[..msgSize], more)
    ensures link.reliable ==> AllStored(more)
    ensures (link.exclusive && link.reliable && msgSize % SECTOR == 0 && chunk % SECTOR == 0
             && Healthy(d, key, addr, msgSize, chunk)) ==> error == 0
    ensures link.exclusive ==> AllTo(link.sent, |old(link.sent)|, target)
  {
    hide AllTo, ChunkWritten, SameContents, Healthy, CounterOf, WriteFrame, Atomic, CounterTaken, ToldOf, Writable, Run, Sound, IsWrite, Stores, Tiles;
    ghost var text, before := msg[..msgSize], link.dev;
    var part := msg[offset..offset + xfer];
    assert part == text[offset..offset + xfer];
    var sector := (addr + offset / SECTOR) % TWO32;
    if link.exclusive && link.reliable && msgSize % SECTOR == 0 && chunk % SECTOR == 0 && Healthy(d, key, addr, msgSize, chunk) {
      HealthyNext(d, before, key, addr, text, parts, offset, chunk);
    }
    ghost var frame, read, built;
    error, frame, read, built := WriteChunk(link, target, sector, part, key);
    extra, more := 0, parts;
    if link.exclusive { StoreStep(d, before, link.dev, addr, text, parts, offset, xfer, chunk); }
    if error == 0 {
      TilesStep(parts, offset, msgSize, chunk, xfer, built);
      extra, more := xfer, parts + [Part(offset, xfer, built)];
    } else if link.exclusive && !SameContents(before, link.dev) {
      TilesStep(parts, offset, msgSize, chunk, xfer, true);
      extra, more := xfer, parts + [Part(offset, xfer, true)];
    }
  }

  /** Model of `rpmb_auth_data_write`. On an exclusive link the target holds the stored parts
      of what is reported as written, and at most one further chunk. Parts that are not
      stored are those for whose request there was no memory. */
  method AuthDataWrite(link: Link, target: u8, addr: nat, accSize: int, msg: array<u8>, msgSize: int, key: seq<u8>)
    returns (offset: int, ghost extra: int, ghost parts: seq<Part>)
    requires link.Valid()
    requires 0 <= msgSize <= msg.Length && msgSize + Min(accSize, msgSize) <= INT_MAX
    requires msgSize % SECTOR == 0 && accSize % SECTOR == 0
    requires addr + msgSize / SECTOR <= TWO32
    modifies link
    ensures link.Valid() && old(link.sent) <= link.sent
    ensures 0 <= offset <= msgSize && offset % SECTOR == 0
    ensures extra == 0 || (0 < extra == Min(Min(accSize, msgSize), msgSize - offset))
    ensures Tiles(parts, offset + extra, msgSize, Min(accSize, msgSize))
    ensures link.exclusive ==> Stores(old(link.dev), link.dev, SECTOR * addr, msg[..msgSize], parts)
    ensures link.exclusive ==>
              (Transferred(old(link.dev), link.dev, SECTOR * addr, msg[..offset + extra], msgSize, Min(accSize, msgSize))
               <==> AllStored(parts))
    ensures link.reliable ==> AllStored(parts)
    ensures (link.exclusive && link.reliable && Min(accSize, msgSize) > 0
             && Healthy(old(link.dev), key, addr, msgSize, Min(accSize, msgSize))) ==> offset == msgSize
    ensures link.exclusive ==> AllTo(link.sent, |old(link.sent)|, target)
  {
    hide Transferred, Healthy, Run, WriteState, Sound, Stores, Tiles, AllStored, AllTo;
    NoneTo(link.sent, target);
    var chunkSize := if accSize < msgSize then accSize else msgSize;
    var xfer := chunkSize;
    offset, extra, parts := 0, 0, [];
    ghost var d, text := link.dev, msg[..msgSize];
    ghost var sure := link.exclusive && link.reliable && chunkSize > 0 && Healthy(d, key, addr, msgSize, chunkSize);
    StoresNothing(d, SECTOR * addr, text, msgSize, chunkSize);
    WriteStart(msgSize, accSize);
    while xfer > 0
      invariant link.Valid() && old(link.sent) <= link.sent
      invariant 0 <= offset <= msgSize && offset % SECTOR == 0 && WriteState(msgSize, chunkSize, offset, xfer)
      invariant extra == 0 && Tiles(parts, offset, msgSize, chunkSize)
      invariant link.reliable ==> AllStored(parts)
      invariant link.exclusive ==> Stores(d, link.dev, SECTOR * addr, text, parts) && AllTo(link.sent, |old(link.sent)|, target)
      decreases msgSize - offset
    {
      WriteStateStep(msgSize, chunkSize, offset, xfer, addr);
      var error;
      ghost var before := link.sent;
      error, extra, parts := SendChunk(link, target, addr, msg, msgSize, offset, xfer, key, d, parts, chunkSize);
      if link.exclusive { AllToThen(before, link.sent, |old(link.sent)|, target); }
      if error != 0 {
        break;
      }
      offset, extra := offset + xfer, 0;
      if offset + chunkSize > msgSize {
        xfer := msgSize - offset;
      } else {
        xfer := chunkSize;
      }
    }
    if sure { WriteStateEnd(msgSize, chunkSize, offset, xfer); }
    if link.exclusive {
      TransferredIff(d, link.dev, SECTOR * addr, text, parts, offset + extra, chunkSize);
      assert text[..offset + extra] == msg[..offset + extra];
    }
  }

  lemma HealthyNext(d: Device, e: Device, key: seq<u8>, addr: nat, msg: seq<u8>, parts: seq<Part>, end: nat, chunk: nat)
    requires chunk > 0 && Healthy(d, key, addr, |msg|, chunk) && AllStored(parts)
    requires Stores(d, e, SECTOR * addr, msg, parts) && Tiles(parts, end, |msg|, chunk)
    requires end % SECTOR == 0 && |msg| % SECTOR == 0 && chunk % SECTOR == 0 && end < |msg|
    ensures Writable(e, key, addr + end / SECTOR, Min(chunk, |msg| - end))
  {
    hide Healthy, Transferred, Writable;
    TransferredIff(d, e, SECTOR * addr, msg, parts, end, chunk);
    HealthyStep(d, e, key, addr, msg[..end], |msg|, chunk);
  }

  // ---------------------------------------------------------------- the chunked read

  function ReadFields(target: u8, nonce: Nonce, address: nat, sectors: nat): Fields {
    Fields(target, nonce, 0, address, sectors, 0, REQ_AUTH_DATA_READ, [])
  }

  function Max(a: int, b: int): int {
    if a < b then b else a
  }

  /** The answer to a read request: the sectors asked for, or a failure. */
  lemma ReadStep(hmac: Hmac, d: Device, target: u8, nonce: Nonce, address: nat, sectors: nat)
    requires address < TWO32 && 0 < sectors < TWO32
    ensures var f := Encode(Zeros(32), ReadFields(target, nonce, address, sectors));
            var e := Process(hmac, d, f);
            var rsp := Resize(e.pending, HEADER + SECTOR * sectors);
            && |f| >= HEADER && SameContents(d, e)
            && (InRange(d, address, sectors) <==> ResultOf(rsp) == OK)
            && (InRange(d, address, sectors) ==> SectorsOf(rsp) == sectors)
            && (InRange(d, address, sectors) ==> DataOf(rsp) == d.store[SECTOR * address..SECTOR * (address + sectors)])
  {
    hide Encode, Response, ResultOf, SectorsOf, AddressOf, KindOf, DataOf, Resize, FromLe;
    var f := Encode(Zeros(32), ReadFields(target, nonce, address, sectors));
    EncodeFields(Zeros(32), ReadFields(target, nonce, address, sectors));
    NoWriteNoChange(hmac, d, f);
    if InRange(d, address, sectors) {
      var data := d.store[SECTOR * address..SECTOR * (address + sectors)];
      ResponseResult(REQ_AUTH_DATA_READ, NonceOf(f), 0, address, sectors, OK, data);
      ResizeSame(Process(hmac, d, f).pending, HEADER + SECTOR * sectors);
    } else {
      ResponseResult(REQ_AUTH_DATA_READ, NonceOf(f), 0, address, 0, ADDRESS_FAILURE, []);
      ResizedResult(Process(hmac, d, f).pending, HEADER + SECTOR * sectors);
    }
  }

  lemma ResizedResult(b: seq<u8>, n: nat)
    requires HEADER <= |b| <= n
    ensures ResultOf(Resize(b, n)) == ResultOf(b) && SectorsOf(Resize(b, n)) == SectorsOf(b)
  {
    hide FromLe;
    assert Resize(b, n)[RESULT_AT..TYPE_AT] == b[RESULT_AT..TYPE_AT];
    assert Resize(b, n)[SECTORS_AT..RESULT_AT] == b[SECTORS_AT..RESULT_AT];
  }

  /** One request of the read loop. A response with more sectors than were asked for makes
      the source copy more than the response and the buffer hold: `overrun`. */
  method ReadSectors(link: Link, target: u8, offset: nat, xfer: nat, buf: array<u8>, at: nat)
    returns (ok: bool, sectors: nat, overrun: bool)
    requires link.Valid()
    requires 0 < xfer < 0x40_0000 && offset < TWO32 && at + SECTOR * xfer <= buf.Length
    modifies link, buf
    ensures link.Valid() && old(link.sent) <= link.sent
    ensures var rsp := Resize(link.dev.pending, HEADER + SECTOR * xfer);
            && (ok ==> ResultOf(rsp) == OK && sectors == SectorsOf(rsp))
            && (overrun <==> ok && sectors > xfer)
            && (ok && !overrun ==> buf[..] == Splice(old(buf[..]), at, DataOf(rsp)[..SECTOR * sectors]))
    ensures !ok || overrun ==> buf[..] == old(buf[..])
    ensures link.exclusive ==> SameContents(old(link.dev), link.dev) && !overrun
    ensures link.exclusive && ok ==>
              && sectors == xfer && InRange(link.dev, offset, xfer)
              && buf[..] == Splice(old(buf[..]), at, link.dev.store[SECTOR * offset..SECTOR * (offset + xfer)])
    ensures link.exclusive && link.reliable && InRange(link.dev, offset, xfer) ==> ok
    ensures link.exclusive ==> AllTo(link.sent, |old(link.sent)|, target)
  {
    hide ResultOf, SectorsOf, DataOf, Resize, Splice, AllTo, SameContents, InRange, Run, Sound;
    ok, sectors, overrun := false, 0, false;
    var rsp := RequestSectors(link, target, offset, xfer);
    if rsp.None? {
      return;
    }
    ok, sectors := true, SectorsOf(rsp.value);
    overrun := sectors > xfer;
    if overrun {
      return;
    }
    DataLength(rsp.value);
    var data := DataOf(rsp.value);
    assert sectors == xfer ==> data[..SECTOR * sectors] == data;
    Copy(buf, at, data[..SECTOR * sectors]);
  }

  /** The request for the sectors, and its response. */
  method RequestSectors(link: Link, target: u8, offset: nat, xfer: nat) returns (rsp: Option<seq<u8>>)
    requires link.Valid() && 0 < xfer < 0x40_0000 && offset < TWO32
    modifies link
    ensures link.Valid() && old(link.sent) <= link.sent
    ensures rsp.Some? ==> rsp.value == Resize(link.dev.pending, HEADER + SECTOR * xfer) && ResultOf(rsp.value) == OK
    ensures link.exclusive ==> SameContents(old(link.dev), link.dev) && AllTo(link.sent, |old(link.sent)|, target)
    ensures link.exclusive && rsp.Some? ==>
              && SectorsOf(rsp.value) == xfer && InRange(link.dev, offset, xfer)
              && DataOf(rsp.value) == link.dev.store[SECTOR * offset..SECTOR * (offset + xfer)]
    ensures link.exclusive && link.reliable && InRange(link.dev, offset, xfer) ==> rsp.Some?
  {
    hide Encode, ResultOf, SectorsOf, DataOf, Process, Resize, AllTo, TargetOf, Run, Sound;
    NoneTo(link.sent, target);
    rsp := None;
    var nonce: Nonce := *;
    var memory := link.Allocates();
    var req := RequestInit(memory, REQ_AUTH_DATA_READ, target, Some(nonce), offset, xfer, []);
    if req == null {
      return;
    }
    ReadStep(link.hmac, link.dev, target, nonce, offset, xfer);
    EncodeFields(Zeros(32), ReadFields(target, nonce, offset, xfer));
    rsp := ReadRequest(link, req[..], HEADER + SECTOR * xfer);
  }

  lemma DataLength(b: seq<u8>)
    requires |b| >= HEADER
    ensures |DataOf(b)| == |b| - HEADER
  {}

  /** Another host's read request for more than n sectors, which the target answers. */
  predicate WideRead(d: Device, g: seq<u8>, n: nat) {
    |g| >= HEADER && KindOf(g) == REQ_AUTH_DATA_READ && SectorsOf(g) > n && InRange(d, AddressOf(g), SectorsOf(g))
  }

  /** The response p makes a host that asked for n sectors copy too much. */
  predicate Overruns(p: seq<u8>, n: nat) {
    |p| >= HEADER && ResultOf(p) == OK && SectorsOf(p) > n
  }

  lemma WideReadOverruns(hmac: Hmac, d: Device, g: seq<u8>, n: nat)
    requires Sound(d)
    ensures WideRead(d, g, n) ==> Overruns(Process(hmac, d, g).pending, n)
    ensures Overruns(Process(hmac, d, g).pending, n) ==> WideRead(d, g, n) || Process(hmac, d, g).pending == d.pending
  {
    hide Response, FromLe, KindOf, CounterOf, AddressOf, SectorsOf, ResultOf, WriteResult;
    if |g| >= HEADER {
      AddressSmall(g);
      var a, k := AddressOf(g), SectorsOf(g);
      ResponseResult(REQ_READ_WRITE_CNTR, NonceOf(g), d.counter, 0, 0, CounterResult(d), []);
      ResponseResult(REQ_AUTH_DATA_READ, NonceOf(g), 0, a, 0, ADDRESS_FAILURE, []);
      if InRange(d, a, k) {
        ResponseResult(REQ_AUTH_DATA_READ, NonceOf(g), 0, a, k, OK, d.store[SECTOR * a..SECTOR * (a + k)]);
      }
      ResponseResult(0, NonceOf(g), 0, 0, 0, GENERAL_FAILURE, []);
    }
  }

  lemma {:induction false} NoWideReadNoOverrun(hmac: Hmac, d: Device, own: seq<u8>, others: seq<seq<u8>>, n: nat)
    requires Sound(d) && AsksForSectors(own) && !WideRead(d, own, n)
    requires forall g :: g in others ==> !WideRead(d, g, n)
    ensures !Overruns(Run(hmac, d, [own] + others).pending, n)
    decreases |others|
  {
    hide Process, Sound, Overruns, KindOf, SectorsOf, AddressOf;
    var all := [own] + others;
    var init, g := all[..|others|], all[|others|];
    assert all[..|all| - 1] == init;
    SameBounds(hmac, d, init);
    WideReadOverruns(hmac, Run(hmac, d, init), g, n);
    if others == [] {
      assert init == [] && g == own;
      OwnAnswer(hmac, d, own, n);
    } else {
      assert init == [own] + others[..|others| - 1] && g in others;
      NoWideReadNoOverrun(hmac, d, own, others[..|others| - 1], n);
    }
  }

  /** A read request. */
  predicate AsksForSectors(f: seq<u8>) {
    |f| >= HEADER && KindOf(f) == REQ_AUTH_DATA_READ
  }

  lemma OwnAnswer(hmac: Hmac, d: Device, own: seq<u8>, n: nat)
    requires AsksForSectors(own) && !WideRead(d, own, n)
    ensures !Overruns(Process(hmac, d, own).pending, n)
  {
    hide Response, FromLe, KindOf, CounterOf, AddressOf, SectorsOf, ResultOf;
    AddressSmall(own);
    var a, k := AddressOf(own), SectorsOf(own);
    ResponseResult(REQ_AUTH_DATA_READ, NonceOf(own), 0, a, 0, ADDRESS_FAILURE, []);
    if InRange(d, a, k) {
      ResponseResult(REQ_AUTH_DATA_READ, NonceOf(own), 0, a, k, OK, d.store[SECTOR * a..SECTOR * (a + k)]);
    }
  }

  /** On a shared link no response overruns, whatever other hosts send out of s, exactly if
      there is no read of more sectors among it that the target answers. */
  lemma NeverOverrunsIff(hmac: Hmac, d: Device, own: seq<u8>, s: iset<seq<u8>>)
    requires Sound(d) && AsksForSectors(own)
    ensures (forall others :: Drawn(others, s) ==> !Overruns(Run(hmac, d, [own] + others).pending, SectorsOf(own)))
            <==> forall g :: g in s ==> !WideRead(d, g, SectorsOf(own))
  {
    hide Process, Sound, Overruns, KindOf, SectorsOf, AddressOf;
    var n := SectorsOf(own);
    if forall g :: g in s ==> !WideRead(d, g, n) {
      forall others | Drawn(others, s) ensures !Overruns(Run(hmac, d, [own] + others).pending, n) {
        NoWideReadNoOverrun(hmac, d, own, others, n);
      }
    } else {
      var g :| g in s && WideRead(d, g, n);
      SameBounds(hmac, d, [own]);
      WideReadOverruns(hmac, Run(hmac, d, [own]), g, n);
      assert ([own] + [g])[..1] == [own];
      assert Drawn([g], s);
      assert Overruns(Run(hmac, d, [own] + [g]).pending, n);
    }
  }

  /** A counter request of another host in between: what the reading host receives counts as
      success and brings no sectors, so that the loop asks again, as long as that goes on,
      exactly if the target has a key and counter values left. */
  lemma CounterRequestStalls(hmac: Hmac, d: Device, own: seq<u8>, g: seq<u8>, n: nat)
    requires Sound(d) && AsksForSectors(own) && |g| >= HEADER && KindOf(g) == REQ_READ_WRITE_CNTR
    ensures var rsp := Resize(Run(hmac, d, [own, g]).pending, HEADER + SECTOR * n);
            SectorsOf(rsp) == 0 && (ResultOf(rsp) == OK <==> d.key.Some? && d.counter < LAST_COUNTER)
  {
    hide Process, Sound, KindOf, SectorsOf, ResultOf, Resize, FromLe, IsWrite;
    var x := Process(hmac, d, own);
    assert [own, g][..1] == [own] && [own][..0] == [];
    assert Run(hmac, d, [own]) == x && Run(hmac, d, [own, g]) == Process(hmac, x, g);
    SoundStays(hmac, d, own);
    SoundCounter(x);
    ReadIsNoWrite(own);
    NoWriteNoChange(hmac, d, own);
    CounterAsked(hmac, x, g);
    ResizedResult(Process(hmac, x, g).pending, HEADER + SECTOR * n);
  }

  lemma ReadIsNoWrite(f: seq<u8>)
    requires AsksForSectors(f)
    ensures !IsWrite(f)
  {}

  /** Where the read loop stops if every request succeeds. */
  function ReadGoal(addr: nat, msgSize: nat, accSize: int): int {
    Max(addr + Min(accSize, msgSize), msgSize)
  }

  /** The target lets the host read up to there. */
  predicate Readable(d: Device, addr: nat, msgSize: nat, accSize: int) {
    0 < Min(accSize, msgSize) <= d.accessSize && SECTOR * ReadGoal(addr, msgSize, accSize) <= |d.store|
  }

  /** Eight sectors from sector 4 on, two at a time: the loop stops at sector 8, after four.
      From sector 8 on, all at once: it returns 16, twice what the buffer holds. */
  lemma ShortAndLongRead(d: Device)
    requires d.accessSize >= 8 && |d.store| >= SECTOR * 16
    ensures Readable(d, 4, 8, 2) && ReadGoal(4, 8, 2) - 4 == 4
    ensures Readable(d, 8, 8, 8) && ReadGoal(8, 8, 8) == 16
  {}

  /** Where the loop stands: `chunk` sectors are read first, then up to sector m. */
  ghost predicate ReadState(addr: nat, m: nat, chunk: int, offset: nat, xfer: int) {
    && addr <= offset && chunk <= m
    && (offset == addr ==> xfer == chunk)
    && (offset > addr ==> 0 < chunk && addr + chunk <= offset <= Max(addr + chunk, m))
    && (offset > addr ==> xfer == if offset + chunk > m then m - offset else chunk)
  }

  lemma ReadStateStep(addr: nat, m: nat, chunk: int, offset: nat, xfer: int)
    requires ReadState(addr, m, chunk, offset, xfer) && xfer > 0 && addr + 2 * m <= INT_MAX
    ensures var o := offset + xfer;
            && 0 < chunk && xfer <= chunk && o <= Max(addr + chunk, m) && o <= addr + m
            && ReadState(addr, m, chunk, o, Next32(o, chunk, m))
  {
    hide Next32;
    NextAgreesIff(offset + xfer, chunk, m);
  }

  lemma ReadStateEnd(addr: nat, m: nat, acc: int, offset: nat, xfer: int)
    requires Min(acc, m) > 0 && ReadState(addr, m, Min(acc, m), offset, xfer) && xfer <= 0
    ensures offset == ReadGoal(addr, m, acc)
    ensures offset - addr == m <==> addr == 0 || m <= acc
  {}

  lemma ReadStateBound(addr: nat, m: nat, chunk: int, offset: nat, xfer: int)
    requires ReadState(addr, m, chunk, offset, xfer)
    ensures offset > m <==> addr > m || (offset > addr && addr + chunk > m)
  {}

  /** The sectors from addr up to offset are in the buffer. */
  ghost predicate Fetched(store: seq<u8>, buf: seq<u8>, addr: nat, offset: nat) {
    offset > addr ==>
      && SECTOR * offset <= |store| && SECTOR * (offset - addr) <= |buf|
      && buf[..SECTOR * (offset - addr)] == store[SECTOR * addr..SECTOR * offset]
  }

  lemma FetchedMore(store: seq<u8>, before: seq<u8>, after: seq<u8>, addr: nat, offset: nat, n: nat)
    requires addr <= offset && SECTOR * (offset + n) <= |store| && SECTOR * (offset - addr + n) <= |before|
    requires Fetched(store, before, addr, offset)
    requires after == Splice(before, SECTOR * (offset - addr), store[SECTOR * offset..SECTOR * (offset + n)])
    ensures Fetched(store, after, addr, offset + n)
  {
    var at := SECTOR * (offset - addr);
    var data := store[SECTOR * offset..SECTOR * (offset + n)];
    assert after[..at + |data|] == before[..at] + data;
    assert SECTOR * (offset + n - addr) == at + |data|;
    if offset > addr {
      assert store[SECTOR * addr..SECTOR * offset] + data == store[SECTOR * addr..SECTOR * (offset + n)];
    }
  }

  lemma ReadStart(d: Device, buf: seq<u8>, addr: nat, m: nat, chunk: int)
    requires chunk <= m
    ensures SameContents(d, d) && ReadState(addr, m, chunk, addr, chunk) && Fetched(d.store, buf, addr, addr)
  {}

  lemma ReadInRange(d: Device, addr: nat, m: nat, acc: int, offset: nat, xfer: int)
    requires Readable(d, addr, m, acc) && ReadState(addr, m, Min(acc, m), offset, xfer) && xfer > 0
    ensures InRange(d, offset, xfer)
  {}

  lemma SameAgain(d: Device, e: Device, e': Device, a: nat, n: nat)
    requires SameContents(d, e) && SameContents(e, e')
    ensures SameContents(d, e') && d.store == e'.store && InRange(d, a, n) == InRange(e', a, n)
    ensures InRange(d, a, n) ==> SECTOR * (a + n) <= |d.store|
  {}

  lemma SameReadable(d: Device, e: Device, addr: nat, m: nat, acc: int)
    requires SameContents(d, e)
    ensures d.store == e.store && Readable(d, addr, m, acc) == Readable(e, addr, m, acc)
    ensures Readable(d, addr, m, acc) ==> 0 < Min(acc, m)
  {}

  /** An unsigned number of 32 bits taken for a signed one. */
  function ToInt32(x: nat): int {
    if x <= INT_MAX then x else x - TWO32
  }

  lemma SmallIsSame(x: nat)
    requires x <= INT_MAX
    ensures ToInt32(x) == x
  {}

  /** What the loop asks for next: comparison and difference are those of unsigned numbers. */
  function Next32(offset: nat, chunk: nat, m: nat): int {
    if (offset + chunk) % TWO32 > m then ToInt32((m - offset) % TWO32) else chunk
  }

  /** They are those of the numbers themselves exactly if the sum stays below 2^32 and the
      sector number exceeds m by at most 2^31. */
  lemma NextAgreesIff(offset: nat, chunk: nat, m: nat)
    requires offset < TWO32 && 0 < chunk <= m <= INT_MAX
    ensures Next32(offset, chunk, m) == (if offset + chunk > m then m - offset else chunk)
            <==> offset + chunk < TWO32 && offset - m <= INT_MAX + 1
  {
    Modulo32(offset + chunk);
    Modulo32(m - offset);
  }

  lemma Modulo32(x: int)
    requires -TWO32 <= x < 2 * TWO32
    ensures x % TWO32 == if x < 0 then x + TWO32 else if x < TWO32 then x else x - TWO32
  {}

  /** Model of `rpmb_auth_data_read`. The loop compares the absolute sector number with the
      number of sectors wanted, and the absolute sector number is what it returns. */
  method AuthDataRead(link: Link, target: u8, addr: nat, msgSize: nat, accSize: int) returns (buf: array?<u8>, ret: int)
    requires link.Valid() && link.exclusive
    requires HEADER + SECTOR * msgSize <= INT_MAX && addr + 2 * msgSize <= INT_MAX
    modifies link
    ensures link.Valid() && old(link.sent) <= link.sent && SameContents(old(link.dev), link.dev)
    ensures link.reliable ==> buf != null
    ensures buf == null ==> ret == -1
    ensures buf != null ==> fresh(buf) && buf.Length == SECTOR * msgSize
    ensures buf != null ==> addr <= ret <= addr + msgSize && Fetched(link.dev.store, buf[..], addr, ret)
    ensures buf != null ==>
              (SECTOR * ret > buf.Length <==> addr > msgSize || (ret > addr && addr + Min(accSize, msgSize) > msgSize))
    ensures link.reliable && Readable(link.dev, addr, msgSize, accSize) ==> ret == ReadGoal(addr, msgSize, accSize)
    ensures link.reliable && Readable(link.dev, addr, msgSize, accSize) ==>
              (ret - addr == msgSize <==> addr == 0 || msgSize <= accSize)
    ensures AllTo(link.sent, |old(link.sent)|, target)
  {
    hide AllTo, ReadState, Fetched, Splice, SameContents, InRange, Readable, ReadGoal, Max, Run, Sound, Resize, ResultOf, SectorsOf, DataOf,
         Next32, ToInt32;
    NoneTo(link.sent, target);
    var chunkSize := if accSize < msgSize then accSize else msgSize;
    var xfer := chunkSize;
    ghost var d := link.dev;
    var memory := link.Allocates();
    if !memory {
      ReadStart(d, [], addr, msgSize, chunkSize);
      return null, -1;
    }
    var bytes := new u8[SECTOR * msgSize](i => 0);
    var at := 0;
    var offset := addr;
    ghost var sure := link.reliable && Readable(d, addr, msgSize, accSize);
    ReadStart(d, bytes[..], addr, msgSize, chunkSize);
    while xfer > 0
      invariant link.Valid() && old(link.sent) <= link.sent && SameContents(d, link.dev)
      invariant addr <= offset <= addr + msgSize && at == SECTOR * (offset - addr)
      invariant ReadState(addr, msgSize, chunkSize, offset, xfer)
      invariant Fetched(d.store, bytes[..], addr, offset) && AllTo(link.sent, |old(link.sent)|, target)
      decreases addr + msgSize - offset
    {
      ReadStateStep(addr, msgSize, chunkSize, offset, xfer);
      ghost var before, frames := bytes[..], link.sent;
      ghost var e := link.dev;
      var ok, sectors, overrun := ReadSectors(link, target, offset, xfer, bytes, at);
      AllToThen(frames, link.sent, |old(link.sent)|, target);
      SameAgain(d, e, link.dev, offset, xfer);
      if sure { ReadInRange(d, addr, msgSize, accSize, offset, xfer); }
      if !ok {
        break;
      }
      FetchedMore(d.store, before, bytes[..], addr, offset, xfer);
      offset := offset + sectors;
      at := at + SECTOR * sectors;
      xfer := Next32(offset, chunkSize, msgSize);
    }
    buf, ret := bytes, ToInt32(offset);
    SmallIsSame(offset);
    ReadStateBound(addr, msgSize, chunkSize, offset, xfer);
    SameReadable(d, link.dev, addr, msgSize, accSize);
    if sure { ReadStateEnd(addr, msgSize, accSize, offset, xfer); }
  }

  // ---------------------------------------------------------------- write, then read

  /** Writing sectors at address 0 and reading as many from address 0, with any two access
      sizes, returns the message, but for the parts that were counted and dropped. */
  method WriteThenRead(link: Link, target: u8, msg: array<u8>, writeAcc: int, readAcc: int, key: seq<u8>)
    returns (written: int, ghost parts: seq<Part>, buf: array?<u8>, read: int)
    requires link.Valid() && link.exclusive
    requires HEADER + msg.Length <= INT_MAX && msg.Length + Min(writeAcc, msg.Length) <= INT_MAX
    requires msg.Length % SECTOR == 0 && writeAcc % SECTOR == 0
    modifies link
    ensures written == msg.Length && SECTOR * read == msg.Length ==> buf != null && (AllStored(parts) ==> buf[..] == msg[..])
    ensures 0 < SECTOR * read == msg.Length ==>
              msg.Length <= |old(link.dev).store| && buf != null
              && buf[..] == Patched(old(link.dev).store, 0, msg[..], parts)[..msg.Length]
    ensures link.reliable ==> AllStored(parts)
    ensures link.reliable && writeAcc > 0 && msg.Length > 0 && Healthy(old(link.dev), key, 0, msg.Length, Min(writeAcc, msg.Length))
            && 0 < Min(readAcc, msg.Length / SECTOR) <= old(link.dev).accessSize
            ==> written == msg.Length && SECTOR * read == msg.Length
    ensures AllTo(link.sent, |old(link.sent)|, target)
  {
    hide Splice, ChunkCount, Patched, Tiles;
    ghost var extra;
    written, extra, parts := AuthDataWrite(link, target, 0, writeAcc, msg, msg.Length, key);
    ghost var d, frames := link.dev, link.sent;
    assert msg[..msg.Length] == msg[..];
    buf, read := AuthDataRead(link, target, 0, msg.Length / SECTOR, readAcc);
    AllToThen(frames, link.sent, |old(link.sent)|, target);
    if written == msg.Length {
      assert msg[..written + extra] == msg[..];
      SpliceStart(old(link.dev).store, msg[..]);
    }
  }

  lemma SpliceStart(s: seq<u8>, data: seq<u8>)
    ensures |data| <= |s| ==> Splice(s, 0, data)[0..|data|] == data
  {}
}
