/** Model of the RPMB data transfers of nvme-cli/nvme-rpmb.c, together with an abstract
    controller that follows section 8.10 of the NVM Express Base Specification 1.4.

Frames are byte strings with the layout of `struct rpmb_data_frame_t`. HMAC-SHA256 is an
arbitrary function from a key and bytes to 32 bytes.
*/
module RpmbFrames {
  import opened Bytes
  import opened Common

  const SECTOR := 512
  const HEADER := 256

  const MAC_AT := 191
  const TARGET_AT := 223
  const NONCE_AT := 224
  const COUNTER_AT := 240
  const ADDRESS_AT := 244
  const SECTORS_AT := 248
  const RESULT_AT := 252
  const TYPE_AT := 254

  const REQ_READ_WRITE_CNTR := 2
  const REQ_AUTH_DATA_WRITE := 3
  const REQ_AUTH_DATA_READ := 4
  const REQ_READ_RESULT := 5

  type Digest = s: seq<u8> | |s| == 32 witness Zeros(32)
  type Nonce = s: seq<u8> | |s| == 16 witness Zeros(16)
  type Hmac = (seq<u8>, seq<u8>) -> Digest

  /** A frame, field by field; `counter`, `address` and `sectors` are 32-bit numbers. */
  datatype Fields = Fields(target: u8, nonce: Nonce, counter: nat, address: nat, sectors: nat, result: nat, kind: nat,
                           data: seq<u8>)

  predicate Fit(f: Fields) {
    f.counter < TWO32 && f.address < TWO32 && f.sectors < TWO32 && f.result < 0x1_0000 && f.kind < 0x1_0000
  }

  /** The bytes the MAC is computed over: everything from the target on. */
  function Body(f: Fields): (b: seq<u8>)
    ensures |b| == HEADER - TARGET_AT + |f.data|
  {
    [f.target] + f.nonce + ToLe(f.counter, 4) + ToLe(f.address, 4) + ToLe(f.sectors, 4)
    + ToLe(f.result, 2) + ToLe(f.kind, 2) + f.data
  }

  function Encode(mac: Digest, f: Fields): (b: seq<u8>)
    ensures |b| == HEADER + |f.data|
  {
    Zeros(MAC_AT) + mac + Body(f)
  }

  /** Reading the fields of a frame. */
  function MacOf(b: seq<u8>): Digest
    requires |b| >= HEADER
  {
    b[MAC_AT..TARGET_AT]
  }

  function TargetOf(b: seq<u8>): u8
    requires |b| >= HEADER
  {
    b[TARGET_AT]
  }

  function BodyOf(b: seq<u8>): seq<u8>
    requires |b| >= HEADER
  {
    b[TARGET_AT..]
  }

  function NonceOf(b: seq<u8>): Nonce
    requires |b| >= HEADER
  {
    b[NONCE_AT..COUNTER_AT]
  }

  function CounterOf(b: seq<u8>): nat
    requires |b| >= HEADER
  {
    FromLe(b[COUNTER_AT..ADDRESS_AT])
  }

  function AddressOf(b: seq<u8>): nat
    requires |b| >= HEADER
  {
    FromLe(b[ADDRESS_AT..SECTORS_AT])
  }

  function SectorsOf(b: seq<u8>): nat
    requires |b| >= HEADER
  {
    FromLe(b[SECTORS_AT..RESULT_AT])
  }

  function ResultOf(b: seq<u8>): nat
    requires |b| >= HEADER
  {
    FromLe(b[RESULT_AT..TYPE_AT])
  }

  function KindOf(b: seq<u8>): nat
    requires |b| >= HEADER
  {
    FromLe(b[TYPE_AT..HEADER])
  }

  function DataOf(b: seq<u8>): seq<u8>
    requires |b| >= HEADER
  {
    b[HEADER..]
  }

  /** The layout is right: every field is read where it was written, and the MAC lies
      outside the bytes it authenticates. */
  lemma EncodeFields(mac: Digest, f: Fields)
    requires Fit(f)
    ensures var b := Encode(mac, f);
            && MacOf(b) == mac && BodyOf(b) == Body(f) && TargetOf(b) == f.target && NonceOf(b) == f.nonce
            && CounterOf(b) == f.counter && AddressOf(b) == f.address && SectorsOf(b) == f.sectors
            && ResultOf(b) == f.result && KindOf(b) == f.kind && DataOf(b) == f.data
  {
    hide ToLe, FromLe;
    var b := Encode(mac, f);
    Pow256Values();
    LeRoundTrip(f.counter, 4);
    LeRoundTrip(f.address, 4);
    LeRoundTrip(f.sectors, 4);
    LeRoundTrip(f.result, 2);
    LeRoundTrip(f.kind, 2);
    assert b[COUNTER_AT..ADDRESS_AT] == ToLe(f.counter, 4);
    assert b[ADDRESS_AT..SECTORS_AT] == ToLe(f.address, 4);
    assert b[SECTORS_AT..RESULT_AT] == ToLe(f.sectors, 4);
    assert b[RESULT_AT..TYPE_AT] == ToLe(f.result, 2);
    assert b[TYPE_AT..HEADER] == ToLe(f.kind, 2);
    assert b[HEADER..] == f.data;
    assert b[MAC_AT..TARGET_AT] == mac;
    assert b[TARGET_AT..] == Body(f);
    assert b[NONCE_AT..COUNTER_AT] == f.nonce;
  }
}
