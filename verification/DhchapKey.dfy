/** Model of the key text of `gen_dhchap_key` and `check_dhchap_key` in nvme-cli/nvme.c.

A secret travels as text: the secret's bytes, followed by their CRC-32, in base64. The
module composes the models of crc32.c and base64.c.
*/
module DhchapKey {
  import opened Crc32
  import opened Base64
  import opened Common

  predicate KeyLength(n: int) {
    n == 32 || n == 48 || n == 64
  }

  /** The base64 part of the key text for a secret. */
  function Protect(key: seq<bv8>): string {
    Encode(key + Le4(Crc(0, key)))
  }

  /** The size of the buffer that `check_dhchap_key` decodes into. */
  const DECODED_SIZE := 128

  datatype Verdict = Accepted(key: seq<bv8>) | Refused

  /** Length of the whole key text that the HMAC identifier calls for; the header and the
      closing colon take eleven characters. */
  predicate TextLengthFits(hmac: int, body: int) {
    || hmac == 0
    || (hmac == 1 && body + 11 == 59)
    || (hmac == 2 && body + 11 == 83)
    || (hmac == 3 && body + 11 == 103)
  }

  /** The checks of `check_dhchap_key`, in their order. */
  function Check(hmac: int, body: string): Verdict {
    if !TextLengthFits(hmac, |body|) then Refused
    else match Decode(body)
      case Invalid => Refused
      case Again => Refused
      case Ok(bytes) =>
        if |bytes| < 32 || !KeyLength(|bytes| - 4) || !TrailerMatches(bytes) then Refused
        else Accepted(bytes[..|bytes| - 4])
  }

  // ---------------------------------------------------------------- the code

  /** The part of `gen_dhchap_key` that turns the transformed secret into text. */
  method GenerateText(key: array<bv8>, len: nat, encoded: array<char>) returns (n: nat)
    requires KeyLength(len) && key.Length == 68 && encoded.Length == 128
    requires key as object != encoded as object
    modifies key, encoded
    ensures n <= encoded.Length && encoded[..n] == Protect(old(key[..len]))
  {
    hide Encode, Crc, Le4;
    var crc := Crc32.Crc32(0, key, 0);
    assert key[..0] == [];
    EmptyCrc();
    crc := Crc32.Crc32(crc, key, len);
    ghost var secret := key[..len];
    var trailer := Le4(crc);
    key[len], key[len + 1], key[len + 2], key[len + 3] := trailer[0], trailer[1], trailer[2], trailer[3];
    assert key[..len + 4] == secret + trailer;
    n := Base64Encode(key, len + 4, encoded);
  }

  /** The part of `check_dhchap_key` behind the parsing of the header. */
  method CheckText(hmac: int, body: array<char>, decoded: array<bv8>) returns (err: int)
    requires decoded.Length == DECODED_SIZE
    requires TextLengthFits(hmac, body.Length) ==> StaysInside(body[..], DECODED_SIZE)
    requires body as object != decoded as object
    modifies decoded
    ensures err == 0 <==> Check(hmac, body[..]).Accepted?
    ensures err == 0 ==> Check(hmac, body[..]).key <= decoded[..]
    ensures err != 0 ==> err == if TextLengthFits(hmac, body.Length) && Decode(body[..]).Again? then -EAGAIN else -EINVAL
  {
    hide Decode, Crc;
    if !TextLengthFits(hmac, body.Length) {
      return -EINVAL;
    }
    ghost var text := body[..];
    assert body[..body.Length] == text;
    var r := Base64Decode(body, body.Length, decoded);
    assert body[..] == text;
    if r < 0 {
      return r;
    }
    if r < 32 {
      return -EINVAL;
    }
    var len := r - 4;
    if !KeyLength(len) {
      return -EINVAL;
    }
    ghost var bytes := decoded[..r];
    var crc := Crc32.Crc32(0, decoded, 0);
    assert decoded[..0] == [];
    EmptyCrc();
    crc := Crc32.Crc32(crc, decoded, len);
    assert decoded[..len] == bytes[..len];
    assert [decoded[len], decoded[len + 1], decoded[len + 2], decoded[len + 3]] == bytes[len..];
    var stored := FromLe4([decoded[len], decoded[len + 1], decoded[len + 2], decoded[len + 3]]);
    if stored != crc {
      return -EINVAL;
    }
    return 0;
  }

  /** That buffer is large enough for all texts of n characters, exactly if a length is
      called for by the HMAC identifier or n is at most 171. */
  lemma BufferSufficesIff(hmac: int, n: nat)
    ensures (forall body: string :: |body| == n && TextLengthFits(hmac, n) ==> StaysInside(body, DECODED_SIZE)) <==> hmac != 0 || n <= 171
  {
    hide StaysInside;
    StaysInsideIff(n, DECODED_SIZE);
  }

  lemma EmptyCrc()
    ensures Crc(0, []) == 0
  {}

  // ---------------------------------------------------------------- theorems

  lemma AppendedTrailerMatches(key: seq<bv8>)
    ensures TrailerMatches(key + Le4(Crc(0, key)))
  {
    hide Crc, Le4, FromLe4;
    var m := key + Le4(Crc(0, key));
    assert m[|m| - 4..] == Le4(Crc(0, key)) && m[..|m| - 4] == key;
    Le4RoundTrip(Crc(0, key));
  }

  /** Under a named hash only texts as long as those of its secrets are accepted, and the
      secret has one of three lengths in any case. */
  lemma AcceptedLengths(hmac: int, body: string)
    requires Check(hmac, body).Accepted?
    ensures hmac == 0 || (1 <= hmac <= 3 && forall key :: |key| == 16 * (hmac + 1) ==> |body| == |Protect(key)|)
    ensures |Check(hmac, body).key| in {32, 48, 64}
  {
    hide Decode, TrailerMatches, Encode, Crc, Le4;
    forall key | hmac != 0 && |key| == 16 * (hmac + 1) ensures |body| == |Protect(key)| {
      EncodedLength(key + Le4(Crc(0, key)));
    }
  }

  /** Every generated text is accepted and yields the secret, under hmac 0 and under the
      identifier that belongs to the secret's length. */
  lemma GeneratedIsAccepted(hmac: int, key: seq<bv8>)
    requires KeyLength(|key|)
    requires hmac == 0 || |key| == 16 * (hmac + 1)
    ensures Check(hmac, Protect(key)) == Accepted(key)
  {
    hide Encode, Decode, Crc, Le4, TrailerMatches;
    var m := key + Le4(Crc(0, key));
    EncodedLength(m);
    DecodeEncode(m);
    AppendedTrailerMatches(key);
    assert m[..|m| - 4] == key;
  }

  // ---------------------------------------------------------------- corrupted texts

  /** The accumulator's low six bits before position p: the value of the character there. */
  function Before(s: string, p: nat): bv32
    requires ValidText(s) && p <= |s|
  {
    if p == 0 then 0 else Shove(0, Value(s[p - 1]))
  }

  /** What the character at position p adds; it depends on that one and the one before. */
  function Piece(s: string, p: nat): seq<bv8>
    requires ValidText(s) && p < |s|
  {
    Added(p, s[p], Before(s, p))
  }

  /** What the characters from i up to j add. */
  function Pieces(s: string, i: nat, j: nat): seq<bv8>
    requires ValidText(s) && j <= |s|
  {
    if i >= j then [] else Pieces(s, i, j - 1) + Piece(s, j - 1)
  }

  /** Every text, padded or not, spells what its characters add one by one. */
  lemma {:induction false} PiecesMakeBytes(s: string, j: nat)
    requires ValidText(s) && j <= |s|
    ensures Bytes(s[..j]) == Pieces(s, 0, j)
  {
    hide Bytes, Added, Shove, Low6, Value, ValidChar;
    if j == 0 {
      SpellNothing();
    } else {
      PiecesMakeBytes(s, j - 1);
      assert s[..j - 1] + [s[j - 1]] == s[..j];
      if j > 1 { ShoveHolds(0, Value(s[j - 2])); }
      BytesSnoc(s[..j - 1], s[j - 1], Before(s, j - 1));
    }
  }

  lemma {:induction false} PiecesSplit(s: string, i: nat, j: nat, k: nat)
    requires ValidText(s) && i <= j <= k <= |s|
    ensures Pieces(s, i, k) == Pieces(s, i, j) + Pieces(s, j, k)
  {
    hide Piece;
    if j < k {
      PiecesSplit(s, i, j, k - 1);
    }
  }

  /** The texts agree from the character before i up to j, unless that is nothing. */
  predicate AgreeOn(t: string, u: string, i: nat, j: nat) {
    |t| == |u| && forall p :: i < j && i <= p + 1 && 0 <= p < j <= |t| ==> t[p] == u[p]
  }

  lemma {:induction false} SamePieces(t: string, u: string, i: nat, j: nat)
    requires ValidText(t) && ValidText(u) && j <= |t| && AgreeOn(t, u, i, j)
    ensures Pieces(t, i, j) == Pieces(u, i, j)
  {
    hide Added, ValidChar, Shove, Value;
    if i < j {
      SamePieces(t, u, i, j - 1);
    }
  }

  lemma PieceLength(s: string, p: nat)
    requires ValidText(s) && p < |s|
    ensures |Piece(s, p)| <= if p % 4 == 0 then 0 else 1
  {
    hide Value, ValidChar, Shove, Popped;
  }

  lemma {:induction false} PiecesLength(s: string, i: nat, j: nat)
    requires ValidText(s) && i <= j <= |s|
    ensures |Pieces(s, i, j)| <= j - i
  {
    hide Piece;
    if i < j {
      PiecesLength(s, i, j - 1);
      PieceLength(s, j - 1);
    }
  }

  /** One of five consecutive characters adds nothing. */
  lemma FivePieces(s: string, i: nat, j: nat)
    requires ValidText(s) && i <= j <= |s| && j <= i + 5
    ensures |Pieces(s, i, j)| <= 4
  {
    hide Piece;
    var p := (i + 3) / 4 * 4;
    if p < j {
      PiecesSplit(s, i, p, j);
      PiecesSplit(s, p, p + 1, j);
      PieceLength(s, p);
      assert |Pieces(s, p, p + 1)| == 0;
      PiecesLength(s, i, p);
      PiecesLength(s, p + 1, j);
    } else {
      PiecesLength(s, i, j);
    }
  }

  /** The texts agree outside the four characters from position w on. */
  predicate AgreeOutsideFourChars(t: string, u: string, w: nat) {
    |t| == |u| && forall p :: 0 <= p < |t| && !(w <= p < w + 4) ==> t[p] == u[p]
  }

  /** The first byte that a change of the characters from w on can reach. */
  function FirstByte(t: string, w: nat): nat
    requires ValidText(t)
  {
    |Bytes(t[..if w < |t| then w else |t|])|
  }

  /** Four consecutive characters, at any alignment and whether they are or become padding,
      reach at most four consecutive bytes. */
  lemma FourCharsReachFourBytes(t: string, u: string, w: nat)
    requires ValidText(t) && ValidText(u) && AgreeOutsideFourChars(t, u, w)
    ensures -4 <= |Bytes(t)| - |Bytes(u)| <= 4
    ensures |Bytes(t)| == |Bytes(u)| ==> AgreeOutsideFour(Bytes(t), Bytes(u), FirstByte(t, w))
  {
    hide Bytes, Pieces, ValidChar, AgreeOutsideFour;
    var n := |t|;
    var i, j := if w < n then w else n, if w + 5 < n then w + 5 else n;
    assert t[..n] == t && u[..n] == u;
    PiecesMakeBytes(t, i);
    ThreeParts(t, i, j);
    ThreeParts(u, i, j);
    SamePieces(t, u, 0, i);
    SamePieces(t, u, j, n);
    FivePieces(t, i, j);
    FivePieces(u, i, j);
    MiddleDiffers(Pieces(t, 0, i), Pieces(t, i, j), Pieces(u, i, j), Pieces(t, j, n));
  }

  lemma MiddleDiffers(a: seq<bv8>, m: seq<bv8>, m': seq<bv8>, z: seq<bv8>)
    requires |m| <= 4
    ensures |m| == |m'| ==> AgreeOutsideFour(a + m + z, a + m' + z, |a|)
  {}

  lemma ThreeParts(s: string, i: nat, j: nat)
    requires ValidText(s) && i <= j <= |s|
    ensures Bytes(s) == Pieces(s, 0, i) + Pieces(s, i, j) + Pieces(s, j, |s|)
  {
    hide Bytes, Pieces, ValidChar;
    assert s[..|s|] == s;
    PiecesMakeBytes(s, |s|);
    PiecesSplit(s, 0, i, |s|);
    PiecesSplit(s, i, j, |s|);
  }

  /** No change of four consecutive characters turns a generated text into one that is
      accepted with another secret. */
  lemma CorruptionIsRefused(hmac: int, key: seq<bv8>, u: string, w: nat)
    requires KeyLength(|key|) && AgreeOutsideFourChars(Protect(key), u, w)
    requires Check(hmac, u).Accepted?
    ensures Check(hmac, u).key == key
  {
    hide Encode, Bytes, Crc, Le4, TrailerMatches, Last32, ValidChar, AgreeOutsideFour, FirstByte;
    var m := key + Le4(Crc(0, key));
    var t := Encode(m);
    RoundTrip(m);
    FourCharsReachFourBytes(t, u, w);
    AppendedTrailerMatches(key);
    TrailerDetectsFourBytes(m, Bytes(u), FirstByte(t, w));
    assert m[..|m| - 4] == key;
  }
}
