/** Signed cursor tokens: base64url text around a signature and a JSON payload (database/pagination.py). */
module CursorCodec {
  import opened Wrappers

  type Byte = x: int | 0 <= x < 256
  type Bytes = seq<Byte>

  // ---------------------------------------------------------------- base64url (section 5 of RFC 4648)

  type Sextet = x: int | 0 <= x < 64

  function Letter(x: Sextet): char {
    if x < 26 then ('A' as int + x) as char
    else if x < 52 then ('a' as int + (x - 26)) as char
    else if x < 62 then ('0' as int + (x - 52)) as char
    else if x == 62 then '-'
    else '_'
  }

  /** The decoding table, which reads the letters of plain base64 too; `None` for a character outside both. */
  function SextetOf(c: char): Option<Sextet> {
    if 'A' <= c <= 'Z' then Some(c as int - 'A' as int)
    else if 'a' <= c <= 'z' then Some(c as int - 'a' as int + 26)
    else if '0' <= c <= '9' then Some(c as int - '0' as int + 52)
    else if c == '-' || c == '+' then Some(62)
    else if c == '_' || c == '/' then Some(63)
    else None
  }

  lemma {:induction false} LetterRoundTrip(x: Sextet)
    ensures SextetOf(Letter(x)) == Some(x) && Letter(x) != '='
  {
  }

  // The letters of one byte, of two and of three.
  function Pair(x: Byte): (r: string)
    ensures |r| == 2
  {
    [Letter(x / 4), Letter(x % 4 * 16)]
  }

  function Triple(x: Byte, y: Byte): (r: string)
    ensures |r| == 3
  {
    [Letter(x / 4), Letter(x % 4 * 16 + y / 16), Letter(y % 16 * 4)]
  }

  function Quad(x: Byte, y: Byte, z: Byte): (r: string)
    ensures |r| == 4
  {
    [Letter(x / 4), Letter(x % 4 * 16 + y / 16), Letter(y % 16 * 4 + z / 64), Letter(z % 64)]
  }

  /** The letters of an encoding: three bytes make four, a last one or two bytes make two or three. */
  function Body(bytes: Bytes): string {
    if |bytes| == 0 then ""
    else if |bytes| == 1 then Pair(bytes[0])
    else if |bytes| == 2 then Triple(bytes[0], bytes[1])
    else Quad(bytes[0], bytes[1], bytes[2]) + Body(bytes[3..])
  }

  function PadCount(n: nat): nat {
    match n
    case 0 => 0
    case 1 => 2
    case 2 => 1
    case _ => PadCount(n - 3)
  }

  function Pads(n: nat): string {
    if n == 0 then "" else "=" + Pads(n - 1)
  }

  /** `base64.urlsafe_b64encode`: the last group is padded with '=' to four characters. */
  function Encode(bytes: Bytes): string {
    Body(bytes) + Pads(PadCount(|bytes|))
  }

  /** Where the lenient decoder stands inside a group of four letters. */
  datatype Group = Group(position: nat, leftover: nat, pads: nat) {
    /** Bits carried over from the last letter: none, six, four or two. */
    predicate Valid() {
      match position
      case 0 => leftover == 0
      case 1 => leftover < 64
      case 2 => leftover < 16
      case 3 => leftover < 4
      case _ => false
    }
  }

  /** `base64.urlsafe_b64decode`: skips foreign characters, stops at a completed pad, refuses a cut-off group. */
  function Decode(text: string, group: Group): Option<Bytes>
    requires group.Valid()
  {
    if text == "" then (if group.position == 0 then Some([]) else None)
    else if text[0] == '=' then
      if group.position >= 2 && group.position + group.pads + 1 >= 4 then Some([])
      else Decode(text[1..], if group.position >= 2 then group.(pads := group.pads + 1) else group)
    else if SextetOf(text[0]).None? then Decode(text[1..], group)
    else
      var x := SextetOf(text[0]).value;
      match group.position
      case 0 => Decode(text[1..], Group(1, x, 0))
      case 1 => Prepend(group.leftover * 4 + x / 16, Decode(text[1..], Group(2, x % 16, 0)))
      case 2 => Prepend(group.leftover * 16 + x / 4, Decode(text[1..], Group(3, x % 4, 0)))
      case _ => Prepend(group.leftover * 64 + x, Decode(text[1..], Group(0, 0, 0)))
  }

  function Prepend(byte: Byte, rest: Option<Bytes>): Option<Bytes> {
    if rest.Some? then Some([byte] + rest.value) else None
  }

  const START := Group(0, 0, 0)

  lemma {:induction false} DecodeLetter(x: Sextet, rest: string, group: Group)
    requires group.Valid()
    ensures Decode([Letter(x)] + rest, group) ==
      match group.position
      case 0 => Decode(rest, Group(1, x, 0))
      case 1 => Prepend(group.leftover * 4 + x / 16, Decode(rest, Group(2, x % 16, 0)))
      case 2 => Prepend(group.leftover * 16 + x / 4, Decode(rest, Group(3, x % 4, 0)))
      case _ => Prepend(group.leftover * 64 + x, Decode(rest, Group(0, 0, 0)))
  {
    LetterRoundTrip(x);
    var text := [Letter(x)] + rest;
    assert text[0] == Letter(x) && text[1..] == rest;
    assert SextetOf(text[0]) == Some(x);
  }

  /** Decoding two letters in a row, from a group boundary. */
  lemma {:induction false} DecodeStart(a: Sextet, b: Sextet, rest: string)
    ensures Decode([Letter(a)] + ([Letter(b)] + rest), START)
      == Prepend(a * 4 + b / 16, Decode(rest, Group(2, b % 16, 0)))
  {
    DecodeLetter(a, [Letter(b)] + rest, START);
    DecodeLetter(b, rest, Group(1, a, 0));
  }

  lemma {:induction false} DecodePair(x: Byte)
    ensures Decode(Pair(x) + "==", START) == Some([x])
  {
    var a, b := x / 4, x % 4 * 16;
    assert Pair(x) + "==" == [Letter(a)] + ([Letter(b)] + "==");
    DecodeStart(a, b, "==");
    assert "=="[1..] == "=";
    assert b % 16 == 0 && Decode("==", Group(2, 0, 0)) == Some([]);
    assert [x] + [] == [x];
  }

  lemma {:induction false} DecodeTriple(x: Byte, y: Byte)
    ensures Decode(Triple(x, y) + "=", START) == Some([x, y])
  {
    var a, b, c := x / 4, x % 4 * 16 + y / 16, y % 16 * 4;
    assert Triple(x, y) + "=" == [Letter(a)] + ([Letter(b)] + ([Letter(c)] + "="));
    assert a * 4 + b / 16 == x && b % 16 * 16 + c / 4 == y && c % 4 == 0;
    DecodeStart(a, b, [Letter(c)] + "=");
    DecodeLetter(c, "=", Group(2, b % 16, 0));
    assert Decode("=", Group(3, 0, 0)) == Some([]);
    assert [x] + ([y] + []) == [x, y];
  }

  lemma {:induction false} QuadSplits(x: Byte, y: Byte, z: Byte)
    ensures var a, b, c, d := x / 4, x % 4 * 16 + y / 16, y % 16 * 4 + z / 64, z % 64;
      a * 4 + b / 16 == x && b % 16 * 16 + c / 4 == y && c % 4 * 64 + d == z
  {
  }

  lemma {:induction false} DecodeQuad(x: Byte, y: Byte, z: Byte, rest: string)
    ensures Decode(Quad(x, y, z) + rest, START) == Prepend(x, Prepend(y, Prepend(z, Decode(rest, START))))
  {
    var a, b, c, d := x / 4, x % 4 * 16 + y / 16, y % 16 * 4 + z / 64, z % 64;
    QuadSplits(x, y, z);
    assert Quad(x, y, z) + rest == [Letter(a)] + ([Letter(b)] + ([Letter(c)] + ([Letter(d)] + rest)));
    DecodeStart(a, b, [Letter(c)] + ([Letter(d)] + rest));
    DecodeLetter(c, [Letter(d)] + rest, Group(2, b % 16, 0));
    DecodeLetter(d, rest, Group(3, c % 4, 0));
  }

  lemma {:induction false} DecodeEncode(bytes: Bytes)
    ensures Decode(Encode(bytes), START) == Some(bytes)
  {
    assert Pads(1) == "=" && Pads(2) == "==";
    if |bytes| == 0 {
    } else if |bytes| == 1 {
      DecodePair(bytes[0]);
      assert bytes == [bytes[0]];
    } else if |bytes| == 2 {
      DecodeTriple(bytes[0], bytes[1]);
      assert bytes == [bytes[0], bytes[1]];
    } else {
      DecodeEncode(bytes[3..]);
      DecodeQuad(bytes[0], bytes[1], bytes[2], Encode(bytes[3..]));
      EncodeQuad(bytes);
    }
  }

  lemma {:induction false} EncodeQuad(bytes: Bytes)
    requires |bytes| >= 3
    ensures Encode(bytes) == Quad(bytes[0], bytes[1], bytes[2]) + Encode(bytes[3..])
    ensures Prepend(bytes[0], Prepend(bytes[1], Prepend(bytes[2], Some(bytes[3..])))) == Some(bytes)
  {
    assert bytes == [bytes[0]] + ([bytes[1]] + ([bytes[2]] + bytes[3..]));
  }

  // ---------------------------------------------------------------- padding

  /** `rstrip("=")`. */
  function StripPads(text: string): string {
    if text != "" && text[|text| - 1] == '=' then StripPads(text[..|text| - 1]) else text
  }

  /** `token + "=" * (-len(token) % 4)`. */
  function Repad(token: string): string {
    token + Pads((4 - |token| % 4) % 4)
  }

  lemma {:induction false} PadsEnd(n: nat)
    requires n > 0
    ensures Pads(n) == Pads(n - 1) + "="
  {
    if n > 1 {
      PadsEnd(n - 1);
    }
  }

  lemma {:induction false} StripPadsSplit(body: string, pads: nat)
    requires body == "" || body[|body| - 1] != '='
    ensures StripPads(body + Pads(pads)) == body
  {
    var text := body + Pads(pads);
    if pads > 0 {
      PadsEnd(pads);
      assert text[..|text| - 1] == body + Pads(pads - 1);
      StripPadsSplit(body, pads - 1);
    } else {
      assert text == body;
    }
  }

  lemma {:induction false} BodyEnd(bytes: Bytes)
    ensures Body(bytes) == "" || Body(bytes)[|Body(bytes)| - 1] != '='
  {
    if |bytes| >= 3 {
      BodyEnd(bytes[3..]);
      LetterRoundTrip(bytes[2] % 64);
    } else if |bytes| == 2 {
      LetterRoundTrip(bytes[1] % 16 * 4);
    } else if |bytes| == 1 {
      LetterRoundTrip(bytes[0] % 4 * 16);
    }
  }

  lemma {:induction false} FourMore(n: nat)
    ensures (4 - (n + 4) % 4) % 4 == (4 - n % 4) % 4
  {
  }

  lemma {:induction false} BodyLength(bytes: Bytes)
    ensures (4 - |Body(bytes)| % 4) % 4 == PadCount(|bytes|)
  {
    if |bytes| >= 3 {
      BodyLength(bytes[3..]);
      FourMore(|Body(bytes[3..])|);
      assert |Body(bytes)| == |Body(bytes[3..])| + 4;
      assert PadCount(|bytes|) == PadCount(|bytes[3..]|);
    }
  }

  lemma {:induction false} StripThenRepad(bytes: Bytes)
    ensures Repad(StripPads(Encode(bytes))) == Encode(bytes)
  {
    BodyEnd(bytes);
    BodyLength(bytes);
    StripPadsSplit(Body(bytes), PadCount(|bytes|));
  }

  // ---------------------------------------------------------------- JSON

  /** A finite IEEE 754 binary64 number. */
  datatype AnyDouble = Double(negative: bool, exponent: int, fraction: int)

  type Double = d: AnyDouble | 0 <= d.exponent < 2047 && 0 <= d.fraction < 0x10_0000_0000_0000
    witness Double(false, 0, 0)

  datatype Json =
    | JNull
    | JBool(b: bool)
    | JInt(i: int)
    | JFloat(d: Double)
    | JText(s: string)
    | JList(items: seq<Json>)
    | JObject(members: map<string, Json>)

  /** The integers that the JSON library writes. */
  predicate Fits(i: int) { -0x8000_0000_0000_0000 <= i < 0x1_0000_0000_0000_0000 }

  predicate AllFit(json: Json) {
    match json
    case JInt(i) => Fits(i)
    case JList(items) => forall i :: 0 <= i < |items| ==> AllFit(items[i])
    case JObject(members) => forall k <- members :: AllFit(members[k])
    case _ => true
  }

  /** Lists and mappings are nested no deeper than `n`. */
  predicate Shallow(json: Json, n: nat)
    decreases json
  {
    match json
    case JList(items) => n > 0 && forall i :: 0 <= i < |items| ==> Shallow(items[i], n - 1)
    case JObject(members) => n > 0 && forall k <- members :: Shallow(members[k], n - 1)
    case _ => true
  }

  // ---------------------------------------------------------------- signing

  datatype CodecError =
    | InvalidEncoding
    | InvalidCursor
    | InvalidSignature
    | InvalidPayload
    | UnsupportedVersion
    | InvalidQueryFingerprint

  const DIGEST_SIZE := 32

  /** The codec's secret with the primitives it calls: HMAC-SHA-256 and the JSON library, which nests so far. */
  datatype Codec = Codec(mac: Bytes -> Bytes, dumps: Json -> Bytes, loads: Bytes -> Option<Json>, nesting: nat) {
    /** What the JSON library writes without raising. */
    predicate Writable(json: Json) {
      AllFit(json) && Shallow(json, nesting)
    }

    /** What is assumed: digests of 32 bytes, and parsing inverts printing, to a non-empty text, where it prints. */
    ghost predicate Sound() {
      && (forall payload :: |mac(payload)| == DIGEST_SIZE)
      && (forall json :: Writable(json) ==> |dumps(json)| > 0 && loads(dumps(json)) == Some(json))
    }

    /** `_sign`; `None` where the JSON library raises. */
    function Sign(data: map<string, Json>): Option<string> {
      if !Writable(JObject(data)) then None
      else
        var payload := dumps(JObject(data));
        Some(StripPads(Encode(mac(payload) + payload)))
    }

    /** `_verify`. */
    function Verify(token: string): Result<map<string, Json>, CodecError> {
      var raw := if Ascii(Repad(token)) then Decode(Repad(token), START) else None;
      if raw.None? then Failure(InvalidEncoding)
      else if |raw.value| <= DIGEST_SIZE then Failure(InvalidCursor)
      else
        var signature, payload := raw.value[..DIGEST_SIZE], raw.value[DIGEST_SIZE..];
        if signature != mac(payload) then Failure(InvalidSignature)
        else
          match loads(payload)
          case Some(JObject(members)) => Success(members)
          case _ => Failure(InvalidPayload)
    }

    /** The payload of `encode_state`, from the serialized values on. */
    function StateData(state: TokenState): map<string, Json> {
      map["v" := JInt(2), "s" := JText(state.sortFingerprint),
          "q" := if state.queryFingerprint.Some? then JText(state.queryFingerprint.value) else JNull,
          "values" := JList(state.values)]
    }

    function EncodeState(state: TokenState): Option<string> {
      Sign(StateData(state))
    }

    /** `decode_state`. */
    function DecodeState(token: string): Result<TokenState, CodecError> {
      var data := Verify(token);
      if data.Failure? then Failure(data.error)
      else
        var get := (name: string) => if name in data.value then data.value[name] else JNull;
        if get("v") != JInt(2) then Failure(UnsupportedVersion)
        else if !get("s").JText? || !get("values").JList? then Failure(InvalidPayload)
        else if !get("q").JNull? && !get("q").JText? then Failure(InvalidQueryFingerprint)
        else Success(TokenState(get("s").s, get("values").items,
                                if get("q").JText? then Some(get("q").s) else None))
    }

    /** `encode`, the two-column form, from the serialized values on. */
    function EncodeLegacy(position: Json, tieBreaker: Json): Option<string> {
      Sign(map["v" := JInt(1), "p" := position, "t" := tieBreaker])
    }

    /** `decode`. */
    function DecodeLegacy(token: string): Result<(Json, Json), CodecError> {
      var data := Verify(token);
      if data.Failure? then Failure(data.error)
      else if "v" !in data.value || data.value["v"] != JInt(1) then Failure(UnsupportedVersion)
      else if "p" !in data.value || "t" !in data.value then Failure(InvalidPayload)
      else Success((data.value["p"], data.value["t"]))
    }
  }

  datatype TokenState = TokenState(sortFingerprint: string, values: seq<Json>, queryFingerprint: Option<string>)

  // ---------------------------------------------------------------- tokens are ASCII

  predicate Ascii(s: string) {
    forall c <- s :: c as int < 128
  }

  lemma {:induction false} AsciiBody(bytes: Bytes)
    ensures Ascii(Body(bytes))
  {
    if |bytes| >= 3 {
      AsciiBody(bytes[3..]);
    }
  }

  lemma {:induction false} AsciiPads(n: nat)
    ensures Ascii(Pads(n))
  {
    if n > 0 {
      AsciiPads(n - 1);
    }
  }

  /** Encoded bytes survive the check that comes before they are decoded. */
  lemma {:induction false} AsciiEncode(bytes: Bytes)
    ensures Ascii(Encode(bytes))
  {
    AsciiBody(bytes);
    AsciiPads(PadCount(|bytes|));
  }

  // ---------------------------------------------------------------- round trips

  /** Verifying a signed token gives back the data, whatever the length of the payload. */
  lemma {:induction false} VerifySign(codec: Codec, data: map<string, Json>)
    requires codec.Sound() && codec.Writable(JObject(data))
    ensures codec.Sign(data).Some? && codec.Verify(codec.Sign(data).value) == Success(data)
  {
    var payload := codec.dumps(JObject(data));
    var raw := codec.mac(payload) + payload;
    StripThenRepad(raw);
    DecodeEncode(raw);
    AsciiEncode(raw);
    assert raw[..DIGEST_SIZE] == codec.mac(payload) && raw[DIGEST_SIZE..] == payload;
    assert codec.loads(payload) == Some(JObject(data));
  }

  /** A cursor of values that fit and leave two levels of nesting for the payload can be written. */
  lemma {:induction false} StateWritable(codec: Codec, state: TokenState)
    ensures codec.Writable(JObject(codec.StateData(state))) <==>
      codec.nesting >= 2 && forall i :: 0 <= i < |state.values| ==>
        AllFit(state.values[i]) && Shallow(state.values[i], codec.nesting - 2)
  {
    var data := codec.StateData(state);
    assert data["values"] == JList(state.values);
    assert AllFit(JObject(data)) <==> AllFit(JList(state.values)) by {
      assert forall k <- data :: k != "values" ==> AllFit(data[k]);
    }
    if codec.nesting >= 1 {
      assert Shallow(JObject(data), codec.nesting) <==> Shallow(JList(state.values), codec.nesting - 1) by {
        assert forall k <- data :: k != "values" ==> Shallow(data[k], codec.nesting - 1);
      }
    }
  }

  /** `decode_state` inverts `encode_state` wherever that does not raise. */
  lemma {:induction false} StateRoundTrip(codec: Codec, state: TokenState)
    requires codec.Sound()
    ensures codec.EncodeState(state).Some? <==>
      codec.nesting >= 2 && forall i :: 0 <= i < |state.values| ==>
        AllFit(state.values[i]) && Shallow(state.values[i], codec.nesting - 2)
    ensures codec.EncodeState(state).Some? ==> codec.DecodeState(codec.EncodeState(state).value) == Success(state)
  {
    StateWritable(codec, state);
    if codec.EncodeState(state).Some? {
      VerifySign(codec, codec.StateData(state));
    }
  }

  /** And `decode` inverts `encode`. */
  lemma {:induction false} LegacyRoundTrip(codec: Codec, position: Json, tieBreaker: Json)
    requires codec.Sound() && codec.EncodeLegacy(position, tieBreaker).Some?
    ensures codec.DecodeLegacy(codec.EncodeLegacy(position, tieBreaker).value) == Success((position, tieBreaker))
  {
    VerifySign(codec, map["v" := JInt(1), "p" := position, "t" := tieBreaker]);
  }

  /** Neither decoder reads the other's tokens. */
  lemma {:induction false} VersionsDoNotMix(codec: Codec, state: TokenState, position: Json, tieBreaker: Json)
    requires codec.Sound()
    ensures codec.EncodeLegacy(position, tieBreaker).Some? ==>
      codec.DecodeState(codec.EncodeLegacy(position, tieBreaker).value) == Failure(UnsupportedVersion)
    ensures codec.EncodeState(state).Some? ==>
      codec.DecodeLegacy(codec.EncodeState(state).value) == Failure(UnsupportedVersion)
  {
    if codec.EncodeLegacy(position, tieBreaker).Some? {
      VerifySign(codec, map["v" := JInt(1), "p" := position, "t" := tieBreaker]);
    }
    if codec.EncodeState(state).Some? {
      VerifySign(codec, codec.StateData(state));
    }
  }
}
