// Delegation tokens for MCP tools (core/mcp_task_token.py): base64url without padding (sections 3.2,
// 4 and 5 of RFC 4648), minting and verifying.  The MAC and the JSON codec are parameters.
module TaskToken {
  import opened Wrappers
  import opened Text

  newtype byte = x: int | 0 <= x < 256
  type Bytes = seq<byte>

  // ---------------------------------------------------------------------------------------------
  // base64
  // ---------------------------------------------------------------------------------------------

  // Sixty-four characters; `index` is None for the characters the decoder skips.
  datatype Alphabet = Alphabet(sextet: nat -> char, index: char -> Option<nat>) {
    ghost predicate Lawful() {
      && (forall v :: 0 <= v < 64 ==> index(sextet(v)) == Some(v) && sextet(v) != '=')
      && (forall c :: index(c).Some? ==> index(c).value < 64)
    }
  }

  function UrlSextet(n: nat): char {
    if n < 26 then 'A' + n as char
    else if n < 52 then 'a' + (n - 26) as char
    else if n < 62 then '0' + (n - 52) as char
    else if n == 62 then '-'
    else '_'
  }

  // The decoder also takes the standard alphabet's last two characters.
  function UrlIndex(c: char): Option<nat> {
    if 'A' <= c <= 'Z' then Some((c - 'A') as nat)
    else if 'a' <= c <= 'z' then Some((c - 'a') as nat + 26)
    else if '0' <= c <= '9' then Some((c - '0') as nat + 52)
    else if c == '-' || c == '+' then Some(62)
    else if c == '_' || c == '/' then Some(63)
    else None
  }

  const URL_SAFE := Alphabet(UrlSextet, UrlIndex)

  lemma UrlRoundTrip(v: nat)
    requires v < 64
    ensures UrlIndex(UrlSextet(v)) == Some(v) && UrlSextet(v) != '='
  {
  }

  // The alphabet of section 5 of RFC 4648.
  lemma UrlAlphabet(v: nat)
    requires v < 64
    ensures v < 26 ==> UrlSextet(v) == "ABCDEFGHIJKLMNOPQRSTUVWXYZ"[v]
    ensures 26 <= v < 52 ==> UrlSextet(v) == "abcdefghijklmnopqrstuvwxyz"[v - 26]
    ensures v >= 52 ==> UrlSextet(v) == "0123456789-_"[v - 52]
  {
    if v < 26 {
      assert "ABCDEFGHIJKLMNOPQRSTUVWXYZ"[v] as int == 65 + v;
    } else if v < 52 {
      assert "abcdefghijklmnopqrstuvwxyz"[v - 26] as int == 97 + (v - 26);
    }
  }

  lemma UrlIndexBounded(c: char)
    ensures UrlIndex(c).Some? ==> UrlIndex(c).value < 64
  {
  }

  // The decoder reads these characters and two more.
  lemma UrlIndexExactly(c: char, v: nat)
    requires v < 64
    ensures UrlIndex(c) == Some(v) <==> c == UrlSextet(v) || (c == '+' && v == 62) || (c == '/' && v == 63)
  {
  }

  lemma UrlSafeIsLawful()
    ensures URL_SAFE.Lawful()
  {
    forall v | 0 <= v < 64 { UrlRoundTrip(v); }
    forall c: char { UrlIndexBounded(c); }
  }

  // Encoding with the padding stripped: three bytes make four characters, a rest of one or two
  // bytes makes two or three.
  function Encode(al: Alphabet, data: Bytes): string {
    if |data| >= 3 then
      Quad(al, data[0] as nat, data[1] as nat, data[2] as nat) + Encode(al, data[3..])
    else if |data| == 2 then
      var a, b := data[0] as nat, data[1] as nat;
      [al.sextet(a / 4), al.sextet(a % 4 * 16 + b / 16), al.sextet(b % 16 * 4)]
    else if |data| == 1 then
      var a := data[0] as nat;
      [al.sextet(a / 4), al.sextet(a % 4 * 16)]
    else ""
  }

  function Quad(al: Alphabet, a: nat, b: nat, c: nat): string {
    [al.sextet(a / 4), al.sextet(a % 4 * 16 + b / 16), al.sextet(b % 16 * 4 + c / 64), al.sextet(c % 64)]
  }

  // The decoder's state: characters of the current group seen, bits left over, "=" seen in a row.
  // It skips characters outside the alphabet and stops at a complete padding.
  function DecodeFrom(al: Alphabet, s: string, seen: nat, left: nat, pads: nat): Option<Bytes>
    decreases |s|
  {
    if s == "" then (if seen == 0 then Some([]) else None)
    else if s[0] == '=' then
      (if seen >= 2 && seen + pads + 1 >= 4 then Some([])
       else DecodeFrom(al, s[1..], seen, left, if seen >= 2 then pads + 1 else pads))
    else
      match al.index(s[0])
      case None => DecodeFrom(al, s[1..], seen, left, pads)
      case Some(v) =>
        if seen == 0 then DecodeFrom(al, s[1..], 1, v, 0)
        else if seen == 1 then Prepend(left * 4 + v / 16, DecodeFrom(al, s[1..], 2, v % 16, 0))
        else if seen == 2 then Prepend(left * 16 + v / 4, DecodeFrom(al, s[1..], 3, v % 4, 0))
        else Prepend(left * 64 + v, DecodeFrom(al, s[1..], 0, 0, 0))
  }

  // The lowest eight bits of n in front.
  function Prepend(n: nat, r: Option<Bytes>): Option<Bytes> {
    match r
    case Some(rest) => Some([(n % 256) as byte] + rest)
    case None => None
  }

  // "=" * (-len(s) % 4)
  function Padding(n: nat): string {
    if n % 4 == 0 then "" else if n % 4 == 1 then "===" else if n % 4 == 2 then "==" else "="
  }

  // A character outside ASCII raises.
  function DecodePadded(al: Alphabet, s: string): Option<Bytes> {
    if exists k :: 0 <= k < |s| && s[k] as int >= 128 then None else DecodeFrom(al, s + Padding(|s|), 0, 0, 0)
  }

  // As many "=" as make the length a multiple of four.
  lemma PaddingExact(n: nat)
    ensures |Padding(n)| < 4 && (n + |Padding(n)|) % 4 == 0 && Padding(n) == "==="[..|Padding(n)|]
  {
    if n % 4 == 1 {
      assert "==="[..3] == "===";
    } else if n % 4 == 2 {
      assert "==="[..2] == "==";
    } else if n % 4 == 3 {
      assert "==="[..1] == "=";
    }
  }

  // The text without the characters the decoder does not know.
  function Known(al: Alphabet, s: string): string {
    if s == "" then "" else (if s[0] == '=' || al.index(s[0]).Some? then [s[0]] else "") + Known(al, s[1..])
  }

  lemma {:induction false} UnknownSkipped(al: Alphabet, s: string, seen: nat, left: nat, pads: nat)
    ensures DecodeFrom(al, s, seen, left, pads) == DecodeFrom(al, Known(al, s), seen, left, pads)
    decreases |s|
  {
    if s != "" {
      var rest := s[1..];
      if s[0] == '=' || al.index(s[0]).Some? {
        assert Known(al, s)[0] == s[0] && Known(al, s)[1..] == Known(al, rest);
      }
      if s[0] == '=' {
        UnknownSkipped(al, rest, seen, left, if seen >= 2 then pads + 1 else pads);
      } else if al.index(s[0]).None? {
        assert "" + Known(al, rest) == Known(al, rest);
        UnknownSkipped(al, rest, seen, left, pads);
      } else {
        var v := al.index(s[0]).value;
        UnknownSkipped(al, rest, 1, v, 0);
        UnknownSkipped(al, rest, 2, v % 16, 0);
        UnknownSkipped(al, rest, 3, v % 4, 0);
        UnknownSkipped(al, rest, 0, 0, 0);
      }
    }
  }

  // Any text: outside ASCII it raises; otherwise characters not in the alphabet are skipped, after the
  // padding has been put back by the length of the whole text.
  lemma DecodedAsKnown(al: Alphabet, s: string)
    ensures (exists k :: 0 <= k < |s| && s[k] as int >= 128) ==> DecodePadded(al, s).None?
    ensures (forall k :: 0 <= k < |s| ==> s[k] as int < 128) ==>
              DecodePadded(al, s) == DecodeFrom(al, Known(al, s + Padding(|s|)), 0, 0, 0)
  {
    UnknownSkipped(al, s + Padding(|s|), 0, 0, 0);
  }

  lemma DecodeOne(al: Alphabet, v: nat, rest: string, seen: nat, left: nat)
    requires al.Lawful() && v < 64
    ensures DecodeFrom(al, [al.sextet(v)] + rest, seen, left, 0) ==
            (if seen == 0 then DecodeFrom(al, rest, 1, v, 0)
             else if seen == 1 then Prepend(left * 4 + v / 16, DecodeFrom(al, rest, 2, v % 16, 0))
             else if seen == 2 then Prepend(left * 16 + v / 4, DecodeFrom(al, rest, 3, v % 4, 0))
             else Prepend(left * 64 + v, DecodeFrom(al, rest, 0, 0, 0)))
  {
  }

  // A group of four.
  lemma DecodeFour(al: Alphabet, p: nat, q: nat, r: nat, t: nat, rest: string)
    requires al.Lawful() && p < 64 && q < 64 && r < 64 && t < 64
    ensures DecodeFrom(al, [al.sextet(p), al.sextet(q), al.sextet(r), al.sextet(t)] + rest, 0, 0, 0)
            == Prepend(p * 4 + q / 16, Prepend(q % 16 * 16 + r / 4, Prepend(r % 4 * 64 + t, DecodeFrom(al, rest, 0, 0, 0))))
  {
    var s3 := [al.sextet(t)] + rest;
    var s2 := [al.sextet(r)] + s3;
    var s1 := [al.sextet(q)] + s2;
    assert [al.sextet(p), al.sextet(q), al.sextet(r), al.sextet(t)] + rest == [al.sextet(p)] + s1;
    DecodeOne(al, p, s1, 0, 0);
    DecodeOne(al, q, s2, 1, p);
    DecodeOne(al, r, s3, 2, q % 16);
    DecodeOne(al, t, rest, 3, r % 4);
  }

  // Splitting three bytes into sextets and putting them together again.
  lemma Regroup(x: nat, y: nat, z: nat)
    requires x < 256 && y < 256 && z < 256
    ensures var p, q, r, t := x / 4, x % 4 * 16 + y / 16, y % 16 * 4 + z / 64, z % 64;
            && p < 64 && q < 64 && r < 64 && t < 64
            && p * 4 + q / 16 == x && q % 16 * 16 + r / 4 == y && r % 4 * 64 + t == z
  {
  }

  lemma DecodeQuad(al: Alphabet, a: byte, b: byte, c: byte, rest: string)
    requires al.Lawful()
    ensures DecodeFrom(al, Quad(al, a as nat, b as nat, c as nat) + rest, 0, 0, 0)
            == Prepend(a as nat, Prepend(b as nat, Prepend(c as nat, DecodeFrom(al, rest, 0, 0, 0))))
  {
    var x, y, z := a as nat, b as nat, c as nat;
    Regroup(x, y, z);
    DecodeFour(al, x / 4, x % 4 * 16 + y / 16, y % 16 * 4 + z / 64, z % 64, rest);
  }

  lemma DecodeThree(al: Alphabet, p: nat, q: nat, r: nat)
    requires al.Lawful() && p < 64 && q < 64 && r < 64
    ensures DecodeFrom(al, [al.sextet(p), al.sextet(q), al.sextet(r)] + "=", 0, 0, 0)
            == Prepend(p * 4 + q / 16, Prepend(q % 16 * 16 + r / 4, Some([])))
  {
    var s2 := [al.sextet(r)] + "=";
    var s1 := [al.sextet(q)] + s2;
    assert [al.sextet(p), al.sextet(q), al.sextet(r)] + "=" == [al.sextet(p)] + s1;
    DecodeOne(al, p, s1, 0, 0);
    DecodeOne(al, q, s2, 1, p);
    DecodeOne(al, r, "=", 2, q % 16);
    assert DecodeFrom(al, "=", 3, r % 4, 0) == Some([]);
  }

  lemma DecodeTwo(al: Alphabet, a: byte, b: byte)
    requires al.Lawful()
    ensures DecodeFrom(al, Encode(al, [a, b]) + "=", 0, 0, 0) == Some([a, b])
  {
    var x, y := a as nat, b as nat;
    Regroup(x, y, 0);
    DecodeThree(al, x / 4, x % 4 * 16 + y / 16, y % 16 * 4);
    PrependByte(b, []);
    PrependByte(a, [b]);
    assert [b] + [] == [b] && [a] + [b] == [a, b];
  }

  lemma PrependByte(b: byte, rest: Bytes)
    ensures Prepend(b as nat, Some(rest)) == Some([b] + rest)
  {
  }

  lemma DecodeSingle(al: Alphabet, a: byte)
    requires al.Lawful()
    ensures DecodeFrom(al, Encode(al, [a]) + "==", 0, 0, 0) == Some([a])
  {
    var x := a as nat;
    var p, q := x / 4, x % 4 * 16;
    Regroup(x, 0, 0);
    var s1 := [al.sextet(q)] + "==";
    assert Encode(al, [a]) + "==" == [al.sextet(p)] + s1;
    DecodeOne(al, p, s1, 0, 0);
    DecodeOne(al, q, "==", 1, p);
    assert "=="[1..] == "=";
    assert DecodeFrom(al, "=", 2, q % 16, 1) == Some([]);
    assert DecodeFrom(al, "==", 2, q % 16, 0) == Some([]);
    assert [x as byte] + [] == [a];
  }

  lemma {:induction false} EncodedLength(al: Alphabet, data: Bytes)
    ensures |Encode(al, data)| == |data| / 3 * 4 + if |data| % 3 == 0 then 0 else |data| % 3 + 1
  {
    if |data| >= 3 { EncodedLength(al, data[3..]); }
  }

  lemma {:induction false} EncodedChars(al: Alphabet, data: Bytes, k: nat) returns (v: nat)
    requires k < |Encode(al, data)|
    ensures v < 64 && Encode(al, data)[k] == al.sextet(v)
  {
    if |data| >= 3 {
      var x, y, z := data[0] as nat, data[1] as nat, data[2] as nat;
      Regroup(x, y, z);
      if k >= 4 {
        v := EncodedChars(al, data[3..], k - 4);
      } else {
        v := if k == 0 then x / 4 else if k == 1 then x % 4 * 16 + y / 16 else if k == 2 then y % 16 * 4 + z / 64 else z % 64;
      }
    } else {
      var x, y := data[0] as nat, if |data| == 2 then data[1] as nat else 0;
      Regroup(x, y, 0);
      v := if k == 0 then x / 4 else if k == 1 then x % 4 * 16 + y / 16 else y % 16 * 4;
    }
  }

  // The number of 24 bits that three bytes make, and that four sextets make.
  function Bits(a: nat, b: nat, c: nat): nat { a * 65536 + b * 256 + c }

  function Sextets(p: nat, q: nat, r: nat, t: nat): nat { p * 262144 + q * 4096 + r * 64 + t }

  // Section 4 of RFC 4648, group by group: the k-th three bytes and the k-th four characters are the same
  // number of 24 bits.
  lemma {:induction false} EncodedGroup(al: Alphabet, data: Bytes, k: nat) returns (p: nat, q: nat, r: nat, t: nat)
    requires 3 * k + 3 <= |data|
    ensures p < 64 && q < 64 && r < 64 && t < 64
    ensures 4 * k + 4 <= |Encode(al, data)|
    ensures Encode(al, data)[4 * k..4 * k + 4] == [al.sextet(p), al.sextet(q), al.sextet(r), al.sextet(t)]
    ensures Sextets(p, q, r, t) == Bits(data[3 * k] as nat, data[3 * k + 1] as nat, data[3 * k + 2] as nat)
  {
    var s := Encode(al, data);
    if k == 0 {
      var x, y, z := data[0] as nat, data[1] as nat, data[2] as nat;
      p, q, r, t := x / 4, x % 4 * 16 + y / 16, y % 16 * 4 + z / 64, z % 64;
      assert s[..4] == Quad(al, x, y, z);
    } else {
      p, q, r, t := EncodedGroup(al, data[3..], k - 1);
      assert s[4..] == Encode(al, data[3..]);
      assert s[4 * k..4 * k + 4] == s[4..][4 * (k - 1)..4 * (k - 1) + 4];
    }
  }

  // A rest of one or two bytes is filled up with zero bits, and the characters that hold nothing else are
  // left out.
  lemma {:induction false} EncodedRest(al: Alphabet, data: Bytes) returns (p: nat, q: nat, r: nat)
    requires |data| % 3 != 0
    ensures var n, s, two := |data| / 3, Encode(al, data), |data| % 3 == 2;
            && p < 64 && q < 64 && r < 64 && 4 * n <= |s|
            && Sextets(p, q, r, 0) == Bits(data[3 * n] as nat, if two then data[3 * n + 1] as nat else 0, 0)
            && s[4 * n..] == [al.sextet(p), al.sextet(q)] + if two then [al.sextet(r)] else []
    decreases |data|
  {
    if |data| < 3 {
      var x, y := data[0] as nat, if |data| == 2 then data[1] as nat else 0;
      p, q, r := x / 4, x % 4 * 16 + y / 16, y % 16 * 4;
    } else {
      p, q, r := EncodedRest(al, data[3..]);
      var n := |data| / 3;
      assert Encode(al, data)[4..] == Encode(al, data[3..]);
      assert Encode(al, data)[4 * n..] == Encode(al, data[3..])[4 * (n - 1)..];
    }
  }

  lemma DecodeShort(al: Alphabet, data: Bytes, pad: string)
    requires al.Lawful() && |data| < 3 && pad == if |data| == 0 then "" else if |data| == 1 then "==" else "="
    ensures DecodeFrom(al, Encode(al, data) + pad, 0, 0, 0) == Some(data)
  {
    if |data| == 0 {
      assert Encode(al, data) + pad == "" && data == [];
    } else if |data| == 1 {
      assert data == [data[0]];
      DecodeSingle(al, data[0]);
    } else {
      assert data == [data[0], data[1]];
      DecodeTwo(al, data[0], data[1]);
    }
  }

  lemma {:induction false} DecodeInvertsGroups(al: Alphabet, data: Bytes, pad: string)
    requires al.Lawful() && pad == if |data| % 3 == 0 then "" else if |data| % 3 == 1 then "==" else "="
    ensures DecodeFrom(al, Encode(al, data) + pad, 0, 0, 0) == Some(data)
    decreases |data|
  {
    if |data| < 3 {
      DecodeShort(al, data, pad);
    } else {
      DecodeInvertsGroups(al, data[3..], pad);
      DecodeQuadFirst(al, data[0], data[1], data[2], data[3..], pad);
      FirstThree(data);
    }
  }

  lemma FirstThree(data: Bytes)
    requires |data| >= 3
    ensures [data[0], data[1], data[2]] + data[3..] == data
  {
  }

  lemma DecodeQuadFirst(al: Alphabet, a: byte, b: byte, c: byte, rest: Bytes, pad: string)
    requires al.Lawful() && DecodeFrom(al, Encode(al, rest) + pad, 0, 0, 0) == Some(rest)
    ensures DecodeFrom(al, (Quad(al, a as nat, b as nat, c as nat) + Encode(al, rest)) + pad, 0, 0, 0)
            == Some([a, b, c] + rest)
  {
    var q, code := Quad(al, a as nat, b as nat, c as nat), Encode(al, rest);
    StringAssoc(q, code, pad);
    DecodeQuad(al, a, b, c, code + pad);
    PrependByte(c, rest);
    PrependByte(b, [c] + rest);
    PrependByte(a, [b] + ([c] + rest));
    assert [a] + ([b] + ([c] + rest)) == [a, b, c] + rest;
  }

  lemma StringAssoc(a: string, b: string, c: string)
    ensures (a + b) + c == a + (b + c)
  {
  }

  // The padding put back is the padding stripped.
  lemma {:induction false} PaddingRestored(al: Alphabet, data: Bytes)
    ensures Padding(|Encode(al, data)|) == if |data| % 3 == 0 then "" else if |data| % 3 == 1 then "==" else "="
  {
    EncodedLength(al, data);
    PaddingOf(|data| / 3, |data| % 3);
  }

  lemma PaddingOf(q: nat, r: nat)
    requires r < 3
    ensures Padding(q * 4 + if r == 0 then 0 else r + 1) == if r == 0 then "" else if r == 1 then "==" else "="
  {
  }

  lemma PaddedDecode(al: Alphabet, s: string, pad: string, data: Bytes)
    requires pad == Padding(|s|) && DecodeFrom(al, s + pad, 0, 0, 0) == Some(data)
    requires forall k :: 0 <= k < |s| ==> s[k] as int < 128
    ensures DecodePadded(al, s) == Some(data)
  {
  }

  // Main result on the encoding: with the padding stripped and put back from the length modulo 4,
  // decoding inverts encoding, for every byte string and every lawful ASCII alphabet.
  lemma DecodeInvertsEncode(al: Alphabet, data: Bytes)
    requires al.Lawful() && forall v :: 0 <= v < 64 ==> al.sextet(v) as int < 128
    ensures DecodePadded(al, Encode(al, data)) == Some(data)
  {
    var pad := Padding(|Encode(al, data)|);
    PaddingRestored(al, data);
    EncodedIsAscii(al, data);
    DecodeInvertsGroups(al, data, pad);
    PaddedDecode(al, Encode(al, data), pad, data);
  }

  lemma EncodedIsAscii(al: Alphabet, data: Bytes)
    requires forall v :: 0 <= v < 64 ==> al.sextet(v) as int < 128
    ensures forall k :: 0 <= k < |Encode(al, data)| ==> Encode(al, data)[k] as int < 128
  {
    var s := Encode(al, data);
    forall k | 0 <= k < |s|
      ensures s[k] as int < 128
    {
      var v := EncodedChars(al, data, k);
    }
  }

  // ---------------------------------------------------------------------------------------------
  // Tokens
  // ---------------------------------------------------------------------------------------------

  datatype Fields = Fields(task: string, tool: string, node: string, account: string)

  datatype Payload = Payload(version: int, tid: string, tool: string, nid: string, sub: string, iat: int, exp: int)

  // What parsing a body gives: the keys that are read, absent ones as None.
  datatype Parsed =
    | NotJson
    | NotObject
    | Claims(version: Option<int>, exp: Option<int>, tid: Option<string>, tool: Option<string>, nid: Option<string>, sub: Option<string>)

  datatype Verdict =
    | Accepted | MissingToken | Malformed | DecodeError | BadSignature | BadJson | BadPayload | BadVersion
    | Expired | TaskMismatch | ToolMismatch | NodeMismatch | AccountMismatch

  type Mac = Bytes -> Bytes

  function ClaimsOf(p: Payload): Parsed {
    Claims(Some(p.version), Some(p.exp), Some(p.tid), Some(p.tool), Some(p.nid), Some(p.sub))
  }

  // The JSON codec: how payloads are written and bodies are read.
  datatype Codec = Codec(render: Payload -> Bytes, parse: Bytes -> Parsed) {
    ghost predicate Lawful() {
      forall p :: parse(render(p)) == ClaimsOf(p)
    }
  }

  const TOKEN_VERSION := 1

  // replace("mcp:", "", 1)
  function DropFirstMcp(s: string): string {
    if |s| < 4 then s
    else if s[..4] == "mcp:" then s[4..]
    else [s[0]] + DropFirstMcp(s[1..])
  }

  predicate McpAt(s: string, k: nat) {
    k + 4 <= |s| && s[k..k + 4] == "mcp:"
  }

  // The first occurrence is cut out, wherever it stands; without one nothing changes.
  lemma {:induction false} DropFirstMcpExact(s: string, k: nat)
    requires forall j: nat :: j < k ==> !McpAt(s, j)
    ensures McpAt(s, k) ==> DropFirstMcp(s) == s[..k] + s[k + 4..]
    ensures k >= |s| ==> DropFirstMcp(s) == s
  {
    if |s| >= 4 {
      assert s[0..4] == s[..4];
      if k > 0 {
        assert !McpAt(s, 0);
        forall j: nat | j < k - 1
          ensures !McpAt(s[1..], j)
        {
          assert !McpAt(s, j + 1);
          McpShift(s, j);
        }
        DropFirstMcpExact(s[1..], k - 1);
        McpShift(s, k - 1);
        if McpAt(s, k) { CutShift(s, k); }
        assert s == [s[0]] + s[1..];
      }
    }
  }

  lemma McpShift(s: string, j: nat)
    requires s != ""
    ensures McpAt(s[1..], j) <==> McpAt(s, j + 1)
  {
  }

  lemma CutShift(s: string, k: nat)
    requires 0 < k && k + 4 <= |s|
    ensures [s[0]] + (s[1..][..k - 1] + s[1..][k + 3..]) == s[..k] + s[k + 4..]
  {
  }

  // How bytes are put into text and taken out again, and how text is stripped.
  datatype TextForm = TextForm(encode: Bytes -> string, decode: string -> Option<Bytes>, strip: string -> string) {
    ghost predicate Lawful() {
      && (forall d :: decode(encode(d)) == Some(d) && NoDot(encode(d)))
      && (forall d, e :: strip(encode(d) + "." + encode(e)) == encode(d) + "." + encode(e))
      && (forall s :: strip(strip(s)) == strip(s))
    }
  }

  const STANDARD := TextForm(d => Encode(URL_SAFE, d), s => DecodePadded(URL_SAFE, s), Strip)

  predicate NoDot(s: string) {
    forall k :: 0 <= k < |s| ==> s[k] != '.'
  }

  // The fields as they are written and compared; the task id is taken as it is.
  function Normalized(tf: TextForm, f: Fields): Fields {
    Fields(f.task, tf.strip(DropFirstMcp(tf.strip(f.tool))), tf.strip(f.node), tf.strip(f.account))
  }

  function Lifetime(ttl: int): int {
    var capped := if ttl < 600 then ttl else 600;
    if capped > 30 then capped else 30
  }

  function PayloadOf(f: Fields, now: int, ttl: int): Payload {
    Payload(TOKEN_VERSION, f.task, f.tool, f.node, f.account, now, now + Lifetime(ttl))
  }

  function Join(tf: TextForm, body: Bytes, sig: Bytes): string {
    tf.encode(body) + "." + tf.encode(sig)
  }

  function Mint(tf: TextForm, codec: Codec, mac: Mac, f: Fields, now: int, ttl: int): string {
    var body := codec.render(PayloadOf(Normalized(tf, f), now, ttl));
    Join(tf, body, mac(body))
  }

  function FirstDot(s: string): (k: nat)
    ensures k <= |s| && (k < |s| ==> s[k] == '.') && forall j :: 0 <= j < k ==> s[j] != '.'
  {
    if s == "" || s[0] == '.' then 0 else 1 + FirstDot(s[1..])
  }

  // Body and signature of a token; None if it cannot be decoded.
  function Parts(tf: TextForm, t: string): Option<(Bytes, Bytes)>
    requires FirstDot(t) < |t|
  {
    match (tf.decode(t[..FirstDot(t)]), tf.decode(t[FirstDot(t) + 1..]))
    case (Some(body), Some(sig)) => Some((body, sig))
    case _ => None
  }

  function Verify(tf: TextForm, codec: Codec, mac: Mac, token: string, f: Fields, now: int): Verdict {
    if token == "" then MissingToken
    else
      var t := tf.strip(token);
      if FirstDot(t) == |t| then Malformed
      else
        match Parts(tf, t)
        case None => DecodeError
        case Some((body, sig)) =>
          if sig != mac(body) then BadSignature else Check(codec.parse(body), Normalized(tf, f), now, tf.strip)
  }

  function OrEmpty(v: Option<string>): string { if v.Some? then v.value else "" }

  function OrZero(v: Option<int>): int { if v.Some? then v.value else 0 }

  // The checks on the body, against normalised fields.
  function Check(p: Parsed, want: Fields, now: int, strip: string -> string): Verdict {
    match p
    case NotJson => BadJson
    case NotObject => BadPayload
    case Claims(version, exp, tid, tool, nid, sub) =>
      if OrZero(version) != TOKEN_VERSION then BadVersion
      else if OrZero(exp) < now then Expired
      else if OrEmpty(tid) != want.task then TaskMismatch
      else if strip(OrEmpty(tool)) != want.tool then ToolMismatch
      else if strip(OrEmpty(nid)) != want.node then NodeMismatch
      else if strip(OrEmpty(sub)) != want.account then AccountMismatch
      else Accepted
  }

  lemma UrlCharIsPlain(v: nat)
    ensures UrlSextet(v) != '.' && !IsSpace(UrlSextet(v)) && UrlSextet(v) as int < 128
  {
  }

  // What tokens need of an alphabet.
  ghost predicate TokenAlphabet(al: Alphabet, space: CharClass) {
    && al.Lawful() && !space('.')
    && forall v :: 0 <= v < 64 ==> al.sextet(v) as int < 128 && al.sextet(v) != '.' && !space(al.sextet(v))
  }

  lemma UrlSafeIsTokenAlphabet()
    ensures TokenAlphabet(URL_SAFE, IsSpace)
  {
    UrlSafeIsLawful();
    forall v | 0 <= v < 64
      ensures URL_SAFE.sextet(v) as int < 128 && URL_SAFE.sextet(v) != '.' && !IsSpace(URL_SAFE.sextet(v))
    {
      UrlCharIsPlain(v);
    }
  }

  lemma EncodedIsPlain(al: Alphabet, space: CharClass, data: Bytes)
    requires TokenAlphabet(al, space)
    ensures NoDot(Encode(al, data)) && Without(space, Encode(al, data))
  {
    var s := Encode(al, data);
    forall k | 0 <= k < |s|
      ensures s[k] != '.' && !space(s[k])
    {
      var v := EncodedChars(al, data, k);
    }
  }

  lemma DottedStrips(space: CharClass, a: string, b: string)
    requires Without(space, a) && Without(space, b) && !space('.')
    ensures StripOf(space, a + "." + b) == a + "." + b
  {
  }

  // The module's own base64url and str.strip() meet the laws.
  lemma StandardIsLawful()
    ensures STANDARD.Lawful()
  {
    UrlSafeIsTokenAlphabet();
    forall d
      ensures STANDARD.decode(STANDARD.encode(d)) == Some(d) && NoDot(STANDARD.encode(d))
    {
      DecodeInvertsEncode(URL_SAFE, d);
      EncodedIsPlain(URL_SAFE, IsSpace, d);
    }
    forall d, e
      ensures STANDARD.strip(STANDARD.encode(d) + "." + STANDARD.encode(e)) == STANDARD.encode(d) + "." + STANDARD.encode(e)
    {
      EncodedIsPlain(URL_SAFE, IsSpace, d);
      EncodedIsPlain(URL_SAFE, IsSpace, e);
      DottedStrips(IsSpace, Encode(URL_SAFE, d), Encode(URL_SAFE, e));
    }
    forall s
      ensures STANDARD.strip(STANDARD.strip(s)) == STANDARD.strip(s)
    {
      StripTwice(IsSpace, s);
    }
  }

  // Which it is.
  lemma StandardForm(d: Bytes, s: string)
    ensures STANDARD.encode(d) == Encode(URL_SAFE, d) && STANDARD.decode(s) == DecodePadded(URL_SAFE, s) && STANDARD.strip(s) == Strip(s)
  {
  }

  lemma DotBetween(a: string, b: string)
    requires NoDot(a)
    ensures FirstDot(a + "." + b) == |a|
    ensures (a + "." + b)[..|a|] == a && (a + "." + b)[|a| + 1..] == b
  {
    var t := a + "." + b;
    assert t[|a|] == '.';
    assert forall k :: 0 <= k < |a| ==> t[k] == a[k];
  }

  // A token is taken apart as it was put together.
  lemma TokenParts(tf: TextForm, body: Bytes, sig: Bytes)
    requires tf.Lawful()
    ensures var t := Join(tf, body, sig);
            t != "" && tf.strip(t) == t && FirstDot(t) < |t| && Parts(tf, t) == Some((body, sig))
  {
    DotBetween(tf.encode(body), tf.encode(sig));
  }

  function Expected(f: Fields, want: Fields, expires: int, now: int): Verdict {
    if now > expires then Expired
    else if want.task != f.task then TaskMismatch
    else if want.tool != f.tool then ToolMismatch
    else if want.node != f.node then NodeMismatch
    else if want.account != f.account then AccountMismatch
    else Accepted
  }

  lemma CheckMinted(f: Fields, want: Fields, now: int, ttl: int, now': int, strip: string -> string)
    requires strip(f.tool) == f.tool && strip(f.node) == f.node && strip(f.account) == f.account
    ensures Check(ClaimsOf(PayloadOf(f, now, ttl)), want, now', strip) == Expected(f, want, now + Lifetime(ttl), now')
  {
  }

  // Main result: a minted token is rejected as unsigned exactly when the verifier's key signs its
  // body differently; otherwise it is expired exactly after its clamped lifetime, and until then the
  // first differing field, after normalisation, decides.
  lemma MintedTokenVerdict(tf: TextForm, codec: Codec, mac: Mac, other: Mac, f: Fields, now: int, ttl: int, want: Fields, now': int)
    requires tf.Lawful() && codec.Lawful()
    ensures var n := Normalized(tf, f);
            var body := codec.render(PayloadOf(n, now, ttl));
            Verify(tf, codec, other, Mint(tf, codec, mac, f, now, ttl), want, now')
            == if mac(body) != other(body) then BadSignature
               else Expected(n, Normalized(tf, want), now + Lifetime(ttl), now')
  {
    var n := Normalized(tf, f);
    var p := PayloadOf(n, now, ttl);
    TokenParts(tf, codec.render(p), mac(codec.render(p)));
    assert codec.parse(codec.render(p)) == ClaimsOf(p);
    CheckMinted(n, Normalized(tf, want), now, ttl, now', tf.strip);
  }

  // With one key: accepted exactly for the same fields after normalisation, up to and including the
  // second of expiry, which is 30 to 600 seconds after minting.
  lemma MintedTokenAcceptedExactly(tf: TextForm, codec: Codec, mac: Mac, f: Fields, now: int, ttl: int, want: Fields, now': int)
    requires tf.Lawful() && codec.Lawful()
    ensures Verify(tf, codec, mac, Mint(tf, codec, mac, f, now, ttl), want, now').Accepted? <==>
              && want.task == f.task
              && tf.strip(DropFirstMcp(tf.strip(want.tool))) == tf.strip(DropFirstMcp(tf.strip(f.tool)))
              && tf.strip(want.node) == tf.strip(f.node) && tf.strip(want.account) == tf.strip(f.account)
              && now' <= now + Lifetime(ttl)
    ensures 30 <= Lifetime(ttl) <= 600 && (30 <= ttl <= 600 ==> Lifetime(ttl) == ttl)
    ensures (ttl < 30 ==> Lifetime(ttl) == 30) && (ttl > 600 ==> Lifetime(ttl) == 600)
  {
    MintedTokenVerdict(tf, codec, mac, mac, f, now, ttl, want, now');
  }

  // The text is two parts with a dot between, the first holds `body` and the second `sig`.
  ghost predicate Holds(tf: TextForm, t: string, p: string, s: string, body: Bytes, sig: Bytes) {
    t == p + "." + s && NoDot(p) && tf.decode(p) == Some(body) && tf.decode(s) == Some(sig)
  }

  // What a minted token carries: the claims as JSON, version 1, all names stripped and "mcp:" taken off the
  // tool, from now until the clamped lifetime is over, and the MAC of exactly these bytes.
  lemma MintedTokenCarries(tf: TextForm, codec: Codec, mac: Mac, f: Fields, now: int, ttl: int)
    requires tf.Lawful()
    ensures var body := codec.render(Payload(1, f.task, tf.strip(DropFirstMcp(tf.strip(f.tool))), tf.strip(f.node),
                                             tf.strip(f.account), now, now + Lifetime(ttl)));
            && Holds(tf, Mint(tf, codec, mac, f, now, ttl), tf.encode(body), tf.encode(mac(body)), body, mac(body))
  {
  }

  // The claims are of version 1, not past their expiry, and agree with what is asked for; absent ones count
  // as zero or empty.
  predicate Grants(tf: TextForm, c: Parsed, want: Fields, now: int) {
    && c.Claims? && c.version == Some(1)
    && (if c.exp.Some? then c.exp.value else 0) >= now
    && (if c.tid.Some? then c.tid.value else "") == want.task
    && tf.strip(if c.tool.Some? then c.tool.value else "") == tf.strip(DropFirstMcp(tf.strip(want.tool)))
    && tf.strip(if c.nid.Some? then c.nid.value else "") == tf.strip(want.node)
    && tf.strip(if c.sub.Some? then c.sub.value else "") == tf.strip(want.account)
  }

  lemma {:induction false} HeldParts(tf: TextForm, t: string, p: string, s: string, body: Bytes, sig: Bytes)
    requires Holds(tf, t, p, s, body, sig)
    ensures FirstDot(t) < |t| && Parts(tf, t) == Some((body, sig))
  {
    DotBetween(p, s);
  }

  lemma PartsHeld(tf: TextForm, t: string, k: nat, body: Bytes, sig: Bytes)
    requires k < |t| && t[k] == '.' && NoDot(t[..k])
    requires tf.decode(t[..k]) == Some(body) && tf.decode(t[k + 1..]) == Some(sig)
    ensures Holds(tf, t, t[..k], t[k + 1..], body, sig)
  {
    Halves(t, k);
  }

  lemma Halves(t: string, k: nat)
    requires k < |t| && t[k] == '.'
    ensures t == t[..k] + "." + t[k + 1..]
  {
  }

  // Main result on verifying: ANY token is accepted if and only if its two parts decode to a body and the MAC
  // of that body, and the claims in the body grant what is asked; and it is called badly signed if and only
  // if they decode and the second is anything else, whatever the claims are.
  lemma AcceptedExactly(tf: TextForm, codec: Codec, mac: Mac, token: string, want: Fields, now: int)
    ensures Verify(tf, codec, mac, token, want, now).Accepted? <==>
              token != "" && exists p, s, body ::
                Holds(tf, tf.strip(token), p, s, body, mac(body)) && Grants(tf, codec.parse(body), want, now)
    ensures Verify(tf, codec, mac, token, want, now).BadSignature? <==>
              token != "" && exists p, s, body, sig ::
                Holds(tf, tf.strip(token), p, s, body, sig) && sig != mac(body)
    ensures Verify(tf, codec, mac, token, want, now).MissingToken? <==> token == ""
    ensures Verify(tf, codec, mac, token, want, now).Malformed? <==> token != "" && NoDot(tf.strip(token))
  {
    var t := tf.strip(token);
    forall p, s, body, sig | Holds(tf, t, p, s, body, sig)
      ensures FirstDot(t) < |t| && Parts(tf, t) == Some((body, sig))
    {
      HeldParts(tf, t, p, s, body, sig);
    }
    if FirstDot(t) < |t| && Parts(tf, t).Some? {
      var (body, sig) := Parts(tf, t).value;
      PartsHeld(tf, t, FirstDot(t), body, sig);
      GrantsIsCheck(tf, codec.parse(body), want, now);
    }
  }

  lemma GrantsIsCheck(tf: TextForm, c: Parsed, want: Fields, now: int)
    ensures Check(c, Normalized(tf, want), now, tf.strip).Accepted? <==> Grants(tf, c, want, now)
    ensures var v := Check(c, Normalized(tf, want), now, tf.strip); !v.BadSignature? && !v.MissingToken? && !v.Malformed?
  {
  }
}
