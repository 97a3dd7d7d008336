/** Signed tokens and sealed blobs (crypto.go), over library primitives with stated laws. */
module Crypto {
  import opened Base64
  import opened Numerals

  /**
   * The library primitives under one secret: HMAC-SHA256 of a text, AES-GCM under the key derived for an
   * info string, and SHA-256.
   */
  datatype Suite = Suite(
    mac: string -> Bytes,
    seal: (string, Bytes, Bytes) -> Bytes,
    open: (string, Bytes, Bytes) -> Option<Bytes>,
    sha: string -> Bytes)

  ghost predicate Lawful(s: Suite) {
    && (forall x :: |s.mac(x)| == 32)
    && (forall x :: |s.sha(x)| == 32)
    && (forall info, iv, p :: |s.seal(info, iv, p)| == |p| + 16)
    && (forall info, iv, p :: s.open(info, iv, s.seal(info, iv, p)) == Some(p))
  }

  const JWT_HEADER := "eyJhbGciOiJIUzI1NiIsInR5cCI6IkpXVCJ9"

  // ----- signed tokens -----

  function SigningInput(payload: Bytes): string {
    JWT_HEADER + "." + Encode(payload)
  }

  function JwtSign(s: Suite, payload: Bytes): string {
    SigningInput(payload) + "." + Encode(s.mac(SigningInput(payload)))
  }

  /** strings.Split(s, ".") */
  function SplitDots(s: string): (parts: seq<string>)
    ensures |parts| >= 1
  {
    if s == "" then [""]
    else
      var rest := SplitDots(s[1..]);
      if s[0] == '.' then [""] + rest else [[s[0]] + rest[0]] + rest[1..]
  }

  /** jwtVerify: the payload and the hex signature that becomes the nonce key. */
  function JwtVerify(s: Suite, token: string): Option<(Bytes, string)> {
    var parts := SplitDots(token);
    if |parts| != 3 || parts[0] == "" || parts[1] == "" || parts[2] == "" then None
    else
      match Decode(parts[2])
      case None => None
      case Some(sig) =>
        if |sig| != 32 || sig != s.mac(parts[0] + "." + parts[1]) then None
        else
          match Decode(parts[1])
          case None => None
          case Some(payload) => Some((payload, HexOf(sig)))
  }

  predicate NoDot(s: string) { forall i :: 0 <= i < |s| ==> s[i] != '.' }

  lemma {:induction false} SplitNoDot(s: string)
    requires NoDot(s)
    ensures SplitDots(s) == [s]
  {
    if s != "" {
      SplitNoDot(s[1..]);
      assert [s[0]] + s[1..] == s;
    }
  }

  lemma {:induction false} SplitFirst(a: string, rest: string)
    requires NoDot(a)
    ensures SplitDots(a + "." + rest) == [a] + SplitDots(rest)
  {
    var t := a + "." + rest;
    if a == "" {
      assert t[1..] == rest;
    } else {
      assert t[1..] == a[1..] + "." + rest;
      SplitFirst(a[1..], rest);
      assert [a[0]] + a[1..] == a;
    }
  }

  lemma {:induction false} SplitThree(a: string, b: string, c: string)
    requires NoDot(a) && NoDot(b) && NoDot(c)
    ensures SplitDots(a + "." + b + "." + c) == [a, b, c]
  {
    assert a + "." + b + "." + c == a + "." + (b + "." + c);
    SplitFirst(a, b + "." + c);
    SplitFirst(b, c);
    SplitNoDot(c);
  }

  lemma {:induction false} EncodedHasNoDot(b: Bytes)
    ensures NoDot(Encode(b))
  {
    EncodeIsPlain(b);
    assert forall i :: 0 <= i < |Encode(b)| ==> SixBits(Encode(b)[i]) >= 0;
  }

  /** A token verifies as it was signed. */
  lemma VerifyOfSign(s: Suite, payload: Bytes)
    requires Lawful(s) && payload != []
    ensures JwtVerify(s, JwtSign(s, payload)) == Some((payload, HexOf(s.mac(SigningInput(payload)))))
  {
    var sig := s.mac(SigningInput(payload));
    EncodeIsPlain(payload);
    EncodeIsPlain(sig);
    HeaderHasNoDot();
    EncodedHasNoDot(payload);
    EncodedHasNoDot(sig);
    DecodeOfEncode(sig);
    DecodeOfEncode(payload);
    VerifyParts(s, JWT_HEADER, Encode(payload), Encode(sig), sig, payload);
  }

  lemma HeaderHasNoDot()
    ensures NoDot(JWT_HEADER) && JWT_HEADER != ""
  {
  }

  lemma VerifyParts(s: Suite, a: string, b: string, c: string, sig: Bytes, payload: Bytes)
    requires a != "" && b != "" && c != "" && NoDot(a) && NoDot(b) && NoDot(c)
    requires Decode(c) == Some(sig) && Decode(b) == Some(payload) && |sig| == 32 && sig == s.mac(a + "." + b)
    ensures JwtVerify(s, a + "." + b + "." + c) == Some((payload, HexOf(sig)))
  {
    SplitThree(a, b, c);
  }

  /** header.payload, the text under the signature */
  function InputOf(token: string): string {
    var parts := SplitDots(token);
    if |parts| == 3 then parts[0] + "." + parts[1] else ""
  }

  /**
   * The nonce key is canonical: whatever spelling of the signature a verifying token uses, its key is
   * determined by the text under the signature, and only texts with the same MAC share one.
   */
  lemma NonceKeyIsCanonical(s: Suite, a: string, b: string)
    requires JwtVerify(s, a).Some? && JwtVerify(s, b).Some?
    ensures JwtVerify(s, a).value.1 == JwtVerify(s, b).value.1 <==> s.mac(InputOf(a)) == s.mac(InputOf(b))
    ensures InputOf(a) == InputOf(b) ==> JwtVerify(s, a).value.1 == JwtVerify(s, b).value.1
  {
    HexInjective(s.mac(InputOf(a)), s.mac(InputOf(b)));
  }

  /** q is p with a line feed after its last part. */
  predicate FedAfter(p: seq<string>, q: seq<string>) {
    |q| == |p| > 0 && q[..|q| - 1] == p[..|p| - 1] && q[|q| - 1] == p[|p| - 1] + "\n"
  }

  lemma FedAfterDot(p: seq<string>, q: seq<string>)
    requires FedAfter(p, q)
    ensures FedAfter([""] + p, [""] + q)
  {
    assert ([""] + p)[..|p|] == [""] + p[..|p| - 1] && ([""] + q)[..|q|] == [""] + q[..|q| - 1];
  }

  lemma FedAfterChar(c: char, p: seq<string>, q: seq<string>)
    requires FedAfter(p, q)
    ensures FedAfter([[c] + p[0]] + p[1..], [[c] + q[0]] + q[1..])
  {
    if |p| == 1 {
      assert [c] + (p[0] + "\n") == ([c] + p[0]) + "\n";
    } else {
      assert q[0] == q[..|q| - 1][0] == p[..|p| - 1][0] == p[0];
      assert q[1..][..|q| - 2] == q[..|q| - 1][1..] == p[..|p| - 1][1..] == p[1..][..|p| - 2];
    }
  }

  lemma {:induction false} SplitAppend(t: string)
    ensures FedAfter(SplitDots(t), SplitDots(t + "\n"))
  {
    if t == "" {
      SplitNoDot("\n");
      assert "" + "\n" == "\n";
    } else {
      assert (t + "\n")[1..] == t[1..] + "\n";
      SplitAppend(t[1..]);
      var p, q := SplitDots(t[1..]), SplitDots(t[1..] + "\n");
      FedAfterDot(p, q);
      FedAfterChar(t[0], p, q);
    }
  }

  /** Respellings exist: a line feed after any verifying token leaves another that verifies alike. */
  lemma RespellingVerifies(s: Suite, token: string)
    requires JwtVerify(s, token).Some?
    ensures token + "\n" != token && JwtVerify(s, token + "\n") == JwtVerify(s, token)
  {
    var p, q := SplitDots(token), SplitDots(token + "\n");
    SplitAppend(token);
    assert q[0] == q[..2][0] == p[..2][0] == p[0] && q[1] == q[..2][1] == p[..2][1] == p[1];
    DropBreaksAppend(p[2]);
    assert |token + "\n"| != |token|;
  }

  // ----- sealed blobs -----

  /** encryptGCM: iv, then the tag, then the ciphertext, each appended in turn. */
  method EncryptGcm(s: Suite, info: string, plaintext: Bytes, iv: Bytes) returns (blob: string)
    requires Lawful(s) && |iv| == 12
    ensures Decrypted(s, info, blob) == Some(plaintext)
    ensures blob == Encrypted(s, info, plaintext, iv)
  {
    var sealed := s.seal(info, iv, plaintext);
    var tagStart := |sealed| - 16;
    var packed: Bytes := [];
    packed := packed + iv;
    packed := packed + sealed[tagStart..];
    packed := packed + sealed[..tagStart];
    blob := Encode(packed);
    assert packed == iv + sealed[tagStart..] + sealed[..tagStart];
    DecryptOfEncrypt(s, info, plaintext, iv);
  }

  function Encrypted(s: Suite, info: string, plaintext: Bytes, iv: Bytes): string {
    var sealed := s.seal(info, iv, plaintext);
    if |sealed| < 16 then "" else Encode(iv + sealed[|sealed| - 16..] + sealed[..|sealed| - 16])
  }

  function TrimEquals(v: string): string {
    if v != "" && v[|v| - 1] == '=' then TrimEquals(v[..|v| - 1]) else v
  }

  /** decryptGCM */
  function Decrypted(s: Suite, info: string, blob: string): Option<Bytes> {
    match Decode(TrimEquals(blob))
    case None => None
    case Some(packed) =>
      if |packed| < 28 then None
      else s.open(info, packed[..12], packed[28..] + packed[12..28])
  }

  /** Sealing and packing, then unpacking and opening, gives the plaintext back. */
  lemma DecryptOfEncrypt(s: Suite, info: string, plaintext: Bytes, iv: Bytes)
    requires Lawful(s) && |iv| == 12
    ensures Decrypted(s, info, Encrypted(s, info, plaintext, iv)) == Some(plaintext)
  {
    var sealed := s.seal(info, iv, plaintext);
    var k := |sealed| - 16;
    var packed := iv + sealed[k..] + sealed[..k];
    EncodeIsPlain(packed);
    assert TrimEquals(Encode(packed)) == Encode(packed) by {
      assert SixBits(Encode(packed)[|Encode(packed)| - 1]) >= 0;
    }
    DecodeOfEncode(packed);
    assert packed[..12] == iv && packed[12..28] == sealed[k..] && packed[28..] == sealed[..k];
    assert sealed[..k] + sealed[k..] == sealed;
  }
}
