/** The per-message envelope of src/crypto.rs: a fresh AES-256-GCM key and
    nonce per message, the key wrapped with RSAES-PKCS1-v1_5, and one text
    line `b64(wrapped key)|b64(nonce)|b64(ciphertext)\n`.

    The RSA and AES-GCM primitives are not modelled: they are function
    values in a `Primitives` record, and the two facts the envelope relies
    on (unwrapping with the matching private key inverts wrapping, and
    AES-GCM decryption under the same key and nonce inverts encryption)
    are the hypotheses `IsKeyPair` and `AeadInverts` of the lemmas that
    need them. */
module Crypto {
  import opened Wrappers
  import Base64

  type Bytes = seq<Base64.byte>

  /** Key and nonce sizes of AES-256-GCM. */
  const AES_KEY_LEN: nat := 32
  const NONCE_LEN: nat := 12

  /** The foreign primitives, as the four wrappers of src/crypto.rs call
      them; an `Err` carries the crate's error text. */
  datatype Primitives<!Pub, !Priv> = Primitives(
    /** public key, message, padding randomness */
    rsaEncrypt: (Pub, Bytes, Bytes) -> Result<Bytes, string>,
    rsaDecrypt: (Priv, Bytes) -> Result<Bytes, string>,
    /** key, nonce, data */
    aesEncrypt: (Bytes, Bytes, Bytes) -> Result<Bytes, string>,
    aesDecrypt: (Bytes, Bytes, Bytes) -> Result<Bytes, string>)

  /** `pub` and `priv` are a matching RSA key pair. */
  ghost predicate IsKeyPair<Pub, Priv>(p: Primitives<Pub, Priv>, pub: Pub, priv: Priv) {
    forall m, coins :: p.rsaEncrypt(pub, m, coins).Ok? ==>
      p.rsaDecrypt(priv, p.rsaEncrypt(pub, m, coins).value) == Ok(m)
  }

  /** AES-GCM decryption with the key and nonce of an encryption gives back
      the plaintext. */
  ghost predicate AeadInverts<Pub, Priv>(p: Primitives<Pub, Priv>) {
    forall k, n, m :: |k| == AES_KEY_LEN && |n| == NONCE_LEN && p.aesEncrypt(k, n, m).Ok? ==>
      p.aesDecrypt(k, n, p.aesEncrypt(k, n, m).value) == Ok(m)
  }

  /** The random values one call of `encrypt_socket_data` draws: a key and
      a nonce from `gen_aes_key_and_nonce`, and RSA padding bytes. */
  datatype Fresh = Fresh(aesKey: Bytes, nonce: Bytes, rsaPadding: Bytes)

  predicate ValidFresh(f: Fresh) {
    |f.aesKey| == AES_KEY_LEN && |f.nonce| == NONCE_LEN
  }

  datatype CryptoError =
    | AesEncryptFailed(detail: string)
    | RsaEncryptFailed(detail: string)
    | InvalidFormat
    /** field 0, 1 or 2 is not valid Base64 */
    | InvalidBase64(field: nat)
    | RsaDecryptFailed(detail: string)
    | AesDecryptFailed(detail: string)
    /** the unwrapped key or the nonce has the wrong size (corrected decoder only) */
    | InvalidKeyOrNonceSize

  /** The text of each error, as the source formats it. */
  function Message(e: CryptoError): string {
    match e
    case AesEncryptFailed(d) => "aes encrypt failed, error " + d
    case RsaEncryptFailed(d) => "rsa encrypt failed, error " + d
    case InvalidFormat => "Invalid format"
    case InvalidBase64(_) => "invalid base64"
    case RsaDecryptFailed(d) => "decrypt data failed, error: rsa decrypt failed, error " + d
    case AesDecryptFailed(d) => "decrypt data failed, error: aes decrypt failed, error " + d
    case InvalidKeyOrNonceSize => "decrypt data failed, error: invalid key or nonce size"
  }

  // ---- Whitespace and `str::trim` ----

  /** Rust's `char::is_whitespace`: the Unicode White_Space property. */
  predicate IsWhitespace(c: char) {
    ('\t' <= c <= '\r') || c == ' ' || c == '\U{0085}' || c == '\U{00A0}' || c == '\U{1680}'
    || ('\U{2000}' <= c <= '\U{200A}') || c == '\U{2028}' || c == '\U{2029}'
    || c == '\U{202F}' || c == '\U{205F}' || c == '\U{3000}'
  }

  predicate AllWhitespace(s: string) {
    forall i | 0 <= i < |s| :: IsWhitespace(s[i])
  }

  predicate NoWhitespace(s: string) {
    forall i | 0 <= i < |s| :: !IsWhitespace(s[i])
  }

  lemma WhitespaceCons(c: char, w: string)
    requires IsWhitespace(c) && AllWhitespace(w)
    ensures AllWhitespace([c] + w)
  {
    assert forall i | 1 <= i < |w| + 1 :: ([c] + w)[i] == w[i - 1];
  }

  function TrimStart(s: string): (r: string)
    ensures |r| <= |s| && r == s[|s| - |r|..] && AllWhitespace(s[..|s| - |r|])
    ensures r == [] || !IsWhitespace(r[0])
    decreases |s|
  {
    if |s| > 0 && IsWhitespace(s[0]) then
      var r := TrimStart(s[1..]);
      var n := |s| - |r|;
      assert s[..n] == [s[0]] + s[1..][..n - 1];
      assert s[n..] == s[1..][n - 1..];
      WhitespaceCons(s[0], s[1..][..n - 1]);
      r
    else s
  }

  function TrimEnd(s: string): (r: string)
    ensures |r| <= |s| && r == s[..|r|] && AllWhitespace(s[|r|..])
    ensures r == [] || !IsWhitespace(r[|r| - 1])
    decreases |s|
  {
    if |s| > 0 && IsWhitespace(s[|s| - 1]) then
      var r := TrimEnd(s[..|s| - 1]);
      assert s[|r|..] == s[..|s| - 1][|r|..] + [s[|s| - 1]];
      assert s[..|r|] == s[..|s| - 1][..|r|];
      r
    else s
  }

  /** `str::trim`: whitespace taken off both ends, so the result neither
      starts nor ends with whitespace. */
  function Trim(s: string): (r: string)
    ensures |r| <= |s|
    ensures r == [] || (!IsWhitespace(r[0]) && !IsWhitespace(r[|r| - 1]))
  {
    var t := TrimStart(s);
    var r := TrimEnd(t);
    assert r != [] ==> r[0] == t[0];
    r
  }

  /** `r` sits in `s` at `i` with only whitespace before and after it. */
  predicate IsPaddedBy(s: string, i: nat, r: string) {
    i + |r| <= |s| && AllWhitespace(s[..i]) && s[i..i + |r|] == r && AllWhitespace(s[i + |r|..])
  }

  /** What `trim` removes is whitespace only: the result is a slice of
      the input with whitespace alone before and after it. */
  lemma TrimIsMiddle(s: string)
    ensures exists i: nat :: IsPaddedBy(s, i, Trim(s))
  {
    var t := TrimStart(s);
    assert Trim(s) == TrimEnd(t);
    PaddedTwice(s, t, TrimEnd(t));
    assert IsPaddedBy(s, |s| - |t|, Trim(s));
  }

  /** A suffix after whitespace, then a prefix before whitespace. */
  lemma PaddedTwice(s: string, t: string, r: string)
    requires |t| <= |s| && t == s[|s| - |t|..] && AllWhitespace(s[..|s| - |t|])
    requires |r| <= |t| && r == t[..|r|] && AllWhitespace(t[|r|..])
    ensures IsPaddedBy(s, |s| - |t|, r)
  {
    SliceOfSuffix(s, |s| - |t|, |r|);
  }

  lemma SliceOfSuffix(s: string, i: nat, n: nat)
    requires i + n <= |s|
    ensures s[i..i + n] == s[i..][..n] && s[i + n..] == s[i..][n..]
  {
  }

  // ---- `str::split` on one character ----

  function Join(parts: seq<string>, sep: char): string
    requires |parts| >= 1
  {
    if |parts| == 1 then parts[0] else parts[0] + [sep] + Join(parts[1..], sep)
  }

  /** `s.split(sep).collect()`: the maximal pieces between separators; an
      empty string gives one empty piece. */
  function Split(s: string, sep: char): (parts: seq<string>)
    ensures |parts| >= 1
    ensures forall i | 0 <= i < |parts| :: sep !in parts[i]
    ensures Join(parts, sep) == s
    decreases |s|
  {
    if |s| == 0 then [""]
    else if s[0] == sep then [""] + Split(s[1..], sep)
    else
      var rest := Split(s[1..], sep);
      [[s[0]] + rest[0]] + rest[1..]
  }

  // ---- The envelope ----

  /** The line written for a wrapped key, a nonce and a ciphertext:
      trimming it and splitting it on `|` recovers exactly the three
      Base64 fields. */
  function Frame(encKey: Bytes, nonce: Bytes, ciphertext: Bytes): (r: string)
    ensures Split(Trim(r), '|') == [Base64.Encode(encKey), Base64.Encode(nonce), Base64.Encode(ciphertext)]
  {
    EncodedIsClean(encKey);
    EncodedIsClean(nonce);
    EncodedIsClean(ciphertext);
    LineFields(Base64.Encode(encKey), Base64.Encode(nonce), Base64.Encode(ciphertext));
    Base64.Encode(encKey) + "|" + Base64.Encode(nonce) + "|" + Base64.Encode(ciphertext) + "\n"
  }

  /** `encrypt_socket_data`: AES-GCM first, then the key wrap, then the line. */
  function EncryptSocketData<Pub, Priv>(p: Primitives<Pub, Priv>, pub: Pub, data: Bytes, draw: Fresh)
    : (r: Result<string, CryptoError>)
    requires ValidFresh(draw)
    ensures r.Err? ==> r.error.AesEncryptFailed? || r.error.RsaEncryptFailed?
  {
    match p.aesEncrypt(draw.aesKey, draw.nonce, data)
    case Err(e) => Err(AesEncryptFailed(e))
    case Ok(ciphertext) =>
      match p.rsaEncrypt(pub, draw.aesKey, draw.rsaPadding)
      case Err(e) => Err(RsaEncryptFailed(e))
      case Ok(encKey) => Ok(Frame(encKey, draw.nonce, ciphertext))
  }

  /** The first half of `decrypt_socket_data`: trim, split on `|`, exactly
      three fields, each decoded from Base64 in order. */
  function Unframe(line: string): (r: Result<(Bytes, Bytes, Bytes), CryptoError>)
    ensures |Split(Trim(line), '|')| != 3 <==> r == Err(InvalidFormat)
  {
    DecodeFields(Split(Trim(line), '|'))
  }

  /** Exactly three fields, each decoded from Base64 in order. */
  function DecodeFields(parts: seq<string>): (r: Result<(Bytes, Bytes, Bytes), CryptoError>)
    ensures |parts| != 3 <==> r == Err(InvalidFormat)
  {
    if |parts| != 3 then Err(InvalidFormat)
    else
      match Base64.Decode(parts[0])
      case None => Err(InvalidBase64(0))
      case Some(encKey) =>
        match Base64.Decode(parts[1])
        case None => Err(InvalidBase64(1))
        case Some(nonce) =>
          match Base64.Decode(parts[2])
          case None => Err(InvalidBase64(2))
          case Some(ciphertext) => Ok((encKey, nonce, ciphertext))
  }

  /** `decrypt_socket_data` as the source has it. `Aes256Gcm::new(key.into())`
      and `Nonce::from_slice` assert the slice lengths, so an unwrapped key
      that is not 32 bytes, or a nonce field that is not 12 bytes, panics
      instead of returning an error. */
  function DecryptSocketDataAsWritten<Pub, Priv>(p: Primitives<Pub, Priv>, priv: Priv, line: string)
    : (r: Panicking<Result<Bytes, CryptoError>>)
    ensures r.Panicked? <==>
      && Unframe(line).Ok? && p.rsaDecrypt(priv, Unframe(line).value.0).Ok?
      && (|p.rsaDecrypt(priv, Unframe(line).value.0).value| != AES_KEY_LEN || |Unframe(line).value.1| != NONCE_LEN)
    ensures r.Returned? && r.value.Ok? ==>
      && Unframe(line).Ok? && p.rsaDecrypt(priv, Unframe(line).value.0).Ok?
      && p.aesDecrypt(p.rsaDecrypt(priv, Unframe(line).value.0).value, Unframe(line).value.1, Unframe(line).value.2) == Ok(r.value.value)
  {
    match Unframe(line)
    case Err(e) => Returned(Err(e))
    case Ok((encKey, nonce, ciphertext)) =>
      match p.rsaDecrypt(priv, encKey)
      case Err(e) => Returned(Err(RsaDecryptFailed(e)))
      case Ok(aesKey) =>
        if |aesKey| != AES_KEY_LEN then Panicked("AES key slice has the wrong length")
        else if |nonce| != NONCE_LEN then Panicked("nonce slice has the wrong length")
        else
          match p.aesDecrypt(aesKey, nonce, ciphertext)
          case Err(e) => Returned(Err(AesDecryptFailed(e)))
          case Ok(plaintext) => Returned(Ok(plaintext))
  }

  /** `decrypt_socket_data` with the size checks turned into an error; the
      same as the source on every input where the source does not panic. */
  function DecryptSocketData<Pub, Priv>(p: Primitives<Pub, Priv>, priv: Priv, line: string)
    : (r: Result<Bytes, CryptoError>)
    ensures |Split(Trim(line), '|')| != 3 ==> r == Err(InvalidFormat)
    ensures r.Ok? ==> Unframe(line).Ok? && p.rsaDecrypt(priv, Unframe(line).value.0).Ok?
    ensures DecryptSocketDataAsWritten(p, priv, line).Returned? ==>
              DecryptSocketDataAsWritten(p, priv, line).value == r
    ensures DecryptSocketDataAsWritten(p, priv, line).Panicked? <==> r == Err(InvalidKeyOrNonceSize)
  {
    match Unframe(line)
    case Err(e) => Err(e)
    case Ok((encKey, nonce, ciphertext)) =>
      match p.rsaDecrypt(priv, encKey)
      case Err(e) => Err(RsaDecryptFailed(e))
      case Ok(aesKey) =>
        if |aesKey| != AES_KEY_LEN || |nonce| != NONCE_LEN then Err(InvalidKeyOrNonceSize)
        else
          match p.aesDecrypt(aesKey, nonce, ciphertext)
          case Err(e) => Err(AesDecryptFailed(e))
          case Ok(plaintext) => Ok(plaintext)
  }

  /** The number of occurrences of `c` in `s`. */
  function Count(s: string, c: char): (n: nat)
    ensures n == 0 <==> c !in s
    decreases |s|
  {
    if |s| == 0 then 0 else (if s[0] == c then 1 else 0) + Count(s[1..], c)
  }

  // ---- Proofs: trim ----

  lemma {:induction false} TrimStartSkipsWhitespace(w: string, y: string)
    requires AllWhitespace(w)
    ensures TrimStart(w + y) == TrimStart(y)
    decreases |w|
  {
    if |w| > 0 {
      assert (w + y)[0] == w[0] && IsWhitespace(w[0]);
      assert (w + y)[1..] == w[1..] + y;
      assert AllWhitespace(w[1..]) by {
        forall i | 0 <= i < |w| - 1 ensures IsWhitespace(w[1..][i]) {
          assert w[1..][i] == w[i + 1];
        }
      }
      TrimStartSkipsWhitespace(w[1..], y);
    } else {
      assert w + y == y;
    }
  }

  lemma {:induction false} TrimEndSkipsWhitespace(y: string, w: string)
    requires AllWhitespace(w)
    ensures TrimEnd(y + w) == TrimEnd(y)
    decreases |w|
  {
    if |w| > 0 {
      assert (y + w)[|y + w| - 1] == w[|w| - 1] && IsWhitespace(w[|w| - 1]);
      assert (y + w)[..|y + w| - 1] == y + w[..|w| - 1];
      var front := w[..|w| - 1];
      assert AllWhitespace(front) by {
        forall i | 0 <= i < |front| ensures IsWhitespace(front[i]) {
          assert front[i] == w[i];
        }
      }
      TrimEndSkipsWhitespace(y, front);
    } else {
      assert y + w == y;
    }
  }

  lemma {:induction false} TrimStartKeepsTail(y: string, w: string)
    requires !AllWhitespace(y)
    ensures TrimStart(y + w) == TrimStart(y) + w
    decreases |y|
  {
    if IsWhitespace(y[0]) {
      assert (y + w)[1..] == y[1..] + w;
      assert !AllWhitespace(y[1..]) by {
        var i :| 0 <= i < |y| && !IsWhitespace(y[i]);
        assert y[1..][i - 1] == y[i];
      }
      TrimStartKeepsTail(y[1..], w);
    }
  }

  lemma TrimStartOfWhitespace(y: string)
    requires AllWhitespace(y)
    ensures TrimStart(y) == ""
  {
  }

  /** Whitespace before and after a line does not change what `trim` leaves. */
  lemma TrimIgnoresSurroundingWhitespace(w1: string, x: string, w2: string)
    requires AllWhitespace(w1) && AllWhitespace(w2)
    ensures Trim(w1 + x + w2) == Trim(x)
  {
    assert w1 + x + w2 == w1 + (x + w2);
    TrimStartSkipsWhitespace(w1, x + w2);
    if AllWhitespace(x) {
      assert AllWhitespace(x + w2) by {
        forall i | 0 <= i < |x + w2| ensures IsWhitespace((x + w2)[i]) {
          if i < |x| { assert (x + w2)[i] == x[i]; } else { assert (x + w2)[i] == w2[i - |x|]; }
        }
      }
      TrimStartOfWhitespace(x + w2);
      TrimStartOfWhitespace(x);
    } else {
      TrimStartKeepsTail(x, w2);
      TrimEndSkipsWhitespace(TrimStart(x), w2);
    }
  }

  lemma TrimWithoutWhitespace(x: string)
    requires NoWhitespace(x)
    ensures Trim(x) == x
  {
  }

  // ---- Proofs: split ----

  lemma {:induction false} SplitWithoutSeparator(a: string, sep: char)
    requires sep !in a
    ensures Split(a, sep) == [a]
    decreases |a|
  {
    if |a| > 0 {
      assert sep !in a[1..];
      SplitWithoutSeparator(a[1..], sep);
    }
  }

  lemma {:induction false} SplitFirstPiece(a: string, sep: char, rest: string)
    requires sep !in a
    ensures Split(a + [sep] + rest, sep) == [a] + Split(rest, sep)
    decreases |a|
  {
    var s := a + [sep] + rest;
    if |a| == 0 {
      assert s == [sep] + rest && s[1..] == rest;
    } else {
      assert s[0] == a[0] && a[0] != sep && s[1..] == a[1..] + [sep] + rest;
      assert sep !in a[1..];
      SplitFirstPiece(a[1..], sep, rest);
      assert [a[0]] + a[1..] == a;
    }
  }

  /** Splitting a join of separator-free pieces gives back the pieces. */
  lemma {:induction false} SplitJoin(parts: seq<string>, sep: char)
    requires |parts| >= 1 && forall i | 0 <= i < |parts| :: sep !in parts[i]
    ensures Split(Join(parts, sep), sep) == parts
    decreases |parts|
  {
    if |parts| == 1 {
      SplitWithoutSeparator(parts[0], sep);
    } else {
      SplitJoin(parts[1..], sep);
      SplitFirstPiece(parts[0], sep, Join(parts[1..], sep));
      assert [parts[0]] + parts[1..] == parts;
    }
  }

  // ---- Proofs: the envelope ----

  /** Base64 text holds no whitespace, no `|` and no newline. */
  lemma EncodedIsClean(b: Bytes)
    ensures NoWhitespace(Base64.Encode(b)) && '|' !in Base64.Encode(b) && '\n' !in Base64.Encode(b)
  {
    var s := Base64.Encode(b);
    forall i | 0 <= i < |s| ensures !IsWhitespace(s[i]) && s[i] != '|' && s[i] != '\n' {
      assert Base64.IsEncodedChar(s[i]);
    }
  }

  lemma NoWhitespaceAppend(a: string, b: string)
    requires NoWhitespace(a) && NoWhitespace(b)
    ensures NoWhitespace(a + b)
  {
    forall i | 0 <= i < |a + b| ensures !IsWhitespace((a + b)[i]) {
      if i < |a| { assert (a + b)[i] == a[i]; } else { assert (a + b)[i] == b[i - |a|]; }
    }
  }

  lemma JoinThree(f0: string, f1: string, f2: string)
    ensures Join([f0, f1, f2], '|') == f0 + "|" + f1 + "|" + f2
  {
    assert [f0, f1, f2][1..] == [f1, f2] && [f1, f2][1..] == [f2];
    assert Join([f1, f2], '|') == f1 + "|" + f2;
    assert f0 + "|" + (f1 + "|" + f2) == f0 + "|" + f1 + "|" + f2;
  }

  /** Three fields free of whitespace and of `|`, written as a line, are
      recovered by trimming and splitting. */
  lemma LineFields(f0: string, f1: string, f2: string)
    requires NoWhitespace(f0) && NoWhitespace(f1) && NoWhitespace(f2)
    requires '|' !in f0 && '|' !in f1 && '|' !in f2
    ensures Trim(f0 + "|" + f1 + "|" + f2 + "\n") == f0 + "|" + f1 + "|" + f2
    ensures Split(Trim(f0 + "|" + f1 + "|" + f2 + "\n"), '|') == [f0, f1, f2]
  {
    var x := f0 + "|" + f1 + "|" + f2;
    JoinThree(f0, f1, f2);
    assert NoWhitespace("|");
    NoWhitespaceAppend(f0, "|");
    NoWhitespaceAppend(f0 + "|", f1);
    NoWhitespaceAppend(f0 + "|" + f1, "|");
    NoWhitespaceAppend(f0 + "|" + f1 + "|", f2);
    TrimLine(x);
    SplitJoin([f0, f1, f2], '|');
  }

  /** A whitespace-free text followed by a newline trims to the text. */
  lemma TrimLine(x: string)
    requires NoWhitespace(x)
    ensures Trim(x + "\n") == x
  {
    assert "" + x + "\n" == x + "\n";
    assert AllWhitespace("\n") && AllWhitespace("");
    TrimIgnoresSurroundingWhitespace("", x, "\n");
    TrimWithoutWhitespace(x);
  }

  lemma UnframeFrame(encKey: Bytes, nonce: Bytes, ciphertext: Bytes)
    ensures Unframe(Frame(encKey, nonce, ciphertext)) == Ok((encKey, nonce, ciphertext))
  {
    Base64.DecodeEncode(encKey);
    Base64.DecodeEncode(nonce);
    Base64.DecodeEncode(ciphertext);
    UnframeDecodes(Frame(encKey, nonce, ciphertext), Base64.Encode(encKey), Base64.Encode(nonce), Base64.Encode(ciphertext),
                   encKey, nonce, ciphertext);
  }

  /** A line that splits into three decodable fields is read as their bytes. */
  lemma UnframeDecodes(line: string, f0: string, f1: string, f2: string, a: Bytes, b: Bytes, c: Bytes)
    requires Split(Trim(line), '|') == [f0, f1, f2]
    requires Base64.Decode(f0) == Some(a) && Base64.Decode(f1) == Some(b) && Base64.Decode(f2) == Some(c)
    ensures Unframe(line) == Ok((a, b, c))
  {
  }

  /** For a matching key pair, decrypting what `encrypt_socket_data` wrote
      gives back the message, in the source's decoder and in the corrected
      one. */
  lemma RoundTrip<Pub, Priv>(p: Primitives<Pub, Priv>, pub: Pub, priv: Priv, data: Bytes, draw: Fresh)
    requires ValidFresh(draw) && IsKeyPair(p, pub, priv) && AeadInverts(p)
    requires EncryptSocketData(p, pub, data, draw).Ok?
    ensures DecryptSocketData(p, priv, EncryptSocketData(p, pub, data, draw).value) == Ok(data)
    ensures DecryptSocketDataAsWritten(p, priv, EncryptSocketData(p, pub, data, draw).value) == Returned(Ok(data))
  {
    var ciphertext := p.aesEncrypt(draw.aesKey, draw.nonce, data).value;
    var encKey := p.rsaEncrypt(pub, draw.aesKey, draw.rsaPadding).value;
    UnframeFrame(encKey, draw.nonce, ciphertext);
  }

  /** The line is three canonical Base64 fields separated by two `|` and
      ended by one newline; field 1 unwraps to the AES key, field 2 is the
      nonce, and field 3 is the AES-GCM ciphertext under that key and nonce. */
  lemma EncryptedLineShape<Pub, Priv>(p: Primitives<Pub, Priv>, pub: Pub, priv: Priv, data: Bytes, draw: Fresh)
    requires ValidFresh(draw) && IsKeyPair(p, pub, priv)
    requires EncryptSocketData(p, pub, data, draw).Ok?
    ensures var line := EncryptSocketData(p, pub, data, draw).value;
      && |line| > 0 && line[|line| - 1] == '\n'
      && Count(line, '\n') == 1 && Count(line, '|') == 2
      && Unframe(line).Ok?
      && p.rsaDecrypt(priv, Unframe(line).value.0) == Ok(draw.aesKey)
      && Unframe(line).value.1 == draw.nonce
      && p.aesEncrypt(draw.aesKey, draw.nonce, data) == Ok(Unframe(line).value.2)
  {
    var ciphertext := p.aesEncrypt(draw.aesKey, draw.nonce, data).value;
    var encKey := p.rsaEncrypt(pub, draw.aesKey, draw.rsaPadding).value;
    UnframeFrame(encKey, draw.nonce, ciphertext);
    FrameSeparators(encKey, draw.nonce, ciphertext);
  }

  /** A frame holds exactly two `|` and one newline, the newline last,
      and nothing around its fields for trimming to remove but that
      newline. */
  lemma FrameSeparators(encKey: Bytes, nonce: Bytes, ciphertext: Bytes)
    ensures var line := Frame(encKey, nonce, ciphertext);
      && |line| > 0 && line[|line| - 1] == '\n'
      && Count(line, '\n') == 1 && Count(line, '|') == 2
      && Trim(line) + "\n" == line
  {
    var line := Frame(encKey, nonce, ciphertext);
    assert |line| > 0 && line[|line| - 1] == '\n' && Count(line, '\n') == 1 && Count(line, '|') == 2 by {
      var f0, f1, f2 := Base64.Encode(encKey), Base64.Encode(nonce), Base64.Encode(ciphertext);
      assert line == f0 + "|" + f1 + "|" + f2 + "\n";
      EncodedIsClean(encKey);
      EncodedIsClean(nonce);
      EncodedIsClean(ciphertext);
      CountFields(f0, f1, f2, '|');
      CountFields(f0, f1, f2, '\n');
    }
    FrameTrimsToFields(encKey, nonce, ciphertext);
  }

  lemma FrameTrimsToFields(encKey: Bytes, nonce: Bytes, ciphertext: Bytes)
    ensures Trim(Frame(encKey, nonce, ciphertext)) + "\n" == Frame(encKey, nonce, ciphertext)
  {
    var f0, f1, f2 := Base64.Encode(encKey), Base64.Encode(nonce), Base64.Encode(ciphertext);
    EncodedIsClean(encKey);
    EncodedIsClean(nonce);
    EncodedIsClean(ciphertext);
    LineFields(f0, f1, f2);
  }

  lemma CountFields(f0: string, f1: string, f2: string, c: char)
    ensures Count(f0 + "|" + f1 + "|" + f2 + "\n", c)
         == Count(f0, c) + Count(f1, c) + Count(f2, c) + 2 * Count("|", c) + Count("\n", c)
  {
    CountAppend(f0 + "|" + f1 + "|" + f2, "\n", c);
    CountAppend(f0 + "|" + f1 + "|", f2, c);
    CountAppend(f0 + "|" + f1, "|", c);
    CountAppend(f0 + "|", f1, c);
    CountAppend(f0, "|", c);
  }

  lemma {:induction false} CountAppend(a: string, b: string, c: char)
    ensures Count(a + b, c) == Count(a, c) + Count(b, c)
    decreases |a|
  {
    if |a| > 0 {
      assert (a + b)[0] == a[0] && (a + b)[1..] == a[1..] + b;
      CountAppend(a[1..], b, c);
    } else {
      assert a + b == b;
    }
  }

  /** Whitespace around the line, the terminating newline included, does
      not change the outcome of decoding. */
  lemma DecryptIgnoresSurroundingWhitespace<Pub, Priv>(p: Primitives<Pub, Priv>, priv: Priv, w1: string, line: string, w2: string)
    requires AllWhitespace(w1) && AllWhitespace(w2)
    ensures DecryptSocketData(p, priv, w1 + line + w2) == DecryptSocketData(p, priv, line)
    ensures DecryptSocketDataAsWritten(p, priv, w1 + line + w2) == DecryptSocketDataAsWritten(p, priv, line)
  {
    TrimIgnoresSurroundingWhitespace(w1, line, w2);
    UnframeReadsTrimmedLine(w1 + line + w2, line);
    DecryptReadsUnframedLine(p, priv, w1 + line + w2, line);
  }

  lemma UnframeReadsTrimmedLine(a: string, b: string)
    requires Trim(a) == Trim(b)
    ensures Unframe(a) == Unframe(b)
  {
  }

  lemma DecryptReadsUnframedLine<Pub, Priv>(p: Primitives<Pub, Priv>, priv: Priv, a: string, b: string)
    requires Unframe(a) == Unframe(b)
    ensures DecryptSocketData(p, priv, a) == DecryptSocketData(p, priv, b)
    ensures DecryptSocketDataAsWritten(p, priv, a) == DecryptSocketDataAsWritten(p, priv, b)
  {
  }

  /** Every step of decoding `line` succeeds along the given values:
      three fields decode, the key unwraps to 32 bytes, the nonce has 12,
      and AES-GCM returns `plaintext`. */
  ghost predicate StepsSucceed<Pub, Priv>(p: Primitives<Pub, Priv>, priv: Priv, line: string, plaintext: Bytes,
                                          encKey: Bytes, nonce: Bytes, ciphertext: Bytes, aesKey: Bytes)
  {
    && Unframe(line) == Ok((encKey, nonce, ciphertext))
    && p.rsaDecrypt(priv, encKey) == Ok(aesKey)
    && |aesKey| == AES_KEY_LEN && |nonce| == NONCE_LEN
    && p.aesDecrypt(aesKey, nonce, ciphertext) == Ok(plaintext)
  }

  /** Plaintext comes back only when every step succeeds: three fields,
      valid Base64 in each, the key unwraps, and AES-GCM authenticates. */
  lemma DecryptSucceedsIffAllStepsSucceed<Pub, Priv>(p: Primitives<Pub, Priv>, priv: Priv, line: string, plaintext: Bytes)
    ensures DecryptSocketData(p, priv, line) == Ok(plaintext) <==>
      exists encKey, nonce, ciphertext, aesKey :: StepsSucceed(p, priv, line, plaintext, encKey, nonce, ciphertext, aesKey)
  {
    if DecryptSocketData(p, priv, line) == Ok(plaintext) {
      DecryptOkFollowsSteps(p, priv, line, plaintext);
      var fields := Unframe(line).value;
      var aesKey := p.rsaDecrypt(priv, fields.0).value;
      assert StepsSucceed(p, priv, line, plaintext, fields.0, fields.1, fields.2, aesKey);
    } else {
      forall encKey, nonce, ciphertext, aesKey
        ensures !StepsSucceed(p, priv, line, plaintext, encKey, nonce, ciphertext, aesKey)
      {
        if StepsSucceed(p, priv, line, plaintext, encKey, nonce, ciphertext, aesKey) {
          DecryptAlongSteps(p, priv, line, encKey, nonce, ciphertext, aesKey);
        }
      }
    }
  }

  /** A plaintext comes out only along the steps of the decoder. */
  lemma DecryptOkFollowsSteps<Pub, Priv>(p: Primitives<Pub, Priv>, priv: Priv, line: string, plaintext: Bytes)
    requires DecryptSocketData(p, priv, line) == Ok(plaintext)
    ensures Unframe(line).Ok? && p.rsaDecrypt(priv, Unframe(line).value.0).Ok?
    ensures |p.rsaDecrypt(priv, Unframe(line).value.0).value| == AES_KEY_LEN && |Unframe(line).value.1| == NONCE_LEN
    ensures p.aesDecrypt(p.rsaDecrypt(priv, Unframe(line).value.0).value, Unframe(line).value.1, Unframe(line).value.2)
         == Ok(plaintext)
  {
  }

  /** Once the fields decode, the key unwraps and the sizes are right, the
      result is AES-GCM's. */
  lemma DecryptAlongSteps<Pub, Priv>(p: Primitives<Pub, Priv>, priv: Priv, line: string,
                                     encKey: Bytes, nonce: Bytes, ciphertext: Bytes, aesKey: Bytes)
    requires Unframe(line) == Ok((encKey, nonce, ciphertext))
    requires p.rsaDecrypt(priv, encKey) == Ok(aesKey)
    requires |aesKey| == AES_KEY_LEN && |nonce| == NONCE_LEN
    ensures p.aesDecrypt(aesKey, nonce, ciphertext).Ok? ==>
      DecryptSocketData(p, priv, line) == Ok(p.aesDecrypt(aesKey, nonce, ciphertext).value)
  {
  }

  /** A line whose middle field is empty (Base64 of no bytes) and whose
      key field unwraps to a proper AES key makes the source's decoder
      panic; the corrected decoder returns an error. The key field of any
      line the encoder wrote unwraps to a proper key (`EncryptedLineShape`),
      so such a line is the encoder's output with the nonce field emptied. */
  lemma AsWrittenPanicsOnEmptyNonce<Pub, Priv>(p: Primitives<Pub, Priv>, priv: Priv, encKey: Bytes, ciphertext: Bytes)
    requires p.rsaDecrypt(priv, encKey).Ok? && |p.rsaDecrypt(priv, encKey).value| == AES_KEY_LEN
    ensures DecryptSocketDataAsWritten(p, priv, Frame(encKey, [], ciphertext)).Panicked?
    ensures DecryptSocketData(p, priv, Frame(encKey, [], ciphertext)) == Err(InvalidKeyOrNonceSize)
  {
    UnframeFrame(encKey, [], ciphertext);
  }
}
