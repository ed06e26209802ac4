/** The payload header and its parser. Layout, in order:
      flag (1 byte; the value 1 marks a password)
      [password digest (32 bytes), salt (16 bytes)]   only when flag == 1
      ext_len (1 byte), ext (ext_len bytes)
      data_len (big-endian u32), data (data_len bytes, encrypted when locked)
    The parser walks the buffer from the front; each check below compares
    what is left of the buffer with what the next field needs, which is the
    same comparison as the running index against the buffer's length. */
module Header {
  import opened Bytes
  import opened Outcomes
  import opened KeyStream

  /** The flag value that marks a password-protected header. */
  const PasswordFlag: byte := 1
  const SaltSize: nat := 16
  /** Flag, digest and salt of a locked header. */
  const LockedPrefix: nat := 1 + DigestSize + SaltSize

  /** Either no password, keeping the flag byte that said so, or the stored
      password digest with its salt. */
  datatype Protection = Open(flag: byte) | Locked(digest: seq<byte>, salt: seq<byte>)

  datatype Header = Header(protection: Protection, ext: seq<byte>, data: seq<byte>)

  /** What the parser hands back: the (decrypted) data and the raw extension bytes. */
  datatype Recovered = Recovered(data: seq<byte>, ext: seq<byte>)

  /** A header the layout can express: an open flag other than 1, a 32-byte
      digest and a 16-byte salt, an extension that fits its length byte and
      data that fits its u32 length. */
  predicate WellFormed(h: Header)
  {
    ProtectionOk(h.protection) && |h.ext| < 256 && |h.data| < U32Limit
  }

  predicate ProtectionOk(p: Protection)
  {
    match p
    case Open(flag) => flag != PasswordFlag
    case Locked(digest, salt) => |digest| == DigestSize && |salt| == SaltSize
  }

  // ---------------------------------------------------------------------------
  // Writing a header
  // ---------------------------------------------------------------------------

  function ProtectionBytes(p: Protection): seq<byte>
  {
    match p
    case Open(flag) => [flag]
    case Locked(digest, salt) => [PasswordFlag] + digest + salt
  }

  /** ext_len, ext, data_len and data. */
  function BodyBytes(ext: seq<byte>, data: seq<byte>): (b: seq<byte>)
    requires |ext| < 256 && |data| < U32Limit
    ensures |b| == 5 + |ext| + |data|
  {
    [|ext| as byte] + ext + U32Bytes(|data|) + data
  }

  /** The bytes of a header laid out as the parser reads them. */
  function Serialize(h: Header): (b: seq<byte>)
    requires WellFormed(h)
  {
    ProtectionBytes(h.protection) + BodyBytes(h.ext, h.data)
  }

  // ---------------------------------------------------------------------------
  // Reading a header
  // ---------------------------------------------------------------------------

  /** The fields after the flag, digest and salt: ext_len, ext, data_len, data. */
  function ParseBody(p: Protection, body: seq<byte>): (r: Result<Header>)
    ensures r.Err? ==> r.error == HeaderCorrupted || r.error == DataLengthMismatch
    ensures r == Err(HeaderCorrupted) <==> |body| < 1 || |body| < 5 + body[0] as int
    ensures r.Ok? ==> r.value.protection == p
  {
    if |body| < 1 then Err(HeaderCorrupted)
    else
      var extLen := body[0] as nat;
      var rest := body[1..];
      if |rest| < extLen + 4 then Err(HeaderCorrupted)
      else
        var data := rest[extLen + 4..];
        if |data| != U32BE(rest[extLen .. extLen + 4]) then Err(DataLengthMismatch)
        else Ok(Header(p, rest[..extLen], data))
  }

  /** The structural half of _parse_header: every field is present and the
      data is exactly data_len bytes long. */
  function ParseLayout(bytes: seq<byte>): (r: Result<Header>)
    ensures r.Err? ==> r.error == HeaderCorrupted || r.error == DataLengthMismatch
    ensures |bytes| == 0 ==> r == Err(HeaderCorrupted)
    ensures |bytes| >= 1 && bytes[0] == PasswordFlag && |bytes| < LockedPrefix ==> r == Err(HeaderCorrupted)
    ensures r.Ok? ==> (r.value.protection.Locked? <==> bytes[0] == PasswordFlag)
  {
    if |bytes| < 1 then Err(HeaderCorrupted)
    else if bytes[0] == PasswordFlag then
      if |bytes| < LockedPrefix then Err(HeaderCorrupted)
      else
        var digest := bytes[1 .. 1 + DigestSize];
        var salt := bytes[1 + DigestSize .. LockedPrefix];
        ParseBody(Locked(digest, salt), bytes[LockedPrefix..])
    else ParseBody(Open(bytes[0]), bytes[1..])
  }

  /** The password half of _parse_header: an open header yields its data as
      stored; a locked one needs a password whose digest matches, and its
      data is XOR-ed with the key stream. */
  function Unlock(hash: Hasher, h: Header, password: seq<byte>): (r: Result<Recovered>)
    ensures r.Err? ==> h.protection.Locked? && (r.error == PasswordRequired || r.error == WrongPassword)
    ensures r.Ok? ==> r.value.ext == h.ext && |r.value.data| == |h.data|
    ensures h.protection.Open? ==> r == Ok(Recovered(h.data, h.ext))
    ensures h.protection.Locked? ==> (r == Err(PasswordRequired) <==> |password| == 0)
    ensures h.protection.Locked? ==>
              (r == Err(WrongPassword) <==>
                 |password| > 0 && PasswordDigest(hash, password, h.protection.salt) != h.protection.digest)
    ensures h.protection.Locked? && r.Ok? ==>
              XorBytes(r.value.data, KeyStreamOf(hash, password, h.protection.salt, |h.data|)) == h.data
  {
    match h.protection
    case Open(_) => Ok(Recovered(h.data, h.ext))
    case Locked(digest, salt) =>
      if |password| == 0 then Err(PasswordRequired)
      else if hash(KeyMaterial(password, salt)) != digest then Err(WrongPassword)
      else
        var ks := KeyStreamOf(hash, password, salt, |h.data|);
        XorInvolution(h.data, ks);
        Ok(Recovered(XorBytes(h.data, ks), h.ext))
  }

  /** _parse_header: the structural checks first, then the password. A
      password error is reported only for a buffer that is a header's layout,
      and a result is recovered only from such a buffer, with that header's
      extension and as many data bytes as it stores. */
  function ParseHeader(hash: Hasher, bytes: seq<byte>, password: seq<byte>): (r: Result<Recovered>)
    ensures r.Err? ==> ((r.error == PasswordRequired || r.error == WrongPassword) <==> ParseLayout(bytes).Ok?)
    ensures r.Ok? ==> exists h :: WellFormed(h) && Serialize(h) == bytes
                                  && r.value.ext == h.ext && |r.value.data| == |h.data|
  {
    var h :- ParseLayout(bytes);
    ParseLayoutIff(bytes, h);
    Unlock(hash, h, password)
  }

  /** A buffer that is the layout of a header h reads as h unlocked with the
      password. */
  lemma ParseHeaderOfLayout(hash: Hasher, h: Header, password: seq<byte>)
    requires WellFormed(h)
    ensures ParseHeader(hash, Serialize(h), password) == Unlock(hash, h, password)
  {
    LayoutRoundTrip(h);
  }

  /** _parse_header succeeds exactly on the layout of a well-formed header that
      is open, or locked with a non-empty password whose digest matches. */
  lemma ParseHeaderIff(hash: Hasher, bytes: seq<byte>, password: seq<byte>)
    ensures ParseHeader(hash, bytes, password).Ok? <==>
              exists h :: WellFormed(h) && Serialize(h) == bytes && Unlocks(hash, h, password)
  {
    if ParseLayout(bytes).Ok? {
      var h := ParseLayout(bytes).value;
      ParseLayoutIff(bytes, h);
    }
    if exists h :: WellFormed(h) && Serialize(h) == bytes && Unlocks(hash, h, password) {
      var h :| WellFormed(h) && Serialize(h) == bytes && Unlocks(hash, h, password);
      ParseHeaderOfLayout(hash, h, password);
    }
  }

  /** The password opens the header: it is open, or the password is non-empty
      and its digest is the stored one. */
  predicate Unlocks(hash: Hasher, h: Header, password: seq<byte>)
  {
    h.protection.Locked? ==>
      |password| > 0 && PasswordDigest(hash, password, h.protection.salt) == h.protection.digest
  }

  // ---------------------------------------------------------------------------
  // The layout round trip
  // ---------------------------------------------------------------------------

  /** The layout of an extension and data parses back to them. */
  lemma ParseBodyOfLayout(p: Protection, ext: seq<byte>, data: seq<byte>)
    requires |ext| < 256 && |data| < U32Limit
    ensures ParseBody(p, BodyBytes(ext, data)) == Ok(Header(p, ext, data))
  {
    var lenField := U32Bytes(|data|);
    var rest := BodyBytes(ext, data)[1..];
    assert rest == ext + lenField + data;
    assert rest[..|ext|] == ext;
    assert rest[|ext| .. |ext| + 4] == lenField;
    assert rest[|ext| + 4..] == data;
  }

  /** Whatever the body fields parse to, they are its layout. */
  lemma ParseBodyIsLayout(p: Protection, body: seq<byte>)
    requires ParseBody(p, body).Ok?
    ensures var h := ParseBody(p, body).value;
            |h.ext| < 256 && |h.data| < U32Limit && body == BodyBytes(h.ext, h.data)
  {
    var extLen := body[0] as nat;
    var rest := body[1..];
    var lenField := rest[extLen .. extLen + 4];
    var ext := rest[..extLen];
    var data := rest[extLen + 4..];
    U32BytesOfValue(lenField);
    assert rest == ext + lenField + data;
    assert body == [body[0]] + rest;
  }

  /** The body fields parse to (ext, data) exactly when they are their layout. */
  lemma ParseBodyIff(p: Protection, body: seq<byte>, ext: seq<byte>, data: seq<byte>)
    ensures ParseBody(p, body) == Ok(Header(p, ext, data)) <==>
              |ext| < 256 && |data| < U32Limit && body == BodyBytes(ext, data)
  {
    if |ext| < 256 && |data| < U32Limit && body == BodyBytes(ext, data) {
      ParseBodyOfLayout(p, ext, data);
    }
    if ParseBody(p, body) == Ok(Header(p, ext, data)) {
      ParseBodyIsLayout(p, body);
    }
  }

  /** Behind a well-formed flag (and digest and salt) the parser reads the
      body fields, whatever they are. */
  lemma ParseAfterProtection(p: Protection, body: seq<byte>)
    requires ProtectionOk(p)
    ensures ParseLayout(ProtectionBytes(p) + body) == ParseBody(p, body)
  {
    var bytes := ProtectionBytes(p) + body;
    match p
    case Open(flag) =>
      assert bytes[1..] == body;
    case Locked(digest, salt) =>
      assert bytes[1 .. 1 + DigestSize] == digest;
      assert bytes[1 + DigestSize .. LockedPrefix] == salt;
      assert bytes[LockedPrefix..] == body;
  }

  /** Every well-formed header survives writing and reading back. */
  lemma LayoutRoundTrip(h: Header)
    requires WellFormed(h)
    ensures ParseLayout(Serialize(h)) == Ok(h)
  {
    ParseAfterProtection(h.protection, BodyBytes(h.ext, h.data));
    ParseBodyOfLayout(h.protection, h.ext, h.data);
  }

  /** Whatever a buffer parses to is well formed, and the buffer is its layout. */
  lemma ParsedIsLayout(bytes: seq<byte>)
    requires ParseLayout(bytes).Ok?
    ensures WellFormed(ParseLayout(bytes).value) && Serialize(ParseLayout(bytes).value) == bytes
  {
    if bytes[0] == PasswordFlag {
      var p := Locked(bytes[1 .. 1 + DigestSize], bytes[1 + DigestSize .. LockedPrefix]);
      var body := bytes[LockedPrefix..];
      assert bytes == ProtectionBytes(p) + body;
      ParsedAfterProtection(bytes, p, body);
    } else {
      var p := Open(bytes[0]);
      var body := bytes[1..];
      assert bytes == ProtectionBytes(p) + body;
      ParsedAfterProtection(bytes, p, body);
    }
  }

  /** ParsedIsLayout once the buffer is split into protection and body. */
  lemma ParsedAfterProtection(bytes: seq<byte>, p: Protection, body: seq<byte>)
    requires ProtectionOk(p) && bytes == ProtectionBytes(p) + body
    ensures ParseLayout(bytes) == ParseBody(p, body)
    ensures ParseBody(p, body).Ok? ==>
              WellFormed(ParseBody(p, body).value) && Serialize(ParseBody(p, body).value) == bytes
  {
    ParseAfterProtection(p, body);
    if ParseBody(p, body).Ok? {
      ParseBodyIsLayout(p, body);
    }
  }

  /** A buffer parses to h exactly when h is well formed and the buffer is h's layout. */
  lemma ParseLayoutIff(bytes: seq<byte>, h: Header)
    ensures ParseLayout(bytes) == Ok(h) <==> WellFormed(h) && Serialize(h) == bytes
  {
    if ParseLayout(bytes) == Ok(h) {
      ParsedIsLayout(bytes);
    }
    if WellFormed(h) && Serialize(h) == bytes {
      LayoutRoundTrip(h);
    }
  }

  // ---------------------------------------------------------------------------
  // Truncation, extension and tampering
  // ---------------------------------------------------------------------------

  /** Cutting the body fields short: before the data starts the fields are
      missing, inside the data the length no longer matches. */
  lemma BodyPrefixRejected(p: Protection, ext: seq<byte>, data: seq<byte>, n: nat)
    requires |ext| < 256 && |data| < U32Limit && n < |BodyBytes(ext, data)|
    ensures ParseBody(p, BodyBytes(ext, data)[..n])
            == Err(if n < 5 + |ext| then HeaderCorrupted else DataLengthMismatch)
  {
    var body := BodyBytes(ext, data);
    var cut := body[..n];
    if n >= 5 + |ext| {
      var lenField := U32Bytes(|data|);
      var tail := ext + lenField + data;
      assert body[1..] == tail;
      var rest := cut[1..];
      assert rest == tail[..n - 1];
      assert tail[|ext| .. |ext| + 4] == lenField;
      assert rest[|ext| .. |ext| + 4] == lenField;
      assert |rest[|ext| + 4..]| == n - 5 - |ext| < |data|;
    }
  }

  /** Bytes after the data: the length no longer matches. */
  lemma BodyExtensionRejected(p: Protection, ext: seq<byte>, data: seq<byte>, extra: seq<byte>)
    requires |ext| < 256 && |data| < U32Limit && |extra| > 0
    ensures ParseBody(p, BodyBytes(ext, data) + extra) == Err(DataLengthMismatch)
  {
    var lenField := U32Bytes(|data|);
    var rest := (BodyBytes(ext, data) + extra)[1..];
    assert rest == ext + lenField + (data + extra);
    assert rest[|ext| .. |ext| + 4] == lenField;
    assert rest[|ext| + 4..] == data + extra;
  }

  /** Any strict prefix of a header's layout is rejected: with HeaderCorrupted
      while a field before the data is cut, with DataLengthMismatch once only
      data bytes are missing. */
  lemma TruncationDetected(h: Header, n: nat)
    requires WellFormed(h) && n < |Serialize(h)|
    ensures ParseLayout(Serialize(h)[..n])
            == Err(if n < |Serialize(h)| - |h.data| then HeaderCorrupted else DataLengthMismatch)
  {
    var prefix := ProtectionBytes(h.protection);
    var body := BodyBytes(h.ext, h.data);
    var cut := Serialize(h)[..n];
    if n >= |prefix| {
      assert cut == prefix + body[..n - |prefix|];
      ParseAfterProtection(h.protection, body[..n - |prefix|]);
      BodyPrefixRejected(h.protection, h.ext, h.data, n - |prefix|);
    } else if n > 0 {
      assert cut[0] == prefix[0];
    }
  }

  /** Bytes appended after the data are rejected: data_len no longer matches. */
  lemma ExtensionDetected(h: Header, extra: seq<byte>)
    requires WellFormed(h) && |extra| > 0
    ensures ParseLayout(Serialize(h) + extra) == Err(DataLengthMismatch)
  {
    var body := BodyBytes(h.ext, h.data);
    assert Serialize(h) + extra == ProtectionBytes(h.protection) + (body + extra);
    ParseAfterProtection(h.protection, body + extra);
    BodyExtensionRejected(h.protection, h.ext, h.data, extra);
  }

  /** The header carries no integrity check over the data: replacing the data
      of an open header by any bytes of the same length still parses, and the
      replacement is what comes back. */
  lemma DataTamperUndetected(hash: Hasher, h: Header, forged: seq<byte>, password: seq<byte>)
    requires WellFormed(h) && h.protection.Open? && |forged| == |h.data|
    ensures ParseHeader(hash, Serialize(h.(data := forged)), password) == Ok(Recovered(forged, h.ext))
  {
    LayoutRoundTrip(h.(data := forged));
  }

  /** Nor over the ciphertext: the digest of a locked header covers only the
      password and the salt, so replacing its data by any bytes of the same
      length still unlocks with the password, and the replacement, XOR-ed with
      the key stream, is what comes back. */
  lemma LockedTamperUndetected(hash: Hasher, h: Header, forged: seq<byte>, password: seq<byte>)
    requires WellFormed(h) && h.protection.Locked? && |forged| == |h.data|
    requires |password| > 0 && PasswordDigest(hash, password, h.protection.salt) == h.protection.digest
    ensures ParseHeader(hash, Serialize(h.(data := forged)), password)
            == Ok(Recovered(XorBytes(forged, KeyStreamOf(hash, password, h.protection.salt, |forged|)), h.ext))
  {
    LayoutRoundTrip(h.(data := forged));
  }

  // ---------------------------------------------------------------------------
  // Passwords
  // ---------------------------------------------------------------------------

  /** A locked header built by hand to the layout the parser reads: the
      password's digest, the salt, and the data XOR-ed with the key stream. */
  function Seal(hash: Hasher, password: seq<byte>, salt: seq<byte>, ext: seq<byte>, plain: seq<byte>): (h: Header)
    ensures |h.data| == |plain|
  {
    var ks := KeyStreamOf(hash, password, salt, |plain|);
    Header(Locked(PasswordDigest(hash, password, salt), salt), ext, XorBytes(plain, ks))
  }

  /** The right password recovers the plain data and the extension. */
  lemma SealedRoundTrip(hash: Hasher, password: seq<byte>, salt: seq<byte>, ext: seq<byte>, plain: seq<byte>)
    requires |password| > 0 && |salt| == SaltSize && |ext| < 256 && |plain| < U32Limit
    ensures ParseHeader(hash, Serialize(Seal(hash, password, salt, ext, plain)), password)
            == Ok(Recovered(plain, ext))
  {
    var h := Seal(hash, password, salt, ext, plain);
    LayoutRoundTrip(h);
    XorInvolution(plain, KeyStreamOf(hash, password, salt, |plain|));
  }

  /** A password whose digest differs from the stored one is refused. */
  lemma WrongPasswordRejected(hash: Hasher, password: seq<byte>, salt: seq<byte>, ext: seq<byte>,
                              plain: seq<byte>, guess: seq<byte>)
    requires |salt| == SaltSize && |ext| < 256 && |plain| < U32Limit
    requires |guess| > 0 && PasswordDigest(hash, guess, salt) != PasswordDigest(hash, password, salt)
    ensures ParseHeader(hash, Serialize(Seal(hash, password, salt, ext, plain)), guess) == Err(WrongPassword)
  {
    LayoutRoundTrip(Seal(hash, password, salt, ext, plain));
  }

  /** A locked header read without a password asks for one. */
  lemma PasswordRequiredWhenLocked(hash: Hasher, password: seq<byte>, salt: seq<byte>, ext: seq<byte>,
                                   plain: seq<byte>)
    requires |salt| == SaltSize && |ext| < 256 && |plain| < U32Limit
    ensures ParseHeader(hash, Serialize(Seal(hash, password, salt, ext, plain)), []) == Err(PasswordRequired)
  {
    LayoutRoundTrip(Seal(hash, password, salt, ext, plain));
  }

  /** An open header yields its data and extension whatever password is given. */
  lemma OpenRoundTrip(hash: Hasher, flag: byte, ext: seq<byte>, data: seq<byte>, password: seq<byte>)
    requires flag != PasswordFlag && |ext| < 256 && |data| < U32Limit
    ensures ParseHeader(hash, Serialize(Header(Open(flag), ext, data)), password) == Ok(Recovered(data, ext))
  {
    LayoutRoundTrip(Header(Open(flag), ext, data));
  }

  /** An open header with extension "txt" and data "hello" is 14 bytes long:
      flag, ext_len, three extension bytes, four length bytes, five data bytes. */
  lemma HelloTxt(hash: Hasher, password: seq<byte>)
    ensures ParseHeader(hash, [0, 3, 116, 120, 116, 0, 0, 0, 5, 104, 101, 108, 108, 111], password)
            == Ok(Recovered([104, 101, 108, 108, 111], [116, 120, 116]))
  {
    var h := Header(Open(0), [116, 120, 116], [104, 101, 108, 108, 111]);
    assert U32Bytes(5) == [0, 0, 0, 5];
    assert Serialize(h) == [0, 3, 116, 120, 116, 0, 0, 0, 5, 104, 101, 108, 108, 111];
    OpenRoundTrip(hash, 0, h.ext, h.data, password);
  }

  /** The same header without its last byte announces five data bytes but
      carries four. */
  lemma HelloTxtTruncated()
    ensures ParseLayout([0, 3, 116, 120, 116, 0, 0, 0, 5, 104, 101, 108, 108]) == Err(DataLengthMismatch)
  {
    var rest: seq<byte> := [116, 120, 116, 0, 0, 0, 5, 104, 101, 108, 108];
    assert U32BE(rest[3 .. 7]) == 5;
  }
}
