/** The key stream that encrypts a locked payload: SHA-256 blocks of the key
    material followed by an ASCII decimal counter, concatenated and cut to
    the requested length. SHA-256 itself is a parameter of every operation. */
module KeyStream {
  import opened Bytes
  import opened Outcomes
  import opened Arith

  /** Size of one SHA-256 digest in bytes. */
  const DigestSize: nat := 32

  type Digest = s: seq<byte> | |s| == DigestSize witness seq(32, _ => 0)

  /** hashlib.sha256(m).digest(), taken as given. */
  type Hasher = seq<byte> -> Digest

  // ---------------------------------------------------------------------------
  // salt.hex() and str(counter), as the ASCII bytes .encode("utf-8") yields
  // ---------------------------------------------------------------------------

  /** The lower-case hexadecimal digit of a nibble: '0'..'9', then 'a'..'f'. */
  function HexDigit(d: nat): (c: byte)
    requires d < 16
    ensures 48 <= c <= 57 || 97 <= c <= 102
  {
    if d < 10 then 48 + d else 87 + d
  }

  /** The nibble a lower-case hexadecimal digit stands for. */
  function HexValue(c: byte): Option<nat>
  {
    if 48 <= c <= 57 then Some(c - 48)
    else if 97 <= c <= 102 then Some(c - 87)
    else None
  }

  /** bytes.hex(): two lower-case digits per byte, high nibble first. */
  function Hex(bytes: seq<byte>): (s: seq<byte>)
    ensures |s| == 2 * |bytes|
  {
    if |bytes| == 0 then []
    else [HexDigit(bytes[0] / 16), HexDigit(bytes[0] % 16)] + Hex(bytes[1..])
  }

  /** bytes.fromhex restricted to lower-case digits: the inverse of Hex. */
  function UnHex(s: seq<byte>): Option<seq<byte>>
    decreases |s|
  {
    if |s| == 0 then Some([])
    else if |s| == 1 then None
    else
      match (HexValue(s[0]), HexValue(s[1]), UnHex(s[2..]))
      case (Some(hi), Some(lo), Some(rest)) => Some([(16 * hi + lo) as byte] + rest)
      case _ => None
  }

  /** Reading the hex form back yields the bytes. */
  lemma {:induction false} UnHexHex(bytes: seq<byte>)
    ensures UnHex(Hex(bytes)) == Some(bytes)
  {
    if |bytes| > 0 {
      var b := bytes[0];
      var s := Hex(bytes);
      assert s[2..] == Hex(bytes[1..]);
      UnHexHex(bytes[1..]);
      assert HexValue(HexDigit(b / 16)) == Some(b / 16);
      assert HexValue(HexDigit(b % 16)) == Some(b % 16);
      assert bytes == [b] + bytes[1..];
    }
  }

  /** Two salts with the same hex form are the same salt. */
  lemma HexInjective(a: seq<byte>, b: seq<byte>)
    requires Hex(a) == Hex(b)
    ensures a == b
  {
    UnHexHex(a);
    UnHexHex(b);
  }

  predicate IsDigit(c: byte)
  {
    48 <= c <= 57
  }

  /** str(n).encode(): the ASCII decimal digits of n, without leading zeros. */
  function Decimal(n: nat): (s: seq<byte>)
    ensures |s| >= 1 && forall i :: 0 <= i < |s| ==> IsDigit(s[i])
    ensures s[0] == 48 ==> n == 0
  {
    if n < 10 then [48 + n] else Decimal(n / 10) + [48 + n % 10]
  }

  /** int(s) for a string of ASCII digits. */
  function DecimalValue(s: seq<byte>): nat
    requires forall i :: 0 <= i < |s| ==> IsDigit(s[i])
  {
    if |s| == 0 then 0
    else
      var last := s[|s| - 1];
      assert IsDigit(last);
      10 * DecimalValue(s[..|s| - 1]) + (last - 48)
  }

  /** Reading the decimal form back yields the counter. */
  lemma {:induction false} DecimalValueOf(n: nat)
    ensures DecimalValue(Decimal(n)) == n
  {
    if n >= 10 {
      var s := Decimal(n);
      assert s[..|s| - 1] == Decimal(n / 10);
      DecimalValueOf(n / 10);
    }
  }

  /** Distinct counters give distinct suffixes, so no block repeats another's input. */
  lemma DecimalInjective(a: nat, b: nat)
    requires Decimal(a) == Decimal(b)
    ensures a == b
  {
    DecimalValueOf(a);
    DecimalValueOf(b);
  }

  // ---------------------------------------------------------------------------
  // The key stream
  // ---------------------------------------------------------------------------

  /** (password + salt.hex()).encode("utf-8"), with the password given as its
      UTF-8 bytes: the password comes first, and the rest reads back as the salt. */
  function KeyMaterial(password: seq<byte>, salt: seq<byte>): (m: seq<byte>)
    ensures |m| == |password| + 2 * |salt|
    ensures m[..|password|] == password
    ensures UnHex(m[|password|..]) == Some(salt)
  {
    var m := password + Hex(salt);
    assert m[|password|..] == Hex(salt);
    UnHexHex(salt);
    m
  }

  /** Distinct salts give distinct key material for the same password, and so
      distinct block inputs. */
  lemma KeyMaterialInjective(password: seq<byte>, a: seq<byte>, b: seq<byte>)
    requires KeyMaterial(password, a) == KeyMaterial(password, b)
    ensures a == b
  {
  }

  /** The digest stored in a locked header for a password and salt. */
  function PasswordDigest(hash: Hasher, password: seq<byte>, salt: seq<byte>): Digest
  {
    hash(KeyMaterial(password, salt))
  }

  /** Block number counter of the stream. */
  function Block(hash: Hasher, material: seq<byte>, counter: nat): Digest
  {
    hash(material + Decimal(counter))
  }

  /** The first n blocks, concatenated. */
  function Blocks(hash: Hasher, material: seq<byte>, n: nat): (r: seq<byte>)
    ensures |r| == DigestSize * n
  {
    if n == 0 then [] else Blocks(hash, material, n - 1) + Block(hash, material, n - 1)
  }

  /** Byte i of the concatenation is byte i mod 32 of block i div 32. */
  lemma {:induction false} BlocksAt(hash: Hasher, material: seq<byte>, n: nat, i: nat)
    requires i < DigestSize * n
    ensures Blocks(hash, material, n)[i] == Block(hash, material, i / DigestSize)[i % DigestSize]
  {
    var prefix := Blocks(hash, material, n - 1);
    assert Blocks(hash, material, n) == prefix + Block(hash, material, n - 1);
    if i < DigestSize * (n - 1) {
      BlocksAt(hash, material, n - 1, i);
    } else {
      DivModUnique(i, DigestSize, n - 1, i - DigestSize * (n - 1));
    }
  }

  /** Fewer blocks are a prefix of more blocks. */
  lemma {:induction false} BlocksPrefix(hash: Hasher, material: seq<byte>, m: nat, n: nat)
    requires m <= n
    ensures Blocks(hash, material, m) <= Blocks(hash, material, n)
    decreases n
  {
    if m < n {
      BlocksPrefix(hash, material, m, n - 1);
    }
  }

  /** How many blocks the generator's loop produces: the fewest whose bytes
      cover the length. */
  function BlockCount(length: nat): (n: nat)
    ensures DigestSize * n >= length
    ensures n == 0 || DigestSize * (n - 1) < length
  {
    (length + DigestSize - 1) / DigestSize
  }

  /** The key stream as a value: the first `length` bytes of the blocks. */
  function KeyStreamOf(hash: Hasher, password: seq<byte>, salt: seq<byte>, length: nat): (ks: seq<byte>)
    ensures |ks| == length
  {
    Blocks(hash, KeyMaterial(password, salt), BlockCount(length))[..length]
  }

  /** _generate_key_stream: extend the output one digest at a time while it
      is shorter than the length, then cut it to the length. */
  method GenerateKeyStream(hash: Hasher, password: seq<byte>, salt: seq<byte>, length: nat)
    returns (ks: seq<byte>)
    ensures ks == KeyStreamOf(hash, password, salt, length)
  {
    var material := KeyMaterial(password, salt);
    var out: seq<byte> := [];
    var counter: nat := 0;
    while |out| < length
      invariant out == Blocks(hash, material, counter)
      invariant counter <= BlockCount(length)
      decreases length - |out|
    {
      out := out + hash(material + Decimal(counter));
      counter := counter + 1;
    }
    ks := out[..length];
  }

  /** Byte i of the key stream is byte i mod 32 of the digest of the key
      material followed by the decimal form of i div 32. */
  lemma KeyStreamAt(hash: Hasher, password: seq<byte>, salt: seq<byte>, length: nat, i: nat)
    requires i < length
    ensures KeyStreamOf(hash, password, salt, length)[i]
            == hash(KeyMaterial(password, salt) + Decimal(i / DigestSize))[i % DigestSize]
  {
    BlocksAt(hash, KeyMaterial(password, salt), BlockCount(length), i);
  }

  /** A shorter key stream is a prefix of a longer one for the same password and salt. */
  lemma KeyStreamPrefix(hash: Hasher, password: seq<byte>, salt: seq<byte>, short: nat, long: nat)
    requires short <= long
    ensures KeyStreamOf(hash, password, salt, short) == KeyStreamOf(hash, password, salt, long)[..short]
  {
    var material := KeyMaterial(password, salt);
    BlocksPrefix(hash, material, BlockCount(short), BlockCount(long));
  }
}
