/** Decoding a carrier image: try the bit depths 2, 6 and 8 in turn, stop at
    the first whose payload parses, and otherwise report the last error. */
module Decoder {
  import opened Bytes
  import opened Outcomes
  import opened KeyStream
  import opened BitPlane
  import opened Header

  /** The bit depths the decoder tries, in order. */
  const Depths: seq<nat> := [2, 6, 8]

  /** One pass of the loop body: extract the payload at depth k, then parse it. */
  function Attempt(hash: Hasher, c: Carrier, password: seq<byte>, k: nat): (r: Result<Recovered>)
    requires c.Valid() && 1 <= k <= 8
    ensures r.Err? ==> r.error != DecodeFailed
  {
    var header :- ExtractPayload(c, k);
    ParseHeader(hash, header, password)
  }

  /** What the loop ends with, and how many attempts it made. */
  datatype Trial<R> = Trial(result: Result<R>, tried: nat)

  /** The loop over the attempts still to make, in order; lastErr is the error
      of the previous attempt, None before the first. The loop stops at the
      first success; with nothing left to try it ends with the last error, or
      with a generic failure if there was none. The attempts are pure, so
      having their results at hand before the loop starts changes nothing:
      `tried` counts the ones the loop actually looks at. */
  function FirstSuccess<R>(attempts: seq<Result<R>>, lastErr: Option<Error>): (o: Trial<R>)
    ensures o.tried <= |attempts|
    ensures forall i :: 0 <= i < o.tried - 1 ==> attempts[i].Err?
    ensures o.result.Ok? ==> o.tried > 0 && o.result == attempts[o.tried - 1]
    ensures o.result.Err? ==> o.tried == |attempts|
    ensures |attempts| == 0 ==> o.result == Err(lastErr.GetOr(DecodeFailed))
    ensures |attempts| > 0 && o.result.Err? ==> o.result == attempts[|attempts| - 1]
    decreases |attempts|
  {
    if |attempts| == 0 then Trial(Err(lastErr.GetOr(DecodeFailed)), 0)
    else if attempts[0].Ok? then Trial(attempts[0], 1)
    else
      var rest := FirstSuccess(attempts[1..], Some(attempts[0].error));
      Trial(rest.result, rest.tried + 1)
  }

  /** The loop succeeds exactly when some attempt does. */
  lemma {:induction false} FirstSuccessIff<R>(attempts: seq<Result<R>>, lastErr: Option<Error>)
    ensures FirstSuccess(attempts, lastErr).result.Ok? <==> exists i :: 0 <= i < |attempts| && attempts[i].Ok?
    decreases |attempts|
  {
    if |attempts| > 0 && attempts[0].Err? {
      FirstSuccessIff(attempts[1..], Some(attempts[0].error));
      if exists i :: 0 <= i < |attempts| && attempts[i].Ok? {
        var i :| 0 <= i < |attempts| && attempts[i].Ok?;
        assert attempts[1..][i - 1].Ok?;
      }
    }
  }

  /** The attempts at the depths 2, 6 and 8, in that order. */
  function Attempts(hash: Hasher, c: Carrier, password: seq<byte>): seq<Result<Recovered>>
    requires c.Valid()
  {
    seq(|Depths|, i requires 0 <= i < |Depths| => Attempt(hash, c, password, Depths[i]))
  }

  /** The decoder's result for a carrier and a password: the loop unrolled,
      the first depth that parses wins, and when none does the error is the
      one from depth 8. */
  function Decode(hash: Hasher, c: Carrier, password: seq<byte>): (r: Result<Recovered>)
    requires c.Valid()
    ensures var a2 := Attempt(hash, c, password, 2);
            var a6 := Attempt(hash, c, password, 6);
            var a8 := Attempt(hash, c, password, 8);
            r == (if a2.Ok? then a2 else if a6.Ok? then a6 else a8)
  {
    var a := Attempts(hash, c, password);
    FirstSuccessOfThree(a);
    FirstSuccess(a, None).result
  }

  /** The loop over three attempts, unrolled. */
  lemma FirstSuccessOfThree<R>(a: seq<Result<R>>)
    requires |a| == 3
    ensures FirstSuccess(a, None).result == (if a[0].Ok? then a[0] else if a[1].Ok? then a[1] else a[2])
  {
    assert a[1..][1..][1..] == [];
  }

  /** The generic failure is never reported: the list of depths is not empty,
      so the loop always ends with the last attempt's own error. */
  lemma DecodeNeverGeneric(hash: Hasher, c: Carrier, password: seq<byte>)
    requires c.Valid()
    ensures Decode(hash, c, password).Err? ==> Decode(hash, c, password) == Attempt(hash, c, password, 8)
    ensures Decode(hash, c, password) != Err(DecodeFailed)
  {
  }

  /** A locked header whose frame opens the depth-2 bit stream comes back
      out, decrypted, with the password it was sealed with. */
  lemma SealedPayloadDecodes(hash: Hasher, c: Carrier, password: seq<byte>, salt: seq<byte>,
                             ext: seq<byte>, plain: seq<byte>)
    requires c.Valid()
    requires |password| > 0 && |salt| == SaltSize && |ext| < 256 && |plain| < U32Limit
    requires var payload := Serialize(Seal(hash, password, salt, ext, plain));
             |payload| < U32Limit && UnpackBytes(Frame(payload)) <= CarrierBits(c, 2)
    ensures Decode(hash, c, password) == Ok(Recovered(plain, ext))
  {
    var payload := Serialize(Seal(hash, password, salt, ext, plain));
    ExtractIffFramed(c, 2, payload);
    SealedRoundTrip(hash, password, salt, ext, plain);
  }

  /** An open header whose frame opens the depth-2 bit stream comes back out
      as stored, whatever password is supplied. */
  lemma OpenPayloadDecodes(hash: Hasher, c: Carrier, password: seq<byte>, flag: byte,
                           ext: seq<byte>, data: seq<byte>)
    requires c.Valid()
    requires flag != PasswordFlag && |ext| < 256 && |data| < U32Limit
    requires var payload := Serialize(Header(Open(flag), ext, data));
             |payload| < U32Limit && UnpackBytes(Frame(payload)) <= CarrierBits(c, 2)
    ensures Decode(hash, c, password) == Ok(Recovered(data, ext))
  {
    var payload := Serialize(Header(Open(flag), ext, data));
    ExtractIffFramed(c, 2, payload);
    OpenRoundTrip(hash, flag, ext, data, password);
  }

  // ---------------------------------------------------------------------------
  // rstrip(b"\x00")
  // ---------------------------------------------------------------------------

  /** bytes.rstrip(b"\x00"): drop the trailing zero bytes. What remains is a
      prefix that is empty or ends in a non-zero byte, and everything cut off
      is zero. */
  function StripTrailingZeros(s: seq<byte>): (r: seq<byte>)
    ensures r <= s
    ensures |r| == 0 || r[|r| - 1] != 0
    ensures forall i :: |r| <= i < |s| ==> s[i] == 0
    decreases |s|
  {
    if |s| == 0 || s[|s| - 1] != 0 then s else StripTrailingZeros(s[..|s| - 1])
  }

  /** Those three facts pin the result down: any prefix that ends in a
      non-zero byte (or is empty) and leaves only zeros behind is the result. */
  lemma StripUnique(s: seq<byte>, p: seq<byte>)
    requires p <= s && (|p| == 0 || p[|p| - 1] != 0)
    requires forall i :: |p| <= i < |s| ==> s[i] == 0
    ensures StripTrailingZeros(s) == p
  {
  }

  /** Stripping twice is stripping once. */
  lemma StripIdempotent(s: seq<byte>)
    ensures StripTrailingZeros(StripTrailingZeros(s)) == StripTrailingZeros(s)
  {
    var r := StripTrailingZeros(s);
    StripUnique(r, r);
  }

  /** Zero padding after the content is removed, whatever its length. */
  lemma StripPadding(s: seq<byte>, n: nat)
    ensures StripTrailingZeros(s + seq(n, _ => 0)) == StripTrailingZeros(s)
  {
    var r := StripTrailingZeros(s);
    var padded := s + seq(n, _ => 0);
    assert r <= padded by { assert padded[..|s|] == s; }
    StripUnique(padded, r);
  }

  /** Content that itself ends in a zero byte does not survive: the stripped
      result is strictly shorter. */
  lemma TrailingZeroLost(s: seq<byte>)
    requires |s| > 0 && s[|s| - 1] == 0
    ensures |StripTrailingZeros(s)| < |s|
  {
  }
}
