/** The chained-block Triple-DES primitive and its key-count dispatch.

    The cipher itself is a library routine; it is modelled as a pair of
    functions of (key buffer, key count, IV, data) obeying two laws: both
    preserve the length of the data, and decryption undoes encryption under
    the same key buffer, key count and IV. Nothing else about DES is
    assumed. */
module Tdes {
  import opened Bytes
  import opened Format

  datatype CipherPair = CipherPair(
    Encrypt: (seq<Byte>, int, seq<Byte>, seq<Byte>) -> seq<Byte>,
    Decrypt: (seq<Byte>, int, seq<Byte>, seq<Byte>) -> seq<Byte>)

  ghost predicate Lawful(c: CipherPair)
  {
    && (forall k, n, iv, x :: |c.Encrypt(k, n, iv, x)| == |x|)
    && (forall k, n, iv, x :: |c.Decrypt(k, n, iv, x)| == |x|)
    && (forall k, n, iv, x :: c.Decrypt(k, n, iv, c.Encrypt(k, n, iv, x)) == x)
  }

  type Cipher = c: CipherPair | Lawful(c)
    witness CipherPair((k: seq<Byte>, n: int, iv: seq<Byte>, x: seq<Byte>) => x,
                       (k: seq<Byte>, n: int, iv: seq<Byte>, x: seq<Byte>) => x)

  /** `MG_IV_NULL`. */
  const IV_NULL: seq<Byte> := Zeros(8)

  /** What a call of the primitive leaves in its destination, and the
      status it returns. */
  datatype TdesResult = TdesResult(status: Outcome, out: seq<Byte>)

  predicate TransformsWith(keyCount: int) { keyCount == 1 || keyCount == 2 || keyCount == 3 }

  /** `TdesCbcCfb64Encrypt`: 1-, 2- or 3-key CBC encryption. Only a key
      count of 3 returns 0, because the `else` pairs with the last test
      alone; any other count leaves the (in-place) buffer untouched. */
  function TdesCbcCfb64Encrypt(c: Cipher, keys: seq<Byte>, keyCount: int, iv: seq<Byte>,
                               data: seq<Byte>): (r: TdesResult)
    ensures |r.out| == |data|
    ensures r.status == Success <==> keyCount == 3
    ensures r.status != Success ==> r.status == Failure(InvalidDesKeyCount)
    ensures !TransformsWith(keyCount) ==> r.out == data
  {
    var out := if TransformsWith(keyCount) then c.Encrypt(keys, keyCount, iv, data) else data;
    TdesResult(if keyCount == 3 then Success else Failure(InvalidDesKeyCount), out)
  }

  /** `TdesCbcCfb64Decrypt`, with the same dispatch. */
  function TdesCbcCfb64Decrypt(c: Cipher, keys: seq<Byte>, keyCount: int, iv: seq<Byte>,
                               data: seq<Byte>): (r: TdesResult)
    ensures |r.out| == |data|
    ensures r.status == Success <==> keyCount == 3
    ensures r.status != Success ==> r.status == Failure(InvalidDesKeyCount)
    ensures !TransformsWith(keyCount) ==> r.out == data
  {
    var out := if TransformsWith(keyCount) then c.Decrypt(keys, keyCount, iv, data) else data;
    TdesResult(if keyCount == 3 then Success else Failure(InvalidDesKeyCount), out)
  }

  /** The dispatch as written reports a bad key count for a 1- or 2-key
      call after it has transformed the data: the `else` belongs to the
      `KeyCount == 3` test alone. */
  lemma DanglingElse(c: Cipher, keys: seq<Byte>, iv: seq<Byte>, data: seq<Byte>, keyCount: int)
    requires keyCount == 1 || keyCount == 2
    ensures TdesCbcCfb64Encrypt(c, keys, keyCount, iv, data)
              == TdesResult(Failure(InvalidDesKeyCount), c.Encrypt(keys, keyCount, iv, data))
    ensures TdesCbcCfb64Decrypt(c, keys, keyCount, iv, data)
              == TdesResult(Failure(InvalidDesKeyCount), c.Decrypt(keys, keyCount, iv, data))
  {
  }

  /** The dispatch as an `else if` chain: 1, 2 and 3 keys transform the
      data and return 0; any other count leaves it alone and returns the
      key-count error. */
  function TdesEncrypt(c: Cipher, keys: seq<Byte>, keyCount: int, iv: seq<Byte>, data: seq<Byte>): (r: TdesResult)
    ensures |r.out| == |data|
    ensures r.status == Success <==> TransformsWith(keyCount)
    ensures r.status != Success ==> r == TdesResult(Failure(InvalidDesKeyCount), data)
  {
    if TransformsWith(keyCount) then TdesResult(Success, c.Encrypt(keys, keyCount, iv, data))
    else TdesResult(Failure(InvalidDesKeyCount), data)
  }

  function TdesDecrypt(c: Cipher, keys: seq<Byte>, keyCount: int, iv: seq<Byte>, data: seq<Byte>): (r: TdesResult)
    ensures |r.out| == |data|
    ensures r.status == Success <==> TransformsWith(keyCount)
    ensures r.status != Success ==> r == TdesResult(Failure(InvalidDesKeyCount), data)
  {
    if TransformsWith(keyCount) then TdesResult(Success, c.Decrypt(keys, keyCount, iv, data))
    else TdesResult(Failure(InvalidDesKeyCount), data)
  }

  /** The corrected dispatch differs from the written one in the status
      only: every caller ignores the status, so the bytes the codec
      computes are the same. */
  lemma DispatchSameBytes(c: Cipher, keys: seq<Byte>, keyCount: int, iv: seq<Byte>, data: seq<Byte>)
    ensures TdesEncrypt(c, keys, keyCount, iv, data).out == TdesCbcCfb64Encrypt(c, keys, keyCount, iv, data).out
    ensures TdesDecrypt(c, keys, keyCount, iv, data).out == TdesCbcCfb64Decrypt(c, keys, keyCount, iv, data).out
  {
  }

  /** Decrypting with the parameters used to encrypt restores the data and
      reports the same status, whatever the key count. */
  lemma TdesRoundTrip(c: Cipher, keys: seq<Byte>, keyCount: int, iv: seq<Byte>, data: seq<Byte>)
    ensures var e := TdesEncrypt(c, keys, keyCount, iv, data);
            var d := TdesDecrypt(c, keys, keyCount, iv, e.out);
            d.out == data && d.status == e.status
  {
  }

  /** The short forms used wherever the caller ignores the status. */
  function Enc(c: Cipher, keys: seq<Byte>, keyCount: int, iv: seq<Byte>, data: seq<Byte>): (r: seq<Byte>)
    ensures |r| == |data|
  {
    TdesEncrypt(c, keys, keyCount, iv, data).out
  }

  function Dec(c: Cipher, keys: seq<Byte>, keyCount: int, iv: seq<Byte>, data: seq<Byte>): (r: seq<Byte>)
    ensures |r| == |data|
  {
    TdesDecrypt(c, keys, keyCount, iv, data).out
  }

  lemma DecEnc(c: Cipher, keys: seq<Byte>, keyCount: int, iv: seq<Byte>, data: seq<Byte>)
    ensures Dec(c, keys, keyCount, iv, Enc(c, keys, keyCount, iv, data)) == data
  {
    TdesRoundTrip(c, keys, keyCount, iv, data);
  }
}
