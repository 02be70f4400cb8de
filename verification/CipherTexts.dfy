/**
  What the AES and DES wrappers put into a cipher text, and what they make of a cipher text that they
  did not make themselves.
*/
module CipherTexts {
  import opened Bytes
  import opened Options
  import opened PaddedCiphers

  // ---------------------------------------------------------------- blocks and padding

  /** In electronic code book mode, each block of the result is made of the same block of the text. */
  lemma {:induction false} EcbBlock(op: BlockOp, key: seq<byte>, size: nat, text: seq<byte>, pos: nat)
    requires 0 < size && KeepsSize(op, size) && |text| % size == 0
    requires pos % size == 0 && pos + size <= |text|
    ensures |Ecb(op, key, size, text)| == |text|
    ensures Ecb(op, key, size, text)[pos..pos + size] == op(key, text[pos..pos + size])
    decreases |text|
  {
    EcbLength(op, key, size, text);
    var first, rest := op(key, text[..size]), Ecb(op, key, size, text[size..]);
    if pos < size {
      SmallMultiple(pos, size);
      assert (first + rest)[0..size] == first && text[0..size] == text[..size];
    } else {
      DropBlock(|text|, size);
      DropBlock(pos, size);
      EcbBlock(op, key, size, text[size..], pos - size);
      BehindFirst(first, rest, size, pos);
      assert text[size..][pos - size..pos] == text[pos..pos + size];
    }
  }

  lemma BehindFirst(first: seq<byte>, rest: seq<byte>, size: nat, pos: nat)
    requires |first| == size <= pos && pos <= |rest|
    ensures (first + rest)[pos..pos + size] == rest[pos - size..pos]
  {
  }

  /** The padding is 1 to `size` bytes, each of which tells how many they are. */
  lemma Pkcs7Is(s: seq<byte>, size: byte) returns (n: nat)
    requires 0 < size
    ensures 1 <= n <= size && |Pkcs7(s, size)| == |s| + n
    ensures Pkcs7(s, size)[..|s|] == s && forall i :: |s| <= i < |s| + n ==> Pkcs7(s, size)[i] == n
    ensures (|s| + n) % size == 0
  {
    n := size - |s| % size;
    var q := |s| / size;
    assert |s| + n == size * (q + 1) + 0;
    Quotient(|s| + n, size, q + 1, 0);
  }

  lemma PaddedText()
    ensures Pkcs7([1, 2, 3], 8) == [1, 2, 3, 5, 5, 5, 5, 5]
    ensures Pkcs7([1, 2, 3, 4, 5, 6, 7, 9], 8) == [1, 2, 3, 4, 5, 6, 7, 9, 8, 8, 8, 8, 8, 8, 8, 8]
    ensures Chunks([65, 0, 66]) == [65, 15, 15, 15, 15, 15, 15, 15, 15, 15, 15, 15, 15, 15, 15, 15]
    ensures CString([65, 0, 66]) == [65]
  {
    StrLenUnique([65, 0, 66], 1);
    assert [65, 0, 66][..1] == [65];
  }

  // ---------------------------------------------------------------- AES

  /** The cipher text holds, block by block, the encryption of the standard padding of the text. */
  lemma AesEncryptsBlocks(c: Cipher, b: Base64, data: seq<byte>, key: seq<byte>, pos: nat)
    requires Inverse(c, 16) && Decodable(b) && NulFree(data) && |key| == 16 && NulFree(key)
    requires pos % 16 == 0 && pos + 16 <= |Pkcs7(data, 16)|
    ensures var cipherText := b.decode(AesEncrypted(c, b, data, key));
            && |cipherText| == |Pkcs7(data, 16)|
            && cipherText[pos..pos + 16] == c.enc(key, Pkcs7(data, 16)[pos..pos + 16])
  {
    KeysAgree(key);
    ChunksLength(data);
    ChunksArePkcs7(data);
    EcbBlock(c.enc, key, 16, Chunks(data), pos);
  }

  /** Where the heuristic cuts: at the start of the run of equal bytes at the end, if that run has 2
      to 16 bytes, or a single byte below 16. `below` is the byte before the text. */
  lemma CutAtRunStart(s: seq<byte>, below: byte)
    requires 16 <= |s| && |s| % 16 == 0
    ensures var k, last := CutAt(s, below), s[|s| - 1];
            if k < |s| then
              && |s| - 16 <= k && (forall j :: k <= j < |s| ==> s[j] == last)
              && (if k == 0 then below else s[k - 1]) != last
              && (k == |s| - 1 ==> last < 16)
            else if s[|s| - 2] != last then 16 <= last
            else
              && (forall j :: |s| - 17 <= j < |s| && 0 <= j ==> s[j] == last)
              && (|s| == 16 ==> below == last)
  {
    if s[|s| - 1] == s[|s| - 2] {
      RunStartIs(s, below, 2);
    }
  }

  lemma {:induction false} RunStartIs(s: seq<byte>, below: byte, i: nat)
    requires 16 <= |s| && 2 <= i <= 17
    requires forall j :: |s| - i <= j < |s| && 0 <= j ==> s[j] == s[|s| - 1]
    requires |s| < i ==> below == s[|s| - 1]
    ensures var k, last := RunStart(s, below, i), s[|s| - 1];
            if k < |s| then
              && |s| - 16 <= k <= |s| - 2 && (forall j :: k <= j < |s| ==> s[j] == last)
              && (if k == 0 then below else s[k - 1]) != last
            else
              && (forall j :: |s| - 17 <= j < |s| && 0 <= j ==> s[j] == last)
              && (|s| == 16 ==> below == last)
    decreases 17 - i
  {
    if i <= 16 && s[|s| - 1] == ByteAt(s, below, |s| - 1 - i) {
      RunStartIs(s, below, i + 1);
    }
  }

  /** Decryption gives back either all of the clear text, up to the first NUL once the padding is cut
      off, or nothing; and nothing exactly if that is empty or has a byte that is not accepted. */
  lemma AesAllOrNothing(c: Cipher, b: Base64, accepted: ByteClass, below: byte, spare: nat,
                        text: string, key: seq<byte>)
    requires Inverse(c, 16) && (|key| == 16 || |key| == 24 || |key| == 32) && 0 < spare
    requires b.decode(text) != [] && |b.decode(text)| % 16 == 0
    ensures var clear := Ecb(c.dec, key, 16, b.decode(text));
            && |clear| == |b.decode(text)|
            && var s, r := CString(Cleared(clear, below)), AesDecrypted(c, b, accepted, below, spare, text, key);
               && (r == Done(s) || r == Done([]))
               && (r == Done([]) <==> s == [] || exists i :: 0 <= i < |s| && !accepted(s[i]))
  {
    EcbLength(c.dec, key, 16, b.decode(text));
    var s := CString(Cleared(Ecb(c.dec, key, 16, b.decode(text)), below));
    assert forall i :: 0 <= i < |s| ==> s[i] in s;
    assert AllIn(s, accepted) <==> forall i :: 0 <= i < |s| ==> accepted(s[i]);
  }

  /** A text with a byte that is not accepted comes back as the empty text, not as a part of it. */
  lemma RejectedTextIsLost(c: Cipher, b: Base64, accepted: ByteClass, below: byte, spare: nat,
                           data: seq<byte>, key: seq<byte>)
    requires Inverse(c, 16) && Decodable(b) && |key| == 16 && NulFree(key) && 0 < spare
    requires NulFree(data) && data != [] && 16 < data[|data| - 1]
    requires exists i :: 0 <= i < |data| && !accepted(data[i])
    ensures AesDecrypted(c, b, accepted, below, spare, AesEncrypted(c, b, data, key), key) == Done([])
  {
    KeysAgree(key);
    ChunksLength(data);
    ChunksArePkcs7(data);
    var p := Chunks(data);
    EcbLength(c.enc, key, 16, p);
    EcbRoundTrip(c, key, 16, p);
    CutAtPadding(data, below);
    var cleared := p[|data| := 0];
    assert cleared[..|data|] == data && forall i :: 0 <= i < |data| ==> data[i] in data;
    StrLenUnique(cleared, |data|);
    AesAllOrNothing(c, b, accepted, below, spare, AesEncrypted(c, b, data, key), key);
  }

  // ---------------------------------------------------------------- DES

  /** The cipher text holds, block by block, the encryption of the standard padding of the data under
      the first eight bytes of the key. */
  lemma DesEncryptsBlocks(c: Cipher, b: Base64, data: seq<byte>, key: seq<byte>, pos: nat)
    requires Inverse(c, 8) && Decodable(b) && 8 <= |key| && |data| < 1024
    requires pos % 8 == 0 && pos + 8 <= |Pkcs7(data, 8)|
    ensures var r := DesEncrypted(c, b, data, key);
            && r.Done? && |b.decode(r.value)| == |Pkcs7(data, 8)|
            && b.decode(r.value)[pos..pos + 8] == c.enc(key[..8], Pkcs7(data, 8)[pos..pos + 8])
  {
    var n := Pkcs7Is(data, 8);
    EcbBlock(c.enc, key[..8], 8, Pkcs7(data, 8), pos);
  }

  /** Decryption takes off as many bytes as the last one of the clear text tells. */
  lemma DesDecryptsExactly(c: Cipher, b: Base64, text: string, key: seq<byte>) returns (clear: seq<byte>)
    requires Inverse(c, 8) && 8 <= |key| && b.decode(text) != [] && |b.decode(text)| % 8 == 0
    ensures |clear| == |b.decode(text)|
    ensures forall pos :: 0 <= pos <= |clear| - 8 && pos % 8 == 0 ==>
                            clear[pos..pos + 8] == c.dec(key[..8], b.decode(text)[pos..pos + 8])
    ensures var pad := clear[|clear| - 1];
            DesDecrypted(c, b, text, key) == if pad <= |clear| then Done(clear[..|clear| - pad]) else Throws
  {
    clear := Ecb(c.dec, key[..8], 8, b.decode(text));
    EcbLength(c.dec, key[..8], 8, b.decode(text));
    forall pos | 0 <= pos <= |clear| - 8 && pos % 8 == 0
      ensures clear[pos..pos + 8] == c.dec(key[..8], b.decode(text)[pos..pos + 8])
    {
      EcbBlock(c.dec, key[..8], 8, b.decode(text), pos);
    }
  }
}
