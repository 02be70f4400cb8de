/**
  The wrappers around AES and DES in thirdpart/https/aes.h: padding, cutting into blocks,
  Base64, and the heuristics that take the padding off again.

  The ciphers and Base64 are parameters; all that is known of them is that decryption undoes
  encryption, block by block, and that decoding undoes encoding.
*/
module PaddedCiphers {
  import opened Bytes
  import opened Options

  /** A block operation takes a key and a block. */
  type BlockOp = (seq<byte>, seq<byte>) -> seq<byte>

  datatype Cipher = Cipher(enc: BlockOp, dec: BlockOp)

  ghost predicate KeepsSize(op: BlockOp, size: nat) {
    forall key, block :: |block| == size ==> |op(key, block)| == size
  }

  ghost predicate Inverse(c: Cipher, size: nat) {
    && KeepsSize(c.enc, size) && KeepsSize(c.dec, size)
    && forall key, block :: |block| == size ==> c.dec(key, c.enc(key, block)) == block
  }

  datatype Base64 = Base64(encode: seq<byte> -> string, decode: string -> seq<byte>)

  ghost predicate Decodable(b: Base64) {
    forall bytes :: b.decode(b.encode(bytes)) == bytes
  }

  function Repeat(n: nat, b: byte): (r: seq<byte>)
    ensures |r| == n
  {
    seq(n, _ => b)
  }

  // ---------------------------------------------------------------- blocks

  /** Electronic code book mode: every block by itself. */
  ghost function Ecb(op: BlockOp, key: seq<byte>, size: nat, text: seq<byte>): (r: seq<byte>)
    requires 0 < size && KeepsSize(op, size)
    decreases |text|
  {
    if |text| < size then [] else op(key, text[..size]) + Ecb(op, key, size, text[size..])
  }

  lemma {:induction false} EcbLength(op: BlockOp, key: seq<byte>, size: nat, text: seq<byte>)
    requires 0 < size && KeepsSize(op, size) && |text| % size == 0
    ensures |Ecb(op, key, size, text)| == |text|
    decreases |text|
  {
    if |text| >= size {
      DropBlock(|text|, size);
      EcbLength(op, key, size, text[size..]);
    } else {
      SmallMultiple(|text|, size);
    }
  }

  lemma {:induction false} EcbRoundTrip(c: Cipher, key: seq<byte>, size: nat, text: seq<byte>)
    requires 0 < size && Inverse(c, size) && |text| % size == 0
    ensures Ecb(c.dec, key, size, Ecb(c.enc, key, size, text)) == text
    decreases |text|
  {
    if |text| >= size {
      var first, rest := c.enc(key, text[..size]), Ecb(c.enc, key, size, text[size..]);
      DropBlock(|text|, size);
      EcbRoundTrip(c, key, size, text[size..]);
      assert (first + rest)[..size] == first && (first + rest)[size..] == rest;
      assert text == text[..size] + text[size..];
    } else {
      SmallMultiple(|text|, size);
    }
  }

  lemma {:induction false} EcbAppend(op: BlockOp, key: seq<byte>, size: nat, text: seq<byte>, block: seq<byte>)
    requires 0 < size && KeepsSize(op, size) && |text| % size == 0 && |block| == size
    ensures Ecb(op, key, size, text + block) == Ecb(op, key, size, text) + op(key, block)
    decreases |text|
  {
    if |text| >= size {
      DropBlock(|text|, size);
      EcbAppend(op, key, size, text[size..], block);
      assert (text + block)[..size] == text[..size] && (text + block)[size..] == text[size..] + block;
    } else {
      SmallMultiple(|text|, size);
      assert text + block == block && block[..size] == block && block[size..] == [];
    }
  }

  lemma DropBlock(n: int, size: int)
    requires 0 < size
    ensures (n - size) % size == n % size
  {
    var q := n / size;
    assert n - size == size * (q - 1) + n % size;
    Quotient(n - size, size, q - 1, n % size);
  }

  lemma Quotient(n: int, size: int, q: int, r: int)
    requires 0 < size && n == size * q + r && 0 <= r < size
    ensures n % size == r
  {
    var p := n / size;
    assert size * p <= n < size * p + size;
    if p < q {
      TimesMonotone(size, p + 1, q);
    } else if q < p {
      TimesMonotone(size, q + 1, p);
    }
  }

  lemma TimesMonotone(size: int, a: int, b: int)
    requires 0 < size && a <= b
    ensures size * a <= size * b
  {
  }

  lemma SmallMultiple(n: int, size: int)
    requires 0 <= n < size && n % size == 0
    ensures n == 0
  {
  }

  // ---------------------------------------------------------------- C strings

  /** strlen: up to the first NUL, or to the end of the string. */
  function StrLen(s: seq<byte>): (n: nat)
    ensures n <= |s|
    ensures forall i :: 0 <= i < n ==> s[i] != 0
    ensures n < |s| ==> s[n] == 0
  {
    if s == [] || s[0] == 0 then 0 else 1 + StrLen(s[1..])
  }

  function CString(s: seq<byte>): seq<byte> {
    s[..StrLen(s)]
  }

  predicate NulFree(s: seq<byte>) {
    0 !in s
  }

  lemma StrLenUnique(s: seq<byte>, n: nat)
    requires n <= |s| && (forall i :: 0 <= i < n ==> s[i] != 0) && (n < |s| ==> s[n] == 0)
    ensures StrLen(s) == n
  {
  }

  // ---------------------------------------------------------------- AES, encryption

  const BLOCK: nat := 16

  /** A block of at most 16 bytes, filled up with bytes that tell how many were missing. */
  function Padded(s: seq<byte>): (r: seq<byte>)
    requires |s| <= BLOCK
    ensures |r| == BLOCK
  {
    s + Repeat(BLOCK - |s|, BLOCK - |s|)
  }

  /** The block that the code makes of the C string that starts here. */
  function Chunk(s: seq<byte>): (r: seq<byte>)
    ensures |r| == BLOCK
  {
    Padded(s[..if StrLen(s) < BLOCK then StrLen(s) else BLOCK])
  }

  /** All blocks of a text, one for every 16 bytes of it and one more. */
  function Chunks(s: seq<byte>): (r: seq<byte>)
    decreases |s|
  {
    if |s| < BLOCK then Chunk(s) else Chunk(s) + Chunks(s[BLOCK..])
  }

  lemma {:induction false} ChunksLength(s: seq<byte>)
    ensures BLOCK <= |Chunks(s)| && |Chunks(s)| % BLOCK == 0
    decreases |s|
  {
    if |s| >= BLOCK {
      ChunksLength(s[BLOCK..]);
      DropBlock(|Chunks(s)|, BLOCK);
    }
  }

  /** Padding as in section 6.3 of RFC 5652, for blocks of `size` bytes. */
  function Pkcs7(s: seq<byte>, size: byte): seq<byte>
    requires 0 < size
  {
    s + Repeat(size - |s| % size, size - |s| % size)
  }

  /** Filling up the last block, or adding a block of padding, is the standard padding. */
  lemma {:induction false} ChunksArePkcs7(s: seq<byte>)
    requires NulFree(s)
    ensures Chunks(s) == Pkcs7(s, BLOCK)
    decreases |s|
  {
    StrLenUnique(s, |s|);
    if |s| < BLOCK {
      assert s[..|s|] == s;
    } else {
      assert NulFree(s[BLOCK..]);
      ChunksArePkcs7(s[BLOCK..]);
      assert Chunk(s) == s[..BLOCK];
      Pkcs7BehindBlock(s);
    }
  }

  lemma Pkcs7BehindBlock(s: seq<byte>)
    requires BLOCK <= |s|
    ensures Pkcs7(s, BLOCK) == s[..BLOCK] + Pkcs7(s[BLOCK..], BLOCK)
  {
    assert |s[BLOCK..]| % BLOCK == |s| % BLOCK;
    assert s == s[..BLOCK] + s[BLOCK..];
    var pad := Repeat(BLOCK - |s| % BLOCK, BLOCK - |s| % BLOCK);
    AppendTwice(s[..BLOCK], s[BLOCK..], pad);
  }

  method Padding(buf: array<byte>, srcLen: nat)
    requires buf.Length == BLOCK && srcLen <= BLOCK
    modifies buf
    ensures buf[..] == Padded(old(buf[..srcLen]))
  {
    if srcLen < BLOCK {
      var pad := BLOCK - srcLen;
      var id := BLOCK;
      while id > srcLen
        invariant srcLen <= id <= BLOCK
        invariant buf[..srcLen] == old(buf[..srcLen])
        invariant forall k :: id <= k < BLOCK ==> buf[k] == pad
      {
        buf[id - 1] := pad;
        id := id - 1;
      }
    }
  }

  /** Copies the C string at `src`, or nothing for a null pointer, and pads it to a block. */
  method StringToHex(src: Option<seq<byte>>, dest: array<byte>)
    requires dest.Length == BLOCK
    modifies dest
    ensures dest[..] == Chunk(if src.Some? then src.value else [])
  {
    var n := 0;
    if src.Some? {
      n := if StrLen(src.value) > BLOCK then BLOCK else StrLen(src.value);
      for i := 0 to n
        invariant dest[..i] == src.value[..i]
      {
        dest[i] := src.value[i];
      }
    }
    Padding(dest, n);
  }

  ghost function AesEncrypted(c: Cipher, b: Base64, data: seq<byte>, key: seq<byte>): string
    requires Inverse(c, BLOCK)
  {
    b.encode(Ecb(c.enc, Chunk(key), BLOCK, Chunks(data)))
  }

  method AesEcbEncrypt(c: Cipher, b: Base64, data: seq<byte>, key: seq<byte>) returns (r: string)
    requires Inverse(c, BLOCK)
    ensures r == AesEncrypted(c, b, data, key)
  {
    var buf := new byte[BLOCK](_ => 0);
    StringToHex(Some(key), buf);
    var dest := new byte[|data| / BLOCK * BLOCK + BLOCK](_ => 0);
    EncryptBlocks(c.enc, buf[..], data, dest);
    r := b.encode(dest[..]);
  }

  /** The cipher text that is still to come when the loop has reached `pos`. */
  ghost function Pending(op: BlockOp, key: seq<byte>, data: seq<byte>, pos: nat): seq<byte>
    decreases |data| + BLOCK - pos
  {
    if |data| < pos then [] else op(key, Chunk(data[pos..])) + Pending(op, key, data, pos + BLOCK)
  }

  lemma {:induction false} PendingIsEcb(op: BlockOp, key: seq<byte>, data: seq<byte>, pos: nat)
    requires KeepsSize(op, BLOCK) && pos <= |data|
    ensures Pending(op, key, data, pos) == Ecb(op, key, BLOCK, Chunks(data[pos..]))
    decreases |data| - pos
  {
    var chunk := Chunk(data[pos..]);
    if pos + BLOCK <= |data| {
      assert data[pos..][BLOCK..] == data[pos + BLOCK..];
      PendingIsEcb(op, key, data, pos + BLOCK);
      var rest := Chunks(data[pos + BLOCK..]);
      assert (chunk + rest)[..BLOCK] == chunk && (chunk + rest)[BLOCK..] == rest;
    } else {
      assert chunk[..BLOCK] == chunk && chunk[BLOCK..] == [];
    }
  }

  /** The loop over the text, and the extra block for a text of whole blocks. */
  method EncryptBlocks(op: BlockOp, key: seq<byte>, data: seq<byte>, dest: array<byte>)
    requires KeepsSize(op, BLOCK) && dest.Length == |data| / BLOCK * BLOCK + BLOCK
    modifies dest
    ensures dest[..] == Ecb(op, key, BLOCK, Chunks(data))
  {
    var buf := new byte[BLOCK](_ => 0);
    var pos := 0;
    ghost var blocks := 0;
    PendingIsEcb(op, key, data, 0);
    assert data[0..] == data;
    ghost var all := Pending(op, key, data, 0);
    while pos < |data|
      invariant pos == BLOCK * blocks && pos <= dest.Length && fresh(buf)
      invariant all == dest[..pos] + Pending(op, key, data, pos)
    {
      EncryptNext(op, key, data, Some(data[pos..]), buf, dest, pos);
      pos, blocks := pos + BLOCK, blocks + 1;
    }
    if pos < dest.Length {
      EncryptNext(op, key, data, None, buf, dest, pos);
      pos := pos + BLOCK;
    }
    assert dest[..pos] == dest[..];
  }

  method EncryptNext(op: BlockOp, key: seq<byte>, ghost data: seq<byte>, src: Option<seq<byte>>,
                     buf: array<byte>, dest: array<byte>, pos: nat)
    requires KeepsSize(op, BLOCK) && buf.Length == BLOCK && pos + BLOCK <= dest.Length && buf != dest
    requires pos <= |data| && data[pos..] == if src.Some? then src.value else []
    modifies buf, dest
    ensures dest[..pos + BLOCK] + Pending(op, key, data, pos + BLOCK)
         == old(dest[..pos]) + Pending(op, key, data, pos)
  {
    StringToHex(src, buf);
    AppendTwice(dest[..pos], op(key, buf[..]), Pending(op, key, data, pos + BLOCK));
    EncryptInto(op, key, buf, dest, pos);
  }

  /** Encrypts a block in place and copies it to its position. */
  method EncryptInto(op: BlockOp, key: seq<byte>, buf: array<byte>, dest: array<byte>, pos: nat)
    requires KeepsSize(op, BLOCK) && buf.Length == BLOCK && pos + BLOCK <= dest.Length && buf != dest
    modifies buf, dest
    ensures dest[..pos + BLOCK] == old(dest[..pos]) + op(key, old(buf[..]))
  {
    var block := op(key, buf[..]);
    for i := 0 to BLOCK
      modifies buf
      invariant buf[..i] == block[..i]
    {
      buf[i] := block[i];
    }
    assert buf[..] == block;
    CopyBlock(buf[..], dest, pos);
    assert dest[..pos + BLOCK] == dest[..pos] + dest[pos..pos + BLOCK];
  }

  /** memcpy of one block. */
  method CopyBlock(block: seq<byte>, dest: array<byte>, pos: nat)
    requires pos + |block| <= dest.Length
    modifies dest
    ensures dest[..pos] == old(dest[..pos]) && dest[pos..pos + |block|] == block
    ensures dest[pos + |block|..] == old(dest[pos + |block|..])
  {
    for i := 0 to |block|
      invariant dest[pos..pos + i] == block[..i]
      invariant forall k :: 0 <= k < pos || pos + i <= k < dest.Length ==> dest[k] == old(dest[k])
    {
      dest[pos + i] := block[i];
    }
  }

  // ---------------------------------------------------------------- AES, decryption

  /** Where ClearPadding writes its NUL, or |s| when it writes none. `below` is the byte in
      memory just before the text, which the code reads when a single block is all padding. */
  function CutAt(s: seq<byte>, below: byte): (k: nat)
    requires BLOCK <= |s| && |s| % BLOCK == 0
    ensures k <= |s|
  {
    var last := s[|s| - 1];
    if last != s[|s| - 2] then if last < BLOCK then |s| - 1 else |s|
    else RunStart(s, below, 2)
  }

  /** The start of the run of equal bytes at the end, if it is found within 16 bytes. */
  function RunStart(s: seq<byte>, below: byte, i: nat): (k: nat)
    requires BLOCK <= |s| && 2 <= i <= BLOCK + 1
    ensures k <= |s|
    decreases BLOCK + 1 - i
  {
    if i > BLOCK then |s|
    else if s[|s| - 1] != ByteAt(s, below, |s| - 1 - i) then |s| - i
    else RunStart(s, below, i + 1)
  }

  function ByteAt(s: seq<byte>, below: byte, k: int): byte
    requires -1 <= k < |s|
  {
    if k == -1 then below else s[k]
  }

  function Cleared(s: seq<byte>, below: byte): (r: seq<byte>)
    requires BLOCK <= |s| && |s| % BLOCK == 0
    ensures |r| == |s|
  {
    var k := CutAt(s, below);
    if k < |s| then s[k := 0] else s
  }

  method ClearPadding(text: array<byte>, n: nat, below: byte)
    requires n <= text.Length && BLOCK <= n && n % BLOCK == 0
    modifies text
    ensures text[..n] == Cleared(old(text[..n]), below)
    ensures text[n..] == old(text[n..])
  {
    if text[n - 1] != text[n - 2] {
      ClearLast(text, n);
    } else {
      ClearRun(text, n, below);
    }
  }

  /** The last byte is a run by itself. */
  method ClearLast(text: array<byte>, n: nat)
    requires 0 < n <= text.Length
    modifies text
    ensures text[..n] == old(if text[n - 1] < BLOCK then text[..n][n - 1 := 0] else text[..n])
    ensures text[n..] == old(text[n..])
  {
    var i := 0;
    while i < 16
      invariant 0 <= i <= 16 && text[..] == old(text[..])
      invariant i <= text[n - 1]
    {
      if text[n - 1] == i {
        text[n - 1] := 0;
        break;
      }
      i := i + 1;
    }
  }

  /** The last two bytes are equal; the loop looks for where their run starts. */
  method ClearRun(text: array<byte>, n: nat, below: byte)
    requires n <= text.Length && BLOCK <= n && n % BLOCK == 0
    modifies text
    ensures var before := old(text[..n]);
            var k := RunStart(before, below, 2);
            text[..n] == if k < n then before[k := 0] else before
    ensures text[n..] == old(text[n..])
  {
    ghost var before := text[..n];
    var start := (n / 16 - 1) * 16;
    var i := 2;
    while i <= n - start
      invariant 2 <= i <= 17 && text[..] == old(text[..])
      invariant RunStart(before, below, 2) == RunStart(before, below, i)
    {
      var other := if n - 1 - i == -1 then below else text[n - 1 - i];
      if text[n - 1] != other {
        text[n - i] := 0;
        break;
      }
      i := i + 1;
    }
  }

  /** Which bytes the final regular expression lets through. */
  type ByteClass = byte -> bool

  ghost predicate AllIn(s: seq<byte>, accepted: ByteClass) {
    forall b :: b in s ==> accepted(b)
  }

  /** The result is given back only if it is not empty and all its bytes are accepted. */
  ghost function Screened(s: seq<byte>, accepted: ByteClass): seq<byte> {
    if s != [] && AllIn(s, accepted) then s else []
  }

  ghost predicate AesKeySize(n: nat) {
    n == 16 || n == 24 || n == 32
  }

  /** `spare` is the number of bytes behind the array that may be written; the code declares none,
      and yet writes a terminating NUL there. The cipher reads and writes whole blocks only. */
  ghost function AesDecrypted(c: Cipher, b: Base64, accepted: ByteClass, below: byte, spare: nat,
                              text: string, key: seq<byte>): Outcome<seq<byte>>
    requires Inverse(c, BLOCK)
  {
    var cipherText := b.decode(text);
    if cipherText == [] || !AesKeySize(|key|) then Done([])
    else if |cipherText| % BLOCK != 0 || spare == 0 then OutOfBounds
    else
      EcbLength(c.dec, key, BLOCK, cipherText);
      Done(Screened(CString(Cleared(Ecb(c.dec, key, BLOCK, cipherText), below)), accepted))
  }

  method AesEcbDecrypt(c: Cipher, b: Base64, accepted: ByteClass, below: byte, spare: nat,
                       text: string, key: seq<byte>) returns (r: Outcome<seq<byte>>)
    requires Inverse(c, BLOCK)
    ensures r == AesDecrypted(c, b, accepted, below, spare, text, key)
  {
    var src := b.decode(text);
    if src == [] {
      return Done([]);
    }
    if |key| != 16 && |key| != 24 && |key| != 32 {
      return Done([]);
    }
    var n := |src|;
    var dst := new byte[n + spare](_ => 0);
    var inside := DecryptBlocks(c.dec, key, src, dst);
    if !inside {
      return OutOfBounds;
    }
    EcbLength(c.dec, key, BLOCK, src);
    ClearPadding(dst, n, below);
    if spare == 0 {
      return OutOfBounds;
    }
    dst[n] := 0;
    assert dst[..n + 1] == dst[..n] + [0];
    CStringTerminated(dst[..n]);
    var s := Screen(CString(dst[..n + 1]), accepted);
    r := Done(s);
  }

  /** Block by block; it ends early when the last block is not whole. */
  method DecryptBlocks(op: BlockOp, key: seq<byte>, src: seq<byte>, dst: array<byte>) returns (inside: bool)
    requires KeepsSize(op, BLOCK) && |src| <= dst.Length
    modifies dst
    ensures inside <==> |src| % BLOCK == 0
    ensures inside ==> dst[..|src|] == Ecb(op, key, BLOCK, src)
  {
    var len := 0;
    while len < |src|
      invariant 0 <= len <= |src| && len % BLOCK == 0
      invariant dst[..len] == Ecb(op, key, BLOCK, src[..len])
    {
      if |src| < len + BLOCK {
        return false;
      }
      var block := op(key, src[len..len + BLOCK]);
      EcbAppend(op, key, BLOCK, src[..len], src[len..len + BLOCK]);
      assert src[..len] + src[len..len + BLOCK] == src[..len + BLOCK];
      CopyBlock(block, dst, len);
      assert dst[..len + BLOCK] == dst[..len] + dst[len..len + BLOCK];
      len := len + BLOCK;
    }
    assert src[..|src|] == src;
    return true;
  }

  /** The regular expression: one or more bytes, all of the class. */
  method Screen(s: seq<byte>, accepted: ByteClass) returns (r: seq<byte>)
    ensures r == Screened(s, accepted)
  {
    for i := 0 to |s|
      invariant forall k :: 0 <= k < i ==> accepted(s[k])
    {
      if !accepted(s[i]) {
        assert s[i] in s;
        return [];
      }
    }
    r := s;
  }

  lemma CStringTerminated(s: seq<byte>)
    ensures CString(s + [0]) == CString(s)
  {
    StrLenUnique(s + [0], StrLen(s));
  }

  // ---------------------------------------------------------------- AES, round trip

  /** Every text byte the regular expression lets through lies above the padding bytes. */
  ghost predicate AbovePadding(accepted: ByteClass) {
    forall b: byte :: accepted(b) ==> BLOCK < b
  }

  /** Cutting at the padding and then at the NUL undoes the standard padding. */
  lemma ClearingUndoesPkcs7(s: seq<byte>, below: byte)
    requires s != [] && forall i :: 0 <= i < |s| ==> BLOCK < s[i]
    ensures var p := Pkcs7(s, BLOCK); |p| % BLOCK == 0 && CString(Cleared(p, below)) == s
  {
    CutAtPadding(s, below);
    var p := Pkcs7(s, BLOCK);
    assert p[|s| := 0][..|s|] == s;
    StrLenUnique(p[|s| := 0], |s|);
  }

  lemma WholeBlocks(n: nat)
    ensures (n + (BLOCK - n % BLOCK)) % BLOCK == 0 && BLOCK <= n + (BLOCK - n % BLOCK)
  {
    assert n + (BLOCK - n % BLOCK) == (n / BLOCK + 1) * BLOCK;
  }

  lemma CutAtPadding(s: seq<byte>, below: byte)
    requires s != [] && s[|s| - 1] > BLOCK
    ensures var p := Pkcs7(s, BLOCK); |s| < |p| && |p| % BLOCK == 0 && CutAt(p, below) == |s|
  {
    var n, p := BLOCK - |s| % BLOCK, Pkcs7(s, BLOCK);
    WholeBlocks(|s|);
    if n == 1 {
      assert p[|p| - 1] == 1 && p[|p| - 2] == s[|s| - 1];
    } else {
      RunOfPadding(s, n, below, 2);
    }
  }

  lemma {:induction false} RunOfPadding(s: seq<byte>, n: nat, below: byte, i: nat)
    requires s != [] && s[|s| - 1] > BLOCK && 2 <= i <= n <= BLOCK <= |s| + n
    ensures RunStart(s + Repeat(n, n), below, i) == |s|
    decreases n - i
  {
    var p := s + Repeat(n, n);
    if i < n {
      assert p[|p| - 1] == n == p[|p| - 1 - i];
      RunOfPadding(s, n, below, i + 1);
    } else {
      assert p[|p| - 1] == n && p[|p| - 1 - i] == s[|s| - 1];
    }
  }

  /** An empty text comes back empty, whatever byte lies before the buffer. */
  lemma EmptyTextComesBack(accepted: ByteClass, below: byte)
    requires AbovePadding(accepted)
    ensures Screened(CString(Cleared(Pkcs7([], BLOCK), below)), accepted) == []
  {
    var p := Pkcs7([], BLOCK);
    var r := Cleared(p, below);
    assert r[0] == 0 || r[0] == 16;
    if r[0] == 0 {
      StrLenUnique(r, 0);
    } else if CString(r) != [] {
      assert CString(r)[0] == 16 && CString(r)[0] in CString(r);
    }
  }

  /** Encrypting and decrypting gives the text back. */
  ghost predicate ComesBack(c: Cipher, b: Base64, accepted: ByteClass, below: byte, spare: nat,
                            data: seq<byte>, key: seq<byte>)
    requires Inverse(c, BLOCK)
  {
    AesDecrypted(c, b, accepted, below, spare, AesEncrypted(c, b, data, key), key) == Done(data)
  }

  /** Decrypting what was encrypted gives the text back if and only if the regular expression
      accepts every byte of it and the byte behind the array may be written; for a 16-byte key
      without a NUL, and for every length of text. */
  lemma AesRoundTrip(c: Cipher, b: Base64, accepted: ByteClass, below: byte, spare: nat,
                     data: seq<byte>, key: seq<byte>)
    requires Inverse(c, BLOCK) && Decodable(b) && AbovePadding(accepted)
    requires |key| == BLOCK && NulFree(key)
    ensures ComesBack(c, b, accepted, below, spare, data, key) <==> AllIn(data, accepted) && 0 < spare
  {
    KeysAgree(key);
    ChunksLength(data);
    var p := Chunks(data);
    EcbLength(c.enc, key, BLOCK, p);
    EcbRoundTrip(c, key, BLOCK, p);
    if AllIn(data, accepted) {
      assert forall i :: 0 <= i < |data| ==> data[i] in data;
      ChunksArePkcs7(data);
      if data == [] {
        EmptyTextComesBack(accepted, below);
      } else {
        ClearingUndoesPkcs7(data, below);
      }
    }
  }

  /** As the array is declared, decrypting any encrypted text with an AES key writes behind it. */
  lemma TerminatorOverruns(c: Cipher, b: Base64, accepted: ByteClass, below: byte, data: seq<byte>, key: seq<byte>)
    requires Inverse(c, BLOCK) && Decodable(b)
    ensures AesDecrypted(c, b, accepted, below, 0, AesEncrypted(c, b, data, key), key)
         == if AesKeySize(|key|) then OutOfBounds else Done([])
  {
    ChunksLength(data);
    EcbLength(c.enc, Chunk(key), BLOCK, Chunks(data));
  }

  /** Encryption cuts the key at its first NUL or after 16 bytes, and pads it; decryption takes
      it as it is. */
  lemma KeysAgree(key: seq<byte>)
    ensures Chunk(key) == key <==> |key| == BLOCK && NulFree(key)
  {
    if |key| == BLOCK {
      var n := StrLen(key);
      if n < BLOCK {
        assert Chunk(key)[n] == BLOCK - n && key[n] == 0 && key[n] in key;
      } else {
        assert key[..BLOCK] == key;
      }
    }
  }

  /** With a key that is no AES key, decryption gives nothing back: such a key, which encryption
      pads or cuts silently, loses every text but the empty one. */
  lemma OtherKeysLoseTheText(c: Cipher, b: Base64, accepted: ByteClass, below: byte, spare: nat,
                             data: seq<byte>, key: seq<byte>)
    requires Inverse(c, BLOCK) && |key| != 16 && |key| != 24 && |key| != 32
    ensures ComesBack(c, b, accepted, below, spare, data, key) <==> data == []
  {
  }

  function Flipped(block: seq<byte>): (r: seq<byte>)
    ensures |r| == |block| && forall i :: 0 <= i < |r| ==> r[i] == 255 - block[i]
  {
    seq(|block|, i requires 0 <= i < |block| => 255 - block[i])
  }

  /** A cipher that leaves blocks alone under one key, and flips every bit under all others. */
  function FlipsUnlessKeyIs(home: seq<byte>): Cipher {
    var op := (key, block) => if key == home then block else Flipped(block);
    Cipher(op, op)
  }

  lemma FlippingIsInverse(home: seq<byte>, size: nat)
    ensures Inverse(FlipsUnlessKeyIs(home), size)
  {
    forall block: seq<byte>
      ensures Flipped(Flipped(block)) == block
    {
    }
  }

  /** When the two keys differ, that cipher loses a text of a single byte. */
  lemma UnequalKeysLoseAText(b: Base64, accepted: ByteClass, below: byte, spare: nat, key: seq<byte>, x: byte)
    requires Decodable(b) && AesKeySize(|key|) && Chunk(key) != key
    ensures Inverse(FlipsUnlessKeyIs(Chunk(key)), BLOCK)
    ensures !ComesBack(FlipsUnlessKeyIs(Chunk(key)), b, accepted, below, spare, [x], key)
  {
    var c := FlipsUnlessKeyIs(Chunk(key));
    FlippingIsInverse(Chunk(key), BLOCK);
    var p := Chunks([x]);
    EcbOneBlock(c.enc, Chunk(key), BLOCK, p);
    EcbOneBlock(c.dec, key, BLOCK, p);
    FlippedByteIsLost(x, below);
  }

  lemma EcbOneBlock(op: BlockOp, key: seq<byte>, size: nat, block: seq<byte>)
    requires 0 < size && KeepsSize(op, size) && |block| == size
    ensures Ecb(op, key, size, block) == op(key, block)
  {
    assert block[..size] == block && block[size..] == [];
  }

  lemma FlippedByteIsLost(x: byte, below: byte)
    ensures CString(Cleared(Flipped(Chunks([x])), below)) != [x]
  {
    var p := Chunks([x]);
    assert p[0] == x || (x == 0 && p[0] == BLOCK);
    ClearedByte(Flipped(p), below, 0);
  }

  lemma ClearedByte(s: seq<byte>, below: byte, i: nat)
    requires BLOCK <= |s| && |s| % BLOCK == 0 && i < |s|
    ensures Cleared(s, below)[i] == s[i] || Cleared(s, below)[i] == 0
  {
  }

  /** For every key: the accepted texts come back under all ciphers if and only if the key has 16
      bytes, none of them is NUL, and the byte behind the array may be written. */
  lemma AesKeysExactly(b: Base64, accepted: ByteClass, below: byte, spare: nat, key: seq<byte>, x: byte)
    requires Decodable(b) && AbovePadding(accepted) && accepted(x)
    ensures (forall c, data :: Inverse(c, BLOCK) && AllIn(data, accepted) ==>
                                 ComesBack(c, b, accepted, below, spare, data, key))
            <==> |key| == BLOCK && NulFree(key) && 0 < spare
  {
    var home := FlipsUnlessKeyIs(Chunk(key));
    FlippingIsInverse(Chunk(key), BLOCK);
    assert AllIn([x], accepted);
    KeysAgree(key);
    if |key| == BLOCK && NulFree(key) {
      forall c, data | Inverse(c, BLOCK) && AllIn(data, accepted)
        ensures ComesBack(c, b, accepted, below, spare, data, key) <==> 0 < spare
      {
        AesRoundTrip(c, b, accepted, below, spare, data, key);
      }
      assert ComesBack(home, b, accepted, below, spare, [x], key) <==> 0 < spare;
    } else if AesKeySize(|key|) {
      UnequalKeysLoseAText(b, accepted, below, spare, key, x);
    } else {
      OtherKeysLoseTheText(home, b, accepted, below, spare, [x], key);
    }
  }

  // ---------------------------------------------------------------- DES

  const DES_BLOCK: nat := 8
  const COMMAND_SIZE: nat := 1024

  /** Padding as in section 6.1.1 of RFC 8018. */
  method Pkcs5Padding(data: seq<byte>) returns (buf: array<byte>)
    ensures fresh(buf) && buf[..] == Pkcs7(data, DES_BLOCK)
  {
    var rawSize := |data|;
    var paddingSize := 8 - rawSize % 8;
    buf := new byte[rawSize + paddingSize](_ => 0);
    for i := 0 to rawSize
      invariant buf[..i] == data[..i]
    {
      buf[i] := data[i];
    }
    for i := rawSize to rawSize + paddingSize
      invariant buf[..rawSize] == data
      invariant forall k :: rawSize <= k < i ==> buf[k] == paddingSize
    {
      buf[i] := paddingSize;
    }
    assert buf[..] == buf[..rawSize] + buf[rawSize..];
  }

  /** The cipher text is built in an array of fixed size. */
  ghost function DesEncrypted(c: Cipher, b: Base64, data: seq<byte>, key: seq<byte>): Outcome<string>
    requires Inverse(c, DES_BLOCK) && DES_BLOCK <= |key|
  {
    var padded := Pkcs7(data, DES_BLOCK);
    if COMMAND_SIZE < |padded| then OutOfBounds
    else Done(b.encode(Ecb(c.enc, key[..DES_BLOCK], DES_BLOCK, padded)))
  }

  method DesEncrypt(c: Cipher, b: Base64, data: seq<byte>, key: seq<byte>) returns (r: Outcome<string>)
    requires Inverse(c, DES_BLOCK) && DES_BLOCK <= |key|
    ensures r == DesEncrypted(c, b, data, key)
  {
    var command := new byte[COMMAND_SIZE](_ => 0);
    var buf := Pkcs5Padding(data);
    var j := |data| / 8 + 1;
    assert buf[..j * 8] == buf[..];
    var inside := DesBlocks(c.enc, key[..8], buf[..], j, command);
    r := if inside then Done(b.encode(command[..j * 8])) else OutOfBounds;
  }

  /** The loop over the first `j` blocks of `src`; it ends early when a block would not fit. */
  method DesBlocks(op: BlockOp, key: seq<byte>, src: seq<byte>, j: nat, dest: array<byte>) returns (inside: bool)
    requires KeepsSize(op, DES_BLOCK) && j * 8 <= |src|
    modifies dest
    ensures inside <==> j * 8 <= dest.Length
    ensures inside ==> dest[..j * 8] == Ecb(op, key, DES_BLOCK, src[..j * 8])
  {
    for i := 0 to j
      invariant i * 8 <= dest.Length
      invariant dest[..i * 8] == Ecb(op, key, DES_BLOCK, src[..i * 8])
    {
      var block := src[i * 8..i * 8 + 8];
      if dest.Length < i * 8 + 8 {
        return false;
      }
      EcbAppend(op, key, DES_BLOCK, src[..i * 8], block);
      assert src[..i * 8] + block == src[..(i + 1) * 8];
      CopyBlock(op(key, block), dest, i * 8);
      assert dest[..(i + 1) * 8] == dest[..i * 8] + dest[i * 8..i * 8 + 8];
    }
    return true;
  }

  /** The last byte, which is looked up at the length of the cipher text, tells how long the padding
      is. There is such a byte only if the cipher text is one or more whole blocks, and assign
      throws when it claims more padding than there is text. */
  ghost function DesDecrypted(c: Cipher, b: Base64, text: string, key: seq<byte>): Outcome<seq<byte>>
    requires Inverse(c, DES_BLOCK) && DES_BLOCK <= |key|
  {
    var cipherText := b.decode(text);
    if cipherText == [] || |cipherText| % DES_BLOCK != 0 then OutOfBounds
    else
      EcbLength(c.dec, key[..DES_BLOCK], DES_BLOCK, cipherText);
      var clear := Ecb(c.dec, key[..DES_BLOCK], DES_BLOCK, cipherText);
      var pad := clear[|clear| - 1];
      if pad <= |clear| then Done(clear[..|clear| - pad]) else Throws
  }

  method DesDecrypt(c: Cipher, b: Base64, text: string, key: seq<byte>) returns (r: Outcome<seq<byte>>)
    requires Inverse(c, DES_BLOCK) && DES_BLOCK <= |key|
    ensures r == DesDecrypted(c, b, text, key)
  {
    var src := b.decode(text);
    var rawSize := |src|;
    var clear := ClearBlocks(c.dec, key[..8], src);
    if rawSize - 1 < 0 || |clear| <= rawSize - 1 {
      return OutOfBounds;
    }
    assert src[..rawSize] == src;
    var pad := clear[rawSize - 1];
    r := if pad <= |clear| then Done(clear[..|clear| - pad]) else Throws;
  }

  /** The loop over the whole blocks of the cipher text. */
  method ClearBlocks(op: BlockOp, key: seq<byte>, src: seq<byte>) returns (clear: seq<byte>)
    requires KeepsSize(op, DES_BLOCK)
    ensures clear == Ecb(op, key, DES_BLOCK, src[..|src| / 8 * 8]) && |clear| == |src| / 8 * 8
  {
    var j := |src| / 8;
    clear := [];
    for i := 0 to j
      invariant clear == Ecb(op, key, DES_BLOCK, src[..i * 8]) && |clear| == i * 8
    {
      var input := src[i * 8..i * 8 + 8];
      EcbAppend(op, key, DES_BLOCK, src[..i * 8], input);
      assert src[..i * 8] + input == src[..(i + 1) * 8];
      var output := op(key, input);
      for k := 0 to 8
        invariant clear == Ecb(op, key, DES_BLOCK, src[..i * 8]) + output[..k]
      {
        clear := clear + [output[k]];
      }
    }
  }

  /** A byte string, NULs and all, comes back if and only if it is shorter than the array; for a
      longer one, encryption writes past the end. */
  lemma DesRoundTrip(c: Cipher, b: Base64, data: seq<byte>, key: seq<byte>)
    requires Inverse(c, DES_BLOCK) && Decodable(b) && DES_BLOCK <= |key|
    ensures DesComesBack(c, b, data, key) <==> |data| < 1024
  {
    var p := Pkcs7(data, DES_BLOCK);
    assert |p| == (|data| / 8 + 1) * 8;
    EcbLength(c.enc, key[..DES_BLOCK], DES_BLOCK, p);
    EcbRoundTrip(c, key[..DES_BLOCK], DES_BLOCK, p);
    assert p[..|data|] == data;
  }

  ghost predicate DesComesBack(c: Cipher, b: Base64, data: seq<byte>, key: seq<byte>)
    requires Inverse(c, DES_BLOCK) && DES_BLOCK <= |key|
  {
    var text := DesEncrypted(c, b, data, key);
    text.Done? && DesDecrypted(c, b, text.value, key) == Done(data)
  }

  /** 1024 bytes are too many. */
  lemma LongTextOverruns(c: Cipher, b: Base64, key: seq<byte>)
    requires Inverse(c, DES_BLOCK) && DES_BLOCK <= |key|
    ensures DesEncrypted(c, b, Repeat(1024, 65), key) == OutOfBounds
  {
    assert |Pkcs7(Repeat(1024, 65), DES_BLOCK)| == 1032;
  }
}
