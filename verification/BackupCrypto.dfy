/** Chunk framing of the encrypted backup stream (scripts/backup_crypto.py). The
    cipher is a parameter: decryption undoes encryption and a ciphertext is 16
    bytes longer than its plaintext. */
module BackupCrypto {
  import opened Base

  newtype byte = x: int | 0 <= x < 256
  type bytes = seq<byte>

  /** "CTPBK1" and a line feed. */
  const MAGIC: bytes := [67, 84, 80, 66, 75, 49, 10]
  const CHUNK: nat := 1048576
  const NONCE: nat := 12
  const TAG: nat := 16

  datatype Cipher = Cipher(encrypt: (bytes, bytes) -> bytes, decrypt: (bytes, bytes) -> Option<bytes>)

  datatype Error = InvalidHeader | TruncatedLength | TruncatedData | AuthenticationFailed

  ghost predicate Inverts(c: Cipher) {
    forall nonce, block :: c.decrypt(nonce, c.encrypt(nonce, block)) == Some(block)
  }

  ghost predicate Expands(c: Cipher) {
    forall nonce, block :: |c.encrypt(nonce, block)| == |block| + TAG
  }

  ghost predicate Sound(c: Cipher) {
    Inverts(c) && Expands(c)
  }

  type Nonces = nat -> bytes

  ghost predicate NoncesFit(nonces: Nonces) {
    forall i :: |nonces(i)| == NONCE
  }

  /** struct.pack('>I', n) */
  function Pack(n: nat): (b: bytes)
    requires n < 0x1_0000_0000
    ensures |b| == 4
  {
    var high := n / 0x100 / 0x100;
    assert high / 0x100 < 0x100;
    [(high / 0x100) as byte, (high % 0x100) as byte, (n / 0x100 % 0x100) as byte, (n % 0x100) as byte]
  }

  /** struct.unpack('>I', b) */
  function Unpack(b: bytes): nat
    requires |b| == 4
  {
    ((b[0] as nat * 0x100 + b[1] as nat) * 0x100 + b[2] as nat) * 0x100 + b[3] as nat
  }

  lemma UnpackPack(n: nat)
    requires n < 0x1_0000_0000
    ensures Unpack(Pack(n)) == n
  {
    var a := n / 0x100;
    var high := a / 0x100;
    assert n == a * 0x100 + n % 0x100 && a == high * 0x100 + a % 0x100 && high == high / 0x100 * 0x100 + high % 0x100;
  }

  function Take(s: bytes, n: nat): bytes {
    if n <= |s| then s[..n] else s
  }

  function Drop(s: bytes, n: nat): bytes {
    if n <= |s| then s[n..] else []
  }

  /** The length prefix, nonce and ciphertext of one block. */
  function Frame(c: Cipher, nonce: bytes, block: bytes): bytes
    requires Sound(c) && |block| <= CHUNK
  {
    Pack(|c.encrypt(nonce, block)|) + nonce + c.encrypt(nonce, block)
  }

  /** What is written after the magic: a frame per chunk and a zero length. */
  function Frames(c: Cipher, nonces: Nonces, i: nat, x: bytes): bytes
    requires Sound(c)
    decreases |x|
  {
    if x == [] then Pack(0)
    else Frame(c, nonces(i), Take(x, CHUNK)) + Frames(c, nonces, i + 1, Drop(x, CHUNK))
  }

  function Encrypted(c: Cipher, nonces: Nonces, x: bytes): bytes
    requires Sound(c)
  {
    MAGIC + Frames(c, nonces, 0, x)
  }

  /** What decrypting a stream writes, and the error it then raises, if any. */
  datatype Decryption = Decryption(written: bytes, error: Option<Error>)

  function Decode(c: Cipher, s: bytes): Decryption
    decreases |s|
  {
    if |s| < 4 then Decryption([], Some(TruncatedLength))
    else
      var size := Unpack(s[..4]);
      if size == 0 then Decryption([], None)
      else
        var nonce, encrypted := Take(s[4..], NONCE), Take(Drop(s[4..], NONCE), size);
        if |nonce| != NONCE || |encrypted| != size then Decryption([], Some(TruncatedData))
        else
          var block := c.decrypt(nonce, encrypted);
          if block.None? then Decryption([], Some(AuthenticationFailed))
          else
            var rest := Decode(c, s[4 + NONCE + size..]);
            Decryption(block.value + rest.written, rest.error)
  }

  function Decrypted(c: Cipher, s: bytes): Decryption {
    if Take(s, |MAGIC|) != MAGIC then Decryption([], Some(InvalidHeader)) else Decode(c, s[|MAGIC|..])
  }

  // ---- pieces of byte strings ----

  lemma Regroup(a: bytes, b: bytes, c: bytes)
    ensures (a + b) + c == a + (b + c)
  {
  }

  lemma PastPrefix(a: bytes, b: bytes)
    ensures (a + b)[..|a|] == a && (a + b)[|a|..] == b
  {
  }

  lemma CutWithin(a: bytes, b: bytes, n: nat)
    requires n <= |a|
    ensures (a + b)[..n] == a[..n]
  {
  }

  lemma CutBeyond(a: bytes, b: bytes, n: nat)
    requires |a| <= n <= |a| + |b|
    ensures (a + b)[..n] == a + b[..n - |a|]
  {
  }

  lemma TakeAndDrop(x: bytes)
    requires x != []
    ensures x == Take(x, CHUNK) + Drop(x, CHUNK) && 0 < |Take(x, CHUNK)| <= CHUNK && |Drop(x, CHUNK)| < |x|
  {
  }

  lemma AfterMagic(c: Cipher, rest: bytes)
    ensures Decrypted(c, MAGIC + rest) == Decode(c, rest)
  {
    PastPrefix(MAGIC, rest);
  }

  lemma EndOfFrames(c: Cipher, tail: bytes)
    ensures Decode(c, Pack(0) + tail) == Decryption([], None)
  {
    UnpackPack(0);
    PastPrefix(Pack(0), tail);
  }

  lemma DecodeFrame(c: Cipher, nonce: bytes, block: bytes, tail: bytes)
    requires Sound(c) && |nonce| == NONCE && 0 < |block| <= CHUNK
    ensures Decode(c, Frame(c, nonce, block) + tail) ==
            Decryption(block + Decode(c, tail).written, Decode(c, tail).error)
  {
    var e := c.encrypt(nonce, block);
    var s := Frame(c, nonce, block) + tail;
    UnpackPack(|e|);
    assert s[..4] == Pack(|e|);
    assert s[4..] == nonce + e + tail;
    assert Take(s[4..], NONCE) == nonce;
    assert Drop(s[4..], NONCE) == e + tail;
    assert Take(e + tail, |e|) == e;
    assert s[4 + NONCE + |e|..] == tail;
  }

  lemma {:induction false} DecodeFrames(c: Cipher, nonces: Nonces, i: nat, x: bytes, tail: bytes)
    requires Sound(c) && NoncesFit(nonces)
    ensures Decode(c, Frames(c, nonces, i, x) + tail) == Decryption(x, None)
    decreases |x|
  {
    if x == [] {
      EndOfFrames(c, tail);
    } else {
      var block, more := Take(x, CHUNK), Drop(x, CHUNK);
      TakeAndDrop(x);
      var frame, frames := Frame(c, nonces(i), block), Frames(c, nonces, i + 1, more);
      Regroup(frame, frames, tail);
      DecodeFrame(c, nonces(i), block, frames + tail);
      DecodeFrames(c, nonces, i + 1, more, tail);
    }
  }

  /** Round trip; bytes after the end marker are not read. */
  lemma RoundTrip(c: Cipher, nonces: Nonces, x: bytes, tail: bytes)
    requires Sound(c) && NoncesFit(nonces)
    ensures Decrypted(c, Encrypted(c, nonces, x) + tail) == Decryption(x, None)
  {
    DecodeFrames(c, nonces, 0, x, tail);
    Regroup(MAGIC, Frames(c, nonces, 0, x), tail);
    AfterMagic(c, Frames(c, nonces, 0, x) + tail);
  }

  lemma DecodeCutFrame(c: Cipher, nonce: bytes, block: bytes, n: nat)
    requires Sound(c) && |nonce| == NONCE && 0 < |block| <= CHUNK && n < |Frame(c, nonce, block)|
    ensures Decode(c, Frame(c, nonce, block)[..n]).written == [] && Decode(c, Frame(c, nonce, block)[..n]).error.Some?
  {
    var e := c.encrypt(nonce, block);
    var s := Frame(c, nonce, block)[..n];
    if n >= 4 {
      UnpackPack(|e|);
      assert s[..4] == Pack(|e|);
      assert |Take(Drop(s[4..], NONCE), |e|)| < |e|;
    }
  }

  lemma {:induction false} DecodeCutFrames(c: Cipher, nonces: Nonces, i: nat, x: bytes, n: nat)
    requires Sound(c) && NoncesFit(nonces) && n < |Frames(c, nonces, i, x)|
    ensures var d := Decode(c, Frames(c, nonces, i, x)[..n]);
            d.error.Some? && d.written <= x
    decreases |x|
  {
    if x != [] {
      var block, more := Take(x, CHUNK), Drop(x, CHUNK);
      TakeAndDrop(x);
      var frame, frames := Frame(c, nonces(i), block), Frames(c, nonces, i + 1, more);
      if n < |frame| {
        CutWithin(frame, frames, n);
        DecodeCutFrame(c, nonces(i), block, n);
      } else {
        CutBeyond(frame, frames, n);
        DecodeFrame(c, nonces(i), block, frames[..n - |frame|]);
        DecodeCutFrames(c, nonces, i + 1, more, n - |frame|);
      }
    }
  }

  /** Truncation at any byte is detected, and everything written before the
      error is raised is a prefix of the plaintext. */
  lemma TruncationIsDetected(c: Cipher, nonces: Nonces, x: bytes, n: nat)
    requires Sound(c) && NoncesFit(nonces) && n < |Encrypted(c, nonces, x)|
    ensures var d := Decrypted(c, Encrypted(c, nonces, x)[..n]);
            d.error.Some? && d.written <= x
  {
    if n >= |MAGIC| {
      CutBeyond(MAGIC, Frames(c, nonces, 0, x), n);
      AfterMagic(c, Frames(c, nonces, 0, x)[..n - |MAGIC|]);
      DecodeCutFrames(c, nonces, 0, x, n - |MAGIC|);
    }
  }

  /** A readable binary stream; a read is short only at the end of the data. */
  class Source {
    const data: bytes
    var position: nat

    constructor (data: bytes)
      ensures this.data == data && position == 0 && Valid()
    {
      this.data := data;
      position := 0;
    }

    ghost predicate Valid()
      reads this
    {
      position <= |data|
    }

    ghost function Remaining(): bytes
      reads this
      requires Valid()
    {
      data[position..]
    }

    method Read(n: nat) returns (block: bytes)
      requires Valid()
      modifies this
      ensures Valid() && block == Take(old(Remaining()), n) && Remaining() == Drop(old(Remaining()), n)
    {
      var end := if position + n <= |data| then position + n else |data|;
      block := data[position..end];
      position := end;
    }
  }

  class Target {
    var data: bytes

    constructor ()
      ensures data == []
    {
      data := [];
    }

    method Write(block: bytes)
      modifies this
      ensures data == old(data) + block
    {
      data := data + block;
    }
  }

  lemma FramesStep(c: Cipher, nonces: Nonces, i: nat, x: bytes, written: bytes)
    requires Sound(c) && x != []
    ensures var e := c.encrypt(nonces(i), Take(x, CHUNK));
            |e| < 0x1_0000_0000 &&
            written + Frames(c, nonces, i, x) ==
            ((written + Pack(|e|)) + nonces(i)) + e + Frames(c, nonces, i + 1, Drop(x, CHUNK))
  {
  }

  /** Decode told in terms of successive reads. */
  lemma DecodeStep(c: Cipher, s: bytes)
    requires |s| >= 4
    ensures var size, nonce := Unpack(Take(s, 4)), Take(Drop(s, 4), NONCE);
            var encrypted, rest := Take(Drop(Drop(s, 4), NONCE), size), Drop(Drop(Drop(s, 4), NONCE), size);
            Decode(c, s) ==
            if size == 0 then Decryption([], None)
            else if |nonce| != NONCE || |encrypted| != size then Decryption([], Some(TruncatedData))
            else
              var block := c.decrypt(nonce, encrypted);
              if block.None? then Decryption([], Some(AuthenticationFailed))
              else Decryption(block.value + Decode(c, rest).written, Decode(c, rest).error)
  {
    var size, t := Unpack(s[..4]), s[4..];
    if |t| >= NONCE && |Drop(t, NONCE)| >= size {
      assert s[4 + NONCE + size..] == t[NONCE..][size..];
    }
  }

  method EncryptStream(source: Source, target: Target, c: Cipher, nonces: Nonces)
    requires Sound(c) && NoncesFit(nonces) && source.Valid()
    modifies source, target
    ensures source.Valid() && source.Remaining() == []
    ensures target.data == old(target.data) + Encrypted(c, nonces, old(source.Remaining()))
  {
    target.Write(MAGIC);
    var i := 0;
    while true
      invariant source.Valid()
      invariant old(target.data) + Encrypted(c, nonces, old(source.Remaining())) ==
                target.data + Frames(c, nonces, i, source.Remaining())
      decreases |source.Remaining()|
    {
      ghost var rest, written := source.Remaining(), target.data;
      var block := source.Read(CHUNK);
      if |block| == 0 {
        break;
      }
      FramesStep(c, nonces, i, rest, written);
      var encrypted := c.encrypt(nonces(i), block);
      target.Write(Pack(|encrypted|));
      target.Write(nonces(i));
      target.Write(encrypted);
      i := i + 1;
    }
    target.Write(Pack(0));
  }

  method DecryptStream(source: Source, target: Target, c: Cipher) returns (error: Option<Error>)
    requires source.Valid()
    modifies source, target
    ensures var d := Decrypted(c, old(source.Remaining()));
            target.data == old(target.data) + d.written && error == d.error
  {
    var header := source.Read(|MAGIC|);
    if header != MAGIC {
      return Some(InvalidHeader);
    }
    ghost var before, whole := target.data, Decode(c, source.Remaining());
    while true
      invariant source.Valid()
      invariant before + whole.written == target.data + Decode(c, source.Remaining()).written
      invariant whole.error == Decode(c, source.Remaining()).error
      decreases |source.Remaining()|
    {
      ghost var rest := source.Remaining();
      var sizeRaw := source.Read(4);
      if |sizeRaw| != 4 {
        return Some(TruncatedLength);
      }
      DecodeStep(c, rest);
      var size := Unpack(sizeRaw);
      if size == 0 {
        break;
      }
      var nonce := source.Read(NONCE);
      var encrypted := source.Read(size);
      if |nonce| != NONCE || |encrypted| != size {
        return Some(TruncatedData);
      }
      var block := c.decrypt(nonce, encrypted);
      if block.None? {
        return Some(AuthenticationFailed);
      }
      ghost var later := Decode(c, source.Remaining()).written;
      assert (target.data + block.value) + later == target.data + (block.value + later);
      target.Write(block.value);
    }
    error := None;
  }
}
