/** The encrypted files of ed (cbc.c): a buffered stream over cipher block chaining, section
    6.2 of NIST SP 800-38A, with ed's own last block.  The block cipher is a parameter. */
module EdCbc {
  type Byte = bv8
  type Bytes = seq<Byte>

  datatype Key = Key(enc: Bytes -> Bytes, dec: Bytes -> Bytes)

  function Enc(key: Key, b: Bytes): Bytes {
    key.enc(b)
  }

  function Dec(key: Key, b: Bytes): Bytes {
    key.dec(b)
  }

  /** A cipher on blocks of 8 bytes; dec undoes enc. */
  ghost predicate BlockCipher(key: Key) {
    forall b: Bytes :: |b| == 8 ==> |Enc(key, b)| == 8 && |Dec(key, b)| == 8 && Dec(key, Enc(key, b)) == b
  }

  const ZERO: Bytes := [0, 0, 0, 0, 0, 0, 0, 0]

  function Xor(a: Bytes, b: Bytes): (r: Bytes)
    requires |a| == |b| == 8
    ensures |r| == 8
  {
    seq(8, i requires 0 <= i < 8 => a[i] ^ b[i])
  }

  lemma XorAt(a: Bytes, b: Bytes, i: nat)
    requires |a| == |b| == 8 && i < 8
    ensures Xor(a, b)[i] == a[i] ^ b[i]
  {
  }

  lemma XorTwice(a: Bytes, b: Bytes)
    requires |a| == |b| == 8
    ensures Xor(Xor(a, b), b) == a
  {
    forall i | 0 <= i < 8
      ensures Xor(Xor(a, b), b)[i] == a[i]
    {
      XorByte(a[i], b[i]);
    }
  }

  lemma XorByte(x: Byte, y: Byte)
    ensures (x ^ y) ^ y == x
  {
  }

  // ----- whole files

  /** The last block: the bytes left over, padding, and their number in the last place. */
  function LastBlock(data: Bytes, pvec: Bytes): (r: Bytes)
    requires |data| < 8 && |pvec| == 8
    ensures |r| == 8
  {
    (data + pvec[..8 - |data|])[7 := |data| as Byte]
  }

  /** The file for data, in one piece. */
  function Encrypt(key: Key, iv: Bytes, data: Bytes, pvec: Bytes): (r: Bytes)
    requires BlockCipher(key) && |iv| == |pvec| == 8
    ensures |r| >= 8
    decreases |data|
  {
    if |data| < 8 then Enc(key, Xor(LastBlock(data, pvec), iv))
    else
      var c := Enc(key, Xor(data[..8], iv));
      c + Encrypt(key, c, data[8..], pvec)
  }

  lemma EncryptLast(key: Key, iv: Bytes, data: Bytes, pvec: Bytes)
    requires BlockCipher(key) && |iv| == |pvec| == 8 && |data| < 8
    ensures Encrypt(key, iv, data, pvec) == Enc(key, Xor(LastBlock(data, pvec), iv))
  {
  }

  lemma EncryptMore(key: Key, iv: Bytes, b: Bytes, data: Bytes, pvec: Bytes)
    requires BlockCipher(key) && |iv| == |pvec| == |b| == 8
    ensures var c := Enc(key, Xor(b, iv)); Encrypt(key, iv, b + data, pvec) == c + Encrypt(key, c, data, pvec)
  {
    assert (b + data)[..8] == b && (b + data)[8..] == data;
  }

  /** The size that write_stream reports is the size of the file. */
  lemma {:induction false} EncryptSize(key: Key, iv: Bytes, data: Bytes, pvec: Bytes)
    requires BlockCipher(key) && |iv| == |pvec| == 8
    ensures |Encrypt(key, iv, data, pvec)| == |data| + 8 - |data| % 8
    decreases |data|
  {
    hide Xor, LastBlock, Enc, Dec;
    if |data| >= 8 {
      EncryptSize(key, Enc(key, Xor(data[..8], iv)), data[8..], pvec);
    }
  }

  /** The data in a file; what is left of a damaged one. */
  function Decrypt(key: Key, iv: Bytes, file: Bytes): Bytes
    requires BlockCipher(key) && |iv| == 8
    decreases |file|
  {
    if |file| < 8 then []
    else
      var p := Xor(Dec(key, file[..8]), iv);
      if |file| > 8 then p + Decrypt(key, file[..8], file[8..])
      else if p[7] > 7 then []
      else p[..p[7] as nat]
  }

  lemma DecryptMore(key: Key, iv: Bytes, c: Bytes, file: Bytes)
    requires BlockCipher(key) && |iv| == |c| == 8 && file != []
    ensures Decrypt(key, iv, c + file) == Xor(Dec(key, c), iv) + Decrypt(key, c, file)
  {
    assert (c + file)[..8] == c && (c + file)[8..] == file;
  }

  lemma DecryptLast(key: Key, iv: Bytes, c: Bytes)
    requires BlockCipher(key) && |iv| == |c| == 8
    ensures var p := Xor(Dec(key, c), iv); Decrypt(key, iv, c) == if p[7] > 7 then [] else p[..p[7] as nat]
  {
    assert c[..8] == c;
  }

  lemma DecryptShort(key: Key, iv: Bytes, file: Bytes)
    requires BlockCipher(key) && |iv| == 8 && |file| < 8
    ensures Decrypt(key, iv, file) == []
  {
  }

  /** For every data and every block cipher, reading back gives what was written. */
  lemma {:induction false} RoundTrip(key: Key, iv: Bytes, data: Bytes, pvec: Bytes)
    requires BlockCipher(key) && |iv| == |pvec| == 8
    ensures Decrypt(key, iv, Encrypt(key, iv, data, pvec)) == data
    decreases |data|
  {
    hide Decrypt, Xor;
    if |data| < 8 {
      var last := LastBlock(data, pvec);
      DecryptLast(key, iv, Enc(key, Xor(last, iv)));
      XorTwice(last, iv);
      CountByte(|data|);
      assert last[..|data|] == data;
    } else {
      var c := Enc(key, Xor(data[..8], iv));
      XorTwice(data[..8], iv);
      RoundTrip(key, c, data[8..], pvec);
      DecryptMore(key, iv, c, Encrypt(key, c, data[8..], pvec));
    }
  }

  lemma CountByte(n: nat)
    requires n < 8
    ensures n as Byte <= 7 && (n as Byte) as nat == n
  {
  }

  /** Byte j of block i of the plain text.  Behind the data are padding, from the front of pvec, and in the last byte the
      number of bytes left over. */
  function TextAt(data: Bytes, pvec: Bytes, i: nat, j: nat): Byte
    requires |pvec| == 8 && 8 * i <= |data| && j < 8
  {
    if 8 * i + j < |data| then data[8 * i + j]
    else if j < 7 then pvec[8 * i + j - |data|]
    else (|data| - 8 * i) as Byte
  }

  /** The block before block i: the initial vector before the first. */
  function Before(file: Bytes, iv: Bytes, i: nat): (r: Bytes)
    requires |iv| == 8 && 8 * i <= |file|
    ensures |r| == 8
  {
    if i == 0 then iv else file[8 * (i - 1)..8 * i]
  }

  /** Block i of the file encrypts x: block i of the plain text, combined with the block of the file before it. */
  ghost predicate ChainedAt(key: Key, iv: Bytes, file: Bytes, data: Bytes, pvec: Bytes, i: nat, x: Bytes)
    requires |iv| == |pvec| == 8 && 8 * i <= |data|
  {
    && 8 * i + 8 <= |file| && file[8 * i..8 * i + 8] == key.enc(x)
    && |x| == 8 && forall j :: 0 <= j < 8 ==> x[j] == TextAt(data, pvec, i, j) ^ Before(file, iv, i)[j]
  }

  /** Cipher block chaining, block by block, the last one included. */
  lemma {:induction false} Chained(key: Key, iv: Bytes, data: Bytes, pvec: Bytes, i: nat) returns (x: Bytes)
    requires BlockCipher(key) && |iv| == |pvec| == 8 && 8 * i <= |data|
    ensures ChainedAt(key, iv, Encrypt(key, iv, data, pvec), data, pvec, i, x)
    decreases |data|
  {
    hide Encrypt, ChainedAt, BlockCipher, Xor;
    if i == 0 {
      x := ChainedFirst(key, iv, data, pvec);
    } else {
      var c := Enc(key, Xor(data[..8], iv));
      EncSize(key, Xor(data[..8], iv));
      EncryptMore(key, iv, data[..8], data[8..], pvec);
      assert data[..8] + data[8..] == data;
      x := Chained(key, c, data[8..], pvec, i - 1);
      ChainedMore(key, iv, c, Encrypt(key, c, data[8..], pvec), data, pvec, i, x);
    }
  }

  lemma ChainedFirst(key: Key, iv: Bytes, data: Bytes, pvec: Bytes) returns (x: Bytes)
    requires BlockCipher(key) && |iv| == |pvec| == 8
    ensures ChainedAt(key, iv, Encrypt(key, iv, data, pvec), data, pvec, 0, x)
  {
    hide BlockCipher;
    var b := if |data| < 8 then LastBlock(data, pvec) else data[..8];
    x := Xor(b, iv);
    EncSize(key, x);
    assert Encrypt(key, iv, data, pvec)[..8] == key.enc(x);
    forall j | 0 <= j < 8
      ensures x[j] == TextAt(data, pvec, 0, j) ^ iv[j]
    {
      XorAt(b, iv, j);
    }
  }

  lemma ChainedMore(key: Key, iv: Bytes, c: Bytes, tail: Bytes, data: Bytes, pvec: Bytes, i: nat, x: Bytes)
    requires |iv| == |pvec| == |c| == 8 && i >= 1 && 8 * i <= |data| && ChainedAt(key, c, tail, data[8..], pvec, i - 1, x)
    ensures ChainedAt(key, iv, c + tail, data, pvec, i, x)
  {
    var file := c + tail;
    assert file[8 * i..8 * i + 8] == tail[8 * (i - 1)..8 * (i - 1) + 8];
    assert Before(file, iv, i) == Before(tail, c, i - 1);
    forall j | 0 <= j < 8
      ensures TextAt(data, pvec, i, j) == TextAt(data[8..], pvec, i - 1, j)
    {
    }
  }

  // ----- block by block

  ghost predicate AllBlocks(bs: seq<Bytes>) {
    forall i :: 0 <= i < |bs| ==> |bs[i]| == 8
  }

  function Flat(bs: seq<Bytes>): Bytes {
    if bs == [] then [] else Flat(bs[..|bs| - 1]) + bs[|bs| - 1]
  }

  /** The cipher blocks for whole blocks of data, and the chaining vector behind them. */
  ghost function Blocks(key: Key, iv: Bytes, bs: seq<Bytes>): (r: (Bytes, Bytes))
    requires BlockCipher(key) && |iv| == 8 && AllBlocks(bs)
    ensures |r.1| == 8
  {
    if bs == [] then ([], iv)
    else
      var (out, last) := Blocks(key, iv, bs[..|bs| - 1]);
      var c := Enc(key, Xor(bs[|bs| - 1], last));
      (out + c, c)
  }

  lemma Assoc(a: Bytes, b: Bytes, c: Bytes)
    ensures (a + b) + c == a + (b + c)
  {
  }

  lemma {:induction false} BlocksThen(key: Key, iv: Bytes, bs: seq<Bytes>, rest: Bytes, pvec: Bytes)
    requires BlockCipher(key) && |iv| == |pvec| == 8 && AllBlocks(bs)
    ensures var (out, last) := Blocks(key, iv, bs);
            Encrypt(key, iv, Flat(bs) + rest, pvec) == out + Encrypt(key, last, rest, pvec)
    decreases |bs|
  {
    hide Encrypt, Xor, Enc, BlockCipher;
    if bs == [] {
      assert Flat(bs) + rest == rest;
      assert [] + Encrypt(key, iv, rest, pvec) == Encrypt(key, iv, rest, pvec);
    } else {
      var bs', b := bs[..|bs| - 1], bs[|bs| - 1];
      var (out, last) := Blocks(key, iv, bs');
      BlocksThen(key, iv, bs', b + rest, pvec);
      EncryptMore(key, last, b, rest, pvec);
      EncSize(key, Xor(b, last));
      var c := Enc(key, Xor(b, last));
      Assoc(out, c, Encrypt(key, c, rest, pvec));
      Assoc(Flat(bs'), b, rest);
    }
  }

  lemma BlocksMore(key: Key, iv: Bytes, bs: seq<Bytes>, b: Bytes)
    requires BlockCipher(key) && |iv| == 8 && AllBlocks(bs) && |b| == 8
    ensures AllBlocks(bs + [b]) && Flat(bs + [b]) == Flat(bs) + b
    ensures var (out, last) := Blocks(key, iv, bs); var c := Enc(key, Xor(b, last));
            Blocks(key, iv, bs + [b]) == (out + c, c)
  {
    assert (bs + [b])[..|bs|] == bs;
  }

  lemma EncSize(key: Key, b: Bytes)
    requires BlockCipher(key) && |b| == 8
    ensures |Enc(key, b)| == |Dec(key, b)| == 8
  {
  }

  // ----- the stream

  /** des_buf, des_n, des_ct and ivec, and the open file.  The same variables serve for
      writing and for reading. */
  class Stream {
    const key: Key
    const pvec: Bytes
    const buf: array<Byte>
    var n: int
    var ct: int
    var ivec: Bytes
    var file: Bytes
    var pos: nat
    var failed: bool
    ghost var done: seq<Bytes>

    ghost predicate Valid()
      reads this, buf
    {
      && BlockCipher(key) && |pvec| == |ivec| == buf.Length == 8
      && 0 <= n <= 8 && -1 <= ct <= 8 && pos <= |file|
    }

    /** Opened for writing: done has been encoded, buf[..n] has not. */
    ghost predicate Writing()
      reads this, buf
    {
      && Valid() && ct >= 0 && AllBlocks(done)
      && Blocks(key, ZERO, done) == (file, ivec)
    }

    /** The bytes put so far. */
    ghost function Put(): Bytes
      requires Valid()
      reads this, buf
    {
      Flat(done) + buf[..n]
    }

    /** The bytes yet to be read. */
    ghost function Rest(): Bytes
      requires Valid()
      reads this, buf
    {
      (if n < ct then buf[n..ct] else []) + Decrypt(key, ivec, file[pos..])
    }

    /** init_des_cipher on a newly opened file; the padding is random. */
    constructor (key: Key, pvec: Bytes, file: Bytes)
      requires BlockCipher(key) && |pvec| == 8
      ensures Valid() && fresh(buf) && this.key == key && this.pvec == pvec && this.file == file
      ensures file == [] ==> Writing() && Put() == []
      ensures Rest() == Decrypt(key, ZERO, file)
    {
      this.key, this.pvec, this.file := key, pvec, file;
      buf := new Byte[8];
      n, ct, ivec, pos, failed, done := 0, 0, ZERO, 0, false, [];
    }

    method XorBuf()
      requires buf.Length == 8 && |ivec| == 8
      modifies buf
      ensures buf[..] == Xor(old(buf[..]), ivec)
    {
      hide Xor;
      for i := 0 to 8
        invariant forall j :: 0 <= j < i ==> buf[j] == Xor(old(buf[..]), ivec)[j]
        invariant forall j :: i <= j < 8 ==> buf[j] == old(buf[j])
      {
        XorAt(old(buf[..]), ivec, i);
        buf[i] := buf[i] ^ ivec[i];
      }
    }

    method StoreBuf(b: Bytes)
      requires buf.Length == 8 == |b|
      modifies buf
      ensures buf[..] == b
    {
      for i := 0 to 8
        invariant forall j :: 0 <= j < i ==> buf[j] == b[j]
      {
        buf[i] := b[i];
      }
    }

    /** cbc_encode of a full buffer */
    method EncodeBlock()
      requires Writing() && n == 8
      modifies this`file, this`ivec, this`ct, this`n, this`done, buf
      ensures Writing() && n == 0 && Put() == old(Put())
    {
      hide BlockCipher, Blocks, Xor, Flat, AllBlocks, Enc;
      ghost var block := buf[..];
      assert block == buf[..n];
      BlocksMore(key, ZERO, done, block);
      EncSize(key, Xor(block, ivec));
      XorBuf();
      var c := Enc(key, buf[..]);
      StoreBuf(c);
      ivec, file, ct := c, file + c, 8;
      done, n := done + [block], 0;
    }

    /** cbc_encode of the rest */
    method EncodeLast()
      requires Writing() && n < 8
      modifies this`file, buf
      ensures file == old(file + Encrypt(key, ivec, buf[..n], pvec))
    {
      hide BlockCipher, Blocks, Xor, Encrypt, Enc;
      ghost var rest := buf[..n];
      EncSize(key, Xor(LastBlock(rest, pvec), ivec));
      EncryptLast(key, ivec, rest, pvec);
      for i: int := n to 8
        invariant file == old(file) && buf[..n] == rest && forall j :: n <= j < i ==> buf[j] == pvec[j - n]
      {
        buf[i] := pvec[i - n];
      }
      buf[7] := n as Byte;
      assert buf[..] == LastBlock(rest, pvec);
      XorBuf();
      var c := Enc(key, buf[..]);
      StoreBuf(c);
      file := file + c;
    }

    /** put_des_char */
    method PutChar(c: Byte)
      requires Writing()
      modifies this`file, this`ivec, this`ct, this`n, this`done, buf
      ensures Writing() && Put() == old(Put()) + [c]
    {
      hide BlockCipher, Blocks, Encrypt, Decrypt, Xor, Flat, AllBlocks, Enc, Dec;
      if n == 8 {
        EncodeBlock();
      }
      buf[n] := c;
      n := n + 1;
    }

    /** flush_des_file: the file is then the encryption of all that was put. */
    method Flush()
      requires Writing()
      modifies this`file, this`ivec, this`ct, this`n, this`done, buf
      ensures file == Encrypt(key, ZERO, old(Put()), pvec)
    {
      hide BlockCipher, Blocks, Encrypt, Decrypt, Xor, Flat, AllBlocks, Enc, Dec;
      if n == 8 {
        EncodeBlock();
      }
      BlocksThen(key, ZERO, done, buf[..n], pvec);
      EncodeLast();
    }

    /** cbc_decode, called when the buffer has been read */
    method DecodeBlock()
      requires Valid() && n == 0
      modifies this`pos, this`ivec, this`ct, this`failed, buf
      ensures Valid() && Rest() == old(Decrypt(key, ivec, file[pos..]))
      ensures ct <= 0 ==> Rest() == []
    {
      hide BlockCipher, Blocks, Encrypt, Decrypt, Xor, Flat, AllBlocks, Enc, Dec;
      ghost var rest, iv := file[pos..], ivec;
      if pos + 8 <= |file| {
        var t := file[pos..pos + 8];
        assert rest == t + file[pos + 8..];
        EncSize(key, t);
        StoreBuf(Dec(key, t));
        XorBuf();
        pos, ivec := pos + 8, t;
        if pos == |file| {
          assert file[pos..] == [] && t + [] == t;
          DecryptLast(key, iv, t);
          DecryptShort(key, t, []);
          if buf[7] > 7 {
            ct, failed := -1, true;
          } else {
            ct := buf[7] as int;
          }
        } else {
          DecryptMore(key, iv, t, file[pos..]);
          ct := 8;
          assert buf[0..8] == buf[..];
        }
      } else {
        DecryptShort(key, iv, rest);
        DecryptShort(key, iv, []);
        assert file[|file|..] == [];
        failed := failed || pos < |file|;
        pos, ct := |file|, -1;
      }
    }

    /** get_des_char; none at the end of the file, then and ever after. */
    method GetChar() returns (c: Byte, eof: bool)
      requires Valid()
      modifies this`pos, this`ivec, this`ct, this`failed, this`n, buf
      ensures Valid() && eof == (old(Rest()) == [])
      ensures if eof then Rest() == [] else [c] + Rest() == old(Rest())
    {
      hide BlockCipher, Blocks, Encrypt, Decrypt, Xor, Flat, AllBlocks, Enc, Dec;
      if n >= ct {
        n := 0;
        DecodeBlock();
      }
      if ct > 0 {
        c, eof := buf[n], false;
        n := n + 1;
      } else {
        c, eof := 0, true;
      }
    }
  }

  /** write_stream with encryption on; size is the number it reports. */
  method WriteStream(key: Key, pvec: Bytes, data: Bytes) returns (file: Bytes, size: nat)
    requires BlockCipher(key) && |pvec| == 8
    ensures file == Encrypt(key, ZERO, data, pvec) && size == |file| == (|data| / 8 + 1) * 8
  {
    hide BlockCipher, Blocks, Encrypt, Decrypt, Xor, Flat, AllBlocks, Enc, Dec;
    var s := new Stream(key, pvec, []);
    for i := 0 to |data|
      invariant s.Writing() && s.Put() == data[..i] && fresh(s) && fresh(s.buf)
    {
      s.PutChar(data[i]);
    }
    assert data[..|data|] == data;
    s.Flush();
    file := s.file;
    EncryptSize(key, ZERO, data, pvec);
    size := |data| + 8 - |data| % 8;
  }

  /** read_stream with encryption on. */
  method ReadStream(key: Key, pvec: Bytes, file: Bytes) returns (data: Bytes)
    requires BlockCipher(key) && |pvec| == 8
    ensures data == Decrypt(key, ZERO, file)
  {
    hide *;
    var s := new Stream(key, pvec, file);
    data := [];
    ghost var all := s.Rest();
    ghost var rest := all;
    var eof := false;
    while !eof
      invariant s.Valid() && fresh(s) && fresh(s.buf) && s.Rest() == rest
      invariant data + rest == all && (eof ==> rest == [])
      decreases !eof, |rest|
    {
      var c;
      c, eof := s.GetChar();
      if !eof {
        rest := s.Rest();
        Assoc(data, [c], rest);
        data := data + [c];
      }
    }
  }

  /** Whatever the data, the file that ed writes reads back as the data, and then ends. */
  method WriteThenRead(key: Key, pvec: Bytes, pvec': Bytes, data: Bytes) returns (back: Bytes)
    requires BlockCipher(key) && |pvec| == |pvec'| == 8
    ensures back == data
  {
    hide BlockCipher, Blocks, Encrypt, Decrypt, Xor, Flat, AllBlocks, Enc, Dec;
    var file, size := WriteStream(key, pvec, data);
    back := ReadStream(key, pvec', file);
    RoundTrip(key, ZERO, data, pvec);
  }
}
