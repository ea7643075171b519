/** `genFileSHA1AndLen` (src/Cosapi.cpp:33-78): the file is read in blocks
    of at most 2 MiB, each block fed to the SHA-1 accumulator, and the final
    digest rendered as lowercase hex. SHA-1 itself is a parameter: any
    function from the bytes fed to a 20-byte digest. */
module ContentHash {
  import opened Common
  import opened Hex

  /** `SHA_DIGEST_LENGTH` */
  const DIGEST_LENGTH: nat := 20

  /** The read size of the hashing loop: `2*1024*1024`. */
  const HASH_BLOCK: nat := 2 * 1024 * 1024

  type Sha1Digest = d: seq<byte> | |d| == DIGEST_LENGTH
    witness [0, 0, 0, 0, 0, 0, 0, 0, 0, 0, 0, 0, 0, 0, 0, 0, 0, 0, 0, 0]

  /** The opaque digest function: what `SHA1_Final` yields after the given
      bytes were fed through `SHA1_Update`. */
  type Sha1 = seq<byte> -> Sha1Digest

  /** The blocks a `while (!eof) read(buf, size)` loop obtains from a stream
      holding `s`: a read that fills the buffer leaves end-of-file unset, so
      a stream whose length is a multiple of `size` (the empty one included)
      ends with an empty block. */
  function Blocks(s: seq<byte>, size: nat): seq<seq<byte>>
    requires size > 0
    decreases |s|
  {
    if |s| < size then [s] else [s[..size]] + Blocks(s[size..], size)
  }

  /** The blocks put back together are exactly the file, whatever the block
      size: the digest depends on the bytes only, not on the chunking. */
  lemma {:induction false} BlocksConcat(s: seq<byte>, size: nat)
    requires size > 0
    ensures Concat(Blocks(s, size)) == s
    decreases |s|
  {
    if |s| < size {
      assert Concat([s]) == Concat([]) + s;
    } else {
      BlocksConcat(s[size..], size);
      ConcatAppend([s[..size]], Blocks(s[size..], size));
      assert Concat([s[..size]]) == Concat([]) + s[..size];
    }
  }

  lemma MulAtLeast(a: int, d: int)
    requires a >= 1 && d > 0
    ensures a * d >= d
  {
    assert a * d == (a - 1) * d + d;
  }

  lemma DivModUnique(x: nat, d: nat, q: int, r: int)
    requires d > 0 && 0 <= r < d && x == q * d + r
    ensures x / d == q && x % d == r
  {
    var q', r' := x / d, x % d;
    assert x == q' * d + r';
    if q > q' {
      MulAtLeast(q - q', d);
    } else if q < q' {
      MulAtLeast(q' - q, d);
    }
  }

  lemma DivModStep(x: nat, d: nat)
    requires 0 < d <= x
    ensures (x - d) / d + 1 == x / d && (x - d) % d == x % d
  {
    DivModUnique(x - d, d, x / d - 1, x % d);
  }

  /** There are `|s| / size + 1` blocks: all but the last are full, the last
      holds the remaining `|s| % size` bytes and is empty when `size`
      divides `|s|`. */
  lemma {:induction false} BlocksShape(s: seq<byte>, size: nat)
    requires size > 0
    ensures |Blocks(s, size)| == |s| / size + 1
    ensures forall k :: 0 <= k < |Blocks(s, size)| - 1 ==> |Blocks(s, size)[k]| == size
    ensures |Blocks(s, size)[|Blocks(s, size)| - 1]| == |s| % size
    decreases |s|
  {
    if |s| >= size {
      BlocksShape(s[size..], size);
      assert |s[size..]| == |s| - size;
      DivModStep(|s|, size);
    }
  }

  /** One pass of the read loop: the block read is the head of the blocks
      still to come, and the bytes fed grow by exactly that block. */
  lemma ReadStep(content: seq<byte>, cursor: nat, len: nat, size: nat)
    requires size > 0 && cursor <= |content|
    requires len == if |content| - cursor < size then |content| - cursor else size
    ensures Blocks(content[cursor..], size)
      == [content[cursor..cursor + len]] + (if len < size then [] else Blocks(content[cursor + len..], size))
    ensures content[..cursor] + content[cursor..cursor + len] == content[..cursor + len]
    ensures Concat([content[cursor..cursor + len]]) == content[cursor..cursor + len]
  {
    var rest := content[cursor..];
    if len == size {
      assert rest[..size] == content[cursor..cursor + len];
      assert rest[size..] == content[cursor + len..];
    } else {
      assert rest == content[cursor..cursor + len];
    }
    assert Concat([content[cursor..cursor + len]]) == Concat([]) + content[cursor..cursor + len];
  }

  /** The hashing loop. `file` is `None` when the path cannot be opened;
      `fileLen` plays the `*fileLen` out-parameter (left at the caller's 0
      when nothing was opened); `feeds` records the `SHA1_Update` calls. */
  method GenFileSha1AndLen(file: Option<seq<byte>>, sha1: Sha1)
    returns (shaStr: string, fileLen: nat, ghost feeds: seq<seq<byte>>)
    ensures file.None? ==> shaStr == "" && fileLen == 0 && feeds == []
    ensures file.Some? ==> shaStr == HexEncode(sha1(file.value)) && fileLen == |file.value|
    ensures file.Some? ==> feeds == Blocks(file.value, HASH_BLOCK)
    ensures forall k :: 0 <= k < |feeds| ==> |feeds[k]| <= HASH_BLOCK
  {
    if file.None? {
      return "", 0, [];
    }
    var content := file.value;
    fileLen := |content|;
    var cursor: nat := 0;
    var eof := false;
    var fed: seq<byte> := [];
    feeds := [];
    while !eof
      invariant cursor <= |content| && fed == content[..cursor] && Concat(feeds) == fed
      invariant forall k :: 0 <= k < |feeds| ==> |feeds[k]| <= HASH_BLOCK
      invariant !eof ==> feeds + Blocks(content[cursor..], HASH_BLOCK) == Blocks(content, HASH_BLOCK)
      invariant eof ==> feeds == Blocks(content, HASH_BLOCK) && cursor == |content|
      decreases |content| - cursor + (if eof then 0 else 1)
    {
      var len := if |content| - cursor < HASH_BLOCK then |content| - cursor else HASH_BLOCK;
      var buf := content[cursor..cursor + len];
      ReadStep(content, cursor, len, HASH_BLOCK);
      ConcatAppend(feeds, [buf]);
      if len < HASH_BLOCK {
        assert [buf] + [] == [buf];
        assert feeds + [buf] == Blocks(content, HASH_BLOCK);
      } else {
        AppendAssociative(feeds, [buf], Blocks(content[cursor + len..], HASH_BLOCK));
      }
      eof := len < HASH_BLOCK;
      cursor := cursor + len;
      fed := fed + buf;
      feeds := feeds + [buf];
    }
    assert content[..cursor] == content;
    shaStr := RenderHex(sha1(fed));
  }

  /** The rendered digest is 40 lowercase hex characters. */
  lemma Sha1HexShape(d: Sha1Digest)
    ensures |HexEncode(d)| == 2 * DIGEST_LENGTH
    ensures forall k :: 0 <= k < |HexEncode(d)| ==> IsLowerHex(HexEncode(d)[k])
  {
    HexEncodeLowercase(d);
  }
}
