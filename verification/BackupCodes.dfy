/** One-time backup codes: an encrypted buffer of 16-byte digests, of which a login with a backup
    code uses up one. */
module BackupCodes {
  import opened Wrappers

  const BLOCK_SIZE := 16

  // --- padding (RFC 5652, section 6.3) ---------------------------------------------------------------

  function Pad(s: seq<Byte>): seq<Byte> {
    var more: Byte := BLOCK_SIZE - |s| % BLOCK_SIZE;
    s + seq(more, _ => more)
  }

  /** Drops as many bytes as the last one says: everything when it says too many, and also when it
      says zero. None for an empty buffer, which has no last byte. */
  function Unpad(s: seq<Byte>): Option<seq<Byte>> {
    if s == [] then None
    else
      var more := s[|s| - 1];
      Some(if more == 0 || |s| < more then [] else s[..|s| - more])
  }

  lemma UnpadPad(s: seq<Byte>)
    ensures Unpad(Pad(s)) == Some(s)
    ensures 0 < |Pad(s)| && |Pad(s)| % BLOCK_SIZE == 0
  {
    var padded, more := Pad(s), BLOCK_SIZE - |s| % BLOCK_SIZE;
    assert padded[|padded| - 1] == more;
    assert padded[..|padded| - more] == s;
  }

  /** A block cipher in a chaining mode, with its key: two functions of an initial vector and a
      text. */
  datatype Cipher = Cipher(encipher: (seq<Byte>, seq<Byte>) -> seq<Byte>, decipher: (seq<Byte>, seq<Byte>) -> seq<Byte>) {
    ghost predicate Inverse() {
      forall iv, text :: decipher(iv, encipher(iv, text)) == text
    }

    function Encrypt(iv: seq<Byte>, raw: seq<Byte>): seq<Byte> {
      iv + encipher(iv, Pad(raw))
    }

    function Decrypt(column: seq<Byte>): Option<seq<Byte>> {
      var cut := if |column| < BLOCK_SIZE then |column| else BLOCK_SIZE;
      Unpad(decipher(column[..cut], column[cut..]))
    }
  }

  lemma DecryptEncrypt(cipher: Cipher, iv: seq<Byte>, raw: seq<Byte>)
    requires cipher.Inverse() && |iv| == BLOCK_SIZE
    ensures cipher.Decrypt(cipher.Encrypt(iv, raw)) == Some(raw)
  {
    var column := cipher.Encrypt(iv, raw);
    assert column[..BLOCK_SIZE] == iv && column[BLOCK_SIZE..] == cipher.encipher(iv, Pad(raw));
    UnpadPad(raw);
  }

  // --- the buffer -----------------------------------------------------------------------------------------

  /** Consecutive blocks of 16 bytes; the last one is whatever is left. */
  function Blocks(codes: seq<Byte>): seq<seq<Byte>> {
    if |codes| <= BLOCK_SIZE then (if codes == [] then [] else [codes])
    else [codes[..BLOCK_SIZE]] + Blocks(codes[BLOCK_SIZE..])
  }

  function Concat(blocks: seq<seq<Byte>>): seq<Byte> {
    if blocks == [] then [] else blocks[0] + Concat(blocks[1..])
  }

  function RemoveFirst(blocks: seq<seq<Byte>>, block: seq<Byte>): seq<seq<Byte>> {
    if blocks == [] then []
    else if blocks[0] == block then blocks[1..]
    else [blocks[0]] + RemoveFirst(blocks[1..], block)
  }

  lemma {:induction false} ConcatBlocks(codes: seq<Byte>)
    ensures Concat(Blocks(codes)) == codes
  {
    if |codes| > BLOCK_SIZE {
      ConcatBlocks(codes[BLOCK_SIZE..]);
      assert Blocks(codes)[1..] == Blocks(codes[BLOCK_SIZE..]);
    }
  }

  lemma {:induction false} BlocksConcat(digests: seq<seq<Byte>>)
    requires forall digest | digest in digests :: |digest| == BLOCK_SIZE
    ensures Blocks(Concat(digests)) == digests
  {
    if digests != [] {
      var codes, rest := Concat(digests), Concat(digests[1..]);
      assert forall digest | digest in digests[1..] :: digest in digests;
      BlocksConcat(digests[1..]);
      assert digests[0] in digests;
      assert codes[..BLOCK_SIZE] == digests[0] && codes[BLOCK_SIZE..] == rest;
      assert [digests[0]] + digests[1..] == digests;
      if rest == [] {
        assert digests[1..] == [];
        assert codes == digests[0];
      }
    }
  }

  /** A buffer without a last byte cannot be unpadded. */
  datatype Error = Unreadable

  lemma FirstBlock(codes: seq<Byte>, index: nat)
    requires index < |codes|
    ensures var next := if index + 16 < |codes| then index + 16 else |codes|;
            Blocks(codes[index..]) == [codes[index..next]] + Blocks(codes[next..])
  {
    if index + 16 < |codes| {
      assert codes[index..][..16] == codes[index..index + 16];
      assert codes[index..][16..] == codes[index + 16..];
    } else {
      assert codes[index..] == codes[index..|codes|] && codes[|codes|..] == [];
    }
  }

  lemma RemoveFirstOfMore(first: seq<Byte>, rest: seq<seq<Byte>>, block: seq<Byte>)
    ensures var blocks := [first] + rest;
            && (block in blocks <==> block == first || block in rest)
            && Concat(RemoveFirst(blocks, block)) ==
               if first == block then Concat(rest) else first + Concat(RemoveFirst(rest, block))
  {
    assert ([first] + rest)[1..] == rest;
    assert ([first] + RemoveFirst(rest, block))[1..] == RemoveFirst(rest, block);
  }

  lemma Shift(codes: seq<Byte>, index: nat, next: nat, left: seq<Byte>)
    requires index <= next <= |codes|
    ensures codes[..index] + (codes[index..next] + left) == codes[..next] + left
  {
  }

  /** What the scan knows when it moves on by one block. */
  lemma NextBlock(codes: seq<Byte>, index: nat, digest: seq<Byte>)
    requires index < |codes|
    ensures var next := if index + 16 < |codes| then index + 16 else |codes|;
            var blocks, rest := Blocks(codes[index..]), Blocks(codes[next..]);
            if digest == codes[index..next] then
              digest in blocks && Concat(RemoveFirst(blocks, digest)) == codes[next..]
            else
              && (digest in blocks <==> digest in rest)
              && codes[..index] + Concat(RemoveFirst(blocks, digest)) == codes[..next] + Concat(RemoveFirst(rest, digest))
  {
    var next := if index + 16 < |codes| then index + 16 else |codes|;
    var rest := Blocks(codes[next..]);
    FirstBlock(codes, index);
    RemoveFirstOfMore(codes[index..next], rest, digest);
    ConcatBlocks(codes[next..]);
    Shift(codes, index, next, Concat(RemoveFirst(rest, digest)));
  }

  class Account {
    var backupCodes: seq<Byte>

    constructor (backupCodes: seq<Byte>)
      ensures this.backupCodes == backupCodes
    {
      this.backupCodes := backupCodes;
    }

    /** A login with a backup code. It is valid exactly if its digest is among the blocks of the
        decrypted buffer; then the column is left with the other blocks. */
    method UseCode(cipher: Cipher, digest: seq<Byte>) returns (valid: Result<bool, Error>)
      requires |digest| == BLOCK_SIZE
      modifies this
      ensures match cipher.Decrypt(old(backupCodes))
              case None => valid == Err(Unreadable) && backupCodes == old(backupCodes)
              case Some(codes) =>
                && valid == Ok(digest in Blocks(codes))
                && backupCodes == if valid.value then Concat(RemoveFirst(Blocks(codes), digest)) else old(backupCodes)
    {
      var decrypted := cipher.Decrypt(backupCodes);
      if decrypted.None? {
        return Err(Unreadable);
      }
      var index, codes := 0, decrypted.value;
      while index < |codes|
        invariant backupCodes == old(backupCodes)
        invariant index <= |codes| ==>
                    && (digest in Blocks(codes) <==> digest in Blocks(codes[index..]))
                    && Concat(RemoveFirst(Blocks(codes), digest)) ==
                       codes[..index] + Concat(RemoveFirst(Blocks(codes[index..]), digest))
        invariant index > |codes| ==> digest !in Blocks(codes)
      {
        var next := if index + 16 < |codes| then index + 16 else |codes|;
        NextBlock(codes, index, digest);
        if digest == codes[index..next] {
          backupCodes := codes[..index] + codes[next..];
          return Ok(true);
        }
        index := index + 16;
      }
      return Ok(false);
    }
  }

  /** Where a block occurs first. */
  ghost predicate FirstAt(blocks: seq<seq<Byte>>, block: seq<Byte>, i: int) {
    0 <= i < |blocks| && blocks[i] == block && forall j | 0 <= j < i :: blocks[j] != block
  }

  lemma FirstLater(first: seq<Byte>, rest: seq<seq<Byte>>, block: seq<Byte>, i: nat)
    requires first != block && FirstAt(rest, block, i)
    ensures FirstAt([first] + rest, block, i + 1)
    ensures [first] + (rest[..i] + rest[i + 1..]) == ([first] + rest)[..i + 1] + ([first] + rest)[i + 2..]
  {
    var blocks := [first] + rest;
    assert forall j | 1 <= j < |blocks| :: blocks[j] == rest[j - 1];
    assert blocks[..i + 1] == [first] + rest[..i] && blocks[i + 2..] == rest[i + 1..];
  }

  lemma {:induction false} RemovesOne(blocks: seq<seq<Byte>>, block: seq<Byte>)
    ensures block in blocks ==>
              exists i :: FirstAt(blocks, block, i) && RemoveFirst(blocks, block) == blocks[..i] + blocks[i + 1..]
    ensures block !in blocks ==> RemoveFirst(blocks, block) == blocks
  {
    if blocks != [] {
      var first, rest := blocks[0], blocks[1..];
      assert blocks == [first] + rest;
      if first == block {
        assert FirstAt(blocks, block, 0) && blocks[..0] + blocks[1..] == rest;
      } else {
        RemovesOne(rest, block);
        if block in rest {
          var i: nat :| FirstAt(rest, block, i) && RemoveFirst(rest, block) == rest[..i] + rest[i + 1..];
          FirstLater(first, rest, block, i);
        }
      }
    }
  }

  lemma WithoutOne(before: seq<seq<Byte>>, block: seq<Byte>, after: seq<seq<Byte>>)
    ensures multiset(before + after) == multiset(before + [block] + after) - multiset{block}
  {
    assert multiset(before + [block] + after) == multiset(before) + multiset{block} + multiset(after);
  }

  lemma OneLess(blocks: seq<seq<Byte>>, block: seq<Byte>)
    ensures multiset(RemoveFirst(blocks, block)) == multiset(blocks) - multiset{block}
  {
    RemovesOne(blocks, block);
    if block in blocks {
      var i :| FirstAt(blocks, block, i) && RemoveFirst(blocks, block) == blocks[..i] + blocks[i + 1..];
      assert blocks == blocks[..i] + [block] + blocks[i + 1..];
      WithoutOne(blocks[..i], block, blocks[i + 1..]);
    }
  }

  /** For a buffer that was made of digests, the code is valid exactly if its digest is one of them, and what is
      left is made of the others, in their order: all but the first such one. */
  lemma UseCodeMeaning(digests: seq<seq<Byte>>, digest: seq<Byte>, cipher: Cipher, iv: seq<Byte>)
    requires forall d | d in digests :: |d| == BLOCK_SIZE
    requires cipher.Inverse() && |iv| == BLOCK_SIZE
    ensures var blocks := Blocks(cipher.Decrypt(cipher.Encrypt(iv, Concat(digests))).value);
            && blocks == digests
            && (digest in digests ==>
                  exists i :: FirstAt(digests, digest, i) && RemoveFirst(blocks, digest) == digests[..i] + digests[i + 1..])
            && multiset(RemoveFirst(blocks, digest)) == multiset(digests) - multiset{digest}
  {
    DecryptEncrypt(cipher, iv, Concat(digests));
    BlocksConcat(digests);
    RemovesOne(digests, digest);
    OneLess(digests, digest);
  }
}
