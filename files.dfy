/**
 The file-system collaborator: a file is its contents, and `file_read_at`
 copies the bytes available at an offset, at most the requested number.
 */
module Files {
  import opened Types

  function Min(a: nat, b: nat): nat
  {
    if a <= b then a else b
  }

  /** The bytes that `file_read_at(file, buf, size, offset)` delivers. */
  function ReadAt(file: seq<byte>, offset: nat, size: nat): (r: seq<byte>)
    ensures |r| <= size
    ensures |r| > 0 ==> offset + |r| <= |file|
    ensures forall k :: 0 <= k < |r| ==> r[k] == file[offset + k]
    // a read comes back short only when it reaches the end of the file
    ensures |r| < size ==> offset + |r| >= |file|
  {
    if offset >= |file| then [] else file[offset .. offset + Min(size, |file| - offset)]
  }

  /** A short read happens exactly when the requested range runs past the end
      of the file (a read of nothing is never short). */
  lemma ShortReadIff(file: seq<byte>, offset: nat, size: nat)
    ensures |ReadAt(file, offset, size)| < size <==> size > 0 && offset + size > |file|
  {
  }

  /** `file_read_at`: copies `ReadAt(file, offset, size)` to `buf[base..]` and
      returns how many bytes it copied. */
  method FileReadAt(file: seq<byte>, buf: array<byte>, base: nat, size: nat, offset: nat) returns (n: nat)
    requires base + size <= buf.Length
    modifies buf
    ensures n == |ReadAt(file, offset, size)|
    ensures forall k :: base <= k < base + n ==> buf[k] == file[offset + (k - base)]
    ensures forall k :: 0 <= k < buf.Length && !(base <= k < base + n) ==> buf[k] == old(buf[k])
  {
    var r := ReadAt(file, offset, size);
    n := |r|;
    var i := 0;
    while i < n
      invariant i <= n
      invariant forall k :: base <= k < base + i ==> buf[k] == file[offset + (k - base)]
      invariant forall k :: 0 <= k < buf.Length && !(base <= k < base + i) ==> buf[k] == old(buf[k])
    {
      buf[base + i] := r[i];
      i := i + 1;
    }
  }
}
