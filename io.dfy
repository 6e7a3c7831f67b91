/**
 * The stdio calls the engine makes (fopen, fread, fseeko, ftello, fwrite,
 * fclose, remove), over files that are byte sequences.
 *
 * A file is its contents plus two flags: whether it can be positioned (a
 * pipe or a character device cannot) and whether reading it succeeds (a
 * device error makes fread return nothing). An output file has a capacity:
 * fwrite stores what fits and reports a short count once it is full.
 */
module CFile {
  import opened PackFormat

  datatype FileNode = FileNode(content: seq<uint8>, seekable: bool, readable: bool)

  /** The files fopen can find, by path; no file is named by the empty string. */
  type FileSystem = m: map<Path, FileNode> | [] !in m witness map[]

  /** fread(buf, 1, n, f) at position pos: the bytes delivered, n of them unless short. */
  function Fread(node: FileNode, pos: nat, n: nat): (r: seq<uint8>)
    ensures |r| <= n
    ensures r != [] ==> pos + |r| <= |node.content| && r == node.content[pos..pos + |r|]
    ensures |r| == n <==> n == 0 || (node.readable && pos + n <= |node.content|)
  {
    if !node.readable || pos >= |node.content| then []
    else if pos + n <= |node.content| then node.content[pos..pos + n]
    else node.content[pos..]
  }

  /**
   * fread(buffer, size, 1, f) as an element count: one element when all of
   * its bytes arrive, none otherwise.
   */
  function Elements(bytes: seq<uint8>, size: nat): (n: nat)
    ensures n <= 1 && (n == 1 <==> |bytes| == size)
  {
    if |bytes| == size then 1 else 0
  }

  /**
   * What a caller compares that element count with. Some call sites compare
   * it with the element's byte size (`AsWritten`), which only an element of
   * one byte could meet; `Intended` compares it with 1.
   */
  datatype Checks = AsWritten | Intended

  /** The value the item-count read is compared with: sizeof(uint64_t), or 1. */
  function CountCheck(c: Checks): (n: nat)
    ensures c.AsWritten? ==> n == CountSize
    ensures c.Intended? ==> n == 1
  {
    if c.AsWritten? then CountSize else 1
  }

  /** The value an item-record read is compared with: sizeof(ItemInfo), or 1. */
  function RecordCheck(c: Checks): (n: nat)
    ensures c.AsWritten? ==> n == InfoSize
    ensures c.Intended? ==> n == 1
  {
    if c.AsWritten? then InfoSize else 1
  }

  /** The largest offset an off_t holds; fseeko with a larger value fails. */
  const MaxOffset: nat := 0x7FFF_FFFF_FFFF_FFFF

  /** fseeko(f, offset, SEEK_SET) succeeds; seeking past the end of a file is allowed. */
  predicate SeekOk(node: FileNode, offset: nat)
  {
    node.seekable && offset <= MaxOffset
  }

  /** A file opened for reading, with its position. */
  class Stream {
    const node: FileNode
    var pos: nat
    var isOpen: bool

    constructor Open(node: FileNode)
      ensures this.node == node && pos == 0 && isOpen
    {
      this.node := node;
      pos := 0;
      isOpen := true;
    }

    method Read(n: nat) returns (bytes: seq<uint8>)
      modifies this`pos
      ensures bytes == Fread(node, old(pos), n)
      ensures pos == old(pos) + |bytes|
    {
      bytes := Fread(node, pos, n);
      pos := pos + |bytes|;
    }

    method Seek(offset: nat) returns (ok: bool)
      modifies this`pos
      ensures ok == SeekOk(node, offset)
      ensures pos == if ok then offset else old(pos)
    {
      ok := SeekOk(node, offset);
      if ok {
        pos := offset;
      }
    }

    /** fseeko(f, 0, SEEK_END) */
    method SeekEnd() returns (ok: bool)
      modifies this`pos
      ensures ok == node.seekable
      ensures pos == if ok then |node.content| else old(pos)
    {
      ok := node.seekable;
      if ok {
        pos := |node.content|;
      }
    }

    method Close()
      modifies this`isOpen
      ensures !isOpen
    {
      isOpen := false;
    }
  }

  /** A buffer after its first |w| bytes were overwritten with w. */
  function Overlay(buffer: seq<uint8>, w: seq<uint8>): (r: seq<uint8>)
    requires |w| <= |buffer|
    ensures |r| == |buffer| && r[..|w|] == w && r[|w|..] == buffer[|w|..]
  {
    w + buffer[|w|..]
  }

  /** Copy bytes to the front of a caller-owned buffer (what fread and the decompressor do). */
  method Fill(buffer: array<uint8>, bytes: seq<uint8>)
    requires |bytes| <= buffer.Length
    modifies buffer
    ensures buffer[..] == Overlay(old(buffer[..]), bytes)
  {
    for j := 0 to |bytes|
      invariant forall k :: 0 <= k < j ==> buffer[k] == bytes[k]
      invariant forall k :: j <= k < buffer.Length ==> buffer[k] == old(buffer[k])
    {
      buffer[j] := bytes[j];
    }
    assert buffer[..] == Overlay(old(buffer[..]), bytes);
  }

  /** The file after fwrite(bytes) when at most `capacity` bytes fit in it. */
  function Emit(data: seq<uint8>, capacity: nat, bytes: seq<uint8>): (r: seq<uint8>)
    requires |data| <= capacity
    ensures |r| <= capacity
    ensures |data| <= |r| <= |data| + |bytes| && r[..|data|] == data
    ensures r == data + bytes <==> |data| + |bytes| <= capacity
    ensures r == data + bytes[..|r| - |data|]
  {
    if |data| + |bytes| <= capacity then data + bytes
    else
      assert bytes[..capacity - |data|] != bytes;
      data + bytes[..capacity - |data|]
  }

  /** Writing two pieces one after the other stores what writing them together does. */
  lemma EmitTwice(data: seq<uint8>, capacity: nat, x: seq<uint8>, y: seq<uint8>)
    requires |data| <= capacity
    requires Emit(data, capacity, x) == data + x
    ensures Emit(data + x, capacity, y) == Emit(data, capacity, x + y)
  {
    var r := Emit(data + x, capacity, y);
    assert r == data + x + y[..|r| - |data| - |x|];
    assert (x + y)[..|r| - |data|] == x + y[..|r| - |data| - |x|];
  }

  /** Once a write comes up short the file is full: writing more afterwards stores nothing. */
  lemma EmitShort(data: seq<uint8>, capacity: nat, x: seq<uint8>, y: seq<uint8>)
    requires |data| <= capacity
    requires Emit(data, capacity, x) != data + x
    ensures Emit(Emit(data, capacity, x), capacity, y) == Emit(data, capacity, x)
    ensures Emit(data, capacity, x + y) == Emit(data, capacity, x)
  {
    var r := Emit(data, capacity, x);
    assert (x + y)[..capacity - |data|] == x[..capacity - |data|];
  }

  /** A file opened for writing ("wb"), which starts empty. */
  class OutStream {
    var data: seq<uint8>
    const capacity: nat
    var isOpen: bool

    constructor Create(capacity: nat)
      ensures data == [] && this.capacity == capacity && isOpen
    {
      data := [];
      this.capacity := capacity;
      isOpen := true;
    }

    ghost predicate Valid()
      reads this
    {
      |data| <= capacity
    }

    /** ftello: the current position, which is the number of bytes written. */
    function Tell(): nat
      reads this
    {
      |data|
    }

    /** fwrite(bytes, 1, |bytes|, f), returning the count stored. */
    method Write(bytes: seq<uint8>) returns (written: nat)
      requires Valid()
      modifies this`data
      ensures Valid()
      ensures data == Emit(old(data), capacity, bytes)
      ensures written == |data| - |old(data)|
      ensures written == |bytes| <==> data == old(data) + bytes
    {
      var before := |data|;
      data := Emit(data, capacity, bytes);
      written := |data| - before;
    }

    method Close()
      modifies this`isOpen
      ensures !isOpen
    {
      isOpen := false;
    }
  }
}
