/**
 * The file side of FoxmlParser::parse: a file opened for binary reading,
 * read sequentially in chunks of READ_SIZE bytes until end-of-file.
 *
 * An open file is a value: its bytes, a cursor (what ftell reports) and the
 * end-of-file flag. As with PHP's plain-file streams, the flag is raised by
 * the read that comes up short (returns fewer bytes than asked for,
 * possibly none), so a file whose length is a multiple of READ_SIZE ends
 * with one empty read.
 */
module ChunkedReader {
  import opened Prelude

  /** FoxmlParser::READ_SIZE, 2^18. */
  const READ_SIZE: nat := 262144

  type Chunk = seq<byte>

  datatype FileHandle = FileHandle(path: string, bytes: seq<byte>, cursor: nat, eof: bool)
  {
    ghost predicate Valid() { cursor <= |bytes| }
  }

  /** fopen($path, 'rb') over a file system given as a map: none when the file cannot be opened. */
  function Fopen(fs: map<string, seq<byte>>, path: string): Option<FileHandle>
  {
    if path in fs then Some(FileHandle(path, fs[path], 0, false)) else None
  }

  /** fread($f, n): the next bytes from the cursor, at most n of them; end-of-file when fewer than n came. */
  function Fread(f: FileHandle, n: nat): (r: (FileHandle, Chunk))
    requires f.Valid()
    ensures r.0.Valid() && r.0.path == f.path && r.0.bytes == f.bytes
    ensures |r.1| <= n
    ensures r.0.cursor == f.cursor + |r.1|
    ensures r.1 == f.bytes[f.cursor..r.0.cursor]
    ensures r.0.eof <==> |r.1| < n
    ensures |r.1| < n ==> r.0.cursor == |f.bytes|
  {
    var end := if f.cursor + n <= |f.bytes| then f.cursor + n else |f.bytes|;
    (f.(cursor := end, eof := end - f.cursor < n), f.bytes[f.cursor..end])
  }

  /** The concatenation of a sequence of chunks. */
  function Flatten(cs: seq<Chunk>): seq<byte>
  {
    if cs == [] then [] else cs[0] + Flatten(cs[1..])
  }

  /**
   * The chunks the read loop takes from the given bytes, in order: every
   * chunk is READ_SIZE long except the last, which is short (possibly
   * empty) and is the one after which end-of-file holds; together they are
   * the bytes.
   */
  function Chunks(bytes: seq<byte>): (r: seq<Chunk>)
    ensures |r| >= 1
    ensures Flatten(r) == bytes
    ensures forall i :: 0 <= i < |r| ==> |r[i]| <= READ_SIZE
    ensures forall i :: 0 <= i < |r| ==> (|r[i]| < READ_SIZE <==> i == |r| - 1)
    ensures |r| == |bytes| / READ_SIZE + 1
    decreases |bytes|
  {
    if |bytes| < READ_SIZE then
      [bytes]
    else
      var rest := Chunks(bytes[READ_SIZE..]);
      assert ([bytes[..READ_SIZE]] + rest)[1..] == rest;
      assert bytes[..READ_SIZE] + bytes[READ_SIZE..] == bytes;
      [bytes[..READ_SIZE]] + rest
  }

  /** Every chunk the `while (!feof) fread(READ_SIZE)` loop takes from a handle, in order. */
  function ReadAll(f: FileHandle): seq<Chunk>
    requires f.Valid()
    decreases (if f.eof then 0 else 1) + |f.bytes| - f.cursor
  {
    if f.eof then []
    else
      var (g, c) := Fread(f, READ_SIZE);
      [c] + ReadAll(g)
  }

  /** Reading a handle not yet at end-of-file to its end yields the chunks of what is left. */
  lemma {:induction false} ReadAllIsChunks(f: FileHandle)
    requires f.Valid() && !f.eof
    ensures ReadAll(f) == Chunks(f.bytes[f.cursor..])
    decreases |f.bytes| - f.cursor
  {
    var (g, c) := Fread(f, READ_SIZE);
    ReadYieldsNextChunk(f);
    if !g.eof {
      ReadAllIsChunks(g);
    }
  }

  /** A file that opens reads, chunk by chunk until end-of-file, as exactly the chunks of its contents. */
  lemma OpenedFileReadsAsChunks(fs: map<string, seq<byte>>, path: string)
    requires path in fs
    ensures Fopen(fs, path).Some?
    ensures ReadAll(Fopen(fs, path).value) == Chunks(fs[path])
  {
    var f := Fopen(fs, path).value;
    ReadAllIsChunks(f);
    assert f.bytes[f.cursor..] == fs[path];
  }

  /**
   * One fread of READ_SIZE from a file not yet at end-of-file yields the
   * next chunk of what is left; end-of-file is reached exactly when that
   * was the last chunk, and otherwise the chunks of what is then left are
   * the remaining ones.
   */
  lemma ReadYieldsNextChunk(f: FileHandle)
    requires f.Valid()
    ensures var (g, c) := Fread(f, READ_SIZE);
      var rest := Chunks(f.bytes[f.cursor..]);
      && c == rest[0]
      && (g.eof <==> |rest| == 1)
      && (!g.eof ==> Chunks(g.bytes[g.cursor..]) == rest[1..])
  {
    var (g, c) := Fread(f, READ_SIZE);
    var left := f.bytes[f.cursor..];
    if |left| >= READ_SIZE {
      assert left[READ_SIZE..] == g.bytes[g.cursor..];
    }
  }
}
