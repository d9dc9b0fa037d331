/**
 * FoxmlParser: the parse driver for Fedora 3 FOXML files.
 *
 * parse(target) serves a cached result when there is a live one; otherwise
 * it opens the file, reads it in READ_SIZE chunks until end-of-file, feeds
 * every chunk to the event engine (the final flag set with the read that
 * reached end-of-file), caches the output for a week and returns it. close()
 * runs on every way out of the try block, resetting the object's fields and
 * releasing the file handle and the engine.
 *
 * The file system is a map from paths to contents, the engine an oracle,
 * and time() a parameter `now`. The ghost log `released` records every
 * fclose and xml_parser_free, in order.
 */
module Fedora3 {
  import opened Prelude
  import opened ChunkedReader
  import opened EventEngine
  import opened ResultCache

  /** A cached result is kept a week: 3600 * 24 * 7 seconds. */
  const CACHE_TTL: int := 604800

  /** A resource handed back by close(): a file handle (fclose) or the engine (xml_parser_free). */
  datatype Resource = FileResource(path: string) | EngineResource

  /** Why parse() threw: fopen failed, the check after xml_parse fired, or a callback raised inside xml_parse. */
  datatype ParseError = OpenFailed | EngineFailed | HandlerFailed

  function ErrorOf(cause: AbortCause): ParseError
  {
    match cause
    case HandlerRaised => HandlerFailed
    case CheckFailed => EngineFailed
  }

  /** How parse() ends: it returns a value (possibly NULL) or throws. */
  datatype ParseResult = Returned(data: Option<Node>) | Threw(error: ParseError)

  /** What closing releases for a file field with the given value. */
  function FileReleased(file: Option<FileHandle>): seq<Resource>
  {
    if file.Some? then [FileResource(file.value.path)] else []
  }

  /** What destroyParser() releases for a parser field with the given value. */
  function EngineReleased(parser: Option<Engine>): seq<Resource>
  {
    if parser.Some? then [EngineResource] else []
  }

  class FoxmlParser {
    var parser: Option<Engine>
    var target: Option<string>
    var file: Option<FileHandle>
    var chunk: Option<Chunk>
    var output: Option<Node>
    const cache: Cache
    ghost var released: seq<Resource>

    /** Every field that close() resets is NULL. */
    ghost predicate Closed()
      reads this
    {
      file.None? && chunk.None? && target.None? && output.None? && parser.None?
    }

    constructor (cache: Cache)
      ensures this.cache == cache
      ensures Closed() && released == []
    {
      this.cache := cache;
      parser, target, file, chunk, output := None, None, None, None, None;
      released := [];
    }

    /** getTarget(): the path of the parse in progress, NULL outside one. */
    function GetTarget(): (t: Option<string>)
      reads this
      ensures t == target
    {
      target
    }

    /** initParser(): a fresh namespace-aware engine in the parser field; nothing else changes. */
    method InitParser()
      modifies this
      ensures parser == Some(FreshEngine)
      ensures file == old(file) && chunk == old(chunk) && target == old(target) && output == old(output)
      ensures released == old(released)
    {
      parser := Some(FreshEngine);
    }

    /** destroyParser(): frees the engine when there is one and clears the field; a second call frees nothing. */
    method DestroyParser()
      modifies this
      ensures parser.None?
      ensures released == old(released) + EngineReleased(old(parser))
      ensures old(parser).None? ==> released == old(released)
      ensures file == old(file) && chunk == old(chunk) && target == old(target) && output == old(output)
    {
      if parser.Some? {
        released := released + [EngineResource];
        parser := None;
      }
    }

    /**
     * close(): closes the file when there is one, resets file, chunk,
     * target and output, and destroys the engine. Afterwards every field is
     * NULL; on an already closed parser it releases nothing, so a second
     * close() is a no-op.
     */
    method Close()
      modifies this
      ensures Closed()
      ensures released == old(released) + FileReleased(old(file)) + EngineReleased(old(parser))
      ensures old(Closed()) ==> released == old(released)
    {
      if file.Some? {
        released := released + [FileResource(file.value.path)];
      }
      file := None;
      chunk := None;
      target := None;
      output := None;
      DestroyParser();
    }

    /** pop(): the node the stack machine popped becomes the output, and is returned. */
    method Pop(n: Node) returns (r: Node)
      modifies this
      ensures r == n && output == Some(n)
      ensures file == old(file) && chunk == old(chunk) && target == old(target) && parser == old(parser)
      ensures released == old(released)
    {
      output := Some(n);
      r := n;
    }

    /**
     * parse($target). A live cache entry is returned as it is, touching
     * nothing. Otherwise: a file that cannot be opened throws; a file that
     * opens is read and fed to the engine chunk by chunk, the outcome being
     * that of Drive over its chunks. Completion caches the output under the
     * path for CACHE_TTL seconds and returns it; an abort throws and leaves
     * the cache as it was, whether the check fired or a callback raised. Every way out of a miss goes through close().
     */
    method Parse(path: string, fs: map<string, seq<byte>>, oracle: Oracle, now: int) returns (r: ParseResult)
      modifies this, cache
      ensures old(cache.Get(path, now)).Some? ==>
        && r == Returned(old(cache.Get(path, now)).value.data)
        && unchanged(this) && unchanged(cache)
      ensures old(cache.Get(path, now)).None? && path !in fs ==>
        && r == Threw(OpenFailed)
        && cache.entries == old(cache.entries)
        && Closed()
        && released == old(released) + EngineReleased(old(parser))
      ensures old(cache.Get(path, now)).None? && path in fs ==>
        && Closed()
        && released == old(released) + [FileResource(path), EngineResource]
        && match Drive(oracle, [], Chunks(fs[path]), old(output))
           case Completed(out) =>
             r == Returned(out) && cache.entries == old(cache.entries)[path := CacheEntry(out, now + CACHE_TTL)]
           case Aborted(cause) =>
             r == Threw(ErrorOf(cause)) && cache.entries == old(cache.entries)
    {
      var item := cache.Get(path, now);
      if item.Some? {
        return Returned(item.value.data);
      }
      target := Some(path);
      file := Fopen(fs, path);
      if file.None? {
        Close();
        return Threw(OpenFailed);
      }
      InitParser();
      ghost var bytes := fs[path];
      ghost var outcome := Drive(oracle, [], Chunks(bytes), old(output));
      assert bytes[file.value.cursor..] == bytes;
      var stop: Option<AbortCause> := None;
      while stop.None? && !file.value.eof
        invariant file.Some? && file.value.Valid()
        invariant file.value.path == path && file.value.bytes == bytes
        invariant parser.Some?
        invariant GetTarget() == Some(path)
        invariant cache.entries == old(cache.entries)
        invariant released == old(released)
        invariant outcome == if stop.Some? then Aborted(stop.value)
                             else if file.value.eof then Completed(output)
                             else Drive(oracle, parser.value.fed, Chunks(bytes[file.value.cursor..]), output)
        decreases (if stop.Some? || file.value.eof then 0 else 1) + |bytes| - file.value.cursor
      {
        ghost var rest := Chunks(bytes[file.value.cursor..]);
        ReadYieldsNextChunk(file.value);
        var (f, c) := Fread(file.value, READ_SIZE);
        file := Some(f);
        chunk := Some(c);
        ghost var fed := parser.value.fed;
        var fb := oracle(parser.value.fed, c, f.eof);
        parser := Some(Engine(parser.value.fed + [c], fb.errorCode));
        ghost var before := output;
        var i := 0;
        while i < |fb.pops|
          invariant 0 <= i <= |fb.pops|
          invariant output == LastOf(before, fb.pops[..i])
          invariant file == Some(f) && parser.Some? && parser.value.errorCode == fb.errorCode
          invariant parser.value.fed == fed + [c]
          invariant released == old(released)
          invariant cache.entries == old(cache.entries)
          invariant target == Some(path)
        {
          var _ := Pop(fb.pops[i]);
          i := i + 1;
        }
        assert fb.pops[..i] == fb.pops;
        if fb.raised {
          stop := Some(HandlerRaised);
        } else if fb.result && parser.value.errorCode != 0 {
          stop := Some(CheckFailed);
        }
      }
      if stop.Some? {
        Close();
        return Threw(ErrorOf(stop.value));
      }
      cache.Set(path, output, now + CACHE_TTL);
      r := Returned(output);
      Close();
    }
  }
}
