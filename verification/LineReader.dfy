// stream_line_reader of btor/httplib.h: lines of a stream in a fixed buffer that
// a growing one takes over when it is full.
module LineReader {
  import opened Text

  // A stream from which rest can still be read; then it ends, or fails.
  class Stream {
    var rest: string
    const fails: bool

    constructor (rest: string, fails: bool)
      ensures this.rest == rest && this.fails == fails
    {
      this.rest, this.fails := rest, fails;
    }

    // Read at most max bytes: some non-empty prefix of what is left, whatever
    // the network delivers.  The result is negative on an error and 0 at the end.
    method Read(max: nat) returns (n: int, bytes: string)
      requires max > 0
      modifies this
      ensures n <= max && (n > 0 ==> n == |bytes| && old(rest) == bytes + rest)
      ensures n <= 0 ==> rest == old(rest) == "" && (n < 0 <==> fails)
    {
      if rest == "" {
        return if fails then -1 else 0, "";
      }
      var k :| 1 <= k <= max && k <= |rest|;
      n, bytes, rest := k, rest[..k], rest[k..];
    }
  }

  // The next line of a stream, with its newline if it has one.
  datatype NextLine = NoLine | ALine(line: string, rest: string)

  function LineOf(s: string, fails: bool): (r: NextLine)
    ensures r.ALine? ==> r.line != "" && s == r.line + r.rest
  {
    var n := Find(s, '\n');
    if n < |s| then ALine(s[..n + 1], s[n + 1..])
    else if s == "" || fails then NoLine
    else ALine(s, "")
  }

  // What a C function sees of a line that ends with a terminating NUL.
  function CString(line: string): string { line[..Find(line, '\0')] }

  class StreamLineReader {
    const strm: Stream
    const fixedBuffer: array<char>
    var fixedBufferUsedSize: nat
    var glowableBuffer: string

    ghost predicate Valid()
      reads this, fixedBuffer
    {
      && fixedBuffer.Length >= 2 && fixedBufferUsedSize < fixedBuffer.Length
      && (fixedBufferUsedSize > 0 ==> fixedBuffer[fixedBufferUsedSize] == '\0')
      && (glowableBuffer != "" ==> fixedBufferUsedSize == fixedBuffer.Length - 1)
    }

    // The characters at ptr(), size() of them.
    function Line(): string
      requires Valid()
      reads this, fixedBuffer
    {
      if glowableBuffer == "" then fixedBuffer[..fixedBufferUsedSize] else glowableBuffer
    }

    constructor (strm: Stream, size: nat)
      requires size >= 2
      ensures Valid() && this.strm == strm && fixedBuffer.Length == size && fresh(fixedBuffer)
    {
      this.strm := strm;
      fixedBuffer := new char[size](_ => '\0');
      fixedBufferUsedSize := 0;
      glowableBuffer := "";
    }

    method Append(c: char)
      requires Valid()
      modifies this, fixedBuffer
      ensures Valid() && Line() == old(Line()) + [c]
    {
      if fixedBufferUsedSize < fixedBuffer.Length - 1 {
        fixedBuffer[fixedBufferUsedSize] := c;
        fixedBufferUsedSize := fixedBufferUsedSize + 1;
        fixedBuffer[fixedBufferUsedSize] := '\0';
      } else {
        if glowableBuffer == "" {
          assert fixedBuffer[fixedBufferUsedSize] == '\0';
          glowableBuffer := fixedBuffer[..fixedBufferUsedSize];
        }
        glowableBuffer := glowableBuffer + [c];
      }
    }

    method Clear()
      requires Valid()
      modifies this
      ensures Valid() && Line() == ""
    {
      fixedBufferUsedSize := 0;
      glowableBuffer := "";
    }

    method GetLine() returns (ok: bool)
      requires Valid()
      modifies this, fixedBuffer, strm
      ensures Valid()
      ensures match LineOf(old(strm.rest), strm.fails)
              case NoLine => !ok && strm.rest == ""
              case ALine(line, rest) => ok && Line() == line && strm.rest == rest
    {
      hide Line, Valid, LineOf;
      ghost var s := strm.rest;
      Clear();
      ghost var seen := "";
      var i := 0;
      while true
        invariant Valid() && s == seen + strm.rest && i == |seen|
        invariant Line() == seen && '\n' !in seen
        decreases |strm.rest|
      {
        var n, bytes := strm.Read(1);
        if n <= 0 {
          assert s == seen;
          LineAtEnd(s, strm.fails);
        }
        if n < 0 {
          return false;
        } else if n == 0 {
          if i == 0 {
            return false;
          } else {
            return true;
          }
        }
        Append(bytes[0]);
        if bytes[0] == '\n' {
          LineHere(seen, strm.rest, strm.fails);
          assert bytes == "\n" && s == seen + "\n" + strm.rest;
          return true;
        }
        seen := seen + bytes;
        i := i + 1;
      }
    }
  }

  lemma LineHere(seen: string, rest: string, fails: bool)
    requires '\n' !in seen
    ensures LineOf(seen + "\n" + rest, fails) == ALine(seen + "\n", rest)
  {
    var s := seen + "\n" + rest;
    assert s == seen + ("\n" + rest);
    FindIn(seen, '\n', "\n" + rest);
    assert s[..|seen| + 1] == seen + "\n" && s[|seen| + 1..] == rest;
  }

  lemma LineAtEnd(s: string, fails: bool)
    requires '\n' !in s
    ensures LineOf(s, fails) == if s == "" || fails then NoLine else ALine(s, "")
  {
  }
}
