/** The buffered file of io61.cc, and the byte-at-a-time file of slow-io61.cc that it has to agree with. */
module Io61 {
  import opened Numbers
  import opened Sequences

  type Byte = x: int | 0 <= x < 256 witness 0

  const BUFSIZE: nat := 4096
  const EOF := -1

  /** base with its first bytes replaced. */
  function Overlay(base: seq<Byte>, bytes: seq<Byte>): seq<Byte> {
    if |bytes| <= |base| then bytes + base[|bytes|..] else bytes
  }

  /** What a read of sz bytes at pos yields. */
  function Slice(contents: seq<Byte>, pos: nat, sz: nat): (r: seq<Byte>)
    ensures pos <= |contents| ==> |r| == Min(sz, |contents| - pos)
  {
    if pos >= |contents| then [] else contents[pos..Min(pos + sz, |contents|)]
  }

  method Memcpy(dst: array<Byte>, at: nat, src: array<Byte>, from: nat, n: nat)
    requires dst != src && at + n <= dst.Length && from + n <= src.Length
    modifies dst
    ensures forall k :: 0 <= k < at || at + n <= k < dst.Length ==> dst[k] == old(dst[k])
    ensures dst[at..at + n] == src[from..from + n]
  {
    for i := 0 to n
      invariant forall k :: 0 <= k < at || at + i <= k < dst.Length ==> dst[k] == old(dst[k])
      invariant forall k :: at <= k < at + i ==> dst[k] == src[k - at + from]
    {
      dst[at + i] := src[from + i];
    }
  }

  lemma SliceOfSlice(s: seq<Byte>, t: nat, e: nat, from: nat, n: nat)
    requires t + from + n <= e <= |s|
    ensures s[t..e][from..from + n] == s[t + from..t + from + n]
  {
    var inner, outer := s[t..e][from..from + n], s[t + from..t + from + n];
    forall k | 0 <= k < n
      ensures inner[k] == outer[k]
    {
      assert s[t..e][from + k] == s[t + (from + k)];
    }
  }

  lemma SlicesJoin(s: seq<Byte>, a: nat, b: nat, c: nat)
    requires a <= b <= c <= |s|
    ensures s[a..b] + s[b..c] == s[a..c]
  {
  }

  lemma JoinedInAnyOrder(a: seq<Byte>, b: seq<Byte>, c: seq<Byte>)
    ensures a + (b + c) == (a + b) + c
  {
  }

  /** A file descriptor of a regular file. */
  class Descriptor {
    var contents: seq<Byte>
    var offset: nat

    constructor (contents: seq<Byte>)
      ensures this.contents == contents && offset == 0
    {
      this.contents, offset := contents, 0;
    }

    /** read(2): fills buf[at..] with at most n bytes. */
    method Read(buf: array<Byte>, at: nat, n: nat) returns (count: nat)
      requires at + n <= buf.Length
      modifies `offset, buf
      ensures count == |Slice(contents, old(offset), n)| && offset == old(offset) + count
      ensures buf[..at] == old(buf[..at]) && buf[at + count..] == old(buf[at + count..])
      ensures buf[at..at + count] == Slice(contents, old(offset), n)
    {
      var s := Slice(contents, offset, n);
      count := |s|;
      forall k | 0 <= k < count {
        buf[at + k] := s[k];
      }
      offset := offset + count;
    }

    /** write(2) of buf[from..from + n]. */
    method Write(buf: array<Byte>, from: nat, n: nat)
      requires from + n <= buf.Length && offset <= |contents|
      modifies this
      ensures contents == old(contents[..offset]) + Overlay(old(contents[offset..]), buf[from..from + n])
      ensures offset == old(offset) + n
    {
      contents := contents[..offset] + Overlay(contents[offset..], buf[from..from + n]);
      offset := offset + n;
    }

    method Lseek(pos: nat)
      modifies `offset
      ensures offset == pos
    {
      offset := pos;
    }
  }

  // ----- the buffered file, reading -----

  class CachedFile {
    const fd: Descriptor
    const cbuf: array<Byte>
    const writing: bool
    var tag: nat
    var endTag: nat
    var posTag: nat

    /** The cache holds the stretch [tag, endTag) of the file, and the descriptor stands at its end. */
    ghost predicate Mirrors()
      reads this, fd, cbuf
    {
      && cbuf.Length == BUFSIZE
      && tag <= endTag <= |fd.contents| && endTag - tag <= BUFSIZE
      && fd.offset == endTag
      && cbuf[..endTag - tag] == fd.contents[tag..endTag]
    }

    ghost predicate ReadValid()
      reads this, fd, cbuf
    {
      !writing && Mirrors() && tag <= posTag <= endTag
    }

    /** io61_fdopen. */
    constructor (fd: Descriptor, writing: bool)
      requires fd.offset == 0
      ensures this.fd == fd && this.writing == writing && fresh(cbuf)
      ensures posTag == 0 && (if writing then WriteValid(fd.contents) && Stream() == [] else ReadValid())
    {
      this.fd := fd;
      this.writing := writing;
      cbuf := new Byte[BUFSIZE];
      tag, endTag, posTag := 0, 0, 0;
    }

    /** Refills the cache from where it ends. */
    method Fill() returns (n: nat)
      requires !writing && cbuf.Length == BUFSIZE && fd.offset == endTag
      modifies this, fd`offset, cbuf
      ensures tag == posTag == old(endTag) && endTag == tag + n == fd.offset
      ensures n == |Slice(fd.contents, tag, BUFSIZE)|
      ensures tag <= |fd.contents| ==> ReadValid()
    {
      tag, posTag := endTag, endTag;
      n := fd.Read(cbuf, 0, BUFSIZE);
      endTag := tag + n;
      assert cbuf[..n] == cbuf[0..0 + n];
    }

    /** memcpy out of the cache. */
    method CopyOut(buf: array<Byte>, pos: nat, n: nat)
      requires ReadValid() && buf != cbuf
      requires pos + n <= buf.Length && n <= endTag - posTag
      modifies buf
      ensures ReadValid()
      ensures forall k :: 0 <= k < pos || pos + n <= k < buf.Length ==> buf[k] == old(buf[k])
      ensures buf[pos..pos + n] == fd.contents[posTag..posTag + n]
    {
      ghost var from := posTag - tag;
      SliceOfSlice(fd.contents, tag, endTag, from, n);
      SliceOfSlice(cbuf[..], 0, endTag - tag, from, n);
      assert cbuf[..endTag - tag] == cbuf[..][0..endTag - tag];
      assert cbuf[from..from + n] == cbuf[..][from..from + n];
      Memcpy(buf, pos, cbuf, posTag - tag, n);
    }

    /** One round of the loop of io61_read; 0 at the end of the file. */
    method ReadSome(buf: array<Byte>, pos: nat, sz: nat) returns (size: nat)
      requires ReadValid() && buf != cbuf && pos < sz <= buf.Length
      modifies this, fd`offset, cbuf, buf
      ensures ReadValid() && pos + size <= sz && posTag == old(posTag) + size
      ensures size == 0 <==> old(posTag) == |fd.contents|
      ensures forall k :: 0 <= k < pos || pos + size <= k < buf.Length ==> buf[k] == old(buf[k])
      ensures buf[pos..pos + size] == fd.contents[old(posTag)..posTag]
    {
      if posTag == endTag {
        var n := Fill();
        if posTag == endTag {
          return 0;
        }
      }
      size := if sz - pos > endTag - posTag then endTag - posTag else sz - pos;
      CopyOut(buf, pos, size);
      posTag := posTag + size;
    }

    /** Reads what the descriptor itself would have read. */
    method Read(buf: array<Byte>, sz: nat) returns (count: nat)
      requires ReadValid() && buf != cbuf && sz <= buf.Length
      modifies this, fd`offset, cbuf, buf
      ensures ReadValid() && count == |Slice(fd.contents, old(posTag), sz)| && posTag == old(posTag) + count
      ensures buf[..count] == Slice(fd.contents, old(posTag), sz) && buf[count..] == old(buf[count..])
    {
      var pos := 0;
      while pos < sz
        invariant ReadValid() && pos <= sz && posTag == old(posTag) + pos
        invariant buf[..pos] == fd.contents[old(posTag)..posTag]
        invariant forall k :: pos <= k < buf.Length ==> buf[k] == old(buf[k])
      {
        ghost var head := buf[..pos];
        var size := ReadSome(buf, pos, sz);
        if size == 0 {
          break;
        }
        assert buf[..pos] == head;
        assert buf[..pos + size] == head + buf[pos..pos + size];
        SlicesJoin(fd.contents, old(posTag), posTag - size, posTag);
        pos := pos + size;
      }
      return pos;
    }

    method Readc() returns (c: int)
      requires ReadValid()
      modifies this, fd`offset, cbuf
      ensures ReadValid()
      ensures old(posTag) < |fd.contents| ==> c == fd.contents[old(posTag)] && posTag == old(posTag) + 1
      ensures old(posTag) == |fd.contents| ==> c == -1 && posTag == old(posTag)
    {
      var buf := new Byte[1];
      var count := Read(buf, 1);
      if count == 1 {
        assert buf[0] == buf[..1][0];
        return buf[0];
      }
      return EOF;
    }

    /** The cache stands right after a seek exactly when the new position is within the file. */
    method Seek(pos: nat)
      requires ReadValid()
      modifies this, fd`offset, cbuf
      ensures posTag == pos
      ensures ReadValid() <==> pos <= |fd.contents|
    {
      if tag <= pos && pos <= endTag {
        posTag := pos;
        return;
      }
      posTag := endTag;
      var aligned := BUFSIZE * (pos / BUFSIZE);
      fd.Lseek(aligned);
      tag, endTag, posTag := aligned, aligned, aligned;
      var n := Fill();
      posTag := pos;
    }

    // ----- writing -----

    /** Everything written so far: what the descriptor took and what the cache still holds. */
    ghost function Stream(): seq<Byte>
      reads this, fd, cbuf
      requires tag <= |fd.contents| && tag <= endTag <= tag + cbuf.Length
    {
      fd.contents[..tag] + cbuf[..endTag - tag]
    }

    /** The file is `base`, overwritten by what the descriptor took. */
    ghost predicate WriteValid(base: seq<Byte>)
      reads this, fd, cbuf
    {
      && writing && cbuf.Length == BUFSIZE
      && tag <= endTag == posTag <= tag + BUFSIZE
      && fd.offset == tag <= |fd.contents|
      && fd.contents == Overlay(base, fd.contents[..tag])
    }

    /** memcpy into the cache. */
    method CopyIn(buf: array<Byte>, pos: nat, n: nat, ghost base: seq<Byte>)
      requires WriteValid(base) && buf != cbuf
      requires pos + n <= buf.Length && n <= BUFSIZE + tag - endTag
      modifies this`posTag, this`endTag, cbuf
      ensures WriteValid(base) && tag == old(tag) && endTag == old(endTag) + n
      ensures Stream() == old(Stream()) + buf[pos..pos + n]
    {
      var at := posTag - tag;
      ghost var head := cbuf[..at];
      Memcpy(cbuf, at, buf, pos, n);
      assert cbuf[..at] == head;
      assert cbuf[..at + n] == head + buf[pos..pos + n];
      posTag, endTag := posTag + n, endTag + n;
      JoinedInAnyOrder(fd.contents[..tag], head, buf[pos..pos + n]);
    }

    /** io61_flush on a file opened for writing. */
    method Flush(ghost base: seq<Byte>)
      requires WriteValid(base)
      modifies this`tag, fd
      ensures WriteValid(base) && Stream() == old(Stream()) == fd.contents[..fd.offset]
      ensures tag == endTag == old(endTag)
    {
      ghost var taken, rest := fd.contents[..tag], fd.contents[tag..];
      ghost var bytes := cbuf[..endTag - tag];
      assert cbuf[0..0 + (posTag - tag)] == bytes;
      fd.Write(cbuf, 0, posTag - tag);
      OverlayTwice(base, taken, bytes);
      assert rest == if |taken| <= |base| then base[|taken|..] else [];
      tag := posTag;
      assert fd.contents[..tag] == taken + bytes;
    }

    /** Takes all sz bytes. */
    method Write(buf: array<Byte>, sz: nat, ghost base: seq<Byte>) returns (count: nat)
      requires WriteValid(base) && buf != cbuf && sz <= buf.Length
      modifies this`tag, this`posTag, this`endTag, fd, cbuf
      ensures WriteValid(base) && count == sz
      ensures Stream() == old(Stream()) + buf[..sz]
    {
      var pos := 0;
      while pos < sz
        invariant WriteValid(base) && pos <= sz
        invariant Stream() == old(Stream()) + buf[..pos]
        decreases sz - pos, if endTag == tag + BUFSIZE then 1 else 0
      {
        if endTag == tag + BUFSIZE {
          Flush(base);
        }
        var size := if sz - pos > BUFSIZE + tag - endTag then BUFSIZE + tag - endTag else sz - pos;
        CopyIn(buf, pos, size, base);
        assert buf[..pos + size] == buf[..pos] + buf[pos..pos + size];
        pos := pos + size;
      }
      return pos;
    }

    method Writec(ch: Byte, ghost base: seq<Byte>) returns (r: int)
      requires WriteValid(base)
      modifies this`tag, this`posTag, this`endTag, fd, cbuf
      ensures WriteValid(base) && r == 0 && Stream() == old(Stream()) + [ch]
    {
      var buf := new Byte[1];
      buf[0] := ch;
      var count := Write(buf, 1, base);
      assert buf[..1] == [ch];
      return if count == 1 then 0 else -1;
    }

    /** io61_close: the file is what it was, overwritten by everything written. */
    method Close(ghost base: seq<Byte>)
      requires WriteValid(base)
      modifies this`tag, fd
      ensures fd.contents == Overlay(base, old(Stream()))
    {
      Flush(base);
    }
  }

  lemma OverlayTwice(base: seq<Byte>, a: seq<Byte>, b: seq<Byte>)
    ensures a + Overlay(if |a| <= |base| then base[|a|..] else [], b) == Overlay(base, a + b)
  {
  }

  // ----- the unbuffered file -----

  class SlowFile {
    const fd: Descriptor

    constructor (fd: Descriptor)
      ensures this.fd == fd
    {
      this.fd := fd;
    }

    method Readc() returns (c: int)
      requires fd.offset <= |fd.contents|
      modifies fd`offset
      ensures fd.offset <= |fd.contents|
      ensures old(fd.offset) < |fd.contents| ==> c == fd.contents[old(fd.offset)] && fd.offset == old(fd.offset) + 1
      ensures old(fd.offset) == |fd.contents| ==> c == -1 && fd.offset == old(fd.offset)
    {
      var buf := new Byte[1];
      var count := fd.Read(buf, 0, 1);
      if count == 1 {
        assert buf[0] == buf[0..0 + 1][0];
        return buf[0];
      }
      return EOF;
    }

    method Read(buf: array<Byte>, sz: nat) returns (count: nat)
      requires fd.offset <= |fd.contents| && sz <= buf.Length
      modifies fd`offset, buf
      ensures fd.offset <= |fd.contents|
      ensures count == |Slice(fd.contents, old(fd.offset), sz)| && fd.offset == old(fd.offset) + count
      ensures buf[..count] == Slice(fd.contents, old(fd.offset), sz) && buf[count..] == old(buf[count..])
    {
      count := 0;
      while count != sz
        invariant count <= sz && fd.offset == old(fd.offset) + count <= |fd.contents|
        invariant buf[..count] == fd.contents[old(fd.offset)..fd.offset]
        invariant forall k :: count <= k < buf.Length ==> buf[k] == old(buf[k])
        decreases sz - count
      {
        ghost var head := buf[..count];
        var ch := Readc();
        if ch == EOF {
          break;
        }
        buf[count] := ch;
        assert buf[..count] == head;
        count := count + 1;
        assert buf[..count] == head + [ch];
        SlicesJoin(fd.contents, old(fd.offset), fd.offset - 1, fd.offset);
      }
    }

    method Writec(ch: Byte) returns (r: int)
      requires fd.offset <= |fd.contents|
      modifies fd
      ensures r == 0 && fd.offset == old(fd.offset) + 1
      ensures fd.contents == old(fd.contents[..fd.offset]) + Overlay(old(fd.contents[fd.offset..]), [ch])
    {
      var buf := new Byte[1];
      buf[0] := ch;
      fd.Write(buf, 0, 1);
      assert buf[0..0 + 1] == [ch];
      return 0;
    }

    method Write(buf: array<Byte>, sz: nat, ghost base: seq<Byte>) returns (count: nat)
      requires fd.offset <= |fd.contents| && sz <= buf.Length
      requires fd.contents == Overlay(base, fd.contents[..fd.offset])
      modifies fd
      ensures count == sz && fd.offset == old(fd.offset) + sz <= |fd.contents|
      ensures fd.contents[..fd.offset] == old(fd.contents[..fd.offset]) + buf[..sz]
      ensures fd.contents == Overlay(base, fd.contents[..fd.offset])
    {
      count := 0;
      while count != sz
        invariant count <= sz && fd.offset == old(fd.offset) + count <= |fd.contents|
        invariant fd.contents[..fd.offset] == old(fd.contents[..fd.offset]) + buf[..count]
        invariant fd.contents == Overlay(base, fd.contents[..fd.offset])
        decreases sz - count
      {
        ghost var taken := fd.contents[..fd.offset];
        OverlayTwice(base, taken, [buf[count]]);
        assert fd.contents[fd.offset..] == if |taken| <= |base| then base[|taken|..] else [];
        var r := Writec(buf[count]);
        assert fd.contents[..fd.offset] == taken + [buf[count]];
        count := count + 1;
      }
    }

    method Seek(pos: nat)
      modifies fd`offset
      ensures fd.offset == pos
    {
      fd.Lseek(pos);
    }
  }

  // ----- the two agree -----

  datatype Request = Read(sz: nat) | Readc | Seek(pos: nat)

  datatype Answer = Bytes(bytes: seq<Byte>) | Char(c: int) | Moved

  /** Positions asked for are within the file. */
  predicate Within(requests: seq<Request>, size: nat) {
    forall i :: 0 <= i < |requests| && requests[i].Seek? ==> requests[i].pos <= size
  }

  method Serve(f: CachedFile, r: Request) returns (a: Answer)
    requires f.ReadValid() && (r.Seek? ==> r.pos <= |f.fd.contents|)
    modifies f, f.fd`offset, f.cbuf
    ensures f.ReadValid()
    ensures f.posTag == Position(f.fd.contents, old(f.posTag), r) && a == Expected(f.fd.contents, old(f.posTag), r)
  {
    match r
    case Read(sz) =>
      var buf := new Byte[sz];
      var count := f.Read(buf, sz);
      a := Bytes(buf[..count]);
    case Readc =>
      var c := f.Readc();
      a := Char(c);
    case Seek(pos) =>
      f.Seek(pos);
      a := Moved;
  }

  method ServeSlowly(f: SlowFile, r: Request) returns (a: Answer)
    requires f.fd.offset <= |f.fd.contents| && (r.Seek? ==> r.pos <= |f.fd.contents|)
    modifies f.fd`offset
    ensures f.fd.offset <= |f.fd.contents|
    ensures f.fd.offset == Position(f.fd.contents, old(f.fd.offset), r)
    ensures a == Expected(f.fd.contents, old(f.fd.offset), r)
  {
    match r
    case Read(sz) =>
      var buf := new Byte[sz];
      var count := f.Read(buf, sz);
      a := Bytes(buf[..count]);
    case Readc =>
      var c := f.Readc();
      a := Char(c);
    case Seek(pos) =>
      f.Seek(pos);
      a := Moved;
  }

  function Expected(contents: seq<Byte>, pos: nat, r: Request): Answer {
    match r
    case Read(sz) => Bytes(Slice(contents, pos, sz))
    case Readc => Char(if pos < |contents| then contents[pos] else EOF)
    case Seek(_) => Moved
  }

  function Position(contents: seq<Byte>, pos: nat, r: Request): nat {
    match r
    case Read(sz) => pos + |Slice(contents, pos, sz)|
    case Readc => if pos < |contents| then pos + 1 else pos
    case Seek(p) => p
  }

  /** The answers the contents give to requests made one after the other, and the position after them. */
  function Answers(contents: seq<Byte>, requests: seq<Request>): (r: (seq<Answer>, nat)) {
    if requests == [] then ([], 0)
    else
      var (answers, pos) := Answers(contents, requests[..|requests| - 1]);
      var last := requests[|requests| - 1];
      (answers + [Expected(contents, pos, last)], Position(contents, pos, last))
  }

  /** The buffered and the unbuffered file, opened on the same contents, both answer any requests as the contents
      demand. */
  method Agree(contents: seq<Byte>, requests: seq<Request>) returns (fast: seq<Answer>, slow: seq<Answer>)
    requires Within(requests, |contents|)
    ensures fast == slow == Answers(contents, requests).0
  {
    var fd := new Descriptor(contents);
    var slowFd := new Descriptor(contents);
    var f := new CachedFile(fd, false);
    var g := new SlowFile(slowFd);
    fast, slow := [], [];
    for i := 0 to |requests|
      invariant f.ReadValid() && f.fd == fd && g.fd == slowFd && fd != slowFd
      invariant fresh(f) && fresh(f.cbuf) && fresh(fd) && fresh(slowFd)
      invariant fd.contents == slowFd.contents == contents
      invariant (fast, f.posTag) == (slow, slowFd.offset) == Answers(contents, requests[..i])
      invariant f.posTag <= |contents|
    {
      assert requests[..i + 1][..i] == requests[..i];
      var a := Serve(f, requests[i]);
      var b := ServeSlowly(g, requests[i]);
      fast, slow := fast + [a], slow + [b];
    }
    assert requests[..|requests|] == requests;
  }

  method WriteBoth(f: CachedFile, g: SlowFile, bytes: seq<Byte>, ghost base: seq<Byte>)
    requires f.WriteValid(base) && f.fd != g.fd
    requires g.fd.offset <= |g.fd.contents| && g.fd.contents == Overlay(base, g.fd.contents[..g.fd.offset])
    modifies f`tag, f`posTag, f`endTag, f.fd, f.cbuf, g.fd
    ensures f.WriteValid(base) && f.Stream() == old(f.Stream()) + bytes
    ensures g.fd.offset <= |g.fd.contents| && g.fd.contents == Overlay(base, g.fd.contents[..g.fd.offset])
    ensures g.fd.contents[..g.fd.offset] == old(g.fd.contents[..g.fd.offset]) + bytes
  {
    var n := |bytes|;
    var buf := new Byte[n](k requires 0 <= k < n => bytes[k]);
    assert buf[..n] == bytes;
    var x := f.Write(buf, n, base);
    var y := g.Write(buf, n, base);
  }

  /** Written through either file, never seeking, a file ends up as the writes one after another. */
  method AgreeWriting(base: seq<Byte>, writes: seq<seq<Byte>>) returns (fast: seq<Byte>, slow: seq<Byte>)
    ensures fast == slow == Overlay(base, Flatten(writes))
    ensures var w := Flatten(writes); fast == w + base[Min(|w|, |base|)..]
  {
    var fd := new Descriptor(base);
    var slowFd := new Descriptor(base);
    var f := new CachedFile(fd, true);
    var g := new SlowFile(slowFd);
    for i := 0 to |writes|
      invariant f.WriteValid(base) && f.fd == fd && g.fd == slowFd && fd != slowFd
      invariant fresh(f) && fresh(f.cbuf) && fresh(fd) && fresh(slowFd)
      invariant f.Stream() == Flatten(writes[..i])
      invariant slowFd.offset <= |slowFd.contents| && slowFd.contents[..slowFd.offset] == Flatten(writes[..i])
      invariant slowFd.contents == Overlay(base, slowFd.contents[..slowFd.offset])
    {
      assert writes[..i + 1][..i] == writes[..i];
      WriteBoth(f, g, writes[i], base);
    }
    assert writes[..|writes|] == writes;
    f.Close(base);
    return fd.contents, slowFd.contents;
  }
}
