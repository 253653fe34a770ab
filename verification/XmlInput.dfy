/** The puller's sliding window over the file (the input struct of xml/xml_puller.h and its
    updates in XML_PullerNext). The file is a sequence of bytes; the system's read() is free to
    return any number of bytes up to the request, or an error. */
module XmlInput {
  import opened Common

  class Input {
    const stream: bytes
    const sched: nat -> int     // what the n-th read() answers: an error, or how much it is willing to give
    const readSize: nat
    var pos: nat                // bytes read so far
    var calls: nat
    var buf: array<byte>
    var docOffset: int
    var savedStart: int
    var savedBytes: int
    var newStart: int
    var newBytes: int
    ghost var docStart: int     // where in the file the current document begins

    /** The bytes from docOffset in the document to the last one read lie in buf, from savedStart on;
        the first savedBytes of them have been parsed. */
    ghost predicate Loaded()
      reads this, buf
    {
      && 0 <= docOffset && 0 <= savedStart && 0 <= savedBytes && 0 <= newBytes && 0 <= docStart
      && newStart == savedStart + savedBytes && newStart + newBytes <= buf.Length
      && docStart + docOffset + savedBytes + newBytes == pos && pos <= |stream|
      && buf[savedStart..newStart + newBytes] == stream[docStart + docOffset..pos]
    }

    /** All of them have been parsed, and there is room for a whole read. */
    ghost predicate Ready()
      reads this, buf
    {
      Loaded() && newBytes == 0 && 0 < readSize && newStart + readSize <= buf.Length
    }

    constructor (stream: bytes, sched: nat -> int, readSize: nat)
      requires readSize > 0
      ensures Ready() && fresh(buf) && pos == 0 && docStart == 0
      ensures docOffset == 0 && savedBytes == 0
      ensures this.stream == stream && this.sched == sched && this.readSize == readSize
    {
      this.stream, this.sched, this.readSize := stream, sched, readSize;
      pos, calls, buf := 0, 0, new byte[readSize];
      docOffset, savedStart, savedBytes, newStart, newBytes, docStart := 0, 0, 0, 0, 0, 0;
    }

    /** The system's read() into buf at offset off, for a request of n bytes. */
    method SysRead(off: int, n: int) returns (k: int)
      requires 0 <= off && 0 < n && off + n <= buf.Length && pos <= |stream|
      modifies this`pos, this`calls, buf
      ensures k <= n && calls == old(calls) + 1 && (k < 0 <==> sched(old(calls)) < 0) && (k < 0 ==> k == sched(old(calls)))
      ensures k <= 0 ==> pos == old(pos)
      ensures k == 0 ==> pos == |stream|
      ensures k > 0 ==> pos == old(pos) + k && pos <= |stream| && buf[off..off + k] == stream[old(pos)..pos]
      ensures buf[..off] == old(buf[..off])
    {
      var w := sched(calls);
      calls := calls + 1;
      if w < 0 {
        return w;
      }
      var left := |stream| - pos;
      k := if w < 1 then 1 else w;
      k := if k < n then k else n;
      k := if k < left then k else left;
      forall i | off <= i < off + k {
        buf[i] := stream[pos + (i - off)];
      }
      assert buf[off..off + k] == stream[pos..pos + k];
      pos := pos + k;
    }

    /** The last read answered with this error. */
    predicate Refused(e: int)
      reads this`calls
    {
      calls > 0 && sched(calls - 1) == e && e < 0
    }

    /** One block is requested: always of read_size bytes, never of none. */
    method ReadBlock()
      requires Ready()
      modifies this`pos, this`calls, this`newBytes, buf
      ensures newBytes <= 0 ==> pos == old(pos)
      ensures newBytes < 0 <==> sched(old(calls)) < 0
      ensures newBytes < 0 ==> Refused(newBytes)
      ensures newBytes == 0 ==> pos == |stream|
      ensures newBytes > 0 ==> Loaded() && pos > old(pos)
    {
      var room := buf.Length - newStart;
      ghost var front, was := buf[..], pos;
      newBytes := SysRead(newStart, if readSize < room then readSize else room);
      if newBytes > 0 {
        WindowGrows(stream, docStart + docOffset, was, pos, front, buf[..], savedStart, newStart);
      }
    }

    /** A window of the file, and the next bytes of the file behind it, are a longer window. */
    lemma WindowGrows(file: bytes, first: int, was: int, now: int, front: bytes, mem: bytes, at: int, mid: int)
      requires 0 <= first <= was <= now <= |file| && 0 <= at <= mid <= |front| && mid + (now - was) <= |mem|
      requires front[at..mid] == file[first..was] && mem[..mid] == front[..mid]
      requires mem[mid..mid + (now - was)] == file[was..now]
      ensures mem[at..mid + (now - was)] == file[first..now]
    {
      assert mem[at..mid] == mem[..mid][at..] == front[..mid][at..] == front[at..mid];
      SliceJoin(mem, at, mid, mid + (now - was));
      SliceJoin(file, first, was, now);
    }

    lemma SliceJoin(s: bytes, a: int, b: int, c: int)
      requires 0 <= a <= b <= c <= |s|
      ensures s[a..c] == s[a..b] + s[b..c]
    {}

    /** The new bytes, as they are passed to XML_Parse. */
    function Chunk(): (c: bytes)
      requires Loaded()
      reads this, buf
      ensures c == stream[docStart + docOffset + savedBytes..pos]
    {
      assert buf[newStart..newStart + newBytes] == buf[savedStart..newStart + newBytes][savedBytes..];
      buf[newStart..newStart + newBytes]
    }

    /** The bytes from errloc on belong to the next document. */
    method Restart(errloc: int)
      requires Loaded() && docOffset <= errloc <= docOffset + savedBytes + newBytes
      modifies this`newStart, this`newBytes, this`savedStart, this`savedBytes, this`docOffset, this`docStart
      ensures Loaded() && docStart == old(docStart) + errloc && docOffset == 0 && savedBytes == 0
      ensures newBytes == old(docOffset + savedBytes + newBytes) - errloc
    {
      ghost var was := buf[savedStart..newStart + newBytes];
      ghost var skip := errloc - docOffset;
      newStart := savedStart + (errloc - docOffset);
      newBytes := newBytes + (savedBytes - (errloc - docOffset));
      savedStart := newStart;
      savedBytes := 0;
      docOffset := 0;
      docStart := docStart + errloc;
      assert buf[savedStart..newStart + newBytes] == was[skip..];
    }

    /** Without multi-document mode nothing needs to be saved. */
    method Forget()
      requires Loaded() && 0 < readSize <= buf.Length
      modifies this`newStart, this`newBytes, this`savedStart, this`savedBytes, this`docOffset
      ensures Ready() && docOffset + savedBytes == old(docOffset + savedBytes + newBytes)
    {
      docOffset := docOffset + savedBytes + newBytes;
      savedStart, savedBytes := 0, 0;
      newStart, newBytes := 0, 0;
    }

    /** The new data has been parsed, and the first lastOk bytes of the document are done with. */
    method Discard(lastOk: int)
      requires Loaded() && docOffset <= lastOk <= docOffset + savedBytes + newBytes
      modifies this`newStart, this`newBytes, this`savedStart, this`savedBytes, this`docOffset
      ensures Loaded() && newBytes == 0
      ensures docOffset == lastOk && docOffset + savedBytes == old(docOffset + savedBytes + newBytes)
    {
      ghost var was := buf[savedStart..newStart + newBytes];
      savedBytes := savedBytes + newBytes;
      newStart := newStart + newBytes;
      newBytes := 0;
      if lastOk > docOffset {
        assert buf[savedStart + (lastOk - docOffset)..newStart] == was[lastOk - docOffset..];
        savedStart := savedStart + (lastOk - docOffset);
        savedBytes := savedBytes - (lastOk - docOffset);
        docOffset := lastOk;
      }
    }

    /** Move the saved data to the start of the buffer. */
    method MoveToFront()
      requires Loaded() && newBytes == 0
      modifies this`newStart, this`savedStart, buf
      ensures Loaded() && savedStart == 0
    {
      if savedStart > 0 {
        ghost var was := buf[savedStart..newStart];
        forall i | 0 <= i < savedBytes {
          buf[i] := buf[savedStart + i];
        }
        assert buf[..savedBytes] == was;
        savedStart := 0;
        newStart := savedStart + savedBytes;
      }
    }

    /** Make sure the buffer is large enough for the next read. */
    method MakeRoom()
      requires Loaded() && newBytes == 0 && 0 < readSize
      modifies this`buf
      ensures Ready() && (buf == old(buf) || fresh(buf))
    {
      if buf.Length < newStart + readSize {
        var size := buf.Length + 2 * (newStart + readSize - buf.Length) + 128;
        var bigger := new byte[size];
        forall i | 0 <= i < buf.Length {
          bigger[i] := buf[i];
        }
        assert bigger[savedStart..newStart] == buf[savedStart..newStart];
        buf := bigger;
      }
    }

    /** All of that: keep only what the parser is not done with. */
    method Keep(lastOk: int)
      requires Loaded() && docOffset <= lastOk <= docOffset + savedBytes + newBytes && 0 < readSize
      modifies this`newStart, this`newBytes, this`savedStart, this`savedBytes, this`docOffset, this`buf, buf
      ensures Ready() && (buf == old(buf) || fresh(buf))
      ensures docOffset == lastOk && docOffset + savedBytes == old(docOffset + savedBytes + newBytes)
    {
      Discard(lastOk);
      MoveToFront();
      MakeRoom();
    }
  }
}
