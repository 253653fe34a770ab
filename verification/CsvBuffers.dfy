/** The growing buffers of the CSV extension: csv/strbuf.c and csv/awk_fieldwidth_info.c. */
module CsvBuffers {
  import opened Common

  const BLKSIZE := 256
  const INITSIZE := 10

  /** What strbuf_put_string writes of the C string at s: at least one byte, then up to the first NUL. */
  function CString(s: bytes): bytes
    requires s != []
  {
    [s[0]] + UpToNul(s[1..])
  }

  function UpToNul(s: bytes): (r: bytes)
    ensures r <= s && NUL !in r && (r == s || s[|r|] == NUL)
  {
    if s == [] || s[0] == NUL then [] else [s[0]] + UpToNul(s[1..])
  }

  lemma CStringEnd(s: bytes) returns (k: nat)
    requires s != [] && NUL in s[1..]
    ensures 0 < k < |s| && CString(s) == s[..k] && s[k] == NUL && forall i :: 0 < i < k ==> s[i] != NUL
  {
    var tail := UpToNul(s[1..]);
    k := 1 + |tail|;
    assert forall i :: 0 < i < k ==> s[i] == tail[i - 1];
  }

  class StrBuf {
    var str: array<byte>    // of length capacity
    var length: nat

    /** There is always room for the NUL that strbuf_value adds. */
    ghost predicate Valid()
      reads this
    {
      length < str.Length
    }

    ghost function Contents(): bytes
      requires Valid()
      reads this, str
    {
      str[..length]
    }

    constructor ()
      ensures Valid() && Contents() == [] && fresh(str)
    {
      str, length := new byte[BLKSIZE], 0;
    }

    /** strbuf_start. */
    method Start()
      requires Valid()
      modifies this`length
      ensures Valid() && Contents() == []
    {
      length := 0;
    }

    /** strbuf_put_char: one more block when only the NUL would fit. */
    method PutChar(c: byte)
      requires Valid()
      modifies this, str
      ensures Valid() && Contents() == old(Contents()) + [c]
      ensures str == old(str) || fresh(str)
    {
      if length + 1 >= str.Length {
        var bigger := new byte[str.Length + BLKSIZE];
        forall i | 0 <= i < str.Length {
          bigger[i] := str[i];
        }
        assert bigger[..length] == str[..length];
        str := bigger;
      }
      str[length] := c;
      length := length + 1;
    }

    /** strbuf_put_string: the memory at s holds a NUL after its first byte. */
    method PutString(s: bytes)
      requires Valid() && s != [] && NUL in s[1..]
      modifies this, str
      ensures Valid() && Contents() == old(Contents()) + CString(s)
      ensures str == old(str) || fresh(str)
    {
      var c := s[0];
      var pos := 0;
      ghost var k := CStringEnd(s);
      while c != NUL || pos == 0
        invariant Valid() && 0 <= pos <= k && c == s[pos]
        invariant str == old(str) || fresh(str)
        invariant Contents() == old(Contents()) + s[..pos]
        decreases k - pos
      {
        PutChar(c);
        assert s[..pos] + [c] == s[..pos + 1];
        pos := pos + 1;
        c := s[pos];
      }
    }

    /** strbuf_value: the contents as a C string. */
    method Value() returns (s: array<byte>)
      requires Valid()
      modifies str
      ensures s == str && Valid() && Contents() == old(Contents()) && s[length] == NUL
    {
      str[length] := NUL;
      s := str;
    }
  }

  datatype Width = Width(skip: nat, len: nat)

  /** Field positions; the capacity is the length of the array. */
  class FieldInfo {
    var fields: array<Width>
    var nf: nat

    ghost predicate Valid()
      reads this
    {
      nf <= fields.Length && fields.Length > 0
    }

    ghost function Contents(): seq<Width>
      requires Valid()
      reads this, fields
    {
      fields[..nf]
    }

    constructor ()
      ensures Valid() && Contents() == [] && fresh(fields)
    {
      fields, nf := new Width[INITSIZE](_ => Width(0, 0)), 0;
    }

    method Start()
      requires Valid()
      modifies this`nf
      ensures Valid() && Contents() == []
    {
      nf := 0;
    }

    /** awk_fieldwidth_info_add: the capacity doubles when it is used up. */
    method Add(skip: nat, len: nat)
      requires Valid()
      modifies this, fields
      ensures Valid() && Contents() == old(Contents()) + [Width(skip, len)]
      ensures fields == old(fields) || fresh(fields)
    {
      if nf >= fields.Length {
        var bigger := new Width[2 * fields.Length](_ => Width(0, 0));
        forall i | 0 <= i < fields.Length {
          bigger[i] := fields[i];
        }
        assert bigger[..nf] == fields[..nf];
        fields := bigger;
      }
      fields[nf] := Width(skip, len);
      nf := nf + 1;
    }
  }
}
